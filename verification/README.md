# SHL assessment recommender — verified model of its text and list logic

The recommender answers a free-text hiring query with SHL assessments. It
retrieves catalogue documents from a vector store, asks a language model to
choose among them, and pulls a JSON object out of the model's reply. When the
reply is unusable, it falls back to records built from the retrieved
documents. The catalogue comes from a scraper that turns the SHL product
table into rows of eight text cells. Each row becomes one vector-store
document.

This project models the deterministic parts of that pipeline in Dafny and
proves their properties:

- `Strings` covers the Python string primitives the code relies on:
  - `str.strip` and `str.isspace`, which is also the `\s` class;
  - `str.splitlines`, `str.join` and `str(int)`;
  - first and last occurrence searches.
- `TextCleanup` models the visible-text clean-up of a fetched page (`main.py`).
- `Extraction` models the three regular-expression steps that cut the JSON
  candidate out of the model's reply (`main.py`). Each step has an explicit
  definition of what the pattern can match and which match Python reports:
  - the fenced block `` ```(?:json)?\s*([\s\S]*?)\s*``` ``;
  - the brace span `(\{[\s\S]*\})`;
  - the two trimming substitutions.
- `Recommender` models `recommend_assessments`:
  - the blank-query guard;
  - the prompt block;
  - the choice between the model's object and the fallback records.

  The retriever, the language model and the JSON parser are function
  parameters.
- `Catalog` models the catalogue row, its header, and reading a row back by
  column name.
- `Encoder` models the document text, the metadata map and the id of a row
  (`vector.py`).
- `Batching` models the batches of fifty in which documents are stored
  (`vector.py`).
- `Retriever` models `SHLRetriever.invoke`: the vector store's answer, else a
  sample of distinct catalogue rows, else nothing. The sample is an arbitrary
  choice of distinct positions.
- `Scraper` models the pure steps of the scraper (`scrape_shl.py`):
  - the type-letter skill map;
  - link normalisation;
  - Yes/No flags;
  - the duration pattern;
  - the row it writes.

Where the repository's own description and the code disagree, the model
follows the code:

- The unfenced pattern `(\{[\s\S]*\})` is greedy. It captures from the first
  `{` to the last `}` of the reply, not the first balanced object.
- An object returned by the model is passed on as parsed when it has a
  `recommendations` key. Its size is not checked. The fallback list has at
  most ten records, and none when nothing was retrieved (`SHLRetriever.invoke`
  returns an empty list when both the store and the catalogue fail), so "one
  to ten recommendations" holds for neither.
- The call to the language model sits outside the `try` block. A model
  failure therefore escapes the request; the fallback does not catch it.
- When building the store fails early, `vector_store` is left unbound. The
  bootstrap can then fail after all, so no "never fails" property is claimed.
- When `AdaptiveSupport` is `Yes`, the document text reads "It  have
  adaptive/IRT support" with two spaces. `Encoder.AdaptiveSentence` states
  the text exactly as written.

## Model

| member | source | states |
|---|---|---|
| Strings.Strip | main.py:89-90 | `strip()` is empty exactly when the text is all whitespace; otherwise it starts and ends with a non-space character |
| Strings.StripRemovesOuterSpace | main.py:89-90 | `strip()` leaves a contiguous piece of the text with only whitespace before it and only whitespace after it |
| Strings.StripKeepsNonSpace | main.py:89-90 | `strip()` deletes whitespace only: the text's non-space characters, in order, are unchanged |
| Strings.JoinKeepsNonSpace | main.py:90-91 | joining with a whitespace separator gives the non-space characters of the pieces, in order |
| Strings.StripIsInfix | main.py:89-90 | a stripped line is a contiguous piece of the line |
| Strings.ParseNatToString | vector.py:57-59 | a document id `str(i)` reads back as the row index `i` |
| Strings.NatToStringInjective | vector.py:57-59 | different row indices give different id strings |
| TextCleanup.SplitLines | main.py:89 | `splitlines()` of an empty text is empty, and no produced line contains a line-break character |
| TextCleanup.SplitLinesSingle | main.py:89 | a non-empty text without line breaks is one line |
| TextCleanup.SplitLinesAtBreak | main.py:89 | the first line ends at the first line-break character, which is dropped, and the rest is split the same way; a `\r` followed by `\n` is the exception |
| TextCleanup.SplitLinesAtCrLf | main.py:89 | `\r\n` ends a line once: the first line ends before it and the rest starts after both characters |
| TextCleanup.SplitLinesCons | main.py:89 | a line without breaks followed by `\n`, empty or not, is the first line, and the rest is split the same way |
| TextCleanup.JoinSplitLines | main.py:89 | for a text whose only line breaks are `\n`, none at the end, joining the lines with `\n` gives the text back |
| TextCleanup.SplitLinesKeepsText | main.py:89 | the lines of `splitlines()`, one after the other, are the text with its line-break characters deleted |
| TextCleanup.SplitLinesInfix | main.py:89 | every line `splitlines()` produces is a piece of the page text |
| TextCleanup.SplitDoubleSpace | main.py:90 | `split("  ")` gives at least one piece, none containing two consecutive spaces; the first piece is a prefix followed by two spaces when there are more; every piece but the last is empty or ends in a non-space, so each cut is the leftmost one |
| TextCleanup.SplitDoubleSpaceUnique | main.py:90 | pieces without double spaces, each but the last empty or ending in a non-space, are exactly what `split("  ")` returns for their two-space join |
| TextCleanup.JoinSplitDoubleSpace | main.py:90 | joining the pieces of `split("  ")` with two spaces gives the line back |
| TextCleanup.ChunksClean | main.py:90-91 | every kept chunk is non-empty, has no surrounding whitespace, no double space and no line break |
| TextCleanup.ChunksInfix | main.py:90-91 | every kept chunk is a piece of the page text |
| TextCleanup.SplitLinesOfJoin | main.py:91 | joining clean chunks with `\n` and splitting into lines gives the chunks back |
| TextCleanup.CleanupLines | main.py:89-91 | the output's lines are the chunks in source order; each is clean and a piece of the page text |
| TextCleanup.ChunksKeepNonSpace | main.py:90-91 | the kept chunks of the lines hold the lines' non-space characters, in order: only whitespace and empty chunks are dropped |
| TextCleanup.CleanupKeepsNonSpace | main.py:89-91 | clean-up deletes whitespace only: the page's non-space characters, in order, are exactly those of the cleaned text |
| TextCleanup.BlankPageCleansToEmpty | main.py:89-91 | a page with only whitespace cleans to the empty text |
| TextCleanup.DoubleSpaceSplitsLine | main.py:89-91 | two clean phrases separated by a double space become two lines |
| TextCleanup.CleanupIdempotent | main.py:89-91 | cleaning cleaned text changes nothing |
| Extraction.FindFence | main.py:117-119 | the fenced match reported is a match of the pattern; there is none when it reports none; it is leftmost, with the longest tag-and-whitespace prefix and the shortest group |
| Extraction.FenceFoundIffTwoFences | main.py:117-118 | a fenced block is found exactly when the reply holds a fence and a later, non-overlapping fence |
| Extraction.FencedCandidateShape | main.py:117-119 | the fenced group has no trailing whitespace and holds no fence |
| Extraction.NoBacktickNoFence | main.py:117-118 | a reply without backticks takes the unfenced path |
| Extraction.FindBraceSpan | main.py:122-124 | the brace match reported is a `{`…`}` span; there is none when no `}` follows a `{`; it starts leftmost and is the longest from there |
| Extraction.DropBeforeOpen | main.py:129 | the first substitution removes a prefix without `{`; what remains is empty or starts with `{` |
| Extraction.DropAfterClose | main.py:130 | the second substitution removes a suffix without `}`; what remains is empty or ends with `}` |
| Extraction.TrimToBraces | main.py:129-130 | the trimmed text is a piece of its input and is empty or runs from a `{` to a `}` |
| Extraction.TrimKeepsFirstOpenToLastClose | main.py:129-130 | trimming keeps exactly the characters from the first `{` through the last `}`, and nothing when no `}` follows the first `{` |
| Extraction.TrimFixpoints | main.py:129-130 | the texts trimming leaves unchanged are the empty text and those running from a `{` to a `}` |
| Extraction.TrimIdempotent | main.py:129-130 | trimming twice equals trimming once |
| Extraction.UnfencedExtract | main.py:120-130 | without a fenced block the parser gets the first-`{`-to-last-`}` span, or the empty text when there is none |
| Extraction.ExtractShape | main.py:117-130 | the parser always gets a piece of the reply that is empty or runs from a `{` to a `}` |
| Extraction.BareReplyExtract | main.py:117-130 | an object reply, bare or in prose without braces or backticks, gives the parser exactly the object text |
| Extraction.FencedReplyExtract | main.py:117-130 | an object in a ```` ```json ```` block gives the parser exactly the object text, whatever follows the block |
| Recommender.BuildAssessmentsBlock | main.py:107-109 | the prompt block the loop builds is each document's text followed by a blank line, in retrieval order |
| Recommender.AssessmentsBlockSplits | main.py:107-109 | no documents give the empty block; the block of a list is the blocks of its parts in order |
| Recommender.DocumentInBlock | main.py:107-109 | each retrieved document's text, followed by a blank line, appears in the block |
| Recommender.BuildFallback | main.py:138-149 | the list the loop over `assessments[:10]` builds is the fallback list: min(10, number of documents) records, the i-th from the i-th document's metadata |
| Recommender.FallbackUsesTopTen | main.py:139 | documents after the tenth do not affect the fallback, and ten or fewer are all used |
| Recommender.FallbackOfCatalogDocument | main.py:140-148 | a catalogue document's fallback record repeats its row's name, url, flags, duration and type, and names its skills |
| Recommender.FallbackDefaults | main.py:142-148 | with no metadata every field takes its default: "Unknown Assessment", "#", "No", "No", "Unknown", "Unknown", "various areas" |
| Recommender.Recommend | main.py:98-168 | an error is returned exactly for a blank query; a model answer always has a recommendations entry; a fallback has at most ten records |
| Recommender.BlankQueryConsultsNothing | main.py:100-101 | a blank query yields exactly the "Query text is empty" error, whatever the retriever, model and parser would do |
| Recommender.BlankMeansAllSpace | main.py:100 | a query is blank exactly when it is all whitespace |
| Recommender.ModelAnswerVerbatim | main.py:133-152 | an object that parses and has a recommendations entry is returned as parsed, with no size check |
| Recommender.FallbackOtherwise | main.py:133-168 | a parse failure and a missing recommendations entry both give the same fallback list of the retrieved documents |
| Recommender.FencedModelAnswer | main.py:112-152 | a fenced object the parser accepts with a recommendations entry is returned, whatever prose surrounds it |
| Catalog.Cells | scrape_shl.py:80 | a row is written as eight cells |
| Catalog.Lookup | vector.py:48-55 | reading a column gives a cell under a header cell of that name, and nothing when no header cell has it |
| Catalog.HeaderNamesDistinct | scrape_shl.py:86-88 | the eight column names are distinct |
| Catalog.LookupAt | vector.py:48-55 | under distinct column names, reading a column gives the cell at its position |
| Catalog.ReadWrittenRow | scrape_shl.py:80-89 | reading a written row back by the column names gives the same row |
| Encoder.LabelledFields | vector.py:17-25 | each of the eight fields appears in the document text right after its label |
| Encoder.RemoteSentence | vector.py:28-29 | right after "to complete and ", the text reads `"does not \n    support remote testing"` (a line break and four spaces after "not ") exactly when RemoteTesting is not "Yes", and `"\n    support remote testing"` exactly when it is |
| Encoder.AdaptiveSentence | vector.py:29 | right after `"\n    support remote testing. It "`, the text reads "does not  have adaptive/IRT support" exactly when AdaptiveSupport is not "Yes", and " have …" exactly when it is |
| Encoder.Metadata | vector.py:47-56 | the metadata has exactly the keys name, type, skills, description, duration, remote_testing, adaptive_support and url |
| Encoder.MetadataRoundTrip | vector.py:47-56 | the eight keys are distinct, and each maps to its column, so the row can be read back from the metadata |
| Encoder.EncodedIdsDistinct | vector.py:57-59 | two documents have the same id exactly when they come from the same row position |
| Encoder.EncodedRowRecoverable | vector.py:45-59 | a document's metadata gives back its row, and its id reads back as its position |
| Encoder.BuildDocuments | vector.py:41-60 | one document per row in row order, with the id list matching the documents and no two ids equal |
| Batching.BatchRanges | vector.py:70-74 | the batches start at 0, 50, 100, …; each is non-empty and at most 50 long; they are consecutive and end at n; there are ceil(n/50) of them |
| Batching.TilesOrdered | vector.py:71-72 | an earlier batch ends before a later one starts |
| Batching.TilesCoverOnce | vector.py:71-73 | every document position lies in exactly one batch |
| Batching.BatchesReassemble | vector.py:71-73 | the batch slices, one after the other, are the whole document list in order |
| Retriever.Invoke | vector.py:104-142 | a non-empty store answer is returned unchanged; otherwise no catalogue gives nothing; otherwise there are min(k, rows) documents of distinct in-range rows, each encoded as at build time |
| Retriever.FallbackMatchesBuild | vector.py:119-136 | each sampled document equals the build-time document of its row, and no two sampled documents share an id |
| Scraper.Upper | scrape_shl.py:57 | uppercasing keeps the length, leaves no lowercase ASCII letter, turns each into its capital and keeps every other character |
| Scraper.UpperIdempotent | scrape_shl.py:57 | uppercasing twice equals uppercasing once |
| Scraper.TypeStringIsUpperOfConcat | scrape_shl.py:56-57 | the type string is the uppercased concatenation of the span texts, in order |
| Scraper.LowercaseLetterMaps | scrape_shl.py:56-59 | a span holding one lowercase letter names the skill area of its capital, and none when the capital is not a key |
| Scraper.SkillNames | scrape_shl.py:59 | every skill name comes from the map, and there are at most as many as type letters |
| Scraper.SkillNamesAppend | scrape_shl.py:59 | the skill names of a type string are those of its parts in order, keeping repeats |
| Scraper.SkillNamesOfLetter | scrape_shl.py:7-16 | a letter that is a map key gives its one skill name; any other character gives none |
| Scraper.NormaliseLink | scrape_shl.py:46-47 | the link starts with "http"; it is unchanged exactly when it already did; otherwise the site root is put in front |
| Scraper.NormaliseLinkIdempotent | scrape_shl.py:46-47 | normalising twice equals normalising once |
| Scraper.MissingAnchor | scrape_shl.py:43-47 | a row without a title link gets title "N/A" and link "https://www.shl.com#" |
| Scraper.Flag | scrape_shl.py:50 | a flag is always "Yes" or "No" |
| Scraper.FlagNegation | scrape_shl.py:50 | the document text negates a scraped flag exactly when its marker was absent |
| Scraper.FindDuration | scrape_shl.py:73 | the reported duration match matches the pattern and is leftmost; there is none when nothing matches |
| Scraper.MatchDeterminedByStart | scrape_shl.py:73 | a duration match is fixed by its start position, which gives the longest whitespace runs and digit group |
| Scraper.DurationIsLeftmostGroup | scrape_shl.py:73-74 | the duration is the digit group of the leftmost match |
| Scraper.DurationEmptyIffNoMatch | scrape_shl.py:74 | the duration is empty exactly when the pattern does not match |
| Scraper.DurationIsDigits | scrape_shl.py:73-74 | the duration consists of digits only |
| Scraper.ScrapedRowWellFormed | scrape_shl.py:42-80 | a scraped row has an "http" link and Yes/No flags matching the markers; its skills agree with its type string; its duration is digits; a failed fetch gives the error description and no duration; its written cells read back as the same row |

## Left out

- HTTP fetching and HTML parsing are left out (main.py:80-88 and 93-96; scrape_shl.py:35-43, 49-56 and 62-64). The page text, the title link, the flag markers, the type span texts and the description paragraph are inputs.
- The FastAPI application, the templates, the endpoints and the command-line loop are presentation and I/O (main.py:19-32 and 170-256).
- The language model and its prompt are left out (main.py:38-76 and 112). The reply is the result of a function parameter.
- Recommender.Recommend: the model is a total function. The exception the real call can raise, which escapes the request, is not modelled.
- `json.loads` is a parameter, not an implementation. It returns an object or fails. The parser only ever sees the empty text or a text running from `{` to `}`, so any success is an object.
- The embedding model, the Chroma store, persistence and the choice to rebuild or reuse the store are external (vector.py:9-12 and 34-91). The store's search result is an input to `Retriever.Invoke`.
- Retriever.Invoke: `np.random.choice` is an arbitrary choice of distinct positions. Its uniform distribution is not modelled.
- pandas is not modelled: empty cells read as NaN, numeric columns, and the DataFrame index. Every field is a string. The index of a read catalogue is taken to be the row position, which holds for pandas' default index.
- CSV quoting and file writing are left out (scrape_shl.py:83-89). A row is its eight cells in header order.
- Scraper.Upper: only ASCII letters are uppercased. Python's `upper()` also maps other scripts.
- Scraper.IsDurationMatch: `\d` is ASCII digits only. In Python it matches every Unicode decimal digit.
- Catalog.Lookup: it does not state that the first column of a repeated name is used. The catalogue header has no repeated names (`Catalog.HeaderNamesDistinct`).
- The scraper's failures on malformed rows are not modelled: a title link without `href` raises `KeyError`, and fewer than two general cells raise `IndexError` (scrape_shl.py:45, 49 and 52). Any exception while fetching or reading a product page is `ProductPage.FetchFailed`.
- `time.sleep` and progress printing have no effect on the data.
