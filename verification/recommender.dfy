/** The recommendation request: reject a blank query, retrieve documents,
    ask the language model, and either pass its answer on or fall back to
    records built from the retrieved documents. The retriever, the model
    and the JSON parser are parameters. */
module Recommender {
  import opened Wrappers
  import opened Strings
  import opened Catalog
  import opened Encoder
  import opened Extraction

  const EmptyQueryError: string := "Query text is empty"
  const RecommendationsKey: string := "recommendations"

  /** At most this many fallback records are built. */
  const FallbackLimit: nat := 10

  /** One fallback recommendation record. */
  datatype Recommendation = Recommendation(
    name: string,
    url: string,
    remoteTesting: string,
    adaptiveSupport: string,
    duration: string,
    assessmentType: string,
    explanation: string)

  /** The JSON object sent back: `{"error": …}`, the model's object as
      parsed, or `{"recommendations": […]}` built from the documents. */
  datatype Response<V> =
    | QueryRejected(error: string)
    | ModelAnswer(answer: map<string, V>)
    | FallbackAnswer(recommendations: seq<Recommendation>)

  /** A query that is empty once surrounding whitespace is stripped. */
  predicate IsBlank(query: string) {
    Strip(query) == []
  }

  /** The piece each document contributes to the prompt. */
  function BlockPieces(docs: seq<Document>): (r: seq<string>)
    ensures |r| == |docs|
  {
    seq(|docs|, i requires 0 <= i < |docs| => docs[i].text + "\n\n")
  }

  /** The retrieved documents as handed to the model. */
  function AssessmentsBlock(docs: seq<Document>): string {
    Concat(BlockPieces(docs))
  }

  /** Building the block text by appending each document's text and a
      blank line, in retrieval order. */
  method BuildAssessmentsBlock(docs: seq<Document>) returns (block: string)
    ensures block == AssessmentsBlock(docs)
  {
    block := "";
    var i := 0;
    while i < |docs|
      invariant 0 <= i <= |docs|
      invariant block == AssessmentsBlock(docs[..i])
    {
      assert BlockPieces(docs[..i + 1]) == BlockPieces(docs[..i]) + [docs[i].text + "\n\n"];
      ConcatAppend(BlockPieces(docs[..i]), docs[i].text + "\n\n");
      block := block + docs[i].text + "\n\n";
      i := i + 1;
    }
    assert docs[..i] == docs;
  }

  /** The block is empty without documents, and the block of a longer list
      is the blocks of its parts one after the other. */
  lemma AssessmentsBlockSplits(a: seq<Document>, b: seq<Document>)
    ensures AssessmentsBlock([]) == []
    ensures AssessmentsBlock(a + b) == AssessmentsBlock(a) + AssessmentsBlock(b)
  {
    assert BlockPieces(a + b) == BlockPieces(a) + BlockPieces(b);
    ConcatJoin(BlockPieces(a), BlockPieces(b));
  }

  /** Each document's text, followed by a blank line, is in the block. */
  lemma DocumentInBlock(docs: seq<Document>, i: nat)
    requires i < |docs|
    ensures IsInfix(docs[i].text + "\n\n", AssessmentsBlock(docs))
  {
    ConcatPieceIsInfix(BlockPieces(docs), i);
  }

  /** `metadata.get(key, default)`. */
  function Get(m: map<string, string>, key: string, default: string): string {
    if key in m then m[key] else default
  }

  /** The explanation of a fallback record. */
  function Explanation(skills: string): string {
    "This assessment matches your query for skills in " + skills + "."
  }

  /** The fallback record for a document's metadata. */
  function FallbackRecord(m: map<string, string>): Recommendation {
    Recommendation(
      Get(m, NameKey, "Unknown Assessment"),
      Get(m, UrlKey, "#"),
      Get(m, RemoteKey, "No"),
      Get(m, AdaptiveKey, "No"),
      Get(m, DurationKey, "Unknown"),
      Get(m, TypeKey, "Unknown"),
      Explanation(Get(m, SkillsKey, "various areas")))
  }

  /** The fallback records: one per document among the first ten, in
      retrieval order. */
  function FallbackList(docs: seq<Document>): (r: seq<Recommendation>)
    ensures |r| == Min(FallbackLimit, |docs|)
    ensures forall i :: 0 <= i < |r| ==> r[i] == FallbackRecord(docs[i].metadata)
  {
    seq(Min(FallbackLimit, |docs|), i requires 0 <= i < Min(FallbackLimit, |docs|) => FallbackRecord(docs[i].metadata))
  }

  /** Building the fallback list by appending one record per document of
      `docs[:10]`, in retrieval order. */
  method BuildFallback(docs: seq<Document>) returns (recs: seq<Recommendation>)
    ensures recs == FallbackList(docs)
  {
    var top := docs[..Min(FallbackLimit, |docs|)];
    recs := [];
    var i := 0;
    while i < |top|
      invariant 0 <= i <= |top| && |recs| == i
      invariant forall k :: 0 <= k < i ==> recs[k] == FallbackRecord(top[k].metadata)
    {
      recs := recs + [FallbackRecord(top[i].metadata)];
      i := i + 1;
    }
  }

  /** Only the first ten documents matter to the fallback, and up to ten
      documents are all used. */
  lemma FallbackUsesTopTen(docs: seq<Document>, more: seq<Document>)
    ensures |docs| >= FallbackLimit ==> FallbackList(docs + more) == FallbackList(docs)
    ensures |docs| <= FallbackLimit ==> |FallbackList(docs)| == |docs|
  {
  }

  /** A catalogue document's fallback record repeats its row's fields. */
  lemma FallbackOfCatalogDocument(r: Row, index: nat)
    ensures FallbackRecord(EncodeRow(r, index).metadata) ==
      Recommendation(r.name, r.url, r.remoteTesting, r.adaptiveSupport, r.duration, r.assessmentType,
                     Explanation(r.skills))
  {
    MetadataRoundTrip(r);
  }

  /** With no metadata every field takes its default. */
  lemma FallbackDefaults()
    ensures FallbackRecord(map[]) ==
      Recommendation("Unknown Assessment", "#", "No", "No", "Unknown", "Unknown",
                     "This assessment matches your query for skills in various areas.")
  {
  }

  /** The model's parsed answer is usable when it has a recommendations
      entry. */
  predicate Usable<V>(parsed: Option<map<string, V>>) {
    parsed.Some? && RecommendationsKey in parsed.value
  }

  /** The answer to a recommendation request. `retrieve` stands for the
      retriever, `model` for the language model called with the block and
      the query, `parse` for the JSON parser (`None` when it raises). */
  function Recommend<V>(
    query: string,
    retrieve: string -> seq<Document>,
    model: (string, string) -> string,
    parse: string -> Option<map<string, V>>): (r: Response<V>)
    ensures r.QueryRejected? <==> IsBlank(query)
    ensures r.QueryRejected? ==> r.error == EmptyQueryError
    ensures r.ModelAnswer? ==> RecommendationsKey in r.answer
    ensures r.FallbackAnswer? ==> |r.recommendations| <= FallbackLimit
  {
    if IsBlank(query) then
      QueryRejected(EmptyQueryError)
    else
      var docs := retrieve(query);
      var reply := model(AssessmentsBlock(docs), query);
      var parsed := parse(ExtractJson(reply));
      if Usable(parsed) then ModelAnswer(parsed.value)
      else FallbackAnswer(FallbackList(docs))
  }

  /** A blank query is rejected whatever the retriever, model and parser
      would do: none of them is consulted. */
  lemma BlankQueryConsultsNothing<V>(
    query: string,
    retrieve1: string -> seq<Document>, model1: (string, string) -> string, parse1: string -> Option<map<string, V>>,
    retrieve2: string -> seq<Document>, model2: (string, string) -> string, parse2: string -> Option<map<string, V>>)
    requires IsBlank(query)
    ensures Recommend(query, retrieve1, model1, parse1) == Recommend(query, retrieve2, model2, parse2)
    ensures Recommend(query, retrieve1, model1, parse1) == QueryRejected(EmptyQueryError)
  {
  }

  /** A query of whitespace only is blank, and one with any other
      character is not. */
  lemma BlankMeansAllSpace(query: string)
    ensures IsBlank(query) <==> AllSpace(query)
  {
  }

  /** A usable model answer is passed on as parsed, whatever its size. */
  lemma ModelAnswerVerbatim<V>(
    query: string, retrieve: string -> seq<Document>, model: (string, string) -> string,
    parse: string -> Option<map<string, V>>)
    requires !IsBlank(query)
    requires Usable(parse(ExtractJson(model(AssessmentsBlock(retrieve(query)), query))))
    ensures Recommend(query, retrieve, model, parse) ==
      ModelAnswer(parse(ExtractJson(model(AssessmentsBlock(retrieve(query)), query))).value)
  {
  }

  /** When the parser fails or the object lacks a recommendations entry,
      the answer is the fallback list of the retrieved documents. */
  lemma FallbackOtherwise<V>(
    query: string, retrieve: string -> seq<Document>, model: (string, string) -> string,
    parse: string -> Option<map<string, V>>)
    requires !IsBlank(query)
    requires !Usable(parse(ExtractJson(model(AssessmentsBlock(retrieve(query)), query))))
    ensures Recommend(query, retrieve, model, parse) == FallbackAnswer(FallbackList(retrieve(query)))
  {
  }

  /** A reply whose object, bare or fenced, the parser reads as usable is
      passed on, whatever prose surrounds it. */
  lemma FencedModelAnswer<V>(
    query: string, retrieve: string -> seq<Document>, model: (string, string) -> string,
    parse: string -> Option<map<string, V>>, before: string, obj: string, after: string)
    requires !IsBlank(query)
    requires model(AssessmentsBlock(retrieve(query)), query) == before + FencedOpening + obj + FencedClosing + after
    requires IsObjectText(obj) && Lacks(before, '`')
    requires Usable(parse(obj))
    ensures Recommend(query, retrieve, model, parse) == ModelAnswer(parse(obj).value)
  {
    FencedReplyExtract(before, obj, after);
  }
}
