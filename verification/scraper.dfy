/** The pure part of the catalogue scraper: turning what it finds on a
    catalogue page and a product page into one catalogue row. Fetching and
    HTML selection are outside this model; their results are inputs. */
module Scraper {
  import opened Wrappers
  import opened Strings
  import opened Catalog
  import opened Encoder

  /** The test-type letters and the skill area each stands for. */
  const TypeSkillMap: map<char, string> := map[
    'A' := "Ability & Aptitude",
    'B' := "Biodata and Situational Judgement",
    'C' := "Competencies",
    'D' := "Development & 360",
    'E' := "Assessment Exercises",
    'K' := "Knowledge and Skills",
    'P' := "Personality and Behaviour",
    'S' := "Simulations"]

  /** `c.upper()` for ASCII letters; other characters are left alone. */
  function UpperChar(c: char): char {
    if 'a' <= c <= 'z' then (c as int - 32) as char else c
  }

  /** `s.upper()` over ASCII: no lowercase letter is left, each lowercase
      letter becomes its capital, and every other character stays. */
  function Upper(s: string): (r: string)
    ensures |r| == |s|
    ensures forall i :: 0 <= i < |r| ==> !('a' <= r[i] <= 'z')
    ensures forall i :: 0 <= i < |s| && 'a' <= s[i] <= 'z' ==> 'A' <= r[i] <= 'Z' && r[i] as int == s[i] as int - 32
    ensures forall i :: 0 <= i < |s| && !('a' <= s[i] <= 'z') ==> r[i] == s[i]
  {
    seq(|s|, i requires 0 <= i < |s| => UpperChar(s[i]))
  }

  /** Uppercasing twice is uppercasing once. */
  lemma UpperIdempotent(s: string)
    ensures Upper(Upper(s)) == Upper(s)
  {
  }

  /** The type string: the uppercased texts of the type spans, in order. */
  function TypeString(spanTexts: seq<string>): string {
    Concat(seq(|spanTexts|, i requires 0 <= i < |spanTexts| => Upper(spanTexts[i])))
  }

  /** The skill names of the letters of a type string that are in the map,
      in order and with repeats; other characters are dropped. */
  function SkillNames(typeString: string): (r: seq<string>)
    ensures |r| <= |typeString|
    ensures forall i :: 0 <= i < |r| ==> r[i] in TypeSkillMap.Values
  {
    if typeString == [] then []
    else
      var c := typeString[0];
      (if c in TypeSkillMap then [TypeSkillMap[c]] else []) + SkillNames(typeString[1..])
  }

  /** The skills cell: the skill names joined by ", ". */
  function Skills(typeString: string): string {
    Join(", ", SkillNames(typeString))
  }

  /** The names of a type string are the names of its parts, one after the
      other. */
  lemma {:induction false} SkillNamesAppend(a: string, b: string)
    ensures SkillNames(a + b) == SkillNames(a) + SkillNames(b)
  {
    if a == [] {
      assert a + b == b;
    } else {
      assert (a + b)[0] == a[0];
      assert (a + b)[1..] == a[1..] + b;
      SkillNamesAppend(a[1..], b);
    }
  }

  /** One letter gives its skill name when it is a key, nothing otherwise. */
  lemma SkillNamesOfLetter(c: char)
    ensures c in TypeSkillMap ==> SkillNames([c]) == [TypeSkillMap[c]]
    ensures c !in TypeSkillMap ==> SkillNames([c]) == []
  {
    assert [c][1..] == [];
  }

  /** Uppercasing the span texts one by one and joining them is
      uppercasing their concatenation. */
  lemma {:induction false} TypeStringIsUpperOfConcat(spanTexts: seq<string>)
    ensures TypeString(spanTexts) == Upper(Concat(spanTexts))
  {
    if spanTexts != [] {
      var pieces := seq(|spanTexts|, i requires 0 <= i < |spanTexts| => Upper(spanTexts[i]));
      var rest := spanTexts[1..];
      assert pieces[1..] == seq(|rest|, i requires 0 <= i < |rest| => Upper(rest[i]));
      TypeStringIsUpperOfConcat(rest);
      UpperAppend(spanTexts[0], Concat(rest));
    }
  }

  lemma UpperAppend(a: string, b: string)
    ensures Upper(a + b) == Upper(a) + Upper(b)
  {
  }

  /** A lowercase type letter in a span names the skill area of its
      capital, and names none when its capital is not a key. */
  lemma LowercaseLetterMaps(c: char)
    requires 'a' <= c <= 'z'
    ensures UpperChar(c) in TypeSkillMap ==> SkillNames(TypeString([[c]])) == [TypeSkillMap[UpperChar(c)]]
    ensures UpperChar(c) !in TypeSkillMap ==> SkillNames(TypeString([[c]])) == []
  {
    var pieces := seq(1, i requires 0 <= i < 1 => Upper([[c]][i]));
    assert pieces == [Upper([c])];
    assert Upper([c]) == [UpperChar(c)];
    ConcatSingle(Upper([c]));
    SkillNamesOfLetter(UpperChar(c));
  }

  const SiteRoot: string := "https://www.shl.com"
  const Http: string := "http"

  /** A product link made absolute: relative links get the site root in
      front, links already starting with "http" are kept. */
  function NormaliseLink(href: string): (r: string)
    ensures HasAt(r, Http, 0)
    ensures r == href <==> HasAt(href, Http, 0)
    ensures !HasAt(href, Http, 0) ==> r == SiteRoot + href
  {
    if HasAt(href, Http, 0) then href
    else
      assert (SiteRoot + href)[..|Http|] == SiteRoot[..|Http|];
      SiteRoot + href
  }

  /** Normalising a normalised link changes nothing. */
  lemma NormaliseLinkIdempotent(href: string)
    ensures NormaliseLink(NormaliseLink(href)) == NormaliseLink(href)
  {
  }

  /** The title link of a catalogue row, when there is one. */
  datatype Anchor = Anchor(text: string, href: string)

  const MissingTitle: string := "N/A"
  const MissingLink: string := "#"

  /** The title and absolute link of a catalogue row. */
  function TitleAndLink(anchor: Option<Anchor>): (string, string) {
    match anchor
    case None => (MissingTitle, NormaliseLink(MissingLink))
    case Some(a) => (a.text, NormaliseLink(a.href))
  }

  /** A row without a title link gets the placeholder title and the site
      root with "#" as its link. */
  lemma MissingAnchor()
    ensures TitleAndLink(None) == ("N/A", "https://www.shl.com#")
  {
    assert !HasAt(MissingLink, Http, 0);
    assert SiteRoot + MissingLink == "https://www.shl.com#";
  }

  /** A support flag: whether the "yes" marker was found. */
  function Flag(marked: bool): (r: string)
    ensures r == "Yes" || r == "No"
  {
    if marked then "Yes" else "No"
  }

  /** The document text's sentences negate a scraped flag exactly when the
      marker was absent. */
  lemma FlagNegation(marked: bool)
    ensures Negation(Flag(marked)) == "" <==> marked
  {
  }

  const DurationPhrase: string := "Approximate Completion Time in minutes"

  /** `s[lo..hi]` is made of ASCII digits. */
  predicate DigitsBetween(s: string, lo: int, hi: int) {
    0 <= lo <= hi <= |s| && forall i :: lo <= i < hi ==> IsDigit(s[i])
  }

  /** A match of `Approximate Completion Time in minutes\s*=\s*(\d+)` as the
      regular expression engine reports it at `start`: the whitespace runs
      and the digit group are as long as possible. */
  datatype DurationMatch = DurationMatch(start: nat, equals: nat, digitsStart: nat, digitsEnd: nat)

  predicate IsDurationMatch(s: string, m: DurationMatch) {
    && HasAt(s, DurationPhrase, m.start)
    && SpaceBetween(s, m.start + |DurationPhrase|, m.equals)
    && m.equals < |s| && s[m.equals] == '='
    && SpaceBetween(s, m.equals + 1, m.digitsStart)
    && m.digitsStart < m.digitsEnd
    && DigitsBetween(s, m.digitsStart, m.digitsEnd)
    && (m.digitsEnd == |s| || !IsDigit(s[m.digitsEnd]))
  }

  /** The end of the run of digits starting at `i`. */
  function DigitRunEnd(s: string, i: nat): (r: nat)
    requires i <= |s|
    ensures DigitsBetween(s, i, r)
    ensures r == |s| || !IsDigit(s[r])
    decreases |s| - i
  {
    if i < |s| && IsDigit(s[i]) then DigitRunEnd(s, i + 1) else i
  }

  /** The match at `p`, if the rest of the pattern matches there. */
  function MatchAt(s: string, p: nat): (r: Option<DurationMatch>)
    requires HasAt(s, DurationPhrase, p)
    ensures r.Some? ==> IsDurationMatch(s, r.value) && r.value.start == p
  {
    var q := SkipSpace(s, p + |DurationPhrase|);
    if q < |s| && s[q] == '=' then
      var d := SkipSpace(s, q + 1);
      var e := DigitRunEnd(s, d);
      if d < e then Some(DurationMatch(p, q, d, e)) else None
    else None
  }

  /** A match is determined by where it starts. */
  lemma MatchDeterminedByStart(s: string, m: DurationMatch)
    requires IsDurationMatch(s, m)
    ensures MatchAt(s, m.start) == Some(m)
  {
    EqualsAfterSpace(s, m);
    DigitsAfterSpace(s, m);
    DigitsEndAtRunEnd(s, m);
  }

  lemma EqualsAfterSpace(s: string, m: DurationMatch)
    requires IsDurationMatch(s, m)
    ensures SkipSpace(s, m.start + |DurationPhrase|) == m.equals
  {
    var q := SkipSpace(s, m.start + |DurationPhrase|);
    SpaceRunEnd(s, m.start + |DurationPhrase|, q, m.equals);
  }

  lemma DigitsAfterSpace(s: string, m: DurationMatch)
    requires IsDurationMatch(s, m)
    ensures SkipSpace(s, m.equals + 1) == m.digitsStart
  {
    var d := SkipSpace(s, m.equals + 1);
    assert !IsSpace(s[m.digitsStart]);
    SpaceRunEnd(s, m.equals + 1, d, m.digitsStart);
  }

  lemma DigitsEndAtRunEnd(s: string, m: DurationMatch)
    requires IsDurationMatch(s, m)
    ensures DigitRunEnd(s, m.digitsStart) == m.digitsEnd
  {
    var e := DigitRunEnd(s, m.digitsStart);
    DigitRunUnique(s, m.digitsStart, e, m.digitsEnd);
  }

  /** A run of digits starting at `lo` has one end. */
  lemma DigitRunUnique(s: string, lo: int, x: int, y: int)
    requires DigitsBetween(s, lo, x) && (x == |s| || !IsDigit(s[x]))
    requires DigitsBetween(s, lo, y) && (y == |s| || !IsDigit(s[y]))
    ensures x == y
  {
  }

  lemma NoMatchStartsAt(s: string, p: nat)
    requires HasAt(s, DurationPhrase, p) && MatchAt(s, p).None?
    ensures forall m :: IsDurationMatch(s, m) ==> m.start != p
  {
    forall m | IsDurationMatch(s, m) ensures m.start != p {
      MatchDeterminedByStart(s, m);
    }
  }

  /** `re.search` from position `from`: the leftmost match. */
  function FindDuration(s: string, from: nat): (r: Option<DurationMatch>)
    ensures r.Some? ==> IsDurationMatch(s, r.value) && from <= r.value.start
    ensures r.Some? ==> forall m :: IsDurationMatch(s, m) && from <= m.start ==> r.value.start <= m.start
    ensures r.None? ==> forall m :: IsDurationMatch(s, m) ==> m.start < from
    decreases |s| - from
  {
    match IndexOf(s, DurationPhrase, from)
    case None => None
    case Some(p) =>
      match MatchAt(s, p)
      case Some(m) => Some(m)
      case None =>
        NoMatchStartsAt(s, p);
        FindDuration(s, p + 1)
  }

  /** The duration cell for a product description: the digits of the
      leftmost match, or nothing. */
  function Duration(text: string): string {
    match FindDuration(text, 0)
    case Some(m) => text[m.digitsStart..m.digitsEnd]
    case None => ""
  }

  /** The duration is empty exactly when nothing matches, and otherwise
      the digit group of the leftmost match. */
  lemma DurationIsLeftmostGroup(text: string, m: DurationMatch)
    requires IsDurationMatch(text, m)
    requires forall m' :: IsDurationMatch(text, m') ==> m.start <= m'.start
    ensures Duration(text) == text[m.digitsStart..m.digitsEnd]
  {
    var r := FindDuration(text, 0).value;
    assert r.start == m.start;
    MatchDeterminedByStart(text, m);
    MatchDeterminedByStart(text, r);
    assert r == m;
  }

  lemma DurationEmptyIffNoMatch(text: string)
    ensures Duration(text) == "" <==> forall m :: !IsDurationMatch(text, m)
  {
  }

  /** The duration is a string of digits. */
  lemma DurationIsDigits(text: string)
    ensures forall i :: 0 <= i < |Duration(text)| ==> IsDigit(Duration(text)[i])
  {
    match FindDuration(text, 0)
    case None =>
    case Some(m) =>
      forall i | 0 <= i < |Duration(text)| ensures IsDigit(Duration(text)[i]) {
        assert Duration(text)[i] == text[m.digitsStart + i];
      }
  }

  /** What fetching a product page gave: an error, or the text of the
      description paragraph when the page has one. */
  datatype ProductPage = FetchFailed | Fetched(paragraph: Option<string>)

  const FetchErrorDescription: string := "Error fetching description"

  /** The description and duration cells for a product page. */
  function DescriptionAndDuration(page: ProductPage): (string, string) {
    match page
    case FetchFailed => (FetchErrorDescription, "")
    case Fetched(None) => ("", "")
    case Fetched(Some(text)) => (text, Duration(text))
  }

  /** The catalogue row for one scraped table row. */
  function ScrapeRow(anchor: Option<Anchor>, remoteMarked: bool, adaptiveMarked: bool,
                     typeSpanTexts: seq<string>, page: ProductPage): Row
  {
    var (title, link) := TitleAndLink(anchor);
    var typeString := TypeString(typeSpanTexts);
    var (description, duration) := DescriptionAndDuration(page);
    Row(title, link, Flag(remoteMarked), Flag(adaptiveMarked), typeString, Skills(typeString),
        description, duration)
  }

  /** Every scraped row is well formed: an absolute link, Yes/No flags,
      skills that agree with the type string, a duration of digits (empty
      when the page could not be fetched), and cells that read back as the
      same row. */
  lemma ScrapedRowWellFormed(anchor: Option<Anchor>, remoteMarked: bool, adaptiveMarked: bool,
                             typeSpanTexts: seq<string>, page: ProductPage)
    ensures var r := ScrapeRow(anchor, remoteMarked, adaptiveMarked, typeSpanTexts, page);
      && HasAt(r.url, Http, 0)
      && (r.remoteTesting == "Yes" <==> remoteMarked) && (r.remoteTesting == "No" <==> !remoteMarked)
      && (r.adaptiveSupport == "Yes" <==> adaptiveMarked) && (r.adaptiveSupport == "No" <==> !adaptiveMarked)
      && r.skills == Skills(r.assessmentType)
      && (forall i :: 0 <= i < |r.duration| ==> IsDigit(r.duration[i]))
      && (page.FetchFailed? ==> r.description == FetchErrorDescription && r.duration == "")
      && ReadRow(Header, Cells(r)) == Some(r)
  {
    var r := ScrapeRow(anchor, remoteMarked, adaptiveMarked, typeSpanTexts, page);
    if page.Fetched? && page.paragraph.Some? {
      DurationIsDigits(page.paragraph.value);
    }
    ReadWrittenRow(r);
  }
}
