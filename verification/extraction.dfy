/** How a JSON candidate is cut out of the language model's reply: a fenced
    code block if there is one, otherwise the span from the first `{` to the
    last `}`, otherwise the whole reply; then everything before the first
    `{` and after the last `}` is removed. */
module Extraction {
  import opened Wrappers
  import opened Strings

  const Fence: string := "```"
  const JsonTag: string := "json"

  /** One way the fenced-block pattern ```` ```(?:json)?\s*([\s\S]*?)\s*``` ````
      can match: the opening fence at `open`, the optional tag ending at
      `tagEnd`, the captured group `s[groupStart..groupEnd]` and the closing
      fence at `close`. */
  datatype FenceMatch = FenceMatch(open: nat, tagEnd: nat, groupStart: nat, groupEnd: nat, close: nat)

  predicate IsFenceMatch(s: string, m: FenceMatch) {
    && HasAt(s, Fence, m.open)
    && (m.tagEnd == m.open + 3 || (m.tagEnd == m.open + 7 && HasAt(s, JsonTag, m.open + 3)))
    && m.groupStart <= m.groupEnd
    && SpaceBetween(s, m.tagEnd, m.groupStart)
    && SpaceBetween(s, m.groupEnd, m.close)
    && HasAt(s, Fence, m.close)
  }

  lemma FenceOpensWithBacktick(s: string, i: int)
    requires HasAt(s, Fence, i)
    ensures i < |s| && s[i] == '`' && !IsSpace(s[i])
  {
    assert s[i] == Fence[0];
  }

  /** When the tag follows the opening fence, no fence starts inside it. */
  lemma TagEndsBeforeClose(s: string, open: nat, close: nat)
    requires HasAt(s, Fence, close) && open + 3 <= close
    ensures HasAt(s, JsonTag, open + 3) ==> open + 7 <= close
  {
    FenceOpensWithBacktick(s, close);
    if HasAt(s, JsonTag, open + 3) {
      forall k | open + 3 <= k < open + 7 ensures s[k] != '`' {
        assert s[k] == JsonTag[k - open - 3];
      }
    }
  }

  /** The match the regular expression engine reports, given the first
      fence `open` and the first fence `close` that does not overlap it. */
  function PreferredMatch(s: string, open: nat, close: nat): FenceMatch
    requires HasAt(s, Fence, open) && HasAt(s, Fence, close) && open + 3 <= close
  {
    var tagEnd := if HasAt(s, JsonTag, open + 3) then open + 7 else open + 3;
    TagEndsBeforeClose(s, open, close);
    var groupStart := SkipSpace(s, tagEnd);
    FenceOpensWithBacktick(s, close);
    NonSpaceOutside(s, tagEnd, groupStart, close);
    FenceMatch(open, tagEnd, groupStart, BackOverSpace(s, groupStart, close), close)
  }

  /** Every match's closing fence lies after its opening fence and its tag. */
  lemma MatchOrder(s: string, m: FenceMatch)
    requires IsFenceMatch(s, m)
    ensures m.open + 3 <= m.tagEnd <= m.groupStart <= m.groupEnd <= m.close
  {
  }

  /** `m` is the match the engine reports: leftmost, then with the longest
      tag-and-whitespace prefix, then with the shortest group. */
  ghost predicate IsReportedMatch(s: string, m: FenceMatch) {
    && IsFenceMatch(s, m)
    && (forall m' :: IsFenceMatch(s, m') ==> m.open <= m'.open)
    && (forall m' :: IsFenceMatch(s, m') && m'.open == m.open ==> m'.groupStart <= m.groupStart)
    && (forall m' :: IsFenceMatch(s, m') && m'.open == m.open && m'.groupStart == m.groupStart ==>
          m.groupEnd <= m'.groupEnd)
  }

  lemma FoundIsReported(s: string)
    requires FindFence(s).Some?
    ensures IsReportedMatch(s, FindFence(s).value)
  {
  }

  /** The fenced-block search of the reply (`re.search` with the pattern
      above): the leftmost match, with the tag and the leading whitespace
      taken greedily and the group as short as possible. */
  function FindFence(s: string): (r: Option<FenceMatch>)
    ensures r.Some? ==> IsFenceMatch(s, r.value)
    ensures r.None? ==> forall m :: !IsFenceMatch(s, m)
    ensures r.Some? ==> forall m :: IsFenceMatch(s, m) ==> r.value.open <= m.open
    ensures r.Some? ==> forall m :: IsFenceMatch(s, m) && m.open == r.value.open ==>
      m.groupStart <= r.value.groupStart
    ensures r.Some? ==> forall m :: IsFenceMatch(s, m) && m.open == r.value.open && m.groupStart == r.value.groupStart ==>
      r.value.groupEnd <= m.groupEnd
  {
    match IndexOf(s, Fence, 0)
    case None =>
      None
    case Some(open) =>
      match IndexOf(s, Fence, open + 3)
      case None =>
        NoCloseNoMatch(s, open);
        None
      case Some(close) =>
        PreferredIsBest(s, open, close);
        Some(PreferredMatch(s, open, close))
  }

  lemma NoCloseNoMatch(s: string, open: nat)
    requires forall j :: 0 <= j < open ==> !HasAt(s, Fence, j)
    requires forall j :: open + 3 <= j ==> !HasAt(s, Fence, j)
    ensures forall m :: !IsFenceMatch(s, m)
  {
    forall m | IsFenceMatch(s, m) ensures m.open + 3 <= m.close {
      MatchOrder(s, m);
    }
  }

  lemma PreferredIsBest(s: string, open: nat, close: nat)
    requires HasAt(s, Fence, open) && HasAt(s, Fence, close) && open + 3 <= close
    requires forall j :: 0 <= j < open ==> !HasAt(s, Fence, j)
    requires forall j :: open + 3 <= j < close ==> !HasAt(s, Fence, j)
    ensures IsFenceMatch(s, PreferredMatch(s, open, close))
    ensures forall m :: IsFenceMatch(s, m) ==> open <= m.open
    ensures forall m :: IsFenceMatch(s, m) && m.open == open ==>
      m.groupStart <= PreferredMatch(s, open, close).groupStart
    ensures forall m :: IsFenceMatch(s, m) && m.open == open && m.groupStart == PreferredMatch(s, open, close).groupStart ==>
      PreferredMatch(s, open, close).groupEnd <= m.groupEnd
  {
    var p := PreferredMatch(s, open, close);
    forall m | IsFenceMatch(s, m) && m.open == open
      ensures m.groupStart <= p.groupStart
    {
      LeadNoLongerThanPreferred(s, open, close, m);
    }
    forall m | IsFenceMatch(s, m) && m.open == open && m.groupStart == p.groupStart
      ensures p.groupEnd <= m.groupEnd
    {
      GroupNoShorterThanPreferred(s, open, close, m);
    }
  }

  /** No match from the same opening fence skips further than the greedy tag
      and whitespace. */
  lemma LeadNoLongerThanPreferred(s: string, open: nat, close: nat, m: FenceMatch)
    requires HasAt(s, Fence, open) && HasAt(s, Fence, close) && open + 3 <= close
    requires IsFenceMatch(s, m) && m.open == open
    ensures m.groupStart <= PreferredMatch(s, open, close).groupStart
  {
    var p := PreferredMatch(s, open, close);
    MatchOrder(s, m);
    if m.tagEnd == p.tagEnd {
      if p.groupStart < |s| {
        NonSpaceOutside(s, m.tagEnd, m.groupStart, p.groupStart);
      }
    } else {
      assert s[open + 3] == JsonTag[0];
      NonSpaceOutside(s, m.tagEnd, m.groupStart, open + 3);
    }
  }

  /** No match from the same opening fence and group start has a shorter
      group than the lazy one closed at the next fence. */
  lemma GroupNoShorterThanPreferred(s: string, open: nat, close: nat, m: FenceMatch)
    requires HasAt(s, Fence, open) && HasAt(s, Fence, close) && open + 3 <= close
    requires forall j :: open + 3 <= j < close ==> !HasAt(s, Fence, j)
    requires IsFenceMatch(s, m) && m.open == open && m.groupStart == PreferredMatch(s, open, close).groupStart
    ensures PreferredMatch(s, open, close).groupEnd <= m.groupEnd
  {
    var p := PreferredMatch(s, open, close);
    MatchOrder(s, m);
    FenceOpensWithBacktick(s, m.close);
    assert close <= m.close;
    if p.groupEnd > p.groupStart {
      NonSpaceOutside(s, m.groupEnd, m.close, p.groupEnd - 1);
    }
  }


  /** A fenced block is found exactly when the reply holds a fence followed
      later by another, non-overlapping, fence. */
  lemma FenceFoundIffTwoFences(s: string)
    ensures FindFence(s).Some? <==>
      exists i, j :: HasAt(s, Fence, i) && HasAt(s, Fence, j) && i + 3 <= j
  {
    if i, j :| HasAt(s, Fence, i) && HasAt(s, Fence, j) && i + 3 <= j {
      var open := IndexOf(s, Fence, 0).value;
      assert IndexOf(s, Fence, open + 3).Some?;
    }
  }

  /** A span `s[start..end]` the unfenced pattern `\{[\s\S]*\}` can match. */
  datatype Span = Span(start: nat, end: nat)

  predicate IsBraceMatch(s: string, sp: Span) {
    sp.start + 2 <= sp.end <= |s| && s[sp.start] == '{' && s[sp.end - 1] == '}'
  }

  /** The unfenced search (`re.search` with `(\{[\s\S]*\})`): the leftmost
      match, as long as possible. */
  function FindBraceSpan(s: string): (r: Option<Span>)
    ensures r.Some? ==> IsBraceMatch(s, r.value)
    ensures r.None? ==> forall sp :: !IsBraceMatch(s, sp)
    ensures r.Some? ==> forall sp :: IsBraceMatch(s, sp) ==> r.value.start <= sp.start
    ensures r.Some? ==> forall sp :: IsBraceMatch(s, sp) && sp.start == r.value.start ==> sp.end <= r.value.end
  {
    match FindChar(s, '{', 0)
    case None => None
    case Some(i) =>
      match RFindChar(s, '}')
      case None => None
      case Some(j) => if i < j then Some(Span(i, j + 1)) else None
  }

  /** `re.sub(r'^[^{]*', '', s)`: drops the characters before the first `{`
      (all of them when there is none). */
  function DropBeforeOpen(s: string): (r: string)
    ensures |r| <= |s| && r == s[|s| - |r|..]
    ensures forall i :: 0 <= i < |s| - |r| ==> s[i] != '{'
    ensures r == [] || r[0] == '{'
  {
    match FindChar(s, '{', 0)
    case None => []
    case Some(i) => s[i..]
  }

  /** `re.sub(r'[^}]*$', '', s)`: drops the characters after the last `}`
      (all of them when there is none). */
  function DropAfterClose(s: string): (r: string)
    ensures |r| <= |s| && r == s[..|r|]
    ensures forall i :: |r| <= i < |s| ==> s[i] != '}'
    ensures r == [] || r[|r| - 1] == '}'
  {
    match RFindChar(s, '}')
    case None => []
    case Some(j) => s[..j + 1]
  }

  /** The two clean-up substitutions, in order. */
  function TrimToBraces(s: string): (r: string)
    ensures IsInfix(r, s)
    ensures r == [] || (r[0] == '{' && r[|r| - 1] == '}')
  {
    var t := DropBeforeOpen(s);
    var r := DropAfterClose(t);
    assert HasAt(s, r, |s| - |t|) by {
      forall k | 0 <= k < |r| ensures s[|s| - |t| + k] == r[k] {
        assert r[k] == t[k];
      }
    }
    r
  }

  /** Trimming keeps exactly the characters from the first `{` through the
      last `}`, and nothing when no `}` follows the first `{`. */
  lemma TrimKeepsFirstOpenToLastClose(s: string)
    ensures FindBraceSpan(s).Some? ==>
      TrimToBraces(s) == s[FindBraceSpan(s).value.start..FindBraceSpan(s).value.end]
    ensures FindBraceSpan(s).None? ==> TrimToBraces(s) == []
  {
    match FindBraceSpan(s)
    case Some(sp) => TrimOfSpan(s, sp);
    case None => TrimOfNoSpan(s);
  }

  lemma TrimOfSpan(s: string, sp: Span)
    requires FindBraceSpan(s) == Some(sp)
    ensures TrimToBraces(s) == s[sp.start..sp.end]
  {
    SpanEnds(s, sp);
    TrimBetweenBraces(s, sp.start, sp.end - 1);
  }

  lemma TrimOfNoSpan(s: string)
    requires FindBraceSpan(s) == None
    ensures TrimToBraces(s) == []
  {
    NoSpanEnds(s);
    TrimWithoutSpan(s, FindChar(s, '{', 0), RFindChar(s, '}'));
  }

  lemma SpanEnds(s: string, sp: Span)
    requires FindBraceSpan(s) == Some(sp)
    ensures sp.end >= 1 && FindChar(s, '{', 0) == Some(sp.start) && RFindChar(s, '}') == Some(sp.end - 1)
    ensures sp.start < sp.end - 1
  {
  }

  lemma NoSpanEnds(s: string)
    requires FindBraceSpan(s) == None
    ensures var open, close := FindChar(s, '{', 0), RFindChar(s, '}');
      !(open.Some? && close.Some? && open.value < close.value)
  {
  }

  lemma TrimBetweenBraces(s: string, i: nat, j: nat)
    requires FindChar(s, '{', 0) == Some(i) && RFindChar(s, '}') == Some(j) && i < j
    ensures FindBraceSpan(s) == Some(Span(i, j + 1))
    ensures TrimToBraces(s) == s[i..j + 1]
  {
    BraceSpanBetween(s, i, j);
    TrimFromOpen(s, i);
    LastCloseOfSuffix(s, i, j);
  }

  lemma BraceSpanBetween(s: string, i: nat, j: nat)
    requires FindChar(s, '{', 0) == Some(i) && RFindChar(s, '}') == Some(j) && i < j
    ensures FindBraceSpan(s) == Some(Span(i, j + 1))
  {
  }

  lemma TrimFromOpen(s: string, i: nat)
    requires FindChar(s, '{', 0) == Some(i)
    ensures TrimToBraces(s) == DropAfterClose(s[i..])
  {
    assert DropBeforeOpen(s) == s[i..];
  }

  lemma TrimWithoutSpan(s: string, open: Option<nat>, close: Option<nat>)
    requires FindChar(s, '{', 0) == open && RFindChar(s, '}') == close
    requires !(open.Some? && close.Some? && open.value < close.value)
    ensures FindBraceSpan(s) == None
    ensures TrimToBraces(s) == []
  {
    if open.None? {
      assert DropBeforeOpen(s) == [];
    } else {
      var i := open.value;
      assert DropBeforeOpen(s) == s[i..];
      forall k | i <= k < |s| ensures s[k] != '}' {
        if k == i {
          assert s[k] == '{';
        }
      }
      NoCloseInSuffix(s, i);
    }
    assert TrimToBraces(s) == DropAfterClose(DropBeforeOpen(s));
  }

  lemma LastCloseOfSuffix(s: string, i: nat, j: nat)
    requires i < j < |s| && s[j] == '}'
    requires forall k :: j < k < |s| ==> s[k] != '}'
    ensures DropAfterClose(s[i..]) == s[i..j + 1]
  {
    var t := s[i..];
    assert t[j - i] == '}';
    forall k | j - i < k < |t| ensures t[k] != '}' {
      assert t[k] == s[i + k];
    }
    assert t[..j - i + 1] == s[i..j + 1];
  }

  lemma NoCloseInSuffix(s: string, i: nat)
    requires i <= |s|
    requires forall k :: i <= k < |s| ==> s[k] != '}'
    ensures DropAfterClose(s[i..]) == []
  {
    var t := s[i..];
    forall k | 0 <= k < |t| ensures t[k] != '}' {
      assert t[k] == s[i + k];
    }
  }

  /** The texts trimming leaves alone are exactly the empty one and those
      running from a `{` to a `}`. */
  lemma TrimFixpoints(s: string)
    ensures TrimToBraces(s) == s <==> (s == [] || (s[0] == '{' && s[|s| - 1] == '}'))
  {
    if s != [] && s[0] == '{' && s[|s| - 1] == '}' {
      var t := DropBeforeOpen(s);
      assert t == s;
      assert DropAfterClose(t) == t;
    }
  }

  /** Trimming twice is trimming once. */
  lemma TrimIdempotent(s: string)
    ensures TrimToBraces(TrimToBraces(s)) == TrimToBraces(s)
  {
    TrimFixpoints(TrimToBraces(s));
  }

  /** The JSON candidate before trimming: the fenced group, else the brace
      span, else the whole reply. */
  function Candidate(s: string): string {
    match FindFence(s)
    case Some(m) => s[m.groupStart..m.groupEnd]
    case None =>
      match FindBraceSpan(s)
      case Some(sp) => s[sp.start..sp.end]
      case None => s
  }

  /** The text handed to the JSON parser. */
  function ExtractJson(reply: string): string {
    TrimToBraces(Candidate(reply))
  }

  /** The fenced candidate carries no trailing whitespace and no fence. */
  lemma FencedCandidateShape(s: string)
    requires FindFence(s).Some?
    ensures var c := Candidate(s); c == [] || !IsSpace(c[|c| - 1])
    ensures forall k :: !HasAt(Candidate(s), Fence, k)
  {
    var m := FindFence(s).value;
    assert Candidate(s) == s[m.groupStart..m.groupEnd];
    FoundIsReported(s);
    ShortestGroupShape(s, m);
  }

  /** The group of a reported match ends on a non-space and holds no fence:
      otherwise a shorter group would match too. */
  lemma ShortestGroupShape(s: string, m: FenceMatch)
    requires IsReportedMatch(s, m)
    ensures var c := s[m.groupStart..m.groupEnd]; c == [] || !IsSpace(c[|c| - 1])
    ensures forall k :: !HasAt(s[m.groupStart..m.groupEnd], Fence, k)
  {
    var c := s[m.groupStart..m.groupEnd];
    if c != [] {
      TrailingSpaceShortens(s, m);
    }
    forall k ensures !HasAt(c, Fence, k) {
      InnerFenceShortens(s, m, k);
    }
  }

  lemma TrailingSpaceShortens(s: string, m: FenceMatch)
    requires IsFenceMatch(s, m) && m.groupStart < m.groupEnd
    ensures IsSpace(s[m.groupEnd - 1]) ==> IsFenceMatch(s, m.(groupEnd := m.groupEnd - 1))
  {
  }

  lemma InnerFenceShortens(s: string, m: FenceMatch, k: int)
    requires IsFenceMatch(s, m)
    ensures HasAt(s[m.groupStart..m.groupEnd], Fence, k) ==>
      && m.groupStart + k < m.groupEnd
      && IsFenceMatch(s, FenceMatch(m.open, m.tagEnd, m.groupStart, m.groupStart + k, m.groupStart + k))
  {
    var c := s[m.groupStart..m.groupEnd];
    if HasAt(c, Fence, k) {
      forall t | 0 <= t < 3 ensures s[m.groupStart + k + t] == Fence[t] {
        assert s[m.groupStart + k + t] == c[k + t];
      }
    }
  }

  /** Without a fenced block the text handed to the parser is the span from
      the first `{` to the last `}`, or nothing. */
  lemma UnfencedExtract(s: string)
    requires FindFence(s).None?
    ensures FindBraceSpan(s).Some? ==>
      ExtractJson(s) == s[FindBraceSpan(s).value.start..FindBraceSpan(s).value.end]
    ensures FindBraceSpan(s).None? ==> ExtractJson(s) == []
  {
    var span := FindBraceSpan(s);
    if span.Some? {
      var c := s[span.value.start..span.value.end];
      assert Candidate(s) == c;
      assert c[0] == '{' && c[|c| - 1] == '}';
      TrimFixpoints(c);
    } else {
      assert Candidate(s) == s;
      TrimKeepsFirstOpenToLastClose(s);
    }
  }

  /** The unclean candidate is itself a piece of the reply. */
  lemma CandidateIsInfix(reply: string)
    ensures IsInfix(Candidate(reply), reply)
  {
    var c := Candidate(reply);
    match FindFence(reply)
    case Some(m) =>
      assert HasAt(reply, c, m.groupStart);
    case None =>
      match FindBraceSpan(reply)
      case Some(sp) =>
        assert HasAt(reply, c, sp.start);
      case None =>
        assert HasAt(reply, c, 0);
  }

  /** The text handed to the parser is a piece of the reply that is empty or
      runs from a `{` to a `}`. */
  lemma ExtractShape(reply: string)
    ensures IsInfix(ExtractJson(reply), reply)
    ensures var j := ExtractJson(reply); j == [] || (j[0] == '{' && j[|j| - 1] == '}')
  {
    var c := Candidate(reply);
    assert ExtractJson(reply) == TrimToBraces(c);
    CandidateIsInfix(reply);
    InfixTransitive(TrimToBraces(c), c, reply);
  }

  /** `c` does not occur in `s`. */
  predicate Lacks(s: string, c: char) {
    forall i :: 0 <= i < |s| ==> s[i] != c
  }

  /** An object text as the model is asked to write it: braces at both ends
      and no backtick inside. */
  predicate IsObjectText(obj: string) {
    |obj| >= 2 && obj[0] == '{' && obj[|obj| - 1] == '}' && Lacks(obj, '`')
  }

  const FencedOpening: string := Fence + JsonTag + "\n"
  const FencedClosing: string := "\n" + Fence

  /** A reply without backticks has no fenced block. */
  lemma NoBacktickNoFence(s: string)
    requires Lacks(s, '`')
    ensures FindFence(s).None?
  {
    forall i | 0 <= i < |s| ensures !HasAt(s, Fence, i) {
      assert s[i] != Fence[0];
    }
  }

  /** An object reply, bare or with prose around it that holds no braces or
      backticks, yields exactly the object text. */
  lemma BareReplyExtract(before: string, obj: string, after: string)
    requires IsObjectText(obj)
    requires Lacks(before, '`') && Lacks(before, '{')
    requires Lacks(after, '`') && Lacks(after, '}')
    ensures ExtractJson(before + obj + after) == obj
  {
    var s := before + obj + after;
    var b, o := |before|, |obj|;
    forall i | 0 <= i < |s| ensures s[i] != '`' {
      if i < b {
        assert s[i] == before[i];
      } else if i < b + o {
        assert s[i] == obj[i - b];
      } else {
        assert s[i] == after[i - b - o];
      }
    }
    NoBacktickNoFence(s);
    forall i | 0 <= i < b ensures s[i] != '{' {
      assert s[i] == before[i];
    }
    forall i | b + o <= i < |s| ensures s[i] != '}' {
      assert s[i] == after[i - b - o];
    }
    assert s[b] == '{' && s[b + o - 1] == '}';
    assert IsBraceMatch(s, Span(b, b + o));
    var sp := FindBraceSpan(s).value;
    assert sp == Span(b, b + o);
    assert s[b..b + o] == obj;
    UnfencedExtract(s);
    TrimFixpoints(obj);
  }

  /** Where the pieces of a fenced reply sit. */
  lemma FencedLayout(before: string, obj: string, after: string)
    ensures var s := before + FencedOpening + obj + FencedClosing + after;
      && |s| == |before| + |obj| + |after| + 12
      && s[..|before|] == before
      && s[|before|..|before| + 8] == FencedOpening
      && s[|before| + 8..|before| + 8 + |obj|] == obj
      && s[|before| + 8 + |obj|..|before| + 12 + |obj|] == FencedClosing
  {
  }

  /** The pattern matches a fenced reply with the group exactly the object. */
  lemma FencedMatchExists(s: string, b: nat, obj: string)
    requires b + 12 + |obj| <= |s|
    requires s[b..b + 8] == FencedOpening
    requires s[b + 8..b + 8 + |obj|] == obj
    requires s[b + 8 + |obj|..b + 12 + |obj|] == FencedClosing
    ensures IsFenceMatch(s, FenceMatch(b, b + 7, b + 8, b + 8 + |obj|, b + 9 + |obj|))
  {
    var o := |obj|;
    forall k | 0 <= k < 3 ensures s[b + k] == Fence[k] {
      assert s[b + k] == s[b..b + 8][k] == FencedOpening[k];
    }
    forall k | 0 <= k < 4 ensures s[b + 3 + k] == JsonTag[k] {
      assert s[b + 3 + k] == s[b..b + 8][3 + k] == FencedOpening[3 + k];
    }
    assert s[b + 7] == s[b..b + 8][7] == '\n';
    assert s[b + 8 + o] == s[b + 8 + o..b + 12 + o][0] == '\n';
    forall k | 0 <= k < 3 ensures s[b + 9 + o + k] == Fence[k] {
      assert s[b + 9 + o + k] == s[b + 8 + o..b + 12 + o][1 + k] == FencedClosing[1 + k];
    }
  }

  /** In a reply laid out as prose, fenced object, anything, the search
      finds exactly the object's block. */
  lemma FencedBlockFound(s: string, b: nat, obj: string)
    requires IsObjectText(obj)
    requires b + 12 + |obj| <= |s|
    requires Lacks(s[..b], '`')
    requires s[b..b + 8] == FencedOpening
    requires s[b + 8..b + 8 + |obj|] == obj
    requires s[b + 8 + |obj|..b + 12 + |obj|] == FencedClosing
    ensures FindFence(s) == Some(FenceMatch(b, b + 7, b + 8, b + 8 + |obj|, b + 9 + |obj|))
  {
    FencedMatchExists(s, b, obj);
    FoundIsReported(s);
    ReportedBlockIs(s, b, obj, FindFence(s).value);
  }

  /** The reported match in such a reply is the object's block. */
  lemma ReportedBlockIs(s: string, b: nat, obj: string, m: FenceMatch)
    requires IsObjectText(obj)
    requires b + 12 + |obj| <= |s|
    requires Lacks(s[..b], '`')
    requires s[b..b + 8] == FencedOpening
    requires s[b + 8..b + 8 + |obj|] == obj
    requires s[b + 8 + |obj|..b + 12 + |obj|] == FencedClosing
    requires IsReportedMatch(s, m)
    ensures m == FenceMatch(b, b + 7, b + 8, b + 8 + |obj|, b + 9 + |obj|)
  {
    var o := |obj|;
    FencedMatchExists(s, b, obj);
    forall i | 0 <= i < b ensures s[i] != '`' {
      assert s[i] == s[..b][i];
    }
    forall i | b + 8 <= i < b + 8 + o ensures s[i] != '`' {
      assert s[i] == s[b + 8..b + 8 + o][i - b - 8];
    }
    assert s[b + 8 + o] == s[b + 8 + o..b + 12 + o][0];
    assert s[b + 8] == obj[0] && s[b + 7 + o] == obj[o - 1];
    MatchOrder(s, m);
    FenceOpensWithBacktick(s, m.open);
    assert m.open == b;
    NonSpaceOutside(s, m.tagEnd, m.groupStart, b + 8);
    assert m.groupStart == b + 8;
    assert s[b + 3] == s[b..b + 8][3] == FencedOpening[3];
    assert m.tagEnd == b + 7;
    FenceOpensWithBacktick(s, m.close);
    assert b + 9 + o <= m.close;
    NonSpaceOutside(s, m.groupEnd, m.close, b + 7 + o);
    assert m.groupEnd == b + 8 + o;
    assert m.close == b + 9 + o;
  }

  /** Given that layout, the parser is handed exactly the object. */
  lemma FencedObjectExtracted(s: string, b: nat, obj: string)
    requires IsObjectText(obj)
    requires b + 12 + |obj| <= |s|
    requires Lacks(s[..b], '`')
    requires s[b..b + 8] == FencedOpening
    requires s[b + 8..b + 8 + |obj|] == obj
    requires s[b + 8 + |obj|..b + 12 + |obj|] == FencedClosing
    ensures ExtractJson(s) == obj
  {
    FencedBlockFound(s, b, obj);
    assert Candidate(s) == s[b + 8..b + 8 + |obj|];
    TrimFixpoints(obj);
  }

  /** An object in a ```` ```json ```` block, after prose without backticks,
      yields exactly the object text, whatever follows the block. */
  lemma FencedReplyExtract(before: string, obj: string, after: string)
    requires IsObjectText(obj)
    requires Lacks(before, '`')
    ensures ExtractJson(before + FencedOpening + obj + FencedClosing + after) == obj
  {
    FencedLayout(before, obj, after);
    FencedObjectExtracted(before + FencedOpening + obj + FencedClosing + after, |before|, obj);
  }
}
