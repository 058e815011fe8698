/** The whitespace clean-up applied to the visible text of a fetched page
    before it is used as a query: split into lines, strip each line, split
    each line at double spaces, strip each phrase, drop empty phrases and
    join the rest with newlines. */
module TextCleanup {
  import opened Wrappers
  import opened Strings

  /** The first line-break character at or after `from`. */
  function FindLineBreak(s: string, from: nat): (r: Option<nat>)
    ensures r.Some? ==> from <= r.value < |s| && IsLineBreak(s[r.value])
    ensures forall j :: from <= j < |s| && (r.None? || j < r.value) ==> !IsLineBreak(s[j])
    decreases |s| - from
  {
    if from >= |s| then None
    else if IsLineBreak(s[from]) then Some(from)
    else FindLineBreak(s, from + 1)
  }

  /** Python's `str.splitlines()`: "\r\n" ends a line once, and a final
      line break does not open an empty last line. */
  function SplitLines(s: string): (r: seq<string>)
    ensures s == [] <==> r == []
    ensures forall k :: 0 <= k < |r| ==> NoLineBreak(r[k])
    decreases |s|
  {
    if s == [] then []
    else match FindLineBreak(s, 0)
      case None => [s]
      case Some(i) =>
        var w := if s[i] == '\r' && i + 1 < |s| && s[i + 1] == '\n' then 2 else 1;
        [s[..i]] + SplitLines(s[i + w..])
  }

  lemma InfixOfSuffix(t: string, s: string, k: nat)
    requires k <= |s| && IsInfix(t, s[k..])
    ensures IsInfix(t, s)
  {
    var i :| HasAt(s[k..], t, i);
    assert HasAt(s, t, k + i);
  }

  lemma PrefixOfIsInfix(s: string, k: nat)
    requires k <= |s|
    ensures IsInfix(s[..k], s)
  {
    assert HasAt(s, s[..k], 0);
  }

  /** Every line is a piece of the text. */
  lemma {:induction false} SplitLinesInfix(s: string)
    ensures AllInfix(SplitLines(s), s)
    decreases |s|
  {
    if s != [] {
      match FindLineBreak(s, 0)
      case None =>
        SplitLinesSingle(s);
        PrefixOfIsInfix(s, |s|);
        assert s[..|s|] == s;
      case Some(i) =>
        var w := if s[i] == '\r' && i + 1 < |s| && s[i + 1] == '\n' then 2 else 1;
        SplitLinesStep(s, i, w);
        SplitLinesInfix(s[i + w..]);
        AllInfixOfSuffix(SplitLines(s[i + w..]), s, i + w);
        PrefixOfIsInfix(s, i);
        AllInfixCons(s[..i], SplitLines(s[i + w..]), s);
    }
  }

  lemma SplitLinesStep(s: string, i: nat, w: nat)
    requires s != [] && FindLineBreak(s, 0) == Some(i)
    requires w == if s[i] == '\r' && i + 1 < |s| && s[i + 1] == '\n' then 2 else 1
    ensures SplitLines(s) == [s[..i]] + SplitLines(s[i + w..])
  {
  }

  lemma AllInfixOfSuffix(xs: seq<string>, s: string, k: nat)
    requires k <= |s| && AllInfix(xs, s[k..])
    ensures AllInfix(xs, s)
  {
    forall j | 0 <= j < |xs| ensures IsInfix(xs[j], s) {
      InfixOfSuffix(xs[j], s, k);
    }
  }

  lemma AllInfixCons(x: string, xs: seq<string>, t: string)
    requires IsInfix(x, t) && AllInfix(xs, t)
    ensures AllInfix([x] + xs, t)
  {
    forall j | 0 <= j < |[x] + xs| ensures IsInfix(([x] + xs)[j], t) {
      if j > 0 {
        assert ([x] + xs)[j] == xs[j - 1];
      }
    }
  }

  /** No two consecutive spaces. */
  predicate NoDoubleSpace(s: string) {
    forall i :: 0 <= i < |s| - 1 ==> !(s[i] == ' ' && s[i + 1] == ' ')
  }

  /** `s.split("  ")`: the pieces between the non-overlapping occurrences of
      two spaces, found from the left. */
  function SplitDoubleSpace(s: string): (r: seq<string>)
    ensures |r| >= 1
    ensures |r[0]| <= |s| && r[0] == s[..|r[0]|]
    ensures forall k :: 0 <= k < |r| ==> NoDoubleSpace(r[k])
    ensures |r| > 1 ==> |r[0]| + 2 <= |s| && s[|r[0]|] == ' ' && s[|r[0]| + 1] == ' '
    ensures forall k :: 0 <= k < |r| - 1 ==> r[k] == [] || r[k][|r[k]| - 1] != ' '
    decreases |s|
  {
    if |s| < 2 then [s]
    else if s[0] == ' ' && s[1] == ' ' then
      var rest := SplitDoubleSpace(s[2..]);
      PiecesCons([], rest);
      [[]] + rest
    else
      var rest := SplitDoubleSpace(s[1..]);
      var first := [s[0]] + rest[0];
      FirstPiece(s, rest);
      PiecesNewHead(first, rest);
      [first] + rest[1..]
  }

  /** Pieces that hold no double space, each but the last empty or ending
      in a non-space. */
  predicate LeftmostPieces(r: seq<string>) {
    && (forall k :: 0 <= k < |r| ==> NoDoubleSpace(r[k]))
    && (forall k :: 0 <= k < |r| - 1 ==> r[k] == [] || r[k][|r[k]| - 1] != ' ')
  }

  lemma PiecesCons(x: string, xs: seq<string>)
    requires LeftmostPieces(xs) && NoDoubleSpace(x)
    requires xs != [] ==> x == [] || x[|x| - 1] != ' '
    ensures LeftmostPieces([x] + xs)
  {
    var r := [x] + xs;
    forall k | 1 <= k < |r| ensures r[k] == xs[k - 1] {
    }
  }

  lemma PiecesNewHead(x: string, xs: seq<string>)
    requires xs != [] && LeftmostPieces(xs) && NoDoubleSpace(x)
    requires |xs| > 1 ==> x == [] || x[|x| - 1] != ' '
    ensures LeftmostPieces([x] + xs[1..])
  {
    var r := [x] + xs[1..];
    forall k | 1 <= k < |r| ensures r[k] == xs[k] {
    }
  }

  /** The first piece when the line does not start with two spaces: its
      first character in front of the first piece of the rest. */
  lemma FirstPiece(s: string, rest: seq<string>)
    requires |s| >= 2 && !(s[0] == ' ' && s[1] == ' ')
    requires |rest| >= 1 && |rest[0]| <= |s| - 1 && rest[0] == s[1..][..|rest[0]|]
    requires NoDoubleSpace(rest[0])
    requires |rest| > 1 ==> |rest[0]| + 2 <= |s| - 1 && s[1..][|rest[0]|] == ' ' && s[1..][|rest[0]| + 1] == ' '
    requires |rest| > 1 ==> rest[0] == [] || rest[0][|rest[0]| - 1] != ' '
    ensures var first := [s[0]] + rest[0];
      && first == s[..|first|] && NoDoubleSpace(first)
      && (|rest| > 1 ==> s[|first|] == ' ' && s[|first| + 1] == ' ' && first[|first| - 1] != ' ')
  {
    var first := [s[0]] + rest[0];
    assert first == s[..|first|];
    if |first| >= 2 {
      assert first[1] == s[1];
    }
    forall i | 1 <= i < |first| - 1 ensures !(first[i] == ' ' && first[i + 1] == ' ') {
      assert first[i] == rest[0][i - 1] && first[i + 1] == rest[0][i];
    }
    if |rest| > 1 {
      assert s[1..][|rest[0]|] == s[|first|];
      assert s[1..][|rest[0]| + 1] == s[|first| + 1];
      if rest[0] != [] {
        assert first[|first| - 1] == rest[0][|rest[0]| - 1];
      }
    }
  }

  /** Every piece is a piece of the line. */
  lemma {:induction false} SplitDoubleSpaceInfix(s: string)
    ensures forall k :: 0 <= k < |SplitDoubleSpace(s)| ==> IsInfix(SplitDoubleSpace(s)[k], s)
    decreases |s|
  {
    var r := SplitDoubleSpace(s);
    if |s| < 2 {
      PrefixOfIsInfix(s, |s|);
      assert s[..|s|] == s;
    } else {
      var d := if s[0] == ' ' && s[1] == ' ' then 2 else 1;
      var rest := SplitDoubleSpace(s[d..]);
      SplitDoubleSpaceInfix(s[d..]);
      PrefixOfIsInfix(s, |r[0]|);
      forall k | 1 <= k < |r| ensures IsInfix(r[k], s) {
        if d == 2 {
          assert r == [[]] + rest;
          assert r[k] == rest[k - 1];
          InfixOfSuffix(rest[k - 1], s, d);
        } else {
          assert r == [r[0]] + rest[1..];
          assert r[k] == rest[k];
          InfixOfSuffix(rest[k], s, d);
        }
      }
    }
  }

  /** Joining the pieces back with two spaces restores the line. */
  lemma {:induction false} JoinSplitDoubleSpace(s: string)
    ensures Join("  ", SplitDoubleSpace(s)) == s
    decreases |s|
  {
    if |s| >= 2 {
      if s[0] == ' ' && s[1] == ' ' {
        SplitAtLeadingDoubleSpace(s);
        JoinSplitDoubleSpace(s[2..]);
        JoinCons("  ", [], SplitDoubleSpace(s[2..]));
        LeadingDoubleSpace(s);
      } else {
        SplitWithoutLeadingDoubleSpace(s);
        JoinSplitDoubleSpace(s[1..]);
        JoinPrependChar("  ", s[0], SplitDoubleSpace(s[1..]));
        HeadTail(s);
      }
    }
  }

  /** A list of pieces is what `split("  ")` returns for its two-space
      join exactly when no piece holds a double space and every piece but
      the last is empty or ends in a non-space: the cuts are then the
      leftmost ones. */
  lemma {:induction false} SplitDoubleSpaceUnique(xs: seq<string>)
    requires |xs| >= 1 && LeftmostPieces(xs)
    ensures SplitDoubleSpace(Join("  ", xs)) == xs
  {
    if |xs| == 1 {
      SplitNoDoubleSpace(xs[0]);
    } else {
      var rest := xs[1..];
      forall k | 0 <= k < |rest| ensures NoDoubleSpace(rest[k]) {
        assert rest[k] == xs[k + 1];
      }
      forall k | 0 <= k < |rest| - 1 ensures rest[k] == [] || rest[k][|rest[k]| - 1] != ' ' {
        assert rest[k] == xs[k + 1];
      }
      SplitDoubleSpaceUnique(rest);
      JoinCons("  ", xs[0], rest);
      HeadTail(xs);
      SplitAfterPiece(xs[0], Join("  ", rest));
    }
  }

  /** A piece without a double space and not ending in a space, followed by
      two spaces, is the first piece of the split. */
  lemma {:induction false} SplitAfterPiece(x: string, t: string)
    requires NoDoubleSpace(x) && (x == [] || x[|x| - 1] != ' ')
    ensures SplitDoubleSpace(x + "  " + t) == [x] + SplitDoubleSpace(t)
    decreases |x|
  {
    var s := x + "  " + t;
    if x == [] {
      assert s == "  " + t;
      assert s[2..] == t;
      SplitAtLeadingDoubleSpace(s);
    } else {
      var x1 := x[1..];
      assert s[1..] == x1 + "  " + t;
      PieceTail(x);
      SplitAfterPiece(x1, t);
      assert s[0] == x[0];
      if |x| >= 2 {
        assert s[1] == x[1];
      } else {
        assert s[0] == x[|x| - 1];
      }
      SplitWithoutLeadingDoubleSpace(s);
      assert [s[0]] + x1 == x;
    }
  }

  lemma PieceTail(x: string)
    requires x != [] && NoDoubleSpace(x) && x[|x| - 1] != ' '
    ensures NoDoubleSpace(x[1..]) && (x[1..] == [] || x[1..][|x| - 2] != ' ')
  {
    var x1 := x[1..];
    forall i | 0 <= i < |x1| - 1 ensures !(x1[i] == ' ' && x1[i + 1] == ' ') {
      assert x1[i] == x[i + 1] && x1[i + 1] == x[i + 2];
    }
  }

  lemma SplitAtLeadingDoubleSpace(s: string)
    requires |s| >= 2 && s[0] == ' ' && s[1] == ' '
    ensures SplitDoubleSpace(s) == [[]] + SplitDoubleSpace(s[2..])
  {
  }

  lemma SplitWithoutLeadingDoubleSpace(s: string)
    requires |s| >= 2 && !(s[0] == ' ' && s[1] == ' ')
    ensures SplitDoubleSpace(s) ==
      [[s[0]] + SplitDoubleSpace(s[1..])[0]] + SplitDoubleSpace(s[1..])[1..]
  {
  }

  lemma LeadingDoubleSpace(s: string)
    requires |s| >= 2 && s[0] == ' ' && s[1] == ' '
    ensures s == "  " + s[2..]
  {
  }

  lemma JoinCons(sep: string, x: string, rest: seq<string>)
    requires rest != []
    ensures Join(sep, [x] + rest) == x + sep + Join(sep, rest)
  {
    assert ([x] + rest)[1..] == rest;
  }

  /** A character put in front of the first piece comes out in front of the
      joined text. */
  lemma JoinPrependChar(sep: string, ch: char, xs: seq<string>)
    requires xs != []
    ensures Join(sep, [[ch] + xs[0]] + xs[1..]) == [ch] + Join(sep, xs)
  {
    if |xs| == 1 {
      assert [[ch] + xs[0]] + xs[1..] == [[ch] + xs[0]];
    } else {
      JoinCons(sep, [ch] + xs[0], xs[1..]);
      JoinCons(sep, xs[0], xs[1..]);
      HeadTail(xs);
    }
  }

  /** A line of the cleaned text: non-empty, no surrounding whitespace, no
      two consecutive spaces and no line break. */
  predicate IsCleanChunk(c: string) {
    && c != []
    && !IsSpace(c[0]) && !IsSpace(c[|c| - 1])
    && NoDoubleSpace(c)
    && NoLineBreak(c)
  }

  lemma InfixKeepsClean(t: string, s: string)
    requires IsInfix(t, s)
    ensures NoDoubleSpace(s) ==> NoDoubleSpace(t)
    ensures NoLineBreak(s) ==> NoLineBreak(t)
  {
    var i :| HasAt(s, t, i);
    forall j | 0 <= j < |t| ensures t[j] == s[i + j] {
      assert t[j] == s[i..i + |t|][j];
    }
  }

  lemma StripKeepsClean(s: string)
    ensures NoDoubleSpace(s) ==> NoDoubleSpace(Strip(s))
    ensures NoLineBreak(s) ==> NoLineBreak(Strip(s))
  {
    StripIsInfix(s);
    InfixKeepsClean(Strip(s), s);
  }

  /** Every element of `cs` is a clean chunk. */
  predicate AllClean(cs: seq<string>) {
    forall k :: 0 <= k < |cs| ==> IsCleanChunk(cs[k])
  }

  /** Every element of `xs` is a piece of `t`. */
  ghost predicate AllInfix(xs: seq<string>, t: string) {
    forall k :: 0 <= k < |xs| ==> IsInfix(xs[k], t)
  }

  lemma AllCleanAppend(a: seq<string>, b: seq<string>)
    requires AllClean(a) && AllClean(b)
    ensures AllClean(a + b)
  {
    forall k | 0 <= k < |a + b| ensures IsCleanChunk((a + b)[k]) {
      if k < |a| {
        assert (a + b)[k] == a[k];
      } else {
        assert (a + b)[k] == b[k - |a|];
      }
    }
  }

  lemma AllInfixAppend(a: seq<string>, b: seq<string>, t: string)
    requires AllInfix(a, t) && AllInfix(b, t)
    ensures AllInfix(a + b, t)
  {
    forall k | 0 <= k < |a + b| ensures IsInfix((a + b)[k], t) {
      if k < |a| {
        assert (a + b)[k] == a[k];
      } else {
        assert (a + b)[k] == b[k - |a|];
      }
    }
  }

  /** The phrases stripped, with the ones that strip to nothing dropped. */
  function StripNonEmpty(phrases: seq<string>): seq<string> {
    if phrases == [] then []
    else
      var c := Strip(phrases[0]);
      (if c == [] then [] else [c]) + StripNonEmpty(phrases[1..])
  }

  lemma StripNonEmptyStep(phrases: seq<string>)
    requires phrases != []
    ensures StripNonEmpty(phrases) ==
      (if Strip(phrases[0]) == [] then [] else [Strip(phrases[0])]) + StripNonEmpty(phrases[1..])
  {
  }

  /** Stripped phrases that had no double space and no line break are
      clean chunks. */
  lemma {:induction false} StripNonEmptyClean(phrases: seq<string>)
    requires forall j :: 0 <= j < |phrases| ==> NoDoubleSpace(phrases[j]) && NoLineBreak(phrases[j])
    ensures AllClean(StripNonEmpty(phrases))
  {
    if phrases != [] {
      var c := Strip(phrases[0]);
      PhrasesTail(phrases);
      StripNonEmptyClean(phrases[1..]);
      StrippedPhraseClean(phrases[0]);
      StripNonEmptyStep(phrases);
      AllCleanAppend(if c == [] then [] else [c], StripNonEmpty(phrases[1..]));
    }
  }

  lemma PhrasesTail(phrases: seq<string>)
    requires phrases != []
    requires forall j :: 0 <= j < |phrases| ==> NoDoubleSpace(phrases[j]) && NoLineBreak(phrases[j])
    ensures forall j :: 0 <= j < |phrases| - 1 ==> NoDoubleSpace(phrases[1..][j]) && NoLineBreak(phrases[1..][j])
  {
    forall j | 0 <= j < |phrases| - 1 ensures NoDoubleSpace(phrases[1..][j]) && NoLineBreak(phrases[1..][j]) {
      assert phrases[1..][j] == phrases[j + 1];
    }
  }

  lemma StrippedPhraseClean(p: string)
    requires NoDoubleSpace(p) && NoLineBreak(p)
    ensures AllClean(if Strip(p) == [] then [] else [Strip(p)])
  {
    var c := Strip(p);
    StripKeepsClean(p);
    if c != [] {
      assert IsCleanChunk(c);
      SingleClean(c);
    }
  }

  lemma SingleClean(c: string)
    requires IsCleanChunk(c)
    ensures AllClean([c])
  {
  }

  lemma {:induction false} StripNonEmptyInfix(phrases: seq<string>, t: string)
    requires AllInfix(phrases, t)
    ensures AllInfix(StripNonEmpty(phrases), t)
  {
    if phrases != [] {
      var c := Strip(phrases[0]);
      AllInfixTail(phrases, t);
      StripNonEmptyInfix(phrases[1..], t);
      StrippedPhraseInfix(phrases[0], t);
      StripNonEmptyStep(phrases);
      AllInfixAppend(if c == [] then [] else [c], StripNonEmpty(phrases[1..]), t);
    }
  }

  lemma AllInfixTail(xs: seq<string>, t: string)
    requires xs != [] && AllInfix(xs, t)
    ensures AllInfix(xs[1..], t)
  {
    forall j | 0 <= j < |xs| - 1 ensures IsInfix(xs[1..][j], t) {
      assert xs[1..][j] == xs[j + 1];
    }
  }

  lemma StrippedPhraseInfix(p: string, t: string)
    requires IsInfix(p, t)
    ensures AllInfix(if Strip(p) == [] then [] else [Strip(p)], t)
  {
    StripIsInfix(p);
    InfixTransitive(Strip(p), p, t);
  }

  /** The chunks one line contributes. */
  function LineChunks(line: string): seq<string> {
    StripNonEmpty(SplitDoubleSpace(Strip(line)))
  }

  /** The phrases of a line are pieces of it. */
  lemma LinePhrasesInfix(line: string)
    ensures AllInfix(SplitDoubleSpace(Strip(line)), line)
  {
    var phrases := SplitDoubleSpace(Strip(line));
    StripIsInfix(line);
    SplitDoubleSpaceInfix(Strip(line));
    forall j | 0 <= j < |phrases| ensures IsInfix(phrases[j], line) {
      InfixTransitive(phrases[j], Strip(line), line);
    }
  }

  lemma LineChunksClean(line: string)
    requires NoLineBreak(line)
    ensures AllClean(LineChunks(line))
  {
    var phrases := SplitDoubleSpace(Strip(line));
    LinePhrasesInfix(line);
    forall j | 0 <= j < |phrases| ensures NoLineBreak(phrases[j]) {
      InfixKeepsClean(phrases[j], line);
    }
    StripNonEmptyClean(phrases);
  }

  lemma LineChunksInfix(line: string, t: string)
    requires IsInfix(line, t)
    ensures AllInfix(LineChunks(line), t)
  {
    var phrases := SplitDoubleSpace(Strip(line));
    LinePhrasesInfix(line);
    forall j | 0 <= j < |phrases| ensures IsInfix(phrases[j], t) {
      InfixTransitive(phrases[j], line, t);
    }
    StripNonEmptyInfix(phrases, t);
  }

  /** The chunks of all lines, in line order. */
  function Chunks(lines: seq<string>): seq<string> {
    if lines == [] then [] else LineChunks(lines[0]) + Chunks(lines[1..])
  }

  lemma {:induction false} ChunksClean(lines: seq<string>)
    requires forall j :: 0 <= j < |lines| ==> NoLineBreak(lines[j])
    ensures AllClean(Chunks(lines))
  {
    if lines != [] {
      LineChunksClean(lines[0]);
      ChunksClean(lines[1..]);
      AllCleanAppend(LineChunks(lines[0]), Chunks(lines[1..]));
    }
  }

  lemma {:induction false} ChunksInfix(lines: seq<string>, t: string)
    requires AllInfix(lines, t)
    ensures AllInfix(Chunks(lines), t)
  {
    if lines != [] {
      LineChunksInfix(lines[0], t);
      AllInfixTail(lines, t);
      ChunksInfix(lines[1..], t);
      AllInfixAppend(LineChunks(lines[0]), Chunks(lines[1..]), t);
    }
  }

  /** The cleaned text of a page. */
  function Cleanup(text: string): string {
    Join("\n", Chunks(SplitLines(text)))
  }

  /** Splitting the joined clean chunks into lines gives the chunks back. */
  lemma {:induction false} SplitLinesOfJoin(cs: seq<string>)
    requires AllClean(cs)
    ensures SplitLines(Join("\n", cs)) == cs
  {
    if |cs| == 1 {
      SplitLinesSingle(cs[0]);
    } else if |cs| > 1 {
      AllCleanTail(cs);
      SplitLinesOfJoin(cs[1..]);
      JoinCons("\n", cs[0], cs[1..]);
      HeadTail(cs);
      SplitLinesCons(cs[0], Join("\n", cs[1..]));
    }
  }

  /** A line without line breaks followed by a newline is the first line,
      also when it is empty. */
  lemma SplitLinesCons(c: string, tail: string)
    requires NoLineBreak(c)
    ensures SplitLines(c + "\n" + tail) == [c] + SplitLines(tail)
  {
    assert c + "\n" + tail == c + ['\n'] + tail;
    SplitLinesAtBreak(c, '\n', tail);
  }

  /** The first line ends at the first line-break character, which is
      dropped; the next line starts right after it. */
  lemma SplitLinesAtBreak(c: string, b: char, tail: string)
    requires NoLineBreak(c) && IsLineBreak(b)
    requires !(b == '\r' && tail != [] && tail[0] == '\n')
    ensures SplitLines(c + [b] + tail) == [c] + SplitLines(tail)
  {
    var s := c + [b] + tail;
    FirstBreakAt(c, [b] + tail);
    assert s == c + ([b] + tail);
    assert s[..|c|] == c;
    assert s[|c| + 1..] == tail;
  }

  /** "\r\n" ends a line once: both characters are dropped. */
  lemma SplitLinesAtCrLf(c: string, tail: string)
    requires NoLineBreak(c)
    ensures SplitLines(c + "\r\n" + tail) == [c] + SplitLines(tail)
  {
    var s := c + "\r\n" + tail;
    FirstBreakAt(c, "\r\n" + tail);
    assert s == c + ("\r\n" + tail);
    assert s[..|c|] == c;
    assert s[|c| + 2..] == tail;
  }

  /** In `c + rest` with no break in `c` and one at the start of `rest`,
      the first line break is at `|c|`. */
  lemma FirstBreakAt(c: string, rest: string)
    requires NoLineBreak(c) && rest != [] && IsLineBreak(rest[0])
    ensures FindLineBreak(c + rest, 0) == Some(|c|)
    ensures (c + rest)[|c|] == rest[0]
    ensures |c| + 1 < |c + rest| ==> (c + rest)[|c| + 1] == rest[1]
  {
    var s := c + rest;
    forall j | 0 <= j < |c| ensures !IsLineBreak(s[j]) {
      assert s[j] == c[j];
    }
    assert s[|c|] == rest[0];
  }

  /** Splitting a text whose only line breaks are "\n", none at the end,
      and joining the lines with "\n" gives the text back. */
  lemma {:induction false} JoinSplitLines(s: string)
    requires forall i :: 0 <= i < |s| && IsLineBreak(s[i]) ==> s[i] == '\n'
    requires s == [] || s[|s| - 1] != '\n'
    ensures Join("\n", SplitLines(s)) == s
    decreases |s|
  {
    if s != [] {
      match FindLineBreak(s, 0)
      case None =>
        SplitLinesSingle(s);
      case Some(i) =>
        assert s[i] == '\n';
        var tail := s[i + 1..];
        assert s == s[..i] + "\n" + tail;
        NoLineBreakPrefix(s, i);
        SplitLinesCons(s[..i], tail);
        assert tail != [];
        assert tail[|tail| - 1] == s[|s| - 1];
        forall j | 0 <= j < |tail| && IsLineBreak(tail[j]) ensures tail[j] == '\n' {
          assert tail[j] == s[i + 1 + j];
        }
        JoinSplitLines(tail);
        JoinCons("\n", s[..i], SplitLines(tail));
    }
  }

  lemma NoLineBreakPrefix(s: string, i: nat)
    requires FindLineBreak(s, 0) == Some(i)
    ensures NoLineBreak(s[..i])
  {
    forall j | 0 <= j < i ensures !IsLineBreak(s[..i][j]) {
      assert s[..i][j] == s[j];
    }
  }

  /** Every line of the cleaned text is a clean chunk taken from the page
      text, and the lines are the chunks in the order they were found. */
  lemma CleanupLines(text: string)
    ensures SplitLines(Cleanup(text)) == Chunks(SplitLines(text))
    ensures forall k :: 0 <= k < |SplitLines(Cleanup(text))| ==>
      IsCleanChunk(SplitLines(Cleanup(text))[k]) && IsInfix(SplitLines(Cleanup(text))[k], text)
  {
    var lines := SplitLines(text);
    SplitLinesInfix(text);
    ChunksClean(lines);
    SplitLinesOfJoin(Chunks(lines));
    ChunksInfix(lines, text);
  }

  /** A page whose text is whitespace only cleans to the empty string. */
  lemma BlankPageCleansToEmpty(text: string)
    requires AllSpace(text)
    ensures Cleanup(text) == []
  {
    var cs := Chunks(SplitLines(text));
    SplitLinesInfix(text);
    ChunksClean(SplitLines(text));
    ChunksInfix(SplitLines(text), text);
    if cs != [] {
      CleanChunkNotInBlank(cs[0], text);
    }
  }

  lemma CleanChunkNotInBlank(c: string, s: string)
    requires IsCleanChunk(c) && AllSpace(s)
    ensures !IsInfix(c, s)
  {
  }

  /** A non-empty text without line breaks is a single line. */
  lemma SplitLinesSingle(s: string)
    requires s != [] && NoLineBreak(s)
    ensures SplitLines(s) == [s]
  {
    assert FindLineBreak(s, 0).None?;
  }

  /** A piece without two consecutive spaces is not split. */
  lemma {:induction false} SplitNoDoubleSpace(s: string)
    requires NoDoubleSpace(s)
    ensures SplitDoubleSpace(s) == [s]
    decreases |s|
  {
    if |s| >= 2 {
      SplitNoDoubleSpace(s[1..]);
      assert [s[0]] + s[1..] == s;
    }
  }

  /** The first double space after a piece that has none, and does not end
      in a space, ends the first piece. */
  lemma {:induction false} SplitAtFirstDoubleSpace(a: string, b: string)
    requires NoDoubleSpace(a) && (a == [] || a[|a| - 1] != ' ')
    ensures SplitDoubleSpace(a + "  " + b) == [a] + SplitDoubleSpace(b)
    decreases |a|
  {
    var s := a + "  " + b;
    if a == [] {
      assert s == "  " + b;
      SplitAtLeadingDoubleSpace(s);
      assert s[2..] == b;
    } else {
      assert s[0] == a[0];
      assert s[1] == if |a| >= 2 then a[1] else ' ';
      SplitWithoutLeadingDoubleSpace(s);
      assert s[1..] == a[1..] + "  " + b;
      assert NoDoubleSpace(a[1..]) by {
        forall i | 0 <= i < |a| - 2 ensures !(a[1..][i] == ' ' && a[1..][i + 1] == ' ') {
          assert a[1..][i] == a[i + 1] && a[1..][i + 1] == a[i + 2];
        }
      }
      SplitAtFirstDoubleSpace(a[1..], b);
      HeadTail(a);
    }
  }

  lemma StripUnchanged(s: string)
    requires s != [] && !IsSpace(s[0]) && !IsSpace(s[|s| - 1])
    ensures Strip(s) == s
  {
    assert TrimLeft(s) == s;
  }

  /** Stripped non-empty pieces pass through unchanged. */
  lemma {:induction false} StripNonEmptyOfStripped(xs: seq<string>)
    requires forall k :: 0 <= k < |xs| ==> xs[k] != [] && !IsSpace(xs[k][0]) && !IsSpace(xs[k][|xs[k]| - 1])
    ensures StripNonEmpty(xs) == xs
  {
    if xs != [] {
      StripUnchanged(xs[0]);
      forall k | 0 <= k < |xs| - 1
        ensures xs[1..][k] != [] && !IsSpace(xs[1..][k][0]) && !IsSpace(xs[1..][k][|xs[1..][k]| - 1])
      {
        assert xs[1..][k] == xs[k + 1];
      }
      StripNonEmptyOfStripped(xs[1..]);
      StripNonEmptyStep(xs);
      HeadTail(xs);
    }
  }

  /** A double space inside a line separates two output lines: for
      instance the text "Hello  World" of a page `<p>Hello  World</p>`
      cleans to "Hello\nWorld". */
  lemma DoubleSpaceSplitsLine(a: string, b: string)
    requires IsCleanChunk(a) && IsCleanChunk(b)
    ensures Cleanup(a + "  " + b) == a + "\n" + b
  {
    var text := a + "  " + b;
    TwoPhraseLine(a, b);
    SplitLinesSingle(text);
    StripNonEmptyOfStripped([a, b]);
    ChunksSingle(text);
    JoinTwo("\n", a, b);
  }

  lemma TwoPhraseLine(a: string, b: string)
    requires IsCleanChunk(a) && IsCleanChunk(b)
    ensures NoLineBreak(a + "  " + b) && a + "  " + b != []
    ensures Strip(a + "  " + b) == a + "  " + b
    ensures SplitDoubleSpace(a + "  " + b) == [a, b]
  {
    var text := a + "  " + b;
    forall i | 0 <= i < |text| ensures !IsLineBreak(text[i]) {
      if i < |a| {
        assert text[i] == a[i];
      } else if i >= |a| + 2 {
        assert text[i] == b[i - |a| - 2];
      }
    }
    assert text[0] == a[0] && text[|text| - 1] == b[|b| - 1];
    StripUnchanged(text);
    SplitAtFirstDoubleSpace(a, b);
    SplitNoDoubleSpace(b);
  }

  /** A clean chunk is a line of its own and passes through unchanged. */
  lemma CleanChunkUnchanged(c: string)
    requires IsCleanChunk(c)
    ensures LineChunks(c) == [c]
  {
    StripUnchanged(c);
    SplitNoDoubleSpace(c);
    StrippedPhraseKept(c);
  }

  lemma StrippedPhraseKept(c: string)
    requires c != [] && !IsSpace(c[0]) && !IsSpace(c[|c| - 1])
    ensures StripNonEmpty([c]) == [c]
  {
    StripUnchanged(c);
    assert [c][1..] == [];
  }

  lemma AllCleanTail(cs: seq<string>)
    requires cs != [] && AllClean(cs)
    ensures AllClean(cs[1..])
  {
    forall k | 0 <= k < |cs| - 1 ensures IsCleanChunk(cs[1..][k]) {
      assert cs[1..][k] == cs[k + 1];
    }
  }

  /** A clean chunk in front of chunks that pass through unchanged passes
      through with them. */
  lemma ChunksConsClean(cs: seq<string>)
    requires cs != [] && LineChunks(cs[0]) == [cs[0]] && Chunks(cs[1..]) == cs[1..]
    ensures Chunks(cs) == cs
  {
    ChunksUnfold(cs);
    HeadTail(cs);
  }

  lemma ChunksSingle(line: string)
    ensures Chunks([line]) == LineChunks(line)
  {
    assert [line][1..] == [];
    ChunksUnfold([line]);
  }

  lemma ChunksUnfold(cs: seq<string>)
    requires cs != []
    ensures Chunks(cs) == LineChunks(cs[0]) + Chunks(cs[1..])
  {
  }

  lemma HeadTail<T>(xs: seq<T>)
    requires xs != []
    ensures [xs[0]] + xs[1..] == xs
  {
  }

  lemma {:induction false} CleanChunksUnchanged(cs: seq<string>)
    requires AllClean(cs)
    ensures Chunks(cs) == cs
  {
    if cs != [] {
      AllCleanTail(cs);
      CleanChunksUnchanged(cs[1..]);
      CleanChunkUnchanged(cs[0]);
      ChunksConsClean(cs);
    }
  }

  /** Cleaning text that is already clean changes nothing. */
  lemma CleanupIdempotent(text: string)
    ensures Cleanup(Cleanup(text)) == Cleanup(text)
  {
    var cs := Chunks(SplitLines(text));
    CleanupLines(text);
    SplitLinesInfix(text);
    assert AllClean(cs);
    SplitLinesOfJoin(cs);
    CleanChunksUnchanged(cs);
  }

  /** The lines together are the text with its line-break characters
      deleted: `splitlines()` removes line breaks and nothing else. */
  lemma {:induction false} SplitLinesKeepsText(s: string)
    ensures Concat(SplitLines(s)) == Remove(s, IsLineBreak)
    decreases |s|
  {
    if s != [] {
      match FindLineBreak(s, 0)
      case None =>
        SplitLinesSingle(s);
        RemoveKeepsAll(s, IsLineBreak);
        ConcatSingle(s);
      case Some(i) =>
        var w := if s[i] == '\r' && i + 1 < |s| && s[i + 1] == '\n' then 2 else 1;
        SplitLinesStep(s, i, w);
        SplitLinesKeepsText(s[i + w..]);
        LineAndBreak(s, i, w);
        ConcatCons(s[..i], SplitLines(s[i + w..]));
    }
  }

  /** The text up to the first line break, the break itself, and the rest. */
  lemma LineAndBreak(s: string, i: nat, w: nat)
    requires s != [] && FindLineBreak(s, 0) == Some(i)
    requires w == if s[i] == '\r' && i + 1 < |s| && s[i + 1] == '\n' then 2 else 1
    ensures i + w <= |s|
    ensures Remove(s, IsLineBreak) == s[..i] + Remove(s[i + w..], IsLineBreak)
  {
    assert forall j :: i <= j < i + w ==> IsLineBreak(s[j]);
    RemoveAround(s, i, w, IsLineBreak);
  }

  /** Deleting from a text whose first `i` characters are all kept and
      whose next `w` are all dropped. */
  lemma {:induction false} RemoveAround(s: string, i: nat, w: nat, drop: char -> bool)
    requires i + w <= |s|
    requires forall j :: 0 <= j < i ==> !drop(s[j])
    requires forall j :: i <= j < i + w ==> drop(s[j])
    ensures Remove(s, drop) == s[..i] + Remove(s[i + w..], drop)
    decreases i + w
  {
    if i > 0 {
      RemoveAround(s[1..], i - 1, w, drop);
      assert s[1..][i - 1 + w..] == s[i + w..];
      assert s[..i] == [s[0]] + s[1..][..i - 1];
    } else if w > 0 {
      RemoveAround(s[1..], 0, w - 1, drop);
      assert s[1..][w - 1..] == s[w..];
    } else {
      assert s[..0] == [] && s[0..] == s;
    }
  }

  /** Splitting into lines deletes whitespace only. */
  lemma SplitLinesKeepsNonSpace(s: string)
    ensures NonSpace(Concat(SplitLines(s))) == NonSpace(s)
  {
    SplitLinesKeepsText(s);
    LineBreaksThenSpace(s);
  }

  /** Splitting at double spaces deletes whitespace only. */
  lemma SplitDoubleSpaceKeepsNonSpace(s: string)
    ensures NonSpace(Concat(SplitDoubleSpace(s))) == NonSpace(s)
  {
    JoinSplitDoubleSpace(s);
    JoinKeepsNonSpace("  ", SplitDoubleSpace(s));
  }

  /** Stripping the phrases and dropping the empty ones deletes whitespace
      only. */
  lemma {:induction false} StripNonEmptyKeepsNonSpace(phrases: seq<string>)
    ensures NonSpace(Concat(StripNonEmpty(phrases))) == NonSpace(Concat(phrases))
  {
    if phrases != [] {
      var p := phrases[0];
      var kept := if Strip(p) == [] then [] else [Strip(p)];
      StripNonEmptyStep(phrases);
      StripNonEmptyKeepsNonSpace(phrases[1..]);
      ConcatJoin(kept, StripNonEmpty(phrases[1..]));
      RemoveAppend(Concat(kept), Concat(StripNonEmpty(phrases[1..])), IsSpace);
      ConcatCons(p, phrases[1..]);
      HeadTail(phrases);
      RemoveAppend(p, Concat(phrases[1..]), IsSpace);
      StripKeepsNonSpace(p);
      if Strip(p) == [] {
        assert Concat(kept) == Strip(p);
      } else {
        ConcatSingle(Strip(p));
      }
    }
  }

  /** The chunks of a line hold exactly its non-space text. */
  lemma LineChunksKeepNonSpace(line: string)
    ensures NonSpace(Concat(LineChunks(line))) == NonSpace(line)
  {
    StripNonEmptyKeepsNonSpace(SplitDoubleSpace(Strip(line)));
    SplitDoubleSpaceKeepsNonSpace(Strip(line));
    StripKeepsNonSpace(line);
  }

  lemma {:induction false} ChunksKeepNonSpace(lines: seq<string>)
    ensures NonSpace(Concat(Chunks(lines))) == NonSpace(Concat(lines))
  {
    if lines != [] {
      ChunksUnfoldLines(lines);
      ChunksKeepNonSpace(lines[1..]);
      LineChunksKeepNonSpace(lines[0]);
      ConcatJoin(LineChunks(lines[0]), Chunks(lines[1..]));
      RemoveAppend(Concat(LineChunks(lines[0])), Concat(Chunks(lines[1..])), IsSpace);
      ConcatCons(lines[0], lines[1..]);
      HeadTail(lines);
      RemoveAppend(lines[0], Concat(lines[1..]), IsSpace);
    }
  }

  lemma ChunksUnfoldLines(lines: seq<string>)
    requires lines != []
    ensures Chunks(lines) == LineChunks(lines[0]) + Chunks(lines[1..])
  {
  }

  /** Clean-up deletes whitespace and inserts line breaks, nothing else:
      the page's non-space characters all survive, in their order. */
  lemma CleanupKeepsNonSpace(text: string)
    ensures NonSpace(Cleanup(text)) == NonSpace(text)
  {
    var cs := Chunks(SplitLines(text));
    JoinKeepsNonSpace("\n", cs);
    ChunksKeepNonSpace(SplitLines(text));
    SplitLinesKeepsNonSpace(text);
  }
}
