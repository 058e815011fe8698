/** Python `str` primitives the core relies on: whitespace and line-break
    classes, `find`/`rfind`, `strip`, `join` and `str(int)`. */
module Strings {
  import opened Wrappers

  /** Python's `str.isspace()`, which is also the class `\s` matches in a
      regular expression over `str`. */
  predicate IsSpace(c: char) {
    || ('\t' <= c <= '\r')
    || ('\U{1C}' <= c <= ' ')
    || c == '\U{85}' || c == '\U{A0}' || c == '\U{1680}'
    || ('\U{2000}' <= c <= '\U{200A}')
    || c == '\U{2028}' || c == '\U{2029}' || c == '\U{202F}' || c == '\U{205F}' || c == '\U{3000}'
  }

  /** The characters at which Python's `str.splitlines()` ends a line. */
  predicate IsLineBreak(c: char) {
    || ('\n' <= c <= '\r')
    || ('\U{1C}' <= c <= '\U{1E}')
    || c == '\U{85}' || c == '\U{2028}' || c == '\U{2029}'
  }

  /** The ASCII decimal digits. */
  predicate IsDigit(c: char) {
    '0' <= c <= '9'
  }

  lemma LineBreakIsSpace(c: char)
    requires IsLineBreak(c)
    ensures IsSpace(c)
  {
  }

  /** `p` occurs in `s` starting at index `i`. */
  predicate HasAt(s: string, p: string, i: int) {
    0 <= i && i + |p| <= |s| && forall j :: 0 <= j < |p| ==> s[i + j] == p[j]
  }

  /** `t` is a contiguous piece of `s`. */
  ghost predicate IsInfix(t: string, s: string) {
    exists i :: HasAt(s, t, i)
  }

  predicate AllSpace(s: string) {
    forall i :: 0 <= i < |s| ==> IsSpace(s[i])
  }

  predicate NoLineBreak(s: string) {
    forall i :: 0 <= i < |s| ==> !IsLineBreak(s[i])
  }

  /** `s.find(p, from)`: the first occurrence of `p` at or after `from`. */
  function IndexOf(s: string, p: string, from: nat): (r: Option<nat>)
    ensures r.Some? ==> from <= r.value && HasAt(s, p, r.value)
    ensures forall j :: from <= j && (r.None? || j < r.value) ==> !HasAt(s, p, j)
    decreases |s| - from
  {
    if from + |p| > |s| then None
    else if s[from..from + |p|] == p then Some(from)
    else IndexOf(s, p, from + 1)
  }

  /** `s.find(c, from)` for a single character. */
  function FindChar(s: string, c: char, from: nat): (r: Option<nat>)
    ensures r.Some? ==> from <= r.value < |s| && s[r.value] == c
    ensures forall j :: from <= j < |s| && (r.None? || j < r.value) ==> s[j] != c
    decreases |s| - from
  {
    if from >= |s| then None
    else if s[from] == c then Some(from)
    else FindChar(s, c, from + 1)
  }

  /** `s.rfind(c)`: the last occurrence of `c`. */
  function RFindChar(s: string, c: char): (r: Option<nat>)
    ensures r.Some? ==> r.value < |s| && s[r.value] == c
    ensures forall j :: 0 <= j < |s| && (r.None? || r.value < j) ==> s[j] != c
  {
    if s == [] then None
    else if s[|s| - 1] == c then Some(|s| - 1)
    else RFindChar(s[..|s| - 1], c)
  }

  /** `s.lstrip()`: drops the leading whitespace and nothing else. */
  function TrimLeft(s: string): (r: string)
    ensures |r| <= |s| && r == s[|s| - |r|..]
    ensures AllSpace(s[..|s| - |r|])
    ensures r == [] || !IsSpace(r[0])
  {
    if s != [] && IsSpace(s[0]) then
      var r := TrimLeft(s[1..]);
      TrimLeftStep(s, r);
      r
    else s
  }

  lemma TrimLeftStep(s: string, r: string)
    requires s != [] && IsSpace(s[0])
    requires |r| <= |s| - 1 && r == s[1..][|s| - 1 - |r|..] && AllSpace(s[1..][..|s| - 1 - |r|])
    ensures r == s[|s| - |r|..] && AllSpace(s[..|s| - |r|])
  {
    var k := |s| - |r|;
    assert s[1..][k - 1..] == s[k..];
    forall i | 0 <= i < k ensures IsSpace(s[i]) {
      if i > 0 {
        assert s[i] == s[1..][..k - 1][i - 1];
      }
    }
  }

  /** `s.rstrip()`: drops the trailing whitespace and nothing else. */
  function TrimRight(s: string): (r: string)
    ensures |r| <= |s| && r == s[..|r|]
    ensures AllSpace(s[|r|..])
    ensures r == [] || !IsSpace(r[|r| - 1])
  {
    if s != [] && IsSpace(s[|s| - 1]) then
      var r := TrimRight(s[..|s| - 1]);
      TrimRightStep(s, r);
      r
    else s
  }

  lemma TrimRightStep(s: string, r: string)
    requires s != [] && IsSpace(s[|s| - 1])
    requires |r| <= |s| - 1 && r == s[..|s| - 1][..|r|] && AllSpace(s[..|s| - 1][|r|..])
    ensures r == s[..|r|] && AllSpace(s[|r|..])
  {
    var n := |s|;
    assert s[..n - 1][..|r|] == s[..|r|];
    forall i | |r| <= i < n ensures IsSpace(s[i]) {
      if i < n - 1 {
        assert s[i] == s[..n - 1][|r|..][i - |r|];
      }
    }
    assert forall i :: 0 <= i < |s[|r|..]| ==> s[|r|..][i] == s[|r| + i];
  }

  /** `r` occurs in `s` at `i` with only whitespace before and after it. */
  predicate SpaceAround(s: string, r: string, i: int) {
    HasAt(s, r, i) && AllSpace(s[..i]) && AllSpace(s[i + |r|..])
  }

  /** `s.strip()`. */
  function Strip(s: string): (r: string)
    ensures r == [] <==> AllSpace(s)
    ensures r == [] || (!IsSpace(r[0]) && !IsSpace(r[|r| - 1]))
  {
    StripCore(s, TrimLeft(s), TrimRight(TrimLeft(s)));
    TrimRight(TrimLeft(s))
  }

  /** `strip` deletes a leading and a trailing run of whitespace and
      nothing else. */
  lemma StripRemovesOuterSpace(s: string)
    ensures exists i :: SpaceAround(s, Strip(s), i)
  {
    var l := TrimLeft(s);
    TrimBothAt(s, l, TrimRight(l));
    assert SpaceAround(s, Strip(s), |s| - |l|);
  }

  /** `rstrip` after `lstrip` leaves the text between the two whitespace
      runs. */
  lemma TrimBothAt(s: string, l: string, r: string)
    requires l == TrimLeft(s) && r == TrimRight(l)
    ensures SpaceAround(s, r, |s| - |l|)
  {
    StripCore(s, l, r);
  }

  lemma StripIsInfix(s: string)
    ensures IsInfix(Strip(s), s)
  {
    var l := TrimLeft(s);
    StripCore(s, l, TrimRight(l));
  }

  /** The facts about `strip` from those about its two halves. */
  lemma StripCore(s: string, l: string, r: string)
    requires |l| <= |s| && l == s[|s| - |l|..] && AllSpace(s[..|s| - |l|])
    requires l == [] || !IsSpace(l[0])
    requires |r| <= |l| && r == l[..|r|] && AllSpace(l[|r|..])
    requires r == [] || !IsSpace(r[|r| - 1])
    ensures HasAt(s, r, |s| - |l|)
    ensures AllSpace(s[|s| - |l| + |r|..])
    ensures SpaceAround(s, r, |s| - |l|)
    ensures r == [] <==> AllSpace(s)
    ensures r == [] || (!IsSpace(r[0]) && !IsSpace(r[|r| - 1]))
  {
    var k := |s| - |l|;
    forall j | 0 <= j < |r| ensures s[k + j] == r[j] {
      assert r[j] == l[j] == s[k..][j];
    }
    assert s[k + |r|..] == l[|r|..];
    if r == [] {
      assert l[0..] == l;
      AllSpaceJoin(s, k);
    } else {
      assert r[0] == l[0] == s[k];
    }
  }

  lemma AllSpaceJoin(s: string, k: nat)
    requires k <= |s| && AllSpace(s[..k]) && AllSpace(s[k..])
    ensures AllSpace(s)
  {
    forall i | 0 <= i < |s| ensures IsSpace(s[i]) {
      if i < k {
        assert s[i] == s[..k][i];
      } else {
        assert s[i] == s[k..][i - k];
      }
    }
  }

  /** `sep.join(xs)`. */
  function Join(sep: string, xs: seq<string>): (r: string)
    ensures xs == [] ==> r == []
    ensures |xs| == 1 ==> r == xs[0]
  {
    if xs == [] then []
    else if |xs| == 1 then xs[0]
    else xs[0] + sep + Join(sep, xs[1..])
  }

  lemma JoinTwo(sep: string, a: string, b: string)
    ensures Join(sep, [a, b]) == a + sep + b
  {
    assert [a, b][1..] == [b];
  }

  lemma {:induction false} ConcatPieceIsInfix(xs: seq<string>, k: nat)
    requires k < |xs|
    ensures IsInfix(xs[k], Concat(xs))
  {
    if k == 0 {
      assert HasAt(Concat(xs), xs[0], 0);
    } else {
      ConcatPieceIsInfix(xs[1..], k - 1);
      var i :| HasAt(Concat(xs[1..]), xs[k], i);
      assert HasAt(Concat(xs), xs[k], |xs[0]| + i);
    }
  }

  lemma InfixTransitive(a: string, b: string, c: string)
    requires IsInfix(a, b) && IsInfix(b, c)
    ensures IsInfix(a, c)
  {
    var i :| HasAt(b, a, i);
    var j :| HasAt(c, b, j);
    forall t | 0 <= t < |a| ensures c[j + i + t] == a[t] {
      assert c[j + i + t] == c[j..j + |b|][i + t];
      assert a[t] == b[i..i + |a|][t];
    }
    assert HasAt(c, a, j + i);
  }

  lemma PrefixIsInfix(a: string, b: string)
    ensures IsInfix(a, a + b)
  {
    assert HasAt(a + b, a, 0);
  }

  lemma SuffixIsInfix(a: string, b: string)
    ensures IsInfix(b, a + b)
  {
    assert HasAt(a + b, b, |a|);
  }

  function DigitChar(d: nat): char
    requires d < 10
  {
    ['0', '1', '2', '3', '4', '5', '6', '7', '8', '9'][d]
  }

  function DigitValue(c: char): nat
    requires IsDigit(c)
  {
    (c as int - '0' as int) as nat
  }

  /** `str(n)` for a non-negative integer: its decimal digits, most
      significant first, without leading zeros. */
  function NatToString(n: nat): (r: string)
    ensures r != []
    ensures forall i :: 0 <= i < |r| ==> IsDigit(r[i])
    ensures r[0] == '0' ==> n == 0
  {
    if n < 10 then [DigitChar(n)] else NatToString(n / 10) + [DigitChar(n % 10)]
  }

  /** The value of a string of decimal digits (`int(s)`). */
  function ParseNat(s: string): nat
    requires forall i :: 0 <= i < |s| ==> IsDigit(s[i])
  {
    if s == [] then 0 else 10 * ParseNat(s[..|s| - 1]) + DigitValue(s[|s| - 1])
  }

  /** `int(str(n)) == n`. */
  lemma {:induction false} ParseNatToString(n: nat)
    ensures ParseNat(NatToString(n)) == n
  {
    if n >= 10 {
      var s := NatToString(n);
      assert s[..|s| - 1] == NatToString(n / 10);
      ParseNatToString(n / 10);
    }
  }

  /** Distinct numbers print differently. */
  lemma NatToStringInjective(a: nat, b: nat)
    requires NatToString(a) == NatToString(b)
    ensures a == b
  {
    ParseNatToString(a);
    ParseNatToString(b);
  }

  /** `s[lo..hi]` is whitespace only. */
  predicate SpaceBetween(s: string, lo: int, hi: int) {
    0 <= lo <= hi <= |s| && forall i :: lo <= i < hi ==> IsSpace(s[i])
  }

  /** The first index at or after `i` that is not whitespace (or the end). */
  function SkipSpace(s: string, i: nat): (r: nat)
    requires i <= |s|
    ensures SpaceBetween(s, i, r)
    ensures r == |s| || !IsSpace(s[r])
    decreases |s| - i
  {
    if i < |s| && IsSpace(s[i]) then SkipSpace(s, i + 1) else i
  }

  /** The smallest `r` in `[lo, hi]` such that `s[r..hi]` is whitespace. */
  function BackOverSpace(s: string, lo: nat, hi: nat): (r: nat)
    requires lo <= hi <= |s|
    ensures lo <= r && SpaceBetween(s, r, hi)
    ensures r == lo || !IsSpace(s[r - 1])
    decreases hi
  {
    if lo < hi && IsSpace(s[hi - 1]) then BackOverSpace(s, lo, hi - 1) else hi
  }

  /** A non-space character lies outside every whitespace-only range. */
  lemma NonSpaceOutside(s: string, lo: int, hi: int, k: int)
    requires SpaceBetween(s, lo, hi) && 0 <= k < |s| && !IsSpace(s[k])
    ensures k < lo || hi <= k
  {
  }

  /** A whitespace run starting at `lo` has one end. */
  lemma SpaceRunEnd(s: string, lo: int, x: int, y: int)
    requires SpaceBetween(s, lo, x) && (x == |s| || !IsSpace(s[x]))
    requires SpaceBetween(s, lo, y) && (y == |s| || !IsSpace(s[y]))
    ensures x == y
  {
    if x < y {
      NonSpaceOutside(s, lo, y, x);
    } else if y < x {
      NonSpaceOutside(s, lo, x, y);
    }
  }

  /** `s` with every character that satisfies `drop` deleted, the rest in
      their order. */
  function Remove(s: string, drop: char -> bool): string {
    if s == [] then []
    else (if drop(s[0]) then [] else [s[0]]) + Remove(s[1..], drop)
  }

  /** The text with all its whitespace deleted. */
  function NonSpace(s: string): string {
    Remove(s, IsSpace)
  }

  lemma {:induction false} RemoveAppend(a: string, b: string, drop: char -> bool)
    ensures Remove(a + b, drop) == Remove(a, drop) + Remove(b, drop)
  {
    if a == [] {
      assert a + b == b;
    } else {
      assert (a + b)[1..] == a[1..] + b;
      RemoveAppend(a[1..], b, drop);
    }
  }

  lemma {:induction false} RemoveKeepsAll(s: string, drop: char -> bool)
    requires forall i :: 0 <= i < |s| ==> !drop(s[i])
    ensures Remove(s, drop) == s
  {
    if s != [] {
      RemoveKeepsAll(s[1..], drop);
      assert [s[0]] + s[1..] == s;
    }
  }

  lemma {:induction false} RemoveDropsAll(s: string, drop: char -> bool)
    requires forall i :: 0 <= i < |s| ==> drop(s[i])
    ensures Remove(s, drop) == []
  {
    if s != [] {
      RemoveDropsAll(s[1..], drop);
    }
  }

  /** Line breaks are whitespace, so deleting them first changes nothing. */
  lemma {:induction false} LineBreaksThenSpace(s: string)
    ensures NonSpace(Remove(s, IsLineBreak)) == NonSpace(s)
  {
    if s != [] {
      LineBreaksThenSpace(s[1..]);
      var head := if IsLineBreak(s[0]) then [] else [s[0]];
      RemoveAppend(head, Remove(s[1..], IsLineBreak), IsSpace);
      assert [s[0]][1..] == [];
      if IsLineBreak(s[0]) {
        LineBreakIsSpace(s[0]);
      }
    }
  }

  /** `strip` deletes whitespace only: the non-space text is unchanged. */
  lemma StripKeepsNonSpace(s: string)
    ensures NonSpace(Strip(s)) == NonSpace(s)
  {
    StripRemovesOuterSpace(s);
    var i :| SpaceAround(s, Strip(s), i);
    SpaceAroundKeepsNonSpace(s, Strip(s), i);
  }

  lemma SpaceAroundKeepsNonSpace(s: string, r: string, i: int)
    requires SpaceAround(s, r, i)
    ensures NonSpace(r) == NonSpace(s)
  {
    var a, b := s[..i], s[i + |r|..];
    assert s[i..i + |r|] == r;
    assert s == a + r + b;
    RemoveAppend(a + r, b, IsSpace);
    RemoveAppend(a, r, IsSpace);
    RemoveDropsAll(a, IsSpace);
    RemoveDropsAll(b, IsSpace);
  }

  /** Joining with a whitespace separator adds no non-space text. */
  lemma {:induction false} JoinKeepsNonSpace(sep: string, xs: seq<string>)
    requires AllSpace(sep)
    ensures NonSpace(Join(sep, xs)) == NonSpace(Concat(xs))
  {
    if |xs| == 1 {
      assert Concat(xs) == xs[0] + Concat([]);
      assert xs[0] + [] == xs[0];
    } else if |xs| > 1 {
      JoinKeepsNonSpace(sep, xs[1..]);
      RemoveAppend(xs[0] + sep, Join(sep, xs[1..]), IsSpace);
      RemoveAppend(xs[0], sep, IsSpace);
      RemoveDropsAll(sep, IsSpace);
      RemoveAppend(xs[0], Concat(xs[1..]), IsSpace);
    }
  }
}
