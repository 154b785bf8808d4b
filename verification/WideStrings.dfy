/** Wide C strings as the registry code sees them: UTF-16 units without the terminator,
    compared without case, split on backslashes and copied into fixed buffers. */
module WideStrings {

  type WChar = c: int | 0 < c < 0x1_0000 witness 65
  type WStr = seq<WChar>

  const BACKSLASH: WChar := 92

  /** `_wcsicmp` in the "C" locale: only A..Z have another case. */
  function FoldChar(c: WChar): (r: WChar)
    ensures r == BACKSLASH <==> c == BACKSLASH
  {
    if 65 <= c <= 90 then c + 32 else c
  }

  function Fold(s: WStr): WStr {
    seq(|s|, i requires 0 <= i < |s| => FoldChar(s[i]))
  }

  predicate EqNoCase(s: WStr, t: WStr) {
    Fold(s) == Fold(t)
  }

  /** A literal as the wide string it is in the source. */
  function Wide(s: string): (w: WStr)
    ensures |w| == |s|
  {
    seq(|s|, i requires 0 <= i < |s| => if 0 < s[i] as int < 0x1_0000 then s[i] as int else 65)
  }

  /** The units of t stand at place i of s. */
  predicate OccursAt(s: WStr, t: WStr, i: int) {
    0 <= i && i + |t| <= |s| && forall j :: 0 <= j < |t| ==> s[i + j] == t[j]
  }

  ghost predicate Mentions(s: WStr, t: WStr) {
    exists i :: OccursAt(s, t, i)
  }

  /** The same unit, or the two cases of one of the letters A to Z. */
  predicate SameLetter(c: int, d: int) {
    c == d || (65 <= c <= 90 && d == c + 32) || (65 <= d <= 90 && c == d + 32)
  }

  /** Names compare equal exactly if they are as long and equal unit by unit but for the case of ASCII letters. */
  lemma {:induction false} EqNoCaseIs(s: WStr, t: WStr)
    ensures EqNoCase(s, t) <==> |s| == |t| && forall i :: 0 <= i < |s| ==> SameLetter(s[i], t[i])
  {
    if EqNoCase(s, t) {
      assert |Fold(s)| == |Fold(t)|;
      forall i | 0 <= i < |s| ensures SameLetter(s[i], t[i]) { assert Fold(s)[i] == Fold(t)[i]; }
    }
  }

  function FoldAll(ts: seq<WStr>): seq<WStr> {
    seq(|ts|, i requires 0 <= i < |ts| => Fold(ts[i]))
  }

  /** The number of units before the first backslash. */
  function Span(s: WStr): (n: nat)
    ensures n <= |s|
    ensures forall i :: 0 <= i < n ==> s[i] != BACKSLASH
    ensures n < |s| ==> s[n] == BACKSLASH
  {
    if s == [] || s[0] == BACKSLASH then 0 else 1 + Span(s[1..])
  }

  /** The components `wcstok_s(s, "\\")` yields, in order: never empty, never with a backslash. */
  function Tokens(s: WStr): (ts: seq<WStr>)
    ensures forall i :: 0 <= i < |ts| ==> ts[i] != [] && BACKSLASH !in ts[i]
    decreases |s|
  {
    if s == [] then []
    else if s[0] == BACKSLASH then Tokens(s[1..])
    else [s[..Span(s)]] + Tokens(s[Span(s)..])
  }

  /** What `lstrcpynW(buffer, s, n)` leaves in a buffer of n units. */
  function Truncate(s: WStr, n: nat): WStr
    requires n > 0
  {
    if |s| < n then s else s[..n - 1]
  }

  lemma SpanIs(s: WStr, n: nat)
    requires n <= |s|
    requires forall i :: 0 <= i < n ==> s[i] != BACKSLASH
    requires n < |s| ==> s[n] == BACKSLASH
    ensures Span(s) == n
  {
  }

  /** Splitting commutes with joining two paths by a backslash. */
  lemma {:induction false} TokensJoin(a: WStr, b: WStr)
    ensures Tokens(a + [BACKSLASH] + b) == Tokens(a) + Tokens(b)
    decreases |a|
  {
    var s := a + [BACKSLASH] + b;
    if a == [] {
      assert s[1..] == b;
    } else if a[0] == BACKSLASH {
      assert s[1..] == a[1..] + [BACKSLASH] + b;
      TokensJoin(a[1..], b);
    } else {
      var n := Span(a);
      SpanIs(s, n);
      assert s[..n] == a[..n];
      assert s[n..] == a[n..] + [BACKSLASH] + b;
      TokensJoin(a[n..], b);
    }
  }

  /** Splitting commutes with case folding, so paths that compare equal name the same components. */
  lemma {:induction false} TokensFold(s: WStr)
    ensures Tokens(Fold(s)) == FoldAll(Tokens(s))
    decreases |s|
  {
    if s == [] {
    } else if s[0] == BACKSLASH {
      assert Fold(s)[1..] == Fold(s[1..]);
      TokensFold(s[1..]);
    } else {
      var n, f := Span(s), Fold(s);
      SpanIs(f, n);
      assert f[..n] == Fold(s[..n]);
      assert f[n..] == Fold(s[n..]);
      TokensFold(s[n..]);
      assert Tokens(f) == [f[..n]] + Tokens(f[n..]);
      FoldAllAppend([s[..n]], Tokens(s[n..]));
      assert FoldAll([s[..n]]) == [f[..n]];
    }
  }

  lemma FoldAllAppend(ts: seq<WStr>, us: seq<WStr>)
    ensures FoldAll(ts + us) == FoldAll(ts) + FoldAll(us)
  {
  }

  /** The units of a path that are not separators. */
  function Weight(s: WStr): nat {
    if s == [] then 0 else (if s[0] == BACKSLASH then 0 else 1) + Weight(s[1..])
  }

  function TotalLength(ts: seq<WStr>): nat {
    if ts == [] then 0 else |ts[0]| + TotalLength(ts[1..])
  }

  lemma {:induction false} WeightAppend(a: WStr, b: WStr)
    ensures Weight(a + b) == Weight(a) + Weight(b)
    decreases |a|
  {
    if a == [] {
      assert a + b == b;
    } else {
      assert (a + b)[1..] == a[1..] + b;
      WeightAppend(a[1..], b);
    }
  }

  lemma {:induction false} WeightPlain(s: WStr)
    requires forall i :: 0 <= i < |s| ==> s[i] != BACKSLASH
    ensures Weight(s) == |s|
    decreases |s|
  {
    if s != [] { WeightPlain(s[1..]); }
  }

  lemma {:induction false} WeightZero(s: WStr)
    ensures Weight(s) == 0 <==> forall i :: 0 <= i < |s| ==> s[i] == BACKSLASH
    decreases |s|
  {
    if s != [] {
      WeightZero(s[1..]);
      assert forall i :: 1 <= i < |s| ==> s[i] == s[1..][i - 1];
    }
  }

  lemma {:induction false} TokensWeight(s: WStr)
    ensures TotalLength(Tokens(s)) == Weight(s)
    decreases |s|
  {
    if s == [] {
    } else if s[0] == BACKSLASH {
      TokensWeight(s[1..]);
    } else {
      var n := Span(s);
      assert s == s[..n] + s[n..];
      WeightAppend(s[..n], s[n..]);
      WeightPlain(s[..n]);
      TokensWeight(s[n..]);
      assert Tokens(s)[1..] == Tokens(s[n..]);
    }
  }

  /** Paths that compare equal component by component have components of equal lengths. */
  lemma {:induction false} SameFoldSameLength(ts: seq<WStr>, us: seq<WStr>)
    requires FoldAll(ts) == FoldAll(us)
    ensures |ts| == |us| && forall i :: 0 <= i < |ts| ==> |ts[i]| == |us[i]|
    ensures TotalLength(ts) == TotalLength(us)
    decreases |ts|
  {
    assert |ts| == |FoldAll(ts)| == |us|;
    forall i | 0 <= i < |ts| ensures |ts[i]| == |us[i]| {
      assert FoldAll(ts)[i] == Fold(ts[i]) && FoldAll(us)[i] == Fold(us[i]);
    }
    if ts != [] {
      assert FoldAll(ts)[0] == Fold(ts[0]) && FoldAll(us)[0] == Fold(us[0]);
      assert |ts[0]| == |Fold(ts[0])| == |us[0]|;
      assert FoldAll(ts[1..]) == FoldAll(ts)[1..];
      assert FoldAll(us[1..]) == FoldAll(us)[1..];
      SameFoldSameLength(ts[1..], us[1..]);
    }
  }

  /** Whether cutting a path to n - 1 units drops separators only. A caller can check it on the string. */
  predicate Fits(s: WStr, n: nat) {
    |s| < n || forall j :: n - 1 <= j < |s| && 0 <= j ==> s[j] == BACKSLASH
  }

  lemma {:induction false} TokensTrailing(s: WStr, b: WStr)
    requires forall i :: 0 <= i < |b| ==> b[i] == BACKSLASH
    ensures Tokens(s + b) == Tokens(s)
    decreases |b|
  {
    if b == [] {
      assert s + b == s;
    } else {
      assert s + b == s + [BACKSLASH] + b[1..];
      TokensJoin(s, b[1..]);
      assert [] + b[1..] == b[1..];
      TokensTrailing([], b[1..]);
    }
  }

  /** A cut path has the same components exactly when it fits, and otherwise has strictly fewer units. */
  lemma {:induction false} TruncateExact(s: WStr, n: nat)
    requires n > 0
    ensures Fits(s, n) ==> Tokens(Truncate(s, n)) == Tokens(s)
    ensures !Fits(s, n) ==> TotalLength(Tokens(Truncate(s, n))) < TotalLength(Tokens(s))
  {
    if |s| >= n {
      var a, b := s[..n - 1], s[n - 1..];
      assert s == a + b;
      assert forall i :: 0 <= i < |b| ==> b[i] == s[n - 1 + i];
      if Fits(s, n) {
        TokensTrailing(a, b);
      } else {
        var j :| n - 1 <= j < |s| && 0 <= j && s[j] != BACKSLASH;
        assert b[j - (n - 1)] != BACKSLASH;
        WeightZero(b);
        WeightAppend(a, b);
        TokensWeight(a);
        TokensWeight(s);
      }
    }
  }
}
