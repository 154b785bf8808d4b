/** The WOW64 path redirector that sits in front of every registry open and create. */
module Redirect {
  import opened WideStrings

  const SOFTWARE: WStr := [83, 79, 70, 84, 87, 65, 82, 69]
  const WOW6432NODE: WStr := [87, 79, 87, 54, 52, 51, 50, 78, 111, 100, 101]

  predicate Begins(ts: seq<WStr>, name: WStr) {
    ts != [] && EqNoCase(ts[0], name)
  }

  /** The text after the first component's length, less one separator. */
  function Remainder(sub: WStr, first: WStr): WStr {
    if |sub| < |first| then []
    else
      var r := sub[|first|..];
      if r != [] && r[0] == BACKSLASH then r[1..] else r
  }

  function Rebuilt(p: WStr, q: WStr, rest: WStr): WStr {
    p + [BACKSLASH] + q + (if rest == [] then [] else [BACKSLASH] + rest)
  }

  /** The redirection of p\x to p\q\x. The buffers of 512 and 256 units cut what is compared, not what
      is returned. */
  function Redirected(sub: WStr, p: WStr, q: WStr): WStr {
    var first := Tokens(Truncate(sub, 512));
    if !Begins(first, p) then sub
    else
      var rest := Remainder(sub, first[0]);
      if Begins(Tokens(Truncate(rest, 256)), q) then sub else Rebuilt(p, q, rest)
  }

  function RedirectSubKey(active: bool, sub: WStr): WStr {
    if active then Redirected(sub, SOFTWARE, WOW6432NODE) else sub
  }

  /** What the redirector is for, on components: p\x becomes p\q\x, once. */
  function Designed(ts: seq<WStr>, p: WStr, q: WStr): seq<WStr> {
    if Begins(ts, p) && !Begins(ts[1..], q) then [p, q] + ts[1..] else ts
  }

  predicate RedirectorPair(p: WStr, q: WStr) {
    BACKSLASH !in p && BACKSLASH !in q && |p| == 8 && |q| == 11
  }

  /** The 256-unit buffer is sure to hold the whole component that is compared with WOW6432Node. */
  predicate SecondSeen(sub: WStr) {
    var rest := Remainder(sub, SOFTWARE);
    |rest| < 256 || rest[0] != BACKSLASH
  }

  predicate Clean(sub: WStr) {
    (sub == [] || sub[0] != BACKSLASH) && SecondSeen(sub)
  }

  lemma TokensHead(s: WStr)
    requires s != [] && s[0] != BACKSLASH
    ensures Tokens(s) == [s[..Span(s)]] + Tokens(s[Span(s)..])
    ensures Tokens(s)[0] == s[..Span(s)] && Tokens(s)[1..] == Tokens(s[Span(s)..])
  {
  }

  lemma SingleToken(s: WStr)
    requires s != [] && BACKSLASH !in s
    ensures Tokens(s) == [s]
  {
    SpanIs(s, |s|);
    assert s[..|s|] == s && s[|s|..] == [];
  }

  lemma SameLength(s: WStr, t: WStr)
    requires EqNoCase(s, t)
    ensures |s| == |t|
  {
    assert |Fold(s)| == |s| && |Fold(t)| == |t|;
  }

  lemma RebuiltTokens(p: WStr, q: WStr, rest: WStr)
    requires RedirectorPair(p, q)
    ensures Tokens(Rebuilt(p, q, rest)) == [p, q] + Tokens(rest)
  {
    var pq := p + [BACKSLASH] + q;
    SingleToken(p);
    SingleToken(q);
    TokensJoin(p, q);
    if rest == [] {
      assert pq + [] == pq;
    } else {
      assert pq + ([BACKSLASH] + rest) == pq + [BACKSLASH] + rest;
      TokensJoin(pq, rest);
    }
  }

  /** Cutting to n units cannot change whether the first component is a given shorter name. */
  lemma CutKeepsFirst(rest: WStr, name: WStr, n: nat)
    requires |name| + 1 < n && (|rest| < n || rest[0] != BACKSLASH)
    ensures Begins(Tokens(Truncate(rest, n)), name) <==> Begins(Tokens(rest), name)
  {
    hide Tokens, Span, Fold;
    if |rest| >= n {
      var cut := rest[..n - 1];
      TokensHead(rest);
      TokensHead(cut);
      if Span(rest) < n - 1 {
        SpanIs(cut, Span(rest));
        assert cut[..Span(rest)] == rest[..Span(rest)];
      } else {
        SpanIs(cut, n - 1);
        LongerDiffers(Tokens(cut)[0], name);
        LongerDiffers(Tokens(rest)[0], name);
      }
    }
  }

  lemma LongerDiffers(s: WStr, name: WStr)
    requires |s| > |name|
    ensures !EqNoCase(s, name)
  {
    if EqNoCase(s, name) { SameLength(s, name); }
  }

  lemma MeetsDesign(sub: WStr, p: WStr, q: WStr)
    requires RedirectorPair(p, q) && (sub == [] || sub[0] != BACKSLASH)
    requires |Remainder(sub, p)| < 256 || Remainder(sub, p)[0] != BACKSLASH
    ensures Tokens(Redirected(sub, p, q)) == Designed(Tokens(sub), p, q)
  {
    hide EqNoCase;
    CutKeepsFirst(sub, p, 512);
    if Begins(Tokens(sub), p) {
      TokensHead(sub);
      SameLength(Tokens(sub)[0], p);
      SameLength(Tokens(Truncate(sub, 512))[0], p);
      var rest := Remainder(sub, p);
      assert Tokens(rest) == Tokens(sub[8..]);
      CutKeepsFirst(rest, q, 256);
      RebuiltTokens(p, q, rest);
    }
  }

  /** On a clean path the string surgery does exactly what the redirector is designed to do. */
  lemma RedirectMeetsDesign(active: bool, sub: WStr)
    requires Clean(sub)
    ensures Tokens(RedirectSubKey(active, sub))
         == if active then Designed(Tokens(sub), SOFTWARE, WOW6432NODE) else Tokens(sub)
  {
    if active { MeetsDesign(sub, SOFTWARE, WOW6432NODE); }
  }

  function Leading(s: WStr): (k: nat)
    ensures k <= |s|
    ensures forall i :: 0 <= i < k ==> s[i] == BACKSLASH
    ensures k < |s| ==> s[k] != BACKSLASH
    ensures Tokens(s) == Tokens(s[k..])
  {
    if s == [] || s[0] != BACKSLASH then assert s[0..] == s; 0
    else
      var k := Leading(s[1..]);
      assert s[1..][k..] == s[k + 1..];
      k + 1
  }

  lemma {:induction false} LeadingSkip(b: WStr, s: WStr)
    requires forall i :: 0 <= i < |b| ==> b[i] == BACKSLASH
    ensures Tokens(b + s) == Tokens(s)
    decreases |b|
  {
    if b == [] {
      assert b + s == s;
    } else {
      assert (b + s)[1..] == b[1..] + s;
      LeadingSkip(b[1..], s);
    }
  }

  lemma RemainderTokens(sub: WStr, first: WStr)
    requires |first| <= |sub|
    ensures Tokens(Remainder(sub, first)) == Tokens(sub[|first|..])
  {
  }

  /** A leading backslash shifts the remainder into the first component: some units of it reappear. */
  lemma ShiftedRemainder(sub: WStr, p: WStr)
    requires sub != [] && sub[0] == BACKSLASH && |p| == 8 && Begins(Tokens(sub), p)
    ensures |Tokens(Remainder(sub, Tokens(sub)[0]))| == |Tokens(sub)|
    ensures 0 < |Tokens(Remainder(sub, Tokens(sub)[0]))[0]| <= 8
  {
    hide EqNoCase, Tokens, Span;
    var k := Leading(sub);
    NoTokens();
    var body := sub[k..];
    TokensHead(body);
    SameLength(Tokens(sub)[0], p);
    var r := sub[8..];
    assert Tokens(Remainder(sub, Tokens(sub)[0])) == Tokens(r) by { RemainderTokens(sub, Tokens(sub)[0]); }
    if k >= 8 {
      assert r == sub[8..k] + body;
      LeadingSkip(sub[8..k], body);
    } else {
      assert r == body[8 - k..];
      assert r[0] != BACKSLASH;
      SpanIs(r, k);
      assert r[k..] == body[8..];
      TokensHead(r);
    }
  }

  /** A path whose first component has at most 8 units cannot, however cut, start with a longer name. */
  lemma ShortFirst(rest: WStr, name: WStr)
    requires Tokens(rest) != [] && |Tokens(rest)[0]| <= 8 < |name|
    ensures !Begins(Tokens(Truncate(rest, 256)), name)
  {
    hide Tokens, Span, EqNoCase;
    assert Tokens([]) == [] by { NoTokens(); }
    var cut := Truncate(rest, 256);
    var k := Leading(cut);
    if k < |cut| {
      var body := rest[k..];
      assert rest == rest[..k] + body;
      assert forall i :: 0 <= i < k ==> rest[..k][i] == cut[i];
      LeadingSkip(rest[..k], body);
      assert cut[k..] == body[..|cut| - k];
      assert body[0] == cut[k];
      assert Tokens(rest) == Tokens(body);
      ShortHead(body, |cut| - k, name);
    } else {
      assert cut[k..] == [];
    }
  }

  lemma NoTokens()
    ensures Tokens([]) == []
  {
  }

  lemma ShortHead(body: WStr, n: nat, name: WStr)
    requires body != [] && body[0] != BACKSLASH && 0 < n <= |body|
    requires |Tokens(body)[0]| <= 8 < |name|
    ensures !Begins(Tokens(body[..n]), name)
  {
    TokensHead(body);
    TokensHead(body[..n]);
    SpanOfPrefix(body, n);
    assert |Fold(Tokens(body[..n])[0])| <= 8 && |Fold(name)| > 8;
  }

  lemma {:induction false} SpanOfPrefix(s: WStr, n: nat)
    requires n <= |s|
    ensures Span(s[..n]) <= Span(s)
  {
    if n > 0 {
      SpanOfPrefix(s[1..], n - 1);
      assert s[..n][1..] == s[1..][..n - 1];
    }
  }

  lemma MissesDesign(sub: WStr, p: WStr, q: WStr)
    requires RedirectorPair(p, q) && |sub| < 512 && Begins(Tokens(sub), p) && sub[0] == BACKSLASH
    ensures Tokens(Redirected(sub, p, q)) != Designed(Tokens(sub), p, q)
  {
    ShiftedRemainder(sub, p);
    var rest := Remainder(sub, Tokens(sub)[0]);
    ShortFirst(rest, q);
    RebuiltTokens(p, q, rest);
    assert |Tokens(Redirected(sub, p, q))| == 2 + |Tokens(sub)|;
  }

  lemma MeetsDesignIff(sub: WStr, p: WStr, q: WStr)
    requires RedirectorPair(p, q) && |sub| < 512 && Begins(Tokens(sub), p)
    requires |Remainder(sub, p)| < 256 || Remainder(sub, p)[0] != BACKSLASH
    ensures Tokens(Redirected(sub, p, q)) == Designed(Tokens(sub), p, q) <==> sub[0] != BACKSLASH
  {
    if sub[0] != BACKSLASH { MeetsDesign(sub, p, q); } else { MissesDesign(sub, p, q); }
  }

  /** The two constants as plain variables, so that the solver does not evaluate them unit by unit. */
  lemma RedirectorNames(sub: WStr) returns (p: WStr, q: WStr)
    requires Begins(Tokens(sub), SOFTWARE) && SecondSeen(sub)
    ensures p == SOFTWARE && q == WOW6432NODE && RedirectorPair(p, q) && Begins(Tokens(sub), p)
    ensures |Remainder(sub, p)| < 256 || Remainder(sub, p)[0] != BACKSLASH
  {
    p, q := SOFTWARE, WOW6432NODE;
  }

  /** For a SOFTWARE path that the buffers hold, the redirector meets its design exactly when the path
      does not start with a backslash. */
  lemma DesignMetIff(sub: WStr)
    requires |sub| < 512 && Begins(Tokens(sub), SOFTWARE) && SecondSeen(sub)
    ensures Tokens(RedirectSubKey(true, sub)) == Designed(Tokens(sub), SOFTWARE, WOW6432NODE)
       <==> sub[0] != BACKSLASH
  {
    var p, q := RedirectorNames(sub);
    MeetsDesignIff(sub, p, q);
  }

  lemma FirstComponent(s: WStr, w: WStr, t: WStr, n: nat)
    requires s == w + (if t == [] then [] else [BACKSLASH] + t) && 0 < |w| < n - 1 && BACKSLASH !in w
    ensures Tokens(Truncate(s, n)) != [] && Tokens(Truncate(s, n))[0] == w
  {
    var cut := Truncate(s, n);
    assert cut[..|w|] == w;
    assert |w| < |cut| ==> cut[|w|] == BACKSLASH;
    SpanIs(cut, |w|);
    TokensHead(cut);
  }

  lemma RedirectedTwice(sub: WStr, p: WStr, q: WStr)
    requires RedirectorPair(p, q)
    ensures Redirected(Redirected(sub, p, q), p, q) == Redirected(sub, p, q)
  {
    var once := Redirected(sub, p, q);
    if once != sub {
      var rest := Remainder(sub, Tokens(Truncate(sub, 512))[0]);
      var tail := q + (if rest == [] then [] else [BACKSLASH] + rest);
      assert once == p + ([BACKSLASH] + tail);
      FirstComponent(once, p, tail, 512);
      assert Remainder(once, p) == tail;
      FirstComponent(tail, q, rest, 256);
    }
  }

  /** Redirecting twice is redirecting once, on every string. */
  lemma RedirectIdempotent(active: bool, sub: WStr)
    ensures RedirectSubKey(active, RedirectSubKey(active, sub)) == RedirectSubKey(active, sub)
  {
    if active { RedirectedTwice(sub, SOFTWARE, WOW6432NODE); }
  }

  lemma DesignedAppend(ta: seq<WStr>, tb: seq<WStr>, p: WStr, q: WStr)
    requires ta != []
    ensures Designed(ta, p, q) + tb == Designed(ta + tb, p, q)
       <==> !(Begins(ta, p) && |ta| == 1 && Begins(tb, q))
  {
    hide EqNoCase;
    assert (ta + tb)[0] == ta[0] && (ta + tb)[1..] == ta[1..] + tb;
    assert [p, q] + ta[1..] + tb == [p, q] + (ta[1..] + tb);
    if |ta| == 1 {
      assert ta[1..] + tb == tb;
      assert |[p, q] + ta[1..] + tb| != |ta + tb|;
    } else {
      assert (ta[1..] + tb)[0] == ta[1..][0];
    }
  }

  /** Redirecting `a` and then descending by `b` names the same components as redirecting `a\b`, exactly when
      it is not the case that `a` is SOFTWARE alone and `b` itself starts with WOW6432Node. */
  lemma TwoHopsOneHop(active: bool, a: WStr, b: WStr)
    requires a != [] && Clean(a) && Clean(a + [BACKSLASH] + b)
    ensures Tokens(RedirectSubKey(active, a)) + Tokens(b) == Tokens(RedirectSubKey(active, a + [BACKSLASH] + b))
       <==> !(active && Begins(Tokens(a), SOFTWARE) && |Tokens(a)| == 1 && Begins(Tokens(b), WOW6432NODE))
  {
    TokensJoin(a, b);
    RedirectMeetsDesign(active, a);
    RedirectMeetsDesign(active, a + [BACKSLASH] + b);
    TokensHead(a);
    DesignedAppend(Tokens(a), Tokens(b), SOFTWARE, WOW6432NODE);
  }
}
