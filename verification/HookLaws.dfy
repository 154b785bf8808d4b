/** The registry hooks as a caller sees them: handles by number, paths by their components, values by name, type and
    bytes. */
module HookLaws {
  import opened Basics
  import opened WideStrings
  import opened Redirect
  import opened KeyArena
  import opened Values
  import opened ArenaTree
  import opened Handles

  // ---------- What a call is about ----------

  /** The key behind a handle: the handle's distance from 0x30000000 in 32 bits is its place in the table. */
  ghost predicate Leads(r: Reg, h: int, k: nat) {
    (h - 0x3000_0000) % 0x1_0000_0000 < |r.table| && k == r.table[(h - 0x3000_0000) % 0x1_0000_0000]
  }

  predicate Ours(r: Reg, h: int) {
    (h - 0x3000_0000) % 0x1_0000_0000 < |r.table|
  }

  function KeyOf(r: Reg, h: int): nat
    requires Ours(r, h)
  {
    r.table[(h - 0x3000_0000) % 0x1_0000_0000]
  }

  /** HKEY_CLASSES_ROOT, HKEY_CURRENT_USER and HKEY_LOCAL_MACHINE all are the root; the older hooks know HKEY_USERS. */
  predicate IsRoot(h: int, ex: bool) {
    0x8000_0000 <= h <= 0x8000_0002 || (!ex && h == 0x8000_0003)
  }

  /** The key an open or create starts from. */
  ghost predicate Base(r: Reg, h: int, ex: bool, b: nat) {
    if IsRoot(h, ex) then b == 0 else Leads(r, h, b)
  }

  ghost predicate HasBase(r: Reg, h: int, ex: bool) {
    IsRoot(h, ex) || Ours(r, h)
  }

  /** The components a 32-bit process under HKEY_LOCAL_MACHINE means by `ts`: SOFTWARE\x is SOFTWARE\WOW6432Node\x
      unless it says so already; all others mean `ts`. */
  function Meant(wow64: bool, h: int, ts: seq<WStr>): (us: seq<WStr>)
    requires AllNonEmpty(ts)
    ensures AllNonEmpty(us)
  {
    if wow64 && h == 0x8000_0002 && ts != [] && EqNoCase(ts[0], Wide("SOFTWARE"))
       && !(|ts| > 1 && EqNoCase(ts[1], Wide("WOW6432Node")))
    then [Wide("SOFTWARE"), Wide("WOW6432Node")] + ts[1..] else ts
  }

  /** The buffers hold the path, redirection included. */
  predicate Held(r: Reg, h: int, sub: WStr) {
    if r.wow64 && h == 0x8000_0002 then |sub| < 500 && Clean(sub) else Fits(sub, 512)
  }

  /** A handle to key k was handed out: one of the table's, old or new; older handles stay as they were. */
  ghost predicate Handed(r: Reg, r': Reg, h: int, k: nat) {
    && r'.wow64 == r.wow64 && |r'.table| == |r.table| + 1 == |r'.paths| && |r.table| == |r.paths|
    && r'.table[..|r.table|] == r.table && r'.paths[..|r.table|] == r.paths && r'.table[|r.table|] == k
    && 0x3000_0000 <= h < 0x3000_0000 + |r'.table| && Leads(r', h, k)
  }

  lemma Names()
    ensures SOFTWARE == Wide("SOFTWARE") && WOW6432NODE == Wide("WOW6432Node") && RVPNNETMP == Wide("RVPNNETMP")
  {
  }

  lemma {:induction false} LeadsIs(r: Reg, h: int)
    requires |r.table| <= TABLE_LIMIT
    ensures forall k: nat :: Leads(r, h, k) <==> HandleToKey(r, h) == Some(k)
    ensures Ours(r, h) <==> HandleToKey(r, h).Some?
  {
  }

  lemma {:induction false} BaseIs(r: Reg, h: int, ex: bool)
    requires |r.table| <= TABLE_LIMIT
    ensures HasBase(r, h, ex) <==> BaseKey(r, h, ex).Some?
    ensures forall b: nat :: Base(r, h, ex, b) <==> BaseKey(r, h, ex) == Some(b)
  {
    LeadsIs(r, h);
  }

  lemma {:induction false} ContainsIs(s: WStr, t: WStr)
    ensures Contains(s, t) <==> Mentions(s, t)
    decreases |s|
  {
    if |t| <= |s| {
      if s[..|t|] == t { assert OccursAt(s, t, 0); }
      if s != [] {
        ContainsIs(s[1..], t);
        if i :| OccursAt(s[1..], t, i) { assert OccursAt(s, t, i + 1); }
        if i :| OccursAt(s, t, i) {
          if i == 0 { assert s[..|t|] == t; } else { assert OccursAt(s[1..], t, i - 1); }
        }
      }
    }
  }

  lemma {:induction false} RedirectedLength(sub: WStr, p: WStr, q: WStr)
    requires RedirectorPair(p, q) && (sub == [] || sub[0] != BACKSLASH)
    ensures |Redirected(sub, p, q)| <= |sub| + 12
  {
    hide EqNoCase, Tokens;
    var cut := Truncate(sub, 512);
    if Begins(Tokens(cut), p) {
      assert cut != [] by { if cut == [] { NoTokens(); } }
      TokensHead(cut);
      SameLength(Tokens(cut)[0], p);
      assert Span(cut) == 8 && (|cut| > 8 ==> sub[8] == cut[8] == BACKSLASH);
    }
  }

  /** What a path means to the hooks. */
  lemma {:induction false} PathMeans(r: Reg, h: int, sub: WStr)
    requires Held(r, h, sub)
    ensures Tokens(Redirection(r, h, sub)) == Meant(r.wow64, h, Tokens(sub)) && Fits(Redirection(r, h, sub), 512)
  {
    hide EqNoCase, Tokens;
    Names();
    if r.wow64 && h == 0x8000_0002 {
      RedirectMeetsDesign(true, sub);
      RedirectedLength(sub, SOFTWARE, WOW6432NODE);
    }
  }

  // ---------- Opening ----------

  /** What an open does and answers, for every handle and every path the buffers hold. A path that mentions RVPNNETMP
      gets the fake service key. Otherwise the path is followed from the base key, whatever its case; a handle handed
      out leads to the key found, and the tree is left alone. */
  lemma {:induction false} OpenAnswers(r: Reg, h: int, sub: WStr, ex: bool)
    requires Coherent(r) && |r.table| < 0x5000_0000 && Held(r, h, sub)
    ensures Usable(r, h)
    ensures var (r', o) := OpenKey(r, h, sub, ex);
            var us := Meant(r.wow64, h, Tokens(sub));
            if Mentions(sub, Wide("RVPNNETMP")) then
              r' == r && o == Done(0, 0x1000_0001)
            else if !HasBase(r, h, ex) then
              r' == r && o == if ex then Done(6, 0) else Forwarded
            else
              forall b: nat | Base(r, h, ex, b) && Has(r.a, b) ::
                match Walk(r.a, b, us)
                case None => r' == r && o == Done(2, 0)
                case Some(k) =>
                  r'.a == r.a && Coherent(r') && o.Done? && o.status == 0 && Handed(r, r', o.handle, k)
    ensures HasBase(r, h, ex) ==> exists b: nat :: Base(r, h, ex, b) && Has(r.a, b)
  {
    hide EqNoCase, Tokens, Walk, Redirection, Register, Wf, Forest, Meant, BuildFullPath, Mentions, Contains;
    Names();
    CoherentUsable(r, h);
    ContainsIs(sub, RVPNNETMP);
    BaseIs(r, h, ex);
    PathMeans(r, h, sub);
    if HasBase(r, h, ex) {
      BaseHas(r, h, ex);
      assert Base(r, h, ex, BaseKey(r, h, ex).value);
    }
    if !Contains(sub, RVPNNETMP) && HasBase(r, h, ex) {
      var red := Redirection(r, h, sub);
      var b := BaseKey(r, h, ex).value;
      OpenReaches(r, h, sub, ex);
      TruncateExact(red, 512);
      if Walk(r.a, b, Tokens(red)).Some? {
        OpenKeyTransparent(r, h, sub, ex);
        FakeHandleRange(r, h, sub, ex);
        HandedOut(r, Walk(r.a, b, Tokens(red)).value, BuildFullPath(r, h, red));
      }
    }
  }

  lemma {:induction false} BaseHas(r: Reg, h: int, ex: bool)
    requires Coherent(r) && BaseKey(r, h, ex).Some?
    ensures Has(r.a, BaseKey(r, h, ex).value)
  {
    hide EqNoCase, Tokens, CacheCoherent;
    CoherentUsable(r, h);
  }

  lemma {:induction false} HandedOut(r: Reg, k: nat, path: WStr)
    requires Coherent(r) && |r.table| < 0x5000_0000
    requires HandleToKey(Register(r, k, path).0, Register(r, k, path).1) == Some(k)
    requires FAKE_HANDLE_BASE <= Register(r, k, path).1 < HKEY_CLASSES_ROOT
    ensures Handed(r, Register(r, k, path).0, Register(r, k, path).1, k)
  {
    hide EqNoCase, TableCoherent, CacheCoherent, CacheLookup;
    TableSizes(r);
  }

  lemma RegisterTree(r: Reg, k: nat, path: WStr)
    ensures Register(r, k, path).0.a == r.a
  {
  }

  lemma TableSizes(r: Reg)
    requires Coherent(r)
    ensures |r.table| == |r.paths| <= TABLE_LIMIT
  {
  }

  // ---------- Creating ----------

  /** The tree b is a with the path us from key i made whole: every path means what it meant, and the paths that are
      new are the initial parts of us; no value is touched, and a new key has none. */
  ghost predicate MadeWhole(a: Arena, b: Arena, i: nat, us: seq<WStr>)
    requires Wf(a) && Has(a, i) && Wf(b) && Has(b, i)
  {
    && (forall ts :: Walk(a, i, ts).Some? ==> Walk(b, i, ts) == Walk(a, i, ts))
    && (forall ts :: Walk(a, i, ts).None? ==> (Walk(b, i, ts).Some? <==> PathPrefix(ts, us)))
    && |a| <= |b| && (forall x :: 0 <= x < |b| ==> b[x].vals == if x < |a| then a[x].vals else [])
  }

  /** A create makes the path whole, says whether it was so before, and hands out a handle to its last key. */
  lemma {:induction false} CreateAnswers(r: Reg, h: int, sub: WStr, ex: bool)
    requires Coherent(r) && |r.table| < 0x5000_0000 && Held(r, h, sub)
    ensures Usable(r, h)
    ensures var (r', o) := CreateKey(r, h, sub, ex);
            var us := Meant(r.wow64, h, Tokens(sub));
            if !HasBase(r, h, ex) then
              r' == r && o == if ex then Done(6, 0) else Forwarded
            else
              forall b: nat | Base(r, h, ex, b) && Has(r.a, b) ::
                && Coherent(r') && Wf(r'.a) && Has(r'.a, b) && MadeWhole(r.a, r'.a, b, us)
                && (Walk(r.a, b, us).Some? ==> r'.a == r.a)
                && Walk(r'.a, b, us).Some? && o.Done? && o.status == 0
                && Handed(r, r', o.handle, Walk(r'.a, b, us).value)
                && BaseKey(r, h, ex).Some? && (Existed(r, h, sub, ex) <==> Walk(r.a, b, us).Some?)
    ensures HasBase(r, h, ex) ==> exists b: nat :: Base(r, h, ex, b) && Has(r.a, b)
  {
    hide EqNoCase, Tokens, Walk, Redirection, Register, Wf, Forest, Meant, BuildFullPath, Grow, MadeWhole;
    CoherentUsable(r, h);
    BaseIs(r, h, ex);
    PathMeans(r, h, sub);
    if HasBase(r, h, ex) {
      BaseHas(r, h, ex);
      var b, red := BaseKey(r, h, ex).value, Redirection(r, h, sub);
      assert Base(r, h, ex, b);
      TruncateExact(red, 512);
      CreateKeyTransparent(r, h, sub, ex);
      GrowMakesWhole(r.a, b, Tokens(red));
      GrowCoherent(r, h, sub, ex);
      CreatedRange(r, h, sub, ex);
      var (a, k) := Grow(r.a, b, Tokens(red));
      assert CreateKey(r, h, sub, ex) ==
        var (r', out) := Register(r.(a := a), k, BuildFullPath(r, h, red)); (r', Done(ERROR_SUCCESS, out));
      assert CreateKey(r, h, sub, ex).0.a == a by { RegisterTree(r.(a := a), k, BuildFullPath(r, h, red)); }
      HandedOut(r.(a := a), k, BuildFullPath(r, h, red));
    }
  }

  lemma {:induction false} GrowMakesWhole(a: Arena, i: nat, us: seq<WStr>)
    requires Wf(a) && Has(a, i) && AllNonEmpty(us)
    ensures Wf(Grow(a, i, us).0) && Has(Grow(a, i, us).0, i) && MadeWhole(a, Grow(a, i, us).0, i, us)
    ensures Walk(Grow(a, i, us).0, i, us) == Some(Grow(a, i, us).1)
    ensures Walk(a, i, us).Some? ==> Grow(a, i, us) == (a, Walk(a, i, us).value)
  {
    hide EqNoCase, Wf, Forest, Kid, PathPrefix;
    var b := Grow(a, i, us).0;
    assert Walk(a, i, []) == Some(i) && [] + us == us;
    GrowExact(a, i, [], us, us);
    forall ts ensures Walk(a, i, ts).Some? ==> Walk(b, i, ts) == Walk(a, i, ts)
              ensures Walk(a, i, ts).None? ==> (Walk(b, i, ts).Some? <==> PathPrefix(ts, us))
    {
      GrowExact(a, i, [], us, ts);
    }
    GrowValues(a, i, us);
    if Walk(a, i, us).Some? { GrowSame(a, i, us); }
  }

  lemma {:induction false} GrowValues(a: Arena, i: nat, us: seq<WStr>)
    requires Wf(a) && Has(a, i) && AllNonEmpty(us)
    ensures var b := Grow(a, i, us).0;
            |a| <= |b| && forall x :: 0 <= x < |b| ==> b[x].vals == if x < |a| then a[x].vals else []
  {
    hide EqNoCase, Wf, Forest, Kid;
    var b := Grow(a, i, us).0;
    GrowOld(a, i, us);
    forall x | 0 <= x < |b| ensures b[x].vals == if x < |a| then a[x].vals else [] {
      if x < |a| { assert b[..|a|][x] == b[x]; } else { GrowNew(a, i, us, x); }
    }
  }

  lemma {:induction false} GrowSame(a: Arena, i: nat, us: seq<WStr>)
    requires Wf(a) && Has(a, i) && AllNonEmpty(us) && Walk(a, i, us).Some?
    ensures Grow(a, i, us) == (a, Walk(a, i, us).value)
    decreases |us|
  {
    hide EqNoCase, Wf, Forest;
    if us != [] { GrowSame(a, Kid(a, i, us[0]).value, us[1..]); }
  }

  /** The grown registry, before the handle is recorded, is coherent. */
  lemma {:induction false} GrowCoherent(r: Reg, h: int, sub: WStr, ex: bool)
    requires Coherent(r) && Usable(r, h) && BaseKey(r, h, ex).Some?
    ensures Has(r.a, BaseKey(r, h, ex).value)
    ensures Coherent(r.(a := Grow(r.a, BaseKey(r, h, ex).value, Split(Redirection(r, h, sub))).0))
  {
    hide EqNoCase, Tokens, Coherent, Redirection, Grow, Wf, Forest;
    TableOf(r);
    FullPathTokens(r, h, ex, []);
    var ps :| BasePath(r, h, ex, ps) && Tokens(BuildFullPath(r, h, [])) == ps + Tokens([]);
    GrowKeepsTable(r, ps, Split(Redirection(r, h, sub)));
  }

  lemma TableOf(r: Reg)
    requires Coherent(r)
    ensures TableCoherent(r) && Wf(r.a) && Has(r.a, 0)
  {
  }

  lemma {:induction false} CreatedRange(r: Reg, h: int, sub: WStr, ex: bool)
    requires Coherent(r) && Usable(r, h) && |r.table| < TABLE_LIMIT && BaseKey(r, h, ex).Some?
    requires Coherent(r.(a := Grow(r.a, BaseKey(r, h, ex).value, Split(Redirection(r, h, sub))).0))
    ensures FAKE_HANDLE_BASE <= CreateKey(r, h, sub, ex).1.handle < HKEY_CLASSES_ROOT
  {
    hide EqNoCase, Tokens, Redirection, Grow, Wf, Forest, TableCoherent, CacheIndex;
    BaseHas(r, h, ex);
    var red := Redirection(r, h, sub);
    var g := r.(a := Grow(r.a, BaseKey(r, h, ex).value, Split(red)).0);
    var j := CacheIndex(g.cache, BuildFullPath(r, h, red));
    TableSizes(g);
    if j < |g.cache| { assert CachedOk(g, g.cache[j]); }
  }

  // ---------- Opening again ----------

  lemma EqAppend(s: WStr, t: WStr, u: WStr, v: WStr)
    requires EqNoCase(s, t) && EqNoCase(u, v)
    ensures EqNoCase(s + u, t + v)
  {
    EqNoCaseIs(s, t);
    EqNoCaseIs(u, v);
    EqNoCaseIs(s + u, t + v);
  }

  lemma EqSlice(s: WStr, t: WStr, i: nat, j: nat)
    requires EqNoCase(s, t) && i <= j <= |s|
    ensures |t| == |s| && EqNoCase(s[i..j], t[i..j])
  {
    EqNoCaseIs(s, t);
    EqNoCaseIs(s[i..j], t[i..j]);
  }

  lemma {:induction false} EqTokens(s: WStr, t: WStr)
    requires EqNoCase(s, t)
    ensures |Tokens(s)| == |Tokens(t)| && forall i :: 0 <= i < |Tokens(s)| ==> EqNoCase(Tokens(s)[i], Tokens(t)[i])
  {
    hide Tokens;
    TokensFold(s);
    TokensFold(t);
    var ss, ts := Tokens(s), Tokens(t);
    assert |ss| == |FoldAll(ss)| == |ts|;
    forall i | 0 <= i < |ss| ensures EqNoCase(ss[i], ts[i]) { assert FoldAll(ss)[i] == FoldAll(ts)[i]; }
  }

  lemma {:induction false} EqBegins(s: WStr, t: WStr, n: nat, name: WStr)
    requires EqNoCase(s, t) && n > 0
    ensures Begins(Tokens(Truncate(s, n)), name) <==> Begins(Tokens(Truncate(t, n)), name)
    ensures Begins(Tokens(Truncate(s, n)), name) ==>
              |Tokens(Truncate(s, n))[0]| == |Tokens(Truncate(t, n))[0]| == |name|
  {
    hide Tokens;
    SameLength(s, t);
    if |s| >= n { EqSlice(s, t, 0, n - 1); }
    var u, v := Truncate(s, n), Truncate(t, n);
    EqTokens(u, v);
    if Begins(Tokens(u), name) {
      SameLength(Tokens(u)[0], name);
      SameLength(Tokens(v)[0], name);
    }
  }

  lemma {:induction false} EqRedirected(s: WStr, t: WStr, p: WStr, q: WStr)
    requires EqNoCase(s, t) && RedirectorPair(p, q)
    ensures EqNoCase(Redirected(s, p, q), Redirected(t, p, q))
  {
    hide Tokens, EqNoCase;
    SameLength(s, t);
    EqBegins(s, t, 512, p);
    if Begins(Tokens(Truncate(s, 512)), p) {
      var u, v := Remainder(s, Tokens(Truncate(s, 512))[0]), Remainder(t, Tokens(Truncate(t, 512))[0]);
      EqRemainder(s, t, Tokens(Truncate(s, 512))[0], Tokens(Truncate(t, 512))[0]);
      EqBegins(u, v, 256, q);
      EqRebuilt(p, q, u, v);
    }
  }

  lemma {:induction false} EqRemainder(s: WStr, t: WStr, f: WStr, g: WStr)
    requires EqNoCase(s, t) && |f| == |g|
    ensures EqNoCase(Remainder(s, f), Remainder(t, g))
  {
    SameLength(s, t);
    EqNoCaseIs(s, t);
    EqNoCaseIs(Remainder(s, f), Remainder(t, g));
  }

  lemma {:induction false} EqRebuilt(p: WStr, q: WStr, u: WStr, v: WStr)
    requires EqNoCase(u, v)
    ensures EqNoCase(Rebuilt(p, q, u), Rebuilt(p, q, v))
  {
    hide EqNoCase;
    SameLength(u, v);
    var pq := p + [BACKSLASH] + q;
    EqNoCaseIs(pq, pq);
    EqNoCaseIs([BACKSLASH], [BACKSLASH]);
    EqNoCaseIs([], []);
    if u == [] {
      EqAppend(pq, pq, [], []);
    } else {
      EqAppend([BACKSLASH], [BACKSLASH], u, v);
      EqAppend(pq, pq, [BACKSLASH] + u, [BACKSLASH] + v);
    }
  }

  lemma {:induction false} EqFullPath(r: Reg, h: int, s: WStr, t: WStr)
    requires EqNoCase(s, t) && |r.table| == |r.paths|
    ensures EqNoCase(BuildFullPath(r, h, s), BuildFullPath(r, h, t))
  {
    hide EqNoCase;
    SameLength(s, t);
    if !(Predefined(h, true) || h == FAKE_SERVICE_KEY || Index(h) >= |r.paths|) {
      var base := r.paths[Index(h)];
      EqNoCaseIs(base, base);
      EqNoCaseIs([BACKSLASH], [BACKSLASH]);
      EqNoCaseIs([], []);
      if s == [] {
        EqAppend(base, base, [], []);
      } else {
        EqAppend([BACKSLASH], [BACKSLASH], s, t);
        EqAppend(base, base, [BACKSLASH] + s, [BACKSLASH] + t);
      }
    }
  }

  /** A path recorded while the cache has room is found there afterwards, in any case. */
  lemma {:induction false} RecordedAgain(r: Reg, k: nat, path: WStr, k': nat, path': WStr)
    requires |r.cache| < 512 && EqNoCase(path, path')
    ensures var (r', out) := Register(r, k, path); Register(r', k', path').1 == out
  {
    var j := CacheIndex(r.cache, path);
    var c := Register(r, k, path).0.cache;
    forall l | 0 <= l < j ensures !EqNoCase(c[l].path, path') { assert c[l] == r.cache[l]; }
    assert EqNoCase(c[j].path, path');
    CacheIndexIs(c, path', j);
  }

  lemma CacheIndexIs(c: seq<Cached>, path: WStr, j: nat)
    requires j < |c| && EqNoCase(c[j].path, path) && forall l :: 0 <= l < j ==> !EqNoCase(c[l].path, path)
    ensures CacheIndex(c, path) == j
  {
  }

  /** While the cache has room, opening the same path again, in any case, hands out the same handle. */
  lemma {:induction false} OpenedAgain(r: Reg, h: int, sub: WStr, sub': WStr, ex: bool)
    requires Coherent(r) && |r.table| + 1 < 0x5000_0000 && |r.cache| < 512
    requires Held(r, h, sub) && Held(r, h, sub') && EqNoCase(sub, sub')
    requires !Mentions(sub, Wide("RVPNNETMP")) && !Mentions(sub', Wide("RVPNNETMP")) && HasBase(r, h, ex)
    ensures Usable(r, h) &&
            var (r1, o1) := OpenKey(r, h, sub, ex);
            Usable(r1, h) &&
            var o2 := OpenKey(r1, h, sub', ex).1;
            o1.Done? && (o1.status == 0 ==> o2 == o1)
  {
    hide EqNoCase, Tokens, Walk, Redirection, Register, Wf, Forest, Meant, BuildFullPath, Mentions, Contains, Handed,
        Held;
    Names();
    ContainsIs(sub, RVPNNETMP);
    ContainsIs(sub', RVPNNETMP);
    OpenAnswers(r, h, sub, ex);
    CoherentUsable(r, h);
    BaseIs(r, h, ex);
    BaseHas(r, h, ex);
    var b, red := BaseKey(r, h, ex).value, Redirection(r, h, sub);
    assert Base(r, h, ex, b);
    var (r1, o1) := OpenKey(r, h, sub, ex);
    if o1.status == 0 {
      SecondOpen(r, h, sub, sub', ex, b, Walk(r.a, b, Split(red)).value);
    }
  }

  lemma {:induction false} SecondOpen(r: Reg, h: int, sub: WStr, sub': WStr, ex: bool, b: nat, k: nat)
    requires Coherent(r) && |r.table| + 1 < 0x5000_0000 && |r.cache| < 512 && Usable(r, h) && HasBase(r, h, ex)
    requires Held(r, h, sub) && Held(r, h, sub') && EqNoCase(sub, sub')
    requires !Contains(sub, RVPNNETMP) && !Contains(sub', RVPNNETMP)
    requires BaseKey(r, h, ex) == Some(b) && Has(r.a, b) && Walk(r.a, b, Split(Redirection(r, h, sub))) == Some(k)
    requires Coherent(OpenKey(r, h, sub, ex).0)
    ensures var (r1, o1) := OpenKey(r, h, sub, ex);
            Usable(r1, h) && o1.Done? && OpenKey(r1, h, sub', ex).1 == Done(0, o1.handle)
  {
    hide EqNoCase, Tokens, Walk, Register, Wf, Forest, BuildFullPath, Contains, Meant, RedirectSubKey;
    var red, red' := Redirection(r, h, sub), Redirection(r, h, sub');
    var (r1, o1) := OpenKey(r, h, sub, ex);
    assert (r1, o1.handle) == Register(r, k, BuildFullPath(r, h, red));
    KeptBase(r, h, ex, k, BuildFullPath(r, h, red));
    CoherentUsable(r1, h);
    EqRedirection(r, h, sub, sub');
    EqWalk(r, h, sub, sub', b);
    assert Redirection(r1, h, sub') == red' && BaseKey(r1, h, ex) == Some(b);
    TableSizes(r);
    EqFullPath(r, h, red, red');
    RecordedAgain(r, k, BuildFullPath(r, h, red), k, BuildFullPath(r, h, red'));
    SameFullPath(r, h, ex, k, BuildFullPath(r, h, red), red');
  }

  lemma {:induction false} EqRedirection(r: Reg, h: int, sub: WStr, sub': WStr)
    requires EqNoCase(sub, sub')
    ensures EqNoCase(Redirection(r, h, sub), Redirection(r, h, sub'))
  {
    hide EqNoCase, Tokens;
    EqRedirected(sub, sub', SOFTWARE, WOW6432NODE);
  }

  lemma {:induction false} EqWalk(r: Reg, h: int, sub: WStr, sub': WStr, b: nat)
    requires Wf(r.a) && Has(r.a, b) && EqNoCase(sub, sub') && Held(r, h, sub) && Held(r, h, sub')
    ensures Walk(r.a, b, Split(Redirection(r, h, sub'))) == Walk(r.a, b, Split(Redirection(r, h, sub)))
  {
    hide EqNoCase, Tokens, Walk, Redirection, Meant, Held;
    var red, red' := Redirection(r, h, sub), Redirection(r, h, sub');
    EqRedirection(r, h, sub, sub');
    PathMeans(r, h, sub);
    PathMeans(r, h, sub');
    TruncateExact(red, 512);
    TruncateExact(red', 512);
    TokensOfEqual(red, red');
    WalkNoCase(r.a, b, Tokens(red'), Tokens(red));
  }

  lemma TokensOfEqual(s: WStr, t: WStr)
    requires EqNoCase(s, t)
    ensures FoldAll(Tokens(s)) == FoldAll(Tokens(t))
  {
    TokensFold(s);
    TokensFold(t);
  }

  /** Recording one more handle keeps what the earlier ones lead to. */
  lemma {:induction false} KeptBase(r: Reg, h: int, ex: bool, k: nat, path: WStr)
    requires BaseKey(r, h, ex).Some? && |r.table| + 1 < 0x5000_0000
    ensures var r1 := Register(r, k, path).0;
            BaseKey(r1, h, ex) == BaseKey(r, h, ex) && r1.a == r.a && r1.wow64 == r.wow64
  {
    hide CacheLookup;
  }

  lemma {:induction false} SameFullPath(r: Reg, h: int, ex: bool, k: nat, path: WStr, sub: WStr)
    requires BaseKey(r, h, ex).Some? && |r.table| == |r.paths| && |r.table| + 1 < 0x5000_0000
    ensures var r1 := Register(r, k, path).0;
            |r1.table| == |r1.paths| && BuildFullPath(r1, h, sub) == BuildFullPath(r, h, sub)
  {
    hide CacheLookup;
  }

  // ---------- Deleting a key ----------

  /** The path passes through key k or ends there. */
  ghost predicate Through(a: Arena, i: nat, us: seq<WStr>, k: nat)
    requires Wf(a) && Has(a, i)
  {
    exists n :: 0 <= n <= |us| && Walk(a, i, us[..n]) == Some(k)
  }

  lemma {:induction false} ThroughIs(a: Arena, i: nat, us: seq<WStr>, k: nat)
    requires Wf(a) && Has(a, i)
    ensures Through(a, i, us, k) <==> Meets(a, i, us, k)
    decreases |us|
  {
    hide Wf, Forest, Kid;
    assert us[..0] == [] && Walk(a, i, []) == Some(i);
    if us != [] && Kid(a, i, us[0]).Some? {
      var c := Kid(a, i, us[0]).value;
      ThroughIs(a, c, us[1..], k);
      if n :| 0 <= n <= |us[1..]| && Walk(a, c, us[1..][..n]) == Some(k) {
        assert us[..n + 1][0] == us[0] && us[..n + 1][1..] == us[1..][..n];
        assert Walk(a, i, us[..n + 1]) == Some(k);
      }
      if n :| 0 <= n <= |us| && Walk(a, i, us[..n]) == Some(k) && i != k {
        assert us[..n] != [] && us[..n][0] == us[0] && us[..n][1..] == us[1..][..n - 1];
        assert Walk(a, c, us[1..][..n - 1]) == Some(k);
      }
    } else if us != [] {
      forall n | 0 < n <= |us| ensures Walk(a, i, us[..n]) == None { assert us[..n][0] == us[0]; }
    }
  }

  /** What deleting a key does: the direct subkey of that whole name, in any case, goes, and with it exactly the paths
      through it. Every other path, all values, the handles and the cache stay. */
  lemma {:induction false} DeleteKeyAnswers(r: Reg, h: int, name: WStr)
    requires Usable(r, h) && |r.table| <= 0x5000_0000
    ensures var (r', o) := DeleteKey(r, h, name);
            if h == 0x1000_0001 then r' == r && o == Done(0, 0)
            else if !Ours(r, h) then r' == r && o == Forwarded
            else
              forall p: nat | Leads(r, h, p) ::
                && Has(r.a, p)
                && ((forall k :: k in r.a[p].kids && k < |r.a| ==> !EqNoCase(r.a[k].name, name)) ==>
                      r' == r && o == Done(2, 0))
                && (forall k: nat :: k in r.a[p].kids && k < |r.a| && EqNoCase(r.a[k].name, name) ==>
                      && o == Done(0, 0) && r' == r.(a := r'.a) && Wf(r'.a) && Has(r'.a, p) && !Has(r'.a, k)
                      && Walk(r'.a, p, [name]) == None
                      && OnlyPathsThrough(r.a, r'.a, k)
                      && |r'.a| == |r.a| && forall x :: 0 <= x < |r.a| ==> r'.a[x].vals == r.a[x].vals)
  {
    hide EqNoCase, RemoveKid, Wf, Forest, Kid, Walk, OnlyPathsThrough;
    LeadsIs(r, h);
    if h != 0x1000_0001 && Ours(r, h) {
      var p := HandleToKey(r, h).value;
      KidNamedIs(r.a, p, name);
      if Kid(r.a, p, name).Some? { Removed(r.a, p, Kid(r.a, p, name).value, name); }
    }
  }

  /** Paths from every other key: those through k are gone, the others mean what they meant. */
  ghost predicate OnlyPathsThrough(a: Arena, b: Arena, k: nat)
    requires Wf(a) && Wf(b)
  {
    forall i: nat, us :: Has(a, i) && i != k ==>
      Has(b, i) && Walk(b, i, us) == if Through(a, i, us, k) then None else Walk(a, i, us)
  }

  lemma {:induction false} KidNamedIs(a: Arena, p: nat, name: WStr)
    requires Wf(a) && Has(a, p)
    ensures forall k: nat :: k in a[p].kids && k < |a| && EqNoCase(a[k].name, name) ==> Kid(a, p, name) == Some(k)
    ensures Kid(a, p, name).Some? ==>
              var k := Kid(a, p, name).value; k in a[p].kids && k < |a| && EqNoCase(a[k].name, name)
  {
    hide EqNoCase, Kid, Forest;
    forall k: nat | k in a[p].kids && k < |a| && EqNoCase(a[k].name, name) ensures Kid(a, p, name) == Some(k) {
      KidIs(a, p, name, k);
    }
  }

  lemma {:induction false} Removed(a: Arena, p: nat, k: nat, name: WStr)
    requires Wf(a) && Has(a, p) && Kid(a, p, name) == Some(k)
    ensures var b := RemoveKid(a, p, k);
            && Wf(b) && Has(b, p) && !Has(b, k) && Walk(b, p, [name]) == None && OnlyPathsThrough(a, b, k)
            && |b| == |a| && forall x :: 0 <= x < |a| ==> b[x].vals == a[x].vals
  {
    hide EqNoCase, Kid, Forest, Through, Without;
    var b := RemoveKid(a, p, k);
    RemoveKidWf(a, p, k);
    forall i: nat, us | Has(a, i) && i != k
      ensures Has(b, i) && Walk(b, i, us) == if Through(a, i, us, k) then None else Walk(a, i, us)
    {
      RemoveKidExact(a, p, k, i, us);
      ThroughIs(a, i, us, k);
    }
    var one := [name];
    assert one[1..] == [] && one[..1] == one && Walk(a, p, one) == Some(k);
    assert Through(a, p, one, k) by { ThroughAt(a, p, one, k, 1); }
  }

  lemma ThroughAt(a: Arena, i: nat, us: seq<WStr>, k: nat, n: nat)
    requires Wf(a) && Has(a, i) && n <= |us| && Walk(a, i, us[..n]) == Some(k)
    ensures Through(a, i, us, k)
  {
  }

  // ---------- Values ----------

  /** What a query answers about a value of this type and these bytes. */
  function Tells(typ: U32, data: seq<Byte>, room: Option<nat>): Answer {
    if room.None? then Answer(0, Some(typ), Some(|data|), [])
    else if room.value < |data| then Answer(234, Some(typ), Some(|data|), [])
    else Answer(0, Some(typ), Some(|data|), data)
  }

  /** There is no such value. */
  const TellsNone := Answer(2, None, None, [])

  /** A query answers about the value of that name, in any case, of the key the handle leads to. */
  lemma {:induction false} QueryAnswers(r: Reg, h: int, name: WStr, room: Option<nat>)
    requires Usable(r, h) && |r.table| <= 0x5000_0000 && ValuesUnique(r.a)
    ensures !Ours(r, h) ==> QueryValueEx(r, h, name, room) == Answer(6, None, None, [])
    ensures forall k: nat | Leads(r, h, k) ::
              && Has(r.a, k)
              && (forall v :: v in r.a[k].vals && EqNoCase(v.name, name) ==>
                    QueryValueEx(r, h, name, room) == Tells(v.typ, v.data, room))
              && ((forall v :: v in r.a[k].vals ==> !EqNoCase(v.name, name)) ==>
                    QueryValueEx(r, h, name, room) == TellsNone)
  {
    hide EqNoCase, Wf, Forest, IndexOf;
    LeadsIs(r, h);
    if Ours(r, h) { QueryOf(r.a[HandleToKey(r, h).value].vals, name, room); }
  }

  lemma {:induction false} QueryOf(vs: seq<Val>, name: WStr, room: Option<nat>)
    requires Unique(vs)
    ensures forall v :: v in vs && EqNoCase(v.name, name) ==> Query(vs, name, room) == Tells(v.typ, v.data, room)
    ensures (forall v :: v in vs ==> !EqNoCase(v.name, name)) ==> Query(vs, name, room) == TellsNone
  {
    hide IndexOf, EqNoCase;
    var j := IndexOf(vs, name);
    forall v | v in vs && EqNoCase(v.name, name) ensures j < |vs| && vs[j] == v {
      var l :| 0 <= l < |vs| && vs[l] == v;
      assert j <= l;
      OneName(vs, j, l, name);
    }
  }

  lemma OneName(vs: seq<Val>, j: nat, l: nat, name: WStr)
    requires Unique(vs) && j < |vs| && l < |vs| && EqNoCase(vs[j].name, name) && EqNoCase(vs[l].name, name)
    ensures j == l
  {
  }

  /** A query depends on what the list is as a map. */
  lemma {:induction false} QueryByMap(vs: seq<Val>, name: WStr, room: Option<nat>)
    ensures Query(vs, name, room)
         == if Fold(name) in AsMap(vs) then Tells(AsMap(vs)[Fold(name)].typ, AsMap(vs)[Fold(name)].data, room)
            else TellsNone
  {
    hide IndexOf, AsMap;
    AsMapLookup(vs, name);
  }

  lemma {:induction false} QuerySet(vs: seq<Val>, name: WStr, typ: U32, data: seq<Byte>, other: WStr, room: Option<nat>)
    ensures Query(SetVal(vs, name, typ, data), other, room)
         == if EqNoCase(other, name) then Tells(typ, data, room) else Query(vs, other, room)
  {
    hide IndexOf, AsMap, Query, SetVal, Tells;
    QueryByMap(vs, other, room);
    QueryByMap(SetVal(vs, name, typ, data), other, room);
    SetValRefines(vs, name, typ, data);
  }

  lemma {:induction false} QueryDrop(vs: seq<Val>, name: WStr, other: WStr, room: Option<nat>)
    requires Unique(vs)
    ensures Query(DropVal(vs, name), other, room) == if EqNoCase(other, name) then TellsNone else Query(vs, other, room)
  {
    hide IndexOf, AsMap, Query, DropVal, Tells;
    QueryByMap(vs, other, room);
    QueryByMap(DropVal(vs, name), other, room);
    DropValRefines(vs, name);
  }

  /** Nothing but the values of key k is different. */
  ghost predicate OnlyValuesOf(r: Reg, r': Reg, k: nat) {
    && r' == r.(a := r'.a) && |r'.a| == |r.a| && k < |r.a|
    && (forall x :: 0 <= x < |r.a| && x != k ==> r'.a[x] == r.a[x])
    && r'.a[k] == r.a[k].(vals := r'.a[k].vals)
  }

  /** The query of `other` through g afterwards, when the value `name` of key k was set. */
  ghost predicate SetTells(r: Reg, r': Reg, k: nat, name: WStr, typ: U32, data: seq<Byte>, g: int, other: WStr,
                           room: Option<nat>)
    requires Usable(r, g)
  {
    Usable(r', g) &&
    QueryValueEx(r', g, other, room)
    == if Leads(r, g, k) && EqNoCase(other, name) then Tells(typ, data, room) else QueryValueEx(r, g, other, room)
  }

  /** The same when it was deleted. */
  ghost predicate DropTells(r: Reg, r': Reg, k: nat, name: WStr, g: int, other: WStr, room: Option<nat>)
    requires Usable(r, g)
  {
    Usable(r', g) &&
    QueryValueEx(r', g, other, room)
    == if Leads(r, g, k) && EqNoCase(other, name) then TellsNone else QueryValueEx(r, g, other, room)
  }

  /** What setting a value does: queries of that name, in any case, through any handle to that key, tell the type and
      the bytes given; every other query, of whatever key and name, tells what it told. */
  lemma {:induction false} SetValueAnswers(r: Reg, h: int, name: WStr, typ: U32, data: seq<Byte>)
    requires Usable(r, h) && |r.table| <= 0x5000_0000
    ensures var (r', o) := SetValueEx(r, h, name, typ, data);
            if h == 0x1000_0001 then r' == r && o == Done(0, 0)
            else if !Ours(r, h) then r' == r && o == Done(6, 0)
            else
              var k := KeyOf(r, h);
              && o == Done(0, 0) && OnlyValuesOf(r, r', k)
              && forall g, other, room | Usable(r, g) :: SetTells(r, r', k, name, typ, data, g, other, room)
  {
    hide EqNoCase, Query, SetVal, Wf, Forest, Tells;
    LeadsIs(r, h);
    if h != 0x1000_0001 && Ours(r, h) {
      var k := HandleToKey(r, h).value;
      var r' := SetValueEx(r, h, name, typ, data).0;
      WithValsWalk(r.a, k, SetVal(r.a[k].vals, name, typ, data), k, []);
      forall g, other, room | Usable(r, g)
        ensures SetTells(r, r', k, name, typ, data, g, other, room)
      {
        LeadsIs(r, g);
        QuerySet(r.a[k].vals, name, typ, data, other, room);
      }
    }
  }

  /** What deleting a value does: queries of that name through any handle to that key find nothing, every other tells
      what it told; a name that is not there is reported so. */
  lemma {:induction false} DeleteValueAnswers(r: Reg, h: int, name: WStr)
    requires Usable(r, h) && |r.table| <= 0x5000_0000 && ValuesUnique(r.a)
    ensures var (r', o) := DeleteValue(r, h, name);
            if h == 0x1000_0001 then r' == r && o == Done(0, 0)
            else if !Ours(r, h) then r' == r && o == Forwarded
            else
              var k := KeyOf(r, h);
              && OnlyValuesOf(r, r', k)
              && o == Done(if exists v :: v in r.a[k].vals && EqNoCase(v.name, name) then 0 else 2, 0)
              && forall g, other, room | Usable(r, g) :: DropTells(r, r', k, name, g, other, room)
  {
    hide EqNoCase, Query, DropVal, Wf, Forest, Unique, IndexOf;
    LeadsIs(r, h);
    if h != 0x1000_0001 && Ours(r, h) {
      var k := HandleToKey(r, h).value;
      var r' := DeleteValue(r, h, name).0;
      if IndexOf(r.a[k].vals, name) == |r.a[k].vals| { UnsavedDrop(r, k, name); }
      ThereIs(r.a[k].vals, name);
      assert r' == r.(a := WithVals(r.a, k, DropVal(r.a[k].vals, name)));
      WithValsWalk(r.a, k, DropVal(r.a[k].vals, name), k, []);
      forall g, other, room | Usable(r, g)
        ensures DropTells(r, r', k, name, g, other, room)
      {
        LeadsIs(r, g);
        QueryDrop(r.a[k].vals, name, other, room);
      }
    }
  }

  lemma {:induction false} ThereIs(vs: seq<Val>, name: WStr)
    ensures IndexOf(vs, name) < |vs| <==> exists v :: v in vs && EqNoCase(v.name, name)
  {
    hide IndexOf, EqNoCase;
    if IndexOf(vs, name) < |vs| { assert vs[IndexOf(vs, name)] in vs; }
  }

  lemma {:induction false} UnsavedDrop(r: Reg, k: nat, name: WStr)
    requires k < |r.a| && IndexOf(r.a[k].vals, name) == |r.a[k].vals|
    ensures WithVals(r.a, k, DropVal(r.a[k].vals, name)) == r.a
  {
    DropValAt(r.a[k].vals, name);
    assert r.a[k := r.a[k]] == r.a;
  }

  // ---------- Over runs ----------

  /** The call sets or deletes the value of that name of key k. */
  ghost predicate Touches(r: Reg, op: RegOp, k: nat, name: WStr) {
    (op.OpSetValue? || op.OpDeleteValue?) && Leads(r, op.h, k) && EqNoCase(op.sub, name)
  }

  ghost predicate Spares(r: Reg, ops: seq<RegOp>, k: nat, name: WStr)
    requires UsableThroughout(r, ops)
    decreases |ops|
  {
    ops == [] || (!Touches(r, ops[0], k, name) && Spares(Step(r, ops[0]), ops[1..], k, name))
  }

  /** A call that does not touch the value of that name leaves every query of it as it was. */
  lemma {:induction false} StepKeepsAnswer(r: Reg, op: RegOp, k: nat, name: WStr, other: WStr, room: Option<nat>)
    requires Usable(r, op.h) && ValuesUnique(r.a) && k < |r.a| && |r.table| <= 0x5000_0000
    requires !Touches(r, op, k, name) && EqNoCase(other, name)
    ensures k < |Step(r, op).a| && Query(Step(r, op).a[k].vals, other, room) == Query(r.a[k].vals, other, room)
    ensures |r.table| <= |Step(r, op).table|
  {
    hide EqNoCase, Query, DropVal, SetVal, Wf, Forest, Unique, IndexOf, Tokens, Redirection, Split, Walk, CacheIndex,
        Contains, BuildFullPath, RemoveKid, Kid, Grow;
    LeadsIs(r, op.h);
    match op
    case OpOpen(h, sub, ex) =>
    case OpCreate(h, sub, ex) =>
      RootIn(r.a);
      if BaseKey(r, h, ex).Some? { GrowValues(r.a, BaseKey(r, h, ex).value, Split(Redirection(r, h, sub))); }
    case OpDelete(h, sub) =>
      if HandleToKey(r, h).Some? && Kid(r.a, HandleToKey(r, h).value, sub).Some? {
        RemoveKidVals(r.a, HandleToKey(r, h).value, Kid(r.a, HandleToKey(r, h).value, sub).value);
      }
    case OpSetValue(h, sub, typ, data) =>
      if Leads(r, h, k) { QuerySet(r.a[k].vals, sub, typ, data, other, room); NotNamed(sub, name, other); }
    case OpDeleteValue(h, sub) =>
      if Leads(r, h, k) { QueryDrop(r.a[k].vals, sub, other, room); NotNamed(sub, name, other); }
  }

  lemma RootIn(a: Arena)
    requires Wf(a)
    ensures Has(a, 0)
  {
  }

  lemma NotNamed(sub: WStr, name: WStr, other: WStr)
    requires EqNoCase(other, name) && !EqNoCase(sub, name)
    ensures !EqNoCase(other, sub)
  {
  }

  lemma RemoveKidVals(a: Arena, p: nat, k: nat)
    requires p < |a| && k < |a|
    ensures |RemoveKid(a, p, k)| == |a| && forall x :: 0 <= x < |a| ==> RemoveKid(a, p, k)[x].vals == a[x].vals
  {
  }

  lemma {:induction false} RunKeepsAnswer(r: Reg, ops: seq<RegOp>, k: nat, name: WStr, other: WStr, room: Option<nat>)
    requires Wf(r.a) && ValuesUnique(r.a) && k < |r.a| && UsableThroughout(r, ops) && Spares(r, ops, k, name)
    requires EqNoCase(other, name) && |RunOps(r, ops).table| <= 0x5000_0000
    ensures var r' := RunOps(r, ops);
            k < |r'.a| && Query(r'.a[k].vals, other, room) == Query(r.a[k].vals, other, room)
    decreases |ops|
  {
    hide EqNoCase, Query, Wf, Forest, ValuesUnique, Step, Touches;
    TableGrows(r, ops);
    if ops != [] {
      StepKeepsAnswer(r, ops[0], k, name, other, room);
      StepKeepsForest(r, ops[0]);
      RunKeepsAnswer(Step(r, ops[0]), ops[1..], k, name, other, room);
    }
  }

  lemma {:induction false} TableGrows(r: Reg, ops: seq<RegOp>)
    requires UsableThroughout(r, ops)
    ensures |r.table| <= |RunOps(r, ops).table|
    decreases |ops|
  {
    hide Step, Wf, Forest;
    if ops != [] {
      StepTable(r, ops[0]);
      TableGrows(Step(r, ops[0]), ops[1..]);
    }
  }

  lemma {:induction false} StepTable(r: Reg, op: RegOp)
    requires Usable(r, op.h)
    ensures |r.table| <= |Step(r, op).table|
  {
    hide EqNoCase, Wf, Forest, Tokens, Redirection, Split, Walk, CacheIndex, Contains, BuildFullPath, RemoveKid, Kid,
        Grow,
        SetVal, DropVal, IndexOf;
  }

  /** The last value set is the value found: set it through any handle, then let any calls follow that neither set nor
      delete the value of that name of that key; a query through any handle to the key, of the name in any case, tells
      exactly the type and the bytes set. */
  lemma {:induction false} LastSetIsFound(r: Reg, h: int, name: WStr, typ: U32, data: seq<Byte>, ops: seq<RegOp>,
                                          g: int, other: WStr, room: Option<nat>)
    requires Usable(r, h) && ValuesUnique(r.a) && h != 0x1000_0001 && Ours(r, h) && EqNoCase(other, name)
    requires var r1 := SetValueEx(r, h, name, typ, data).0;
             && UsableThroughout(r1, ops) && Spares(r1, ops, KeyOf(r, h), name)
             && var r2 := RunOps(r1, ops);
                |r2.table| <= 0x5000_0000 && Usable(r2, g) && Leads(r2, g, KeyOf(r, h))
    ensures var r2 := RunOps(SetValueEx(r, h, name, typ, data).0, ops);
            Usable(r2, g) && QueryValueEx(r2, g, other, room) == Tells(typ, data, room)
  {
    hide EqNoCase, Query, Wf, Forest, ValuesUnique, Spares, Tells, SetVal;
    var r1, k := SetValueEx(r, h, name, typ, data).0, KeyOf(r, h);
    TableGrows(r1, ops);
    LeadsIs(r, h);
    StepKeepsForest(r, OpSetValue(h, name, typ, data));
    QuerySet(r.a[k].vals, name, typ, data, other, room);
    RunKeepsAnswer(r1, ops, k, name, other, room);
    LeadsIs(RunOps(r1, ops), g);
  }

  /** A value deleted, and not set since, is not found. */
  lemma {:induction false} LastDeletedIsGone(r: Reg, h: int, name: WStr, ops: seq<RegOp>,
                                             g: int, other: WStr, room: Option<nat>)
    requires Usable(r, h) && ValuesUnique(r.a) && h != 0x1000_0001 && Ours(r, h) && EqNoCase(other, name)
    requires var r1 := DeleteValue(r, h, name).0;
             && UsableThroughout(r1, ops) && Spares(r1, ops, KeyOf(r, h), name)
             && var r2 := RunOps(r1, ops);
                |r2.table| <= 0x5000_0000 && Usable(r2, g) && Leads(r2, g, KeyOf(r, h))
    ensures var r2 := RunOps(DeleteValue(r, h, name).0, ops);
            Usable(r2, g) && QueryValueEx(r2, g, other, room) == TellsNone
  {
    hide EqNoCase, Query, Wf, Forest, ValuesUnique, Spares, DropVal, IndexOf;
    var r1, k := DeleteValue(r, h, name).0, KeyOf(r, h);
    TableGrows(r1, ops);
    LeadsIs(r, h);
    StepKeepsForest(r, OpDeleteValue(h, name));
    UniqueAt(r.a, k);
    if IndexOf(r.a[k].vals, name) == |r.a[k].vals| { UnsavedDrop(r, k, name); }
    QueryDrop(r.a[k].vals, name, other, room);
    RunKeepsAnswer(r1, ops, k, name, other, room);
    LeadsIs(RunOps(r1, ops), g);
  }

  lemma UniqueAt(a: Arena, k: nat)
    requires ValuesUnique(a) && Has(a, k)
    ensures Unique(a[k].vals)
  {
  }
}
