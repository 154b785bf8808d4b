/** The registry hooks on values: key tree, handle table, recorded paths and the path-to-handle cache. */
module Handles {
  import opened Basics
  import opened WideStrings
  import opened Redirect
  import opened KeyArena
  import opened Values
  import opened ArenaTree

  const HKEY_CLASSES_ROOT := 0x8000_0000
  const HKEY_CURRENT_USER := 0x8000_0001
  const HKEY_LOCAL_MACHINE := 0x8000_0002
  const HKEY_USERS := 0x8000_0003
  const FAKE_SERVICE_KEY := 0x1000_0001
  const FAKE_HANDLE_BASE := 0x3000_0000
  /** Above this many handles a fake handle would collide with HKEY_CLASSES_ROOT. */
  const TABLE_LIMIT := 0x5000_0000
  const MAX_CACHED_HANDLES := 512
  const RVPNNETMP: WStr := [82, 86, 80, 78, 78, 69, 84, 77, 80]

  datatype Cached = Cached(path: WStr, handle: int)

  /** table[i] and paths[i] belong to the handle FAKE_HANDLE_BASE + i. */
  datatype Reg = Reg(a: Arena, table: seq<nat>, paths: seq<WStr>, cache: seq<Cached>, wow64: bool)

  /** Forwarded: the call was not about the fake registry and went to the real API. */
  datatype Outcome = Done(status: int, handle: int) | Forwarded

  predicate Contains(s: WStr, t: WStr) {
    |t| <= |s| && (s[..|t|] == t || (s != [] && Contains(s[1..], t)))
  }

  predicate Predefined(h: int, users: bool) {
    h == HKEY_LOCAL_MACHINE || h == HKEY_CURRENT_USER || h == HKEY_CLASSES_ROOT || (users && h == HKEY_USERS)
  }

  /** The 32-bit difference `HandleToKey` indexes with. */
  function Index(h: int): nat {
    (h - FAKE_HANDLE_BASE) % 0x1_0000_0000
  }

  function HandleToKey(r: Reg, h: int): Option<nat> {
    if h == FAKE_SERVICE_KEY then None
    else if Index(h) < |r.table| then Some(r.table[Index(h)]) else None
  }

  /** The base key of an open or create; `ex` hooks do not know HKEY_USERS. */
  function BaseKey(r: Reg, h: int, ex: bool): Option<nat> {
    if Predefined(h, !ex) then Some(0) else HandleToKey(r, h)
  }

  function BuildFullPath(r: Reg, h: int, sub: WStr): WStr
    requires |r.table| == |r.paths|
  {
    if Predefined(h, true) || h == FAKE_SERVICE_KEY || Index(h) >= |r.paths| then sub
    else r.paths[Index(h)] + (if sub == [] then [] else [BACKSLASH] + sub)
  }

  function CacheIndex(cache: seq<Cached>, path: WStr): (j: nat)
    ensures j <= |cache|
    ensures j < |cache| ==> EqNoCase(cache[j].path, path)
    ensures forall l :: 0 <= l < j ==> !EqNoCase(cache[l].path, path)
  {
    if cache == [] || EqNoCase(cache[0].path, path) then 0 else 1 + CacheIndex(cache[1..], path)
  }

  /** `CacheLookup`: the cache afterwards and the handle to hand out. */
  function CacheLookup(cache: seq<Cached>, path: WStr, given: int): (seq<Cached>, int) {
    var j := CacheIndex(cache, path);
    if j < |cache| then (cache, cache[j].handle)
    else if |cache| < MAX_CACHED_HANDLES then (cache + [Cached(path, given)], given)
    else (cache, given)
  }

  /** `AllocHandle` followed by `CacheLookup`. */
  function Register(r: Reg, k: nat, path: WStr): (Reg, int) {
    var h := FAKE_HANDLE_BASE + |r.table|;
    var (cache, out) := CacheLookup(r.cache, path, h);
    (r.(table := r.table + [k], paths := r.paths + [path], cache := cache), out)
  }

  function Redirection(r: Reg, h: int, sub: WStr): WStr {
    RedirectSubKey(r.wow64 && h == HKEY_LOCAL_MACHINE, sub)
  }

  /** What `NavigatePath` splits: the path cut to its 512-unit buffer. */
  function Split(sub: WStr): (ts: seq<WStr>)
    ensures AllNonEmpty(ts)
  {
    Tokens(Truncate(sub, 512))
  }

  /** A handle that is about to be dereferenced leads to memory that is still allocated. */
  ghost predicate Usable(r: Reg, h: int) {
    && Wf(r.a) && |r.table| == |r.paths|
    && (HandleToKey(r, h).Some? ==> Has(r.a, HandleToKey(r, h).value))
  }

  /** `Hook_RegOpenKeyExW` (ex) and `Hook_RegOpenKeyW`. */
  ghost function OpenKey(r: Reg, h: int, sub: WStr, ex: bool): (Reg, Outcome)
    requires Usable(r, h)
  {
    if Contains(sub, RVPNNETMP) then (r, Done(ERROR_SUCCESS, FAKE_SERVICE_KEY))
    else
      var red := Redirection(r, h, sub);
      match BaseKey(r, h, ex)
      case None => (r, if ex then Done(ERROR_INVALID_HANDLE, 0) else Forwarded)
      case Some(b) =>
        match Walk(r.a, b, Split(red))
        case None => (r, Done(ERROR_FILE_NOT_FOUND, 0))
        case Some(k) =>
          var (r', out) := Register(r, k, BuildFullPath(r, h, red));
          (r', Done(ERROR_SUCCESS, out))
  }

  /** `Hook_RegCreateKeyExW` (ex) and `Hook_RegCreateKeyW`, up to the save that follows. */
  ghost function CreateKey(r: Reg, h: int, sub: WStr, ex: bool): (Reg, Outcome)
    requires Usable(r, h)
  {
    var red := Redirection(r, h, sub);
    match BaseKey(r, h, ex)
    case None => (r, if ex then Done(ERROR_INVALID_HANDLE, 0) else Forwarded)
    case Some(b) =>
      var (a, k) := Grow(r.a, b, Split(red));
      var (r', out) := Register(r.(a := a), k, BuildFullPath(r, h, red));
      (r', Done(ERROR_SUCCESS, out))
  }

  /** The disposition of a create: the whole path was there before. */
  ghost predicate Existed(r: Reg, h: int, sub: WStr, ex: bool)
    requires Usable(r, h) && BaseKey(r, h, ex).Some?
  {
    Walk(r.a, BaseKey(r, h, ex).value, Split(Redirection(r, h, sub))).Some?
  }

  /** `Hook_RegDeleteKeyW`, which `Hook_RegDeleteKeyExW` and `Hook_RegDeleteTreeW` also are: one direct
      subkey, matched by its whole name. */
  ghost function DeleteKey(r: Reg, h: int, name: WStr): (Reg, Outcome)
    requires Usable(r, h)
  {
    if h == FAKE_SERVICE_KEY then (r, Done(ERROR_SUCCESS, 0))
    else
      match HandleToKey(r, h)
      case None => (r, Forwarded)
      case Some(p) =>
        match Kid(r.a, p, name)
        case None => (r, Done(ERROR_FILE_NOT_FOUND, 0))
        case Some(k) => (r.(a := RemoveKid(r.a, p, k)), Done(ERROR_SUCCESS, 0))
  }

  function WithVals(a: Arena, k: nat, vs: seq<Val>): Arena
    requires k < |a|
  {
    a[k := a[k].(vals := vs)]
  }

  /** `Hook_RegSetValueExW`. */
  ghost function SetValueEx(r: Reg, h: int, name: WStr, typ: U32, data: seq<Byte>): (Reg, Outcome)
    requires Usable(r, h)
  {
    if h == FAKE_SERVICE_KEY then (r, Done(ERROR_SUCCESS, 0))
    else
      match HandleToKey(r, h)
      case None => (r, Done(ERROR_INVALID_HANDLE, 0))
      case Some(k) =>
        (r.(a := WithVals(r.a, k, SetVal(r.a[k].vals, name, typ, data))), Done(ERROR_SUCCESS, 0))
  }

  /** `Hook_RegDeleteValueW`. */
  ghost function DeleteValue(r: Reg, h: int, name: WStr): (Reg, Outcome)
    requires Usable(r, h)
  {
    if h == FAKE_SERVICE_KEY then (r, Done(ERROR_SUCCESS, 0))
    else
      match HandleToKey(r, h)
      case None => (r, Forwarded)
      case Some(k) =>
        if IndexOf(r.a[k].vals, name) == |r.a[k].vals| then (r, Done(ERROR_FILE_NOT_FOUND, 0))
        else (r.(a := WithVals(r.a, k, DropVal(r.a[k].vals, name))), Done(ERROR_SUCCESS, 0))
  }

  /** `Hook_RegQueryValueExW`; `room` is the size of the data buffer, None for a null data pointer. */
  ghost function QueryValueEx(r: Reg, h: int, name: WStr, room: Option<nat>): Answer
    requires Usable(r, h)
  {
    match HandleToKey(r, h)
    case None => Answer(ERROR_INVALID_HANDLE, None, None, [])
    case Some(k) => Query(r.a[k].vals, name, room)
  }

  // ---------- Coherence of table, paths, cache and tree ----------

  ghost predicate TableCoherent(r: Reg) {
    && Wf(r.a) && |r.table| == |r.paths| <= TABLE_LIMIT
    && forall i :: 0 <= i < |r.table| ==> Walk(r.a, 0, Tokens(r.paths[i])) == Some(r.table[i])
  }

  ghost predicate CacheCoherent(r: Reg)
    requires |r.table| == |r.paths|
  {
    && |r.cache| <= MAX_CACHED_HANDLES
    && (forall j :: 0 <= j < |r.cache| ==> CachedOk(r, r.cache[j]))
    && (forall j, l :: 0 <= j < l < |r.cache| ==> !EqNoCase(r.cache[j].path, r.cache[l].path))
  }

  /** The cached handle is a table handle whose recorded path is the cached path, up to case. */
  predicate CachedOk(r: Reg, c: Cached)
    requires |r.table| == |r.paths|
  {
    FAKE_HANDLE_BASE <= c.handle < FAKE_HANDLE_BASE + |r.table|
    && EqNoCase(r.paths[c.handle - FAKE_HANDLE_BASE], c.path)
  }

  /** Every handle's key is the one its recorded path names, and the cache names table handles. */
  ghost predicate Coherent(r: Reg) {
    TableCoherent(r) && CacheCoherent(r)
  }

  lemma CoherentUsable(r: Reg, h: int)
    requires TableCoherent(r)
    ensures Usable(r, h)
  {
    if HandleToKey(r, h).Some? {
      assert Walk(r.a, 0, Tokens(r.paths[Index(h)])) == Some(r.table[Index(h)]);
    }
  }

  /** The recorded path names, from the root, what the redirected path names from the base. */
  lemma {:induction false} FullPathTokens(r: Reg, h: int, ex: bool, red: WStr)
    requires TableCoherent(r) && BaseKey(r, h, ex).Some?
    ensures Has(r.a, BaseKey(r, h, ex).value)
    ensures Walk(r.a, 0, Tokens(BuildFullPath(r, h, red))) == Walk(r.a, BaseKey(r, h, ex).value, Tokens(red))
    ensures exists ps :: BasePath(r, h, ex, ps) && Tokens(BuildFullPath(r, h, red)) == ps + Tokens(red)
  {
    if Predefined(h, !ex) {
      assert BasePath(r, h, ex, []);
      assert [] + Tokens(red) == Tokens(red);
    } else {
      assert !Predefined(h, true) by { if Predefined(h, true) { PredefinedIndex(h); } }
      var i := Index(h);
      var ps := Tokens(r.paths[i]);
      assert Walk(r.a, 0, ps) == Some(r.table[i]);
      assert BasePath(r, h, ex, ps);
      if red == [] {
        assert r.paths[i] + [] == r.paths[i] && ps + [] == ps;
      } else {
        assert r.paths[i] + ([BACKSLASH] + red) == r.paths[i] + [BACKSLASH] + red;
        TokensJoin(r.paths[i], red);
        WalkJoin(r.a, 0, ps, Tokens(red));
      }
    }
  }

  ghost predicate BasePath(r: Reg, h: int, ex: bool, ps: seq<WStr>)
    requires Wf(r.a)
  {
    BaseKey(r, h, ex).Some? && Walk(r.a, 0, ps) == Some(BaseKey(r, h, ex).value)
  }

  lemma PredefinedIndex(h: int)
    requires Predefined(h, true)
    ensures Index(h) >= TABLE_LIMIT
  {
  }

  /** If the path does not fit the buffer, what was reached is not what the whole path names. */
  lemma {:induction false} CutReachesOther(a: Arena, b: nat, red: WStr)
    requires Wf(a) && Has(a, b) && Walk(a, b, Split(red)).Some? && !Fits(red, 512)
    ensures Walk(a, b, Tokens(red)) != Walk(a, b, Split(red))
  {
    TruncateExact(red, 512);
    if Walk(a, b, Tokens(red)) == Walk(a, b, Split(red)) {
      UniquePath(a, b, Tokens(red), Split(red));
      SameFoldSameLength(Tokens(red), Split(red));
      assert false;
    }
  }

  /** A cached path's handle leads to the key the path names. */
  lemma {:induction false} CacheHit(r: Reg, path: WStr, j: nat)
    requires Coherent(r) && j < |r.cache| && EqNoCase(r.cache[j].path, path)
    ensures HandleToKey(r, r.cache[j].handle).Some?
    ensures Walk(r.a, 0, Tokens(path)) == HandleToKey(r, r.cache[j].handle)
  {
    var c := r.cache[j];
    assert CachedOk(r, c);
    var i := c.handle - FAKE_HANDLE_BASE;
    assert Index(c.handle) == i;
    assert Walk(r.a, 0, Tokens(r.paths[i])) == Some(r.table[i]);
    TokensFold(r.paths[i]);
    TokensFold(path);
    WalkNoCase(r.a, 0, Tokens(r.paths[i]), Tokens(path));
  }

  lemma {:induction false} RegisterCache(r: Reg, k: nat, path: WStr)
    requires Coherent(r) && |r.table| < TABLE_LIMIT
    ensures var r' := Register(r, k, path).0; |r'.table| == |r'.paths| && CacheCoherent(r')
  {
    hide Forest;
    var r' := Register(r, k, path).0;
    forall l | 0 <= l < |r'.cache| ensures CachedOk(r', r'.cache[l]) {
      if l < |r.cache| {
        assert CachedOk(r, r.cache[l]);
        assert r'.cache[l] == r.cache[l];
        var i := r.cache[l].handle - FAKE_HANDLE_BASE;
        assert r'.paths[i] == r.paths[i];
      }
    }
  }

  lemma {:induction false} RegisterTable(r: Reg, k: nat, path: WStr)
    requires TableCoherent(r) && |r.table| < TABLE_LIMIT
    ensures TableCoherent(Register(r, k, path).0) <==> Walk(r.a, 0, Tokens(path)) == Some(k)
  {
    var r' := Register(r, k, path).0;
    var n := |r.table|;
    assert r'.table[n] == k && r'.paths[n] == path;
    assert forall i :: 0 <= i < n ==> r'.table[i] == r.table[i] && r'.paths[i] == r.paths[i];
  }

  /** Recording a handle keeps coherence exactly when its path names its key; a cache hit returns a handle to
      the key the path names in any case. */
  lemma {:induction false} RegisterCoherent(r: Reg, k: nat, path: WStr)
    requires Coherent(r) && |r.table| < TABLE_LIMIT
    ensures var (r', out) := Register(r, k, path);
            && r'.a == r.a
            && (Coherent(r') <==> Walk(r.a, 0, Tokens(path)) == Some(k))
            && (Walk(r.a, 0, Tokens(path)) == Some(k) ==> HandleToKey(r', out) == Some(k))
  {
    hide Wf, Forest, Walk, EqNoCase;
    var (r', out) := Register(r, k, path);
    RegisterCache(r, k, path);
    RegisterTable(r, k, path);
    var j := CacheIndex(r.cache, path);
    if j < |r.cache| {
      CacheHit(r, path, j);
      assert r'.table[Index(out)] == r.table[Index(out)];
    } else {
      assert Index(out) == |r.table| && r'.table[|r.table|] == k;
    }
  }

  /** Opening keeps coherence exactly when the redirected path fits the 512-unit buffer; then the handle
      returned, cached or new, leads to the key that uncached navigation reaches. */
  lemma {:induction false} OpenKeyTransparent(r: Reg, h: int, sub: WStr, ex: bool)
    requires Coherent(r) && Usable(r, h) && |r.table| < TABLE_LIMIT
    requires !Contains(sub, RVPNNETMP) && OpenKey(r, h, sub, ex).1.Done?
    requires OpenKey(r, h, sub, ex).1.status == ERROR_SUCCESS
    ensures var (r', o) := OpenKey(r, h, sub, ex);
            var red := Redirection(r, h, sub);
            && r'.a == r.a
            && (Coherent(r') <==> Fits(red, 512))
            && (Fits(red, 512) ==>
                  HandleToKey(r', o.handle) == Walk(r.a, BaseKey(r, h, ex).value, Tokens(red)))
  {
    var red := Redirection(r, h, sub);
    var b := BaseKey(r, h, ex).value;
    var k := Walk(r.a, b, Split(red)).value;
    FullPathTokens(r, h, ex, red);
    RegisterCoherent(r, k, BuildFullPath(r, h, red));
    TruncateExact(red, 512);
    if !Fits(red, 512) { CutReachesOther(r.a, b, red); }
  }

  /** Growth under a base reached from the root leaves every table entry's path meaning what it meant. */
  lemma {:induction false} GrowKeepsTable(r: Reg, ps: seq<WStr>, ts: seq<WStr>)
    requires Coherent(r) && Walk(r.a, 0, ps).Some? && AllNonEmpty(ts)
    ensures Coherent(r.(a := Grow(r.a, Walk(r.a, 0, ps).value, ts).0))
  {
    var r' := r.(a := Grow(r.a, Walk(r.a, 0, ps).value, ts).0);
    forall i | 0 <= i < |r.table| ensures Walk(r'.a, 0, Tokens(r.paths[i])) == Some(r.table[i]) {
      GrowExact(r.a, 0, ps, ts, Tokens(r.paths[i]));
    }
    forall j | 0 <= j < |r.cache| ensures CachedOk(r', r.cache[j]) {
      assert CachedOk(r, r.cache[j]);
    }
  }

  /** Creating keeps coherence exactly when the redirected path fits; then the handle returned leads to the
      key the path names afterwards. */
  lemma {:induction false} CreateKeyTransparent(r: Reg, h: int, sub: WStr, ex: bool)
    requires Coherent(r) && Usable(r, h) && |r.table| < TABLE_LIMIT && BaseKey(r, h, ex).Some?
    ensures var (r', o) := CreateKey(r, h, sub, ex);
            var red := Redirection(r, h, sub);
            var b := BaseKey(r, h, ex).value;
            && Has(r'.a, b) && Wf(r'.a)
            && o.Done? && o.status == ERROR_SUCCESS
            && (Coherent(r') <==> Fits(red, 512))
            && (Fits(red, 512) ==>
                  HandleToKey(r', o.handle).Some? && HandleToKey(r', o.handle) == Walk(r'.a, b, Tokens(red)))
  {
    var red := Redirection(r, h, sub);
    var b := BaseKey(r, h, ex).value;
    FullPathTokens(r, h, ex, red);
    var ps :| BasePath(r, h, ex, ps) && Tokens(BuildFullPath(r, h, red)) == ps + Tokens(red);
    var (a, k) := Grow(r.a, b, Split(red));
    var g := r.(a := a);
    GrowKeepsTable(r, ps, Split(red));
    GrowExact(r.a, 0, ps, Split(red), ps);
    WalkJoin(a, 0, ps, Split(red));
    WalkJoin(a, 0, ps, Tokens(red));
    RegisterCoherent(g, k, BuildFullPath(r, h, red));
    TruncateExact(red, 512);
    if !Fits(red, 512) { CutReachesOther(a, b, red); }
  }

  /** Deleting a subkey keeps coherence exactly when no handle's path passes through that subkey. */
  lemma {:induction false} DeleteKeyCoherentIff(r: Reg, h: int, name: WStr, p: nat, k: nat)
    requires Coherent(r) && Usable(r, h) && h != FAKE_SERVICE_KEY
    requires HandleToKey(r, h) == Some(p) && Kid(r.a, p, name) == Some(k)
    ensures Coherent(DeleteKey(r, h, name).0)
       <==> forall i :: 0 <= i < |r.table| ==> !Meets(r.a, 0, Tokens(r.paths[i]), k)
  {
    hide EqNoCase, RemoveKid, Forest, Kid;
    var r' := DeleteKey(r, h, name).0;
    RemoveKidWf(r.a, p, k);
    forall i | 0 <= i < |r.table|
      ensures Walk(r'.a, 0, Tokens(r.paths[i])) == Some(r.table[i]) <==> !Meets(r.a, 0, Tokens(r.paths[i]), k)
    {
      assert Walk(r.a, 0, Tokens(r.paths[i])) == Some(r.table[i]);
      RemoveKidExact(r.a, p, k, 0, Tokens(r.paths[i]));
    }
    forall j | 0 <= j < |r.cache| ensures CachedOk(r', r.cache[j]) {
      assert CachedOk(r, r.cache[j]);
    }
  }

  lemma {:induction false} RemovedKidGone(a: Arena, p: nat, k: nat, name: WStr)
    requires Wf(a) && Has(a, p) && Kid(a, p, name) == Some(k)
    ensures var b := RemoveKid(a, p, k); Wf(b) && Has(b, p) && Kid(b, p, name) == None && !Has(b, k) && k < |a| == |b|
  {
    var b := RemoveKid(a, p, k);
    RemoveKidWf(a, p, k);
    RemainingKids(a, p, k);
    if Kid(b, p, name).Some? {
      KidIs(a, p, name, Kid(b, p, name).value);
    }
  }

  lemma {:induction false} GrowOne(a: Arena, p: nat, name: WStr)
    requires Wf(a) && Has(a, p) && name != [] && Kid(a, p, name) == None
    ensures AllNonEmpty([name]) && Grow(a, p, [name]) == (AddKey(a, p, name), |a|)
    ensures var b := AddKey(a, p, name); Wf(b) && Has(b, p) && Kid(b, p, name) == Some(|a|)
    ensures forall k :: 0 <= k < |a| ==> (Has(AddKey(a, p, name), k) <==> Has(a, k))
  {
    AddKeyWf(a, p, name);
    AddKeyKid(a, p, name, p, name);
    var ts := [name];
    assert ts[1..] == [];
    assert Grow(AddKey(a, p, name), |a|, []) == (AddKey(a, p, name), |a|);
  }

  /** The handle the cache holds for a subkey's path leads to that subkey. */
  lemma {:induction false} CachedKid(r: Reg, h: int, name: WStr, p: nat, k: nat, j: nat)
    requires Coherent(r) && h != FAKE_SERVICE_KEY && !Predefined(h, true)
    requires HandleToKey(r, h) == Some(p) && Has(r.a, p) && Kid(r.a, p, name) == Some(k)
    requires name != [] && BACKSLASH !in name
    requires j < |r.cache| && EqNoCase(r.cache[j].path, BuildFullPath(r, h, name))
    ensures HandleToKey(r, r.cache[j].handle) == Some(k)
  {
    hide CacheCoherent, Kid;
    SingleToken(name);
    FullPathTokens(r, h, true, name);
    CacheHit(r, BuildFullPath(r, h, name), j);
    WalkSnoc(r.a, p, [], name);
    assert [] + [name] == [name];
  }

  /** Creating a missing key whose path is cached adds the key and hands out the cached handle. */
  lemma {:induction false} CreateCached(r: Reg, h: int, name: WStr, p: nat, j: nat, ex: bool)
    requires Usable(r, h) && h != FAKE_SERVICE_KEY && !Predefined(h, true)
    requires HandleToKey(r, h) == Some(p) && Kid(r.a, p, name) == None
    requires name != [] && BACKSLASH !in name && |name| < 512
    requires j < |r.cache| && EqNoCase(r.cache[j].path, BuildFullPath(r, h, name))
    requires forall x, y :: 0 <= x < y < |r.cache| ==> !EqNoCase(r.cache[x].path, r.cache[y].path)
    ensures CreateKey(r, h, name, ex).1 == Done(ERROR_SUCCESS, r.cache[j].handle)
    ensures CreateKey(r, h, name, ex).0.a == AddKey(r.a, p, name)
    ensures CreateKey(r, h, name, ex).0.table == r.table + [|r.a|]
  {
    hide AddKey, Walk, Kid, Wf;
    GrowOne(r.a, p, name);
    SingleToken(name);
    CacheIndexIs(r.cache, BuildFullPath(r, h, name), j);
    assert Redirection(r, h, name) == name && Split(name) == [name];
  }

  /** Deleting a key whose path is cached and creating it again hands out the old handle, which leads to
      freed memory and not to the key that is there now. */
  lemma {:induction false} RecreatedKeyIsStale(r: Reg, h: int, name: WStr, p: nat, k: nat, j: nat, ex: bool)
    requires Coherent(r) && Usable(r, h) && h != FAKE_SERVICE_KEY && !Predefined(h, true)
    requires HandleToKey(r, h) == Some(p) && Kid(r.a, p, name) == Some(k)
    requires name != [] && BACKSLASH !in name && |name| < 512
    requires j < |r.cache| && EqNoCase(r.cache[j].path, BuildFullPath(r, h, name))
    ensures var d := DeleteKey(r, h, name).0;
            Usable(d, h) &&
            var (r', o) := CreateKey(d, h, name, ex);
            && o == Done(ERROR_SUCCESS, r.cache[j].handle)
            && HandleToKey(r', o.handle) == Some(k) && !Has(r'.a, k)
            && Wf(r'.a) && Has(r'.a, p) && Kid(r'.a, p, name).Some? && Kid(r'.a, p, name) != Some(k)
  {
    hide RemoveKid, Walk, Kid, Wf, Grow, CreateKey, CacheCoherent, TableCoherent;
    CachedKid(r, h, name, p, k, j);
    RemovedKidGone(r.a, p, k, name);
    var d := DeleteKey(r, h, name).0;
    assert d == r.(a := RemoveKid(r.a, p, k));
    GrowOne(d.a, p, name);
    CachePaths(r);
    CreateCached(d, h, name, p, j, ex);
  }

  lemma CachePaths(r: Reg)
    requires Coherent(r)
    ensures forall x, y :: 0 <= x < y < |r.cache| ==> !EqNoCase(r.cache[x].path, r.cache[y].path)
  {
  }

  lemma {:induction false} CacheIndexIs(cache: seq<Cached>, path: WStr, j: nat)
    requires j < |cache| && EqNoCase(cache[j].path, path)
    requires forall x, y :: 0 <= x < y < |cache| ==> !EqNoCase(cache[x].path, cache[y].path)
    ensures CacheIndex(cache, path) == j
  {
    var i := CacheIndex(cache, path);
    if i < j { assert EqNoCase(cache[i].path, cache[j].path); }
  }

  // ---------- Two hops and one ----------

  /** What an open of a path that fits answers, under coherent tables: found or not as the walk has it, and a
      handle to the key. */
  lemma {:induction false} OpenReaches(r: Reg, h: int, sub: WStr, ex: bool)
    requires Coherent(r) && |r.table| < TABLE_LIMIT && Usable(r, h) && BaseKey(r, h, ex).Some?
    requires !Contains(sub, RVPNNETMP) && Fits(Redirection(r, h, sub), 512)
    ensures var (r', o) := OpenKey(r, h, sub, ex);
            var k := Walk(r.a, BaseKey(r, h, ex).value, Tokens(Redirection(r, h, sub)));
            && o.Done? && o.status == (if k.Some? then ERROR_SUCCESS else ERROR_FILE_NOT_FOUND)
            && (k.Some? ==> HandleToKey(r', o.handle) == k)
  {
    TruncateExact(Redirection(r, h, sub), 512);
    if Walk(r.a, BaseKey(r, h, ex).value, Tokens(Redirection(r, h, sub))).Some? { OpenKeyTransparent(r, h, sub, ex); }
  }

  /** Opening `a` under HKEY_LOCAL_MACHINE and then `b` under the result reaches the same key, with the same
      status, as opening `a\b` in one call, wherever redirection treats both alike. */
  lemma {:induction false} TwoHopsSameKey(r: Reg, a: WStr, b: WStr, ex1: bool, ex2: bool, ex3: bool)
    requires Coherent(r) && |r.table| + 1 < TABLE_LIMIT
    requires a != [] && Clean(a) && Clean(a + [BACKSLASH] + b)
    requires !(r.wow64 && Begins(Tokens(a), SOFTWARE) && |Tokens(a)| == 1 && Begins(Tokens(b), WOW6432NODE))
    requires !Contains(a, RVPNNETMP) && !Contains(b, RVPNNETMP) && !Contains(a + [BACKSLASH] + b, RVPNNETMP)
    requires Fits(Redirection(r, HKEY_LOCAL_MACHINE, a), 512) && Fits(b, 512)
    requires Fits(Redirection(r, HKEY_LOCAL_MACHINE, a + [BACKSLASH] + b), 512)
    requires Usable(r, HKEY_LOCAL_MACHINE)
    requires OpenKey(r, HKEY_LOCAL_MACHINE, a, ex1).1.status == ERROR_SUCCESS
    ensures var (r1, o1) := OpenKey(r, HKEY_LOCAL_MACHINE, a, ex1);
            Usable(r1, o1.handle) &&
            var (r2, o2) := OpenKey(r1, o1.handle, b, ex2);
            var (r3, o3) := OpenKey(r, HKEY_LOCAL_MACHINE, a + [BACKSLASH] + b, ex3);
            && o2.Done? && o3.Done? && o2.status == o3.status
            && (o2.status == ERROR_SUCCESS ==>
                  HandleToKey(r2, o2.handle).Some? && HandleToKey(r2, o2.handle) == HandleToKey(r3, o3.handle))
  {
    var j := a + [BACKSLASH] + b;
    var ra, rj := Redirection(r, HKEY_LOCAL_MACHINE, a), Redirection(r, HKEY_LOCAL_MACHINE, j);
    OpenKeyTransparent(r, HKEY_LOCAL_MACHINE, a, ex1);
    var (r1, o1) := OpenKey(r, HKEY_LOCAL_MACHINE, a, ex1);
    CoherentUsable(r1, o1.handle);
    TwoHopsOneHop(r.wow64, a, b);
    WalkJoin(r.a, 0, Tokens(ra), Tokens(b));
    FakeHandleRange(r, HKEY_LOCAL_MACHINE, a, ex1);
    assert Redirection(r1, o1.handle, b) == b;
    OpenReaches(r1, o1.handle, b, ex2);
    OpenReaches(r, HKEY_LOCAL_MACHINE, j, ex3);
  }

  /** When the first of the two opens finds nothing, the one call finds nothing either. */
  lemma {:induction false} FirstHopMisses(r: Reg, a: WStr, b: WStr, ex1: bool, ex3: bool)
    requires Coherent(r)
    requires a != [] && Clean(a) && Clean(a + [BACKSLASH] + b)
    requires !(r.wow64 && Begins(Tokens(a), SOFTWARE) && |Tokens(a)| == 1 && Begins(Tokens(b), WOW6432NODE))
    requires !Contains(a, RVPNNETMP) && !Contains(a + [BACKSLASH] + b, RVPNNETMP)
    requires Fits(Redirection(r, HKEY_LOCAL_MACHINE, a), 512)
    requires Fits(Redirection(r, HKEY_LOCAL_MACHINE, a + [BACKSLASH] + b), 512)
    requires Usable(r, HKEY_LOCAL_MACHINE)
    requires OpenKey(r, HKEY_LOCAL_MACHINE, a, ex1).1.status != ERROR_SUCCESS
    ensures OpenKey(r, HKEY_LOCAL_MACHINE, a, ex1) == (r, Done(ERROR_FILE_NOT_FOUND, 0))
    ensures OpenKey(r, HKEY_LOCAL_MACHINE, a + [BACKSLASH] + b, ex3) == (r, Done(ERROR_FILE_NOT_FOUND, 0))
  {
    var j := a + [BACKSLASH] + b;
    var ra, rj := Redirection(r, HKEY_LOCAL_MACHINE, a), Redirection(r, HKEY_LOCAL_MACHINE, j);
    TwoHopsOneHop(r.wow64, a, b);
    TruncateExact(ra, 512);
    TruncateExact(rj, 512);
    WalkJoin(r.a, 0, Tokens(ra), Tokens(b));
  }

  lemma {:induction false} FakeHandleRange(r: Reg, h: int, sub: WStr, ex: bool)
    requires Coherent(r) && Usable(r, h) && |r.table| < TABLE_LIMIT && !Contains(sub, RVPNNETMP)
    requires OpenKey(r, h, sub, ex).1 .Done? && OpenKey(r, h, sub, ex).1.status == ERROR_SUCCESS
    ensures var o := OpenKey(r, h, sub, ex).1;
            FAKE_HANDLE_BASE <= o.handle < HKEY_CLASSES_ROOT && BaseKey(OpenKey(r, h, sub, ex).0, o.handle, true).Some?
  {
    hide Walk, Wf, Tokens, EqNoCase, RedirectSubKey, Contains, CacheIndex, TableCoherent, Split;
    var path := BuildFullPath(r, h, Redirection(r, h, sub));
    var j := CacheIndex(r.cache, path);
    if j < |r.cache| { assert CachedOk(r, r.cache[j]); }
  }

  // ---------- Whole runs ----------

  datatype RegOp =
    | OpOpen(h: int, sub: WStr, ex: bool)
    | OpCreate(h: int, sub: WStr, ex: bool)
    | OpDelete(h: int, sub: WStr)
    | OpSetValue(h: int, sub: WStr, typ: U32, data: seq<Byte>)
    | OpDeleteValue(h: int, sub: WStr)

  ghost function Step(r: Reg, op: RegOp): Reg
    requires Usable(r, op.h)
  {
    match op
    case OpOpen(h, sub, ex) => OpenKey(r, h, sub, ex).0
    case OpCreate(h, sub, ex) => CreateKey(r, h, sub, ex).0
    case OpDelete(h, name) => DeleteKey(r, h, name).0
    case OpSetValue(h, name, typ, data) => SetValueEx(r, h, name, typ, data).0
    case OpDeleteValue(h, name) => DeleteValue(r, h, name).0
  }

  /** What keeps a hook from breaking coherence: a path that fits, and for a deletion that no handle's path
      passes through the key deleted. */
  ghost predicate Guarded(r: Reg, op: RegOp)
    requires Usable(r, op.h)
  {
    match op
    case OpOpen(h, sub, ex) =>
      !Contains(sub, RVPNNETMP) && BaseKey(r, h, ex).Some?
          && Walk(r.a, BaseKey(r, h, ex).value, Split(Redirection(r, h, sub))).Some? ==>
        Fits(Redirection(r, h, sub), 512)
    case OpCreate(h, sub, ex) => BaseKey(r, h, ex).Some? ==> Fits(Redirection(r, h, sub), 512)
    case OpDelete(h, name) =>
      (HandleToKey(r, h).Some? && Kid(r.a, HandleToKey(r, h).value, name).Some?) ==>
        forall i :: 0 <= i < |r.table| ==>
          !Meets(r.a, 0, Tokens(r.paths[i]), Kid(r.a, HandleToKey(r, h).value, name).value)
    case OpSetValue(_, _, _, _) => true
    case OpDeleteValue(_, _) => true
  }

  lemma WithValsForest(a: Arena, k: nat, vs: seq<Val>)
    requires Forest(a) && k < |a|
    ensures Forest(WithVals(a, k, vs))
  {
    var b := WithVals(a, k, vs);
    forall x | Has(b, x) ensures KidsLinked(b, x, b[x].kids) { assert KidsLinked(a, x, a[x].kids); }
  }

  lemma {:induction false} WithValsWalk(a: Arena, k: nat, vs: seq<Val>, i: nat, ts: seq<WStr>)
    requires Wf(a) && k < |a| && Has(a, i)
    ensures Wf(WithVals(a, k, vs)) && Walk(WithVals(a, k, vs), i, ts) == Walk(a, i, ts)
    decreases |ts|
  {
    var b := WithVals(a, k, vs);
    forall x | Has(b, x) ensures KidsOk(b, x, b[x].kids) {
      assert KidsOk(a, x, a[x].kids);
      NamesKept(a, b, a[x].kids);
    }
    if ts != [] {
      match Kid(a, i, ts[0])
      case Some(c) =>
        KidIs(b, i, ts[0], c);
        WithValsWalk(a, k, vs, c, ts[1..]);
      case None =>
        if Kid(b, i, ts[0]).Some? { KidIs(a, i, ts[0], Kid(b, i, ts[0]).value); }
    }
  }

  lemma {:induction false} WithValsCoherent(r: Reg, k: nat, vs: seq<Val>)
    requires Coherent(r) && k < |r.a|
    ensures Coherent(r.(a := WithVals(r.a, k, vs)))
  {
    var r' := r.(a := WithVals(r.a, k, vs));
    WithValsWalk(r.a, k, vs, 0, []);
    forall i | 0 <= i < |r.table| ensures Walk(r'.a, 0, Tokens(r.paths[i])) == Some(r.table[i]) {
      WithValsWalk(r.a, k, vs, 0, Tokens(r.paths[i]));
    }
    forall j | 0 <= j < |r.cache| ensures CachedOk(r', r.cache[j]) {
      assert CachedOk(r, r.cache[j]);
    }
  }

  /** One hook from a coherent registry leaves a coherent one exactly when it is guarded. */
  lemma {:induction false} StepCoherentIff(r: Reg, op: RegOp)
    requires Coherent(r) && |r.table| < TABLE_LIMIT
    ensures Usable(r, op.h) && (Coherent(Step(r, op)) <==> Guarded(r, op))
  {
    CoherentUsable(r, op.h);
    match op
    case OpOpen(h, sub, ex) =>
      var o := OpenKey(r, h, sub, ex).1;
      if o.Done? && o.status == ERROR_SUCCESS && !Contains(sub, RVPNNETMP) { OpenKeyTransparent(r, h, sub, ex); }
    case OpCreate(h, sub, ex) =>
      if BaseKey(r, h, ex).Some? { CreateKeyTransparent(r, h, sub, ex); }
    case OpDelete(h, name) =>
      if HandleToKey(r, h).Some? && Kid(r.a, HandleToKey(r, h).value, name).Some? {
        DeleteKeyCoherentIff(r, h, name, HandleToKey(r, h).value, Kid(r.a, HandleToKey(r, h).value, name).value);
      }
    case OpSetValue(h, name, typ, data) =>
      if HandleToKey(r, h).Some? {
        var k := HandleToKey(r, h).value;
        WithValsCoherent(r, k, SetVal(r.a[k].vals, name, typ, data));
      }
    case OpDeleteValue(h, name) =>
      if HandleToKey(r, h).Some? {
        var k := HandleToKey(r, h).value;
        WithValsCoherent(r, k, DropVal(r.a[k].vals, name));
      }
  }

  /** Coherent before the run and after each of its hooks. */
  ghost predicate CoherentThroughout(r: Reg, ops: seq<RegOp>)
    decreases |ops|
  {
    && Coherent(r)
    && (ops != [] ==> Usable(r, ops[0].h) && CoherentThroughout(Step(r, ops[0]), ops[1..]))
  }

  ghost predicate GuardedThroughout(r: Reg, ops: seq<RegOp>)
    decreases |ops|
  {
    ops != [] ==> Usable(r, ops[0].h) && Guarded(r, ops[0]) && GuardedThroughout(Step(r, ops[0]), ops[1..])
  }

  lemma {:induction false} StepTableGrowth(r: Reg, op: RegOp)
    requires Usable(r, op.h)
    ensures |r.table| <= |Step(r, op).table| <= |r.table| + 1
  {
  }

  /** A run of hooks is coherent throughout exactly when each of its hooks is guarded. */
  lemma {:induction false} RunCoherentIff(r: Reg, ops: seq<RegOp>)
    requires Coherent(r) && |r.table| + |ops| <= TABLE_LIMIT
    ensures CoherentThroughout(r, ops) <==> GuardedThroughout(r, ops)
    decreases |ops|
  {
    if ops != [] {
      StepCoherentIff(r, ops[0]);
      StepTableGrowth(r, ops[0]);
      if Guarded(r, ops[0]) { RunCoherentIff(Step(r, ops[0]), ops[1..]); }
    }
  }

  lemma {:induction false} GrowKeepsValues(a: Arena, i: nat, ts: seq<WStr>)
    requires Wf(a) && Has(a, i) && AllNonEmpty(ts) && ValuesUnique(a)
    ensures ValuesUnique(Grow(a, i, ts).0)
    decreases |ts|
  {
    if ts != [] {
      match Kid(a, i, ts[0])
      case Some(k) => GrowKeepsValues(a, k, ts[1..]);
      case None =>
        AddKeyWf(a, i, ts[0]);
        GrowKeepsValues(AddKey(a, i, ts[0]), |a|, ts[1..]);
    }
  }

  /** Every hook, guarded or not, keeps the tree a finite forest with non-empty sibling names that differ
      without regard to case, and value names likewise. */
  lemma {:induction false} StepKeepsForest(r: Reg, op: RegOp)
    requires Usable(r, op.h) && ValuesUnique(r.a)
    ensures Wf(Step(r, op).a) && ValuesUnique(Step(r, op).a)
  {
    match op
    case OpOpen(h, sub, ex) =>
    case OpCreate(h, sub, ex) =>
      if BaseKey(r, h, ex).Some? {
        GrowKeepsValues(r.a, BaseKey(r, h, ex).value, Split(Redirection(r, h, sub)));
      }
    case OpDelete(h, name) =>
      if HandleToKey(r, h).Some? && Kid(r.a, HandleToKey(r, h).value, name).Some? {
        RemoveKidWf(r.a, HandleToKey(r, h).value, Kid(r.a, HandleToKey(r, h).value, name).value);
      }
    case OpSetValue(h, name, typ, data) =>
      if HandleToKey(r, h).Some? {
        var k := HandleToKey(r, h).value;
        SetValUnique(r.a[k].vals, name, typ, data);
        WithValsWalk(r.a, k, SetVal(r.a[k].vals, name, typ, data), 0, []);
      }
    case OpDeleteValue(h, name) =>
      if HandleToKey(r, h).Some? {
        var k := HandleToKey(r, h).value;
        DropValUnique(r.a[k].vals, name);
        WithValsWalk(r.a, k, DropVal(r.a[k].vals, name), 0, []);
      }
  }

  /** No hook of the run is given a handle that leads to freed memory. */
  ghost predicate UsableThroughout(r: Reg, ops: seq<RegOp>)
    decreases |ops|
  {
    ops != [] ==> Usable(r, ops[0].h) && UsableThroughout(Step(r, ops[0]), ops[1..])
  }

  ghost function RunOps(r: Reg, ops: seq<RegOp>): Reg
    requires UsableThroughout(r, ops)
    decreases |ops|
  {
    if ops == [] then r else RunOps(Step(r, ops[0]), ops[1..])
  }

  /** Any run of hooks, deletions and over-long paths included, keeps the forest and the uniqueness of names. */
  lemma {:induction false} RunKeepsForest(r: Reg, ops: seq<RegOp>)
    requires Wf(r.a) && ValuesUnique(r.a) && UsableThroughout(r, ops)
    ensures Wf(RunOps(r, ops).a) && ValuesUnique(RunOps(r, ops).a)
    decreases |ops|
  {
    hide Wf, ValuesUnique, Step;
    if ops != [] {
      StepKeepsForest(r, ops[0]);
      RunKeepsForest(Step(r, ops[0]), ops[1..]);
    }
  }

  /** The registry right after start-up, whatever tree was loaded. */
  lemma FreshIsCoherent(r: Reg)
    requires Wf(r.a) && r.table == [] && r.paths == [] && r.cache == []
    ensures Coherent(r)
  {
  }
}
