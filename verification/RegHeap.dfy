/** The registry as the source keeps it: key objects linked by child and sibling pointers, a growing handle
    table and a fixed cache array. Every method is tied to the value-level functions of `Handles`. */
module RegHeap {
  import opened Basics
  import opened WideStrings
  import opened Redirect
  import opened KeyArena
  import opened Values
  import opened Handles
  import opened ValueList
  import opened Enumerate
  import opened RegFile
  import opened ArenaTree

  /** Where the first component of a path ends. */
  lemma {:induction false} TokenSplit(temp: WStr, start: nat, next: nat)
    requires start < next <= |temp| && (next < |temp| ==> temp[next] == BACKSLASH)
    requires forall i :: start <= i < next ==> temp[i] != BACKSLASH
    ensures Tokens(temp[start..]) == [temp[start..next]] + Tokens(temp[next..])
  {
    var s, n := temp[start..], next - start;
    assert forall i :: 0 <= i < n ==> s[i] == temp[start + i];
    SpanIs(s, n);
    TokensHead(s);
    assert s[..n] == temp[start..next] && s[n..] == temp[next..];
  }

  lemma {:induction false} TokenSkip(temp: WStr, pos: nat)
    requires pos < |temp| && temp[pos] == BACKSLASH
    ensures Tokens(temp[pos..]) == Tokens(temp[pos + 1..])
  {
    assert temp[pos..][1..] == temp[pos + 1..];
  }

  /** `wcstok_s`: skip separators, then take the units up to the next one. */
  method NextToken(temp: WStr, pos: nat) returns (found: bool, token: WStr, next: nat)
    requires pos <= |temp|
    ensures found <==> Tokens(temp[pos..]) != []
    ensures found ==> token != [] && pos < next <= |temp| && Tokens(temp[pos..]) == [token] + Tokens(temp[next..])
  {
    next := pos;
    while next < |temp| && temp[next] == BACKSLASH
      invariant pos <= next <= |temp|
      invariant Tokens(temp[next..]) == Tokens(temp[pos..])
    {
      TokenSkip(temp, next);
      next := next + 1;
    }
    var start := next;
    while next < |temp| && temp[next] != BACKSLASH
      invariant start <= next <= |temp|
      invariant forall i :: start <= i < next ==> temp[i] != BACKSLASH
    {
      next := next + 1;
    }
    found, token := start < next, temp[start..next];
    if found { TokenSplit(temp, start, next); }
  }

  /** The position of the subkey a name selects. */
  lemma {:induction false} KidAt(a: Arena, i: nat, name: WStr, j: nat)
    requires Wf(a) && Has(a, i) && j <= |a[i].kids|
    requires forall l :: 0 <= l < j ==> !EqNoCase(a[a[i].kids[l]].name, name)
    requires j < |a[i].kids| ==> EqNoCase(a[a[i].kids[j]].name, name)
    ensures Kid(a, i, name) == if j < |a[i].kids| then Some(a[i].kids[j]) else None
  {
    if j < |a[i].kids| {
      KidIs(a, i, name, a[i].kids[j]);
    }
  }

  lemma SplitStart(path: WStr)
    ensures Split(path) == Tokens(Truncate(path, 512)[0..])
  {
    assert Truncate(path, 512)[0..] == Truncate(path, 512);
  }

  lemma NavigateEnd(a: Arena, k: nat)
    requires Wf(a) && Has(a, k)
    ensures Walk(a, k, []) == Some(k) && AllNonEmpty([]) && Grow(a, k, []) == (a, k)
  {
  }

  /** One component of a path, with and without creation. */
  lemma NavigateStep(a: Arena, k: nat, ts: seq<WStr>)
    requires Wf(a) && Has(a, k) && ts != [] && AllNonEmpty(ts)
    ensures AllNonEmpty(ts[1..])
    ensures var kid := Kid(a, k, ts[0]);
            if kid.Some? then
              Walk(a, k, ts) == Walk(a, kid.value, ts[1..]) && Grow(a, k, ts) == Grow(a, kid.value, ts[1..])
            else
              Walk(a, k, ts) == None && Wf(AddKey(a, k, ts[0])) && Has(AddKey(a, k, ts[0]), |a|)
              && Grow(a, k, ts) == Grow(AddKey(a, k, ts[0]), |a|, ts[1..])
  {
    if Kid(a, k, ts[0]).None? { AddKeyWf(a, k, ts[0]); }
  }

  /** A place in the tree: the j-th subkey of key p. */
  datatype Slot = Slot(p: int, j: int)

  class Registry {
    var root: RegKey
    var table: seq<RegKey>
    var paths: seq<WStr>
    const cache: array<Cached>
    var cached: nat
    var isWow64: bool
    /** What was written to the open file, and what is left to read from it. */
    var output: Bytes
    var input: Bytes
    /** Every key object ever allocated, the value cells they hold, the tree as a value, and the place in
        `keys` of each handle's key. */
    ghost var keys: seq<RegKey>
    ghost var cells: set<RegValue>
    ghost var arena: Arena
    ghost var places: seq<nat>

    /** The registry as a value. */
    ghost function View(): Reg
      requires cached <= cache.Length
      reads this`arena, this`places, this`paths, this`cached, this`isWow64, cache
    {
      Reg(arena, places, paths, cache[..cached], isWow64)
    }

    ghost function At(ks: seq<nat>, j: nat): RegKey?
      requires forall l :: 0 <= l < |ks| ==> ks[l] < |keys|
      reads this`keys
    {
      if j < |ks| then keys[ks[j]] else null
    }

    /** Name, parent, first child and sibling order of key i. */
    ghost predicate LinksOk(i: nat)
      requires |keys| == |arena| && Has(arena, i) && KidsLinked(arena, i, arena[i].kids)
      reads this`arena, this`keys, keys`name, keys`child, keys`sibling, keys`parent
    {
      var k, kids := keys[i], arena[i].kids;
      && k.name == arena[i].name
      && k.child == At(kids, 0)
      && (forall j :: 0 <= j < |kids| ==> keys[kids[j]].sibling == At(kids, j + 1) && keys[kids[j]].parent == k)
    }

    ghost predicate StoreOk(i: nat)
      requires |keys| == |arena| && Has(arena, i)
      reads this`arena, this`keys, this`cells, keys, cells
    {
      && (forall v :: v in keys[i].chain ==> v in cells)
      && keys[i].ListOk() && keys[i].Vals() == arena[i].vals
    }

    /** The key objects in memory are the arena, whatever the names of the keys. */
    ghost predicate Linked()
      reads this`root, this`arena, this`keys, this`cells, keys, cells
    {
      && |keys| == |arena| && Forest(arena) && root == keys[0]
      && (forall i :: 0 <= i < |keys| ==> keys[i].id == i)
      && (forall i :: Has(arena, i) ==> KidsLinked(arena, i, arena[i].kids) && LinksOk(i))
      && (forall i :: Has(arena, i) ==> StoreOk(i))
    }

    /** The same, of a tree whose sibling names are non-empty and differ. */
    ghost predicate TreeOk()
      reads this`root, this`arena, this`keys, this`cells, keys, cells
      ensures TreeOk() ==> Linked() && Wf(arena)
    {
      Linked() && Wf(arena)
    }

    ghost predicate TableOk()
      reads this`table, this`places, this`paths, this`cached, this`keys
    {
      && |table| == |places| == |paths|
      && (forall i :: 0 <= i < |table| ==> places[i] < |keys| && table[i] == keys[places[i]])
      && cache.Length == MAX_CACHED_HANDLES && cached <= cache.Length
    }

    ghost predicate Valid()
      reads this, keys, cells, cache
    {
      TreeOk() && TableOk()
    }

    /** `Register_InstallHooks` before the file is loaded: an unnamed root and empty tables. */
    constructor (wow64: bool)
      ensures Valid() && fresh(keys) && fresh(cells) && fresh(cache)
      ensures View() == Reg([Node(true, -1, [], [], [])], [], [], [], wow64)
    {
      var r := new RegKey([], null, 0);
      root, table, paths, cached, isWow64 := r, [], [], 0, wow64;
      output, input := [], [];
      cache := new Cached[MAX_CACHED_HANDLES](_ => Cached([], 0));
      keys, cells, arena, places := [r], {}, [Node(true, -1, [], [], [])], [];
      new;
      assert r.Vals() == [];
      assert KidsOk(arena, 0, []);
      assert KidsLinked(arena, 0, []) && LinksOk(0) && StoreOk(0);
    }

    /** The sibling-list search of NavigatePath, KeyExists and the delete hook. */
    method FindChild(key: RegKey, name: WStr, ghost i: nat) returns (prev: RegKey?, child: RegKey?, ghost j: nat)
      requires TreeOk() && Has(arena, i) && key == keys[i]
      ensures j <= |arena[i].kids| && child == At(arena[i].kids, j)
      ensures prev == if 0 < j then keys[arena[i].kids[j - 1]] else null
      ensures Kid(arena, i, name) == if j < |arena[i].kids| then Some(arena[i].kids[j]) else None
    {
      hide TreeOk, Linked, LinksOk, StoreOk, Wf, Forest, Kid, EqNoCase;
      TreeOkBasics();
      ChildFacts(i);
      FirstChild(i);
      ghost var kids := arena[i].kids;
      prev, child, j := null, key.child, 0;
      while child != null && !EqNoCase(child.name, name)
        invariant j <= |kids| && child == At(kids, j)
        invariant prev == if 0 < j then keys[kids[j - 1]] else null
        invariant forall l :: 0 <= l < j ==> !EqNoCase(arena[kids[l]].name, name)
        decreases |kids| - j
      {
        assert keys[kids[j]].name == SubkeyNames(i)[j] == arena[kids[j]].name;
        NextChild(i, j);
        prev, child, j := child, child.sibling, j + 1;
      }
      if j < |kids| { assert keys[kids[j]].name == SubkeyNames(i)[j] == arena[kids[j]].name; }
      KidAt(arena, i, name, j);
    }

    /** Keys were only added, and those added are new objects. */
    twostate predicate Grown()
      reads this`keys
    {
      |old(keys)| <= |keys| && forall i :: 0 <= i < |keys| ==>
        if i < |old(keys)| then keys[i] == old(keys)[i] else fresh(keys[i])
    }

    /** What linking the newest key in front of p's subkeys leaves in memory. */
    twostate predicate InFront(p: nat)
      requires p < |old(keys)|
      reads *
    {
      && |keys| == |old(keys)| + 1 && old(keys) <= keys && cells == old(cells) && root == old(root)
      && var n := keys[|old(keys)|];
      && n.id == |old(keys)| && n.child == null && n.chain == [] && n.values == null
      && n.parent == old(keys)[p] && n.sibling == old(keys[p].child) && old(keys)[p].child == n
      && (forall i :: 0 <= i < |old(keys)| && i != p ==> old(keys)[i].child == old(keys[i].child))
      && (forall c :: c in old(keys) ==>
            c.name == old(c.name) && c.sibling == old(c.sibling) && c.parent == old(c.parent))
      && (forall c :: c in old(keys) ==> c.values == old(c.values) && c.chain == old(c.chain))
      && (forall v :: v in old(cells) ==>
           v.name == old(v.name) && v.typ == old(v.typ) && v.data == old(v.data) && v.next == old(v.next))
    }

    /** The former subkeys kept their order. */
    twostate lemma FormerSibling(t: (int, int))
      requires old(Linked()) && old(Has(arena, t.0)) && InFront(t.0) && 0 <= t.1 < |old(arena)[t.0].kids|
      ensures var was := old(arena)[t.0].kids;
              && (forall l :: 0 <= l < |was| ==> was[l] < |old(keys)|)
              && keys[was[t.1]].sibling == (if t.1 + 1 < |was| then keys[was[t.1 + 1]] else null)
              && keys[was[t.1]].parent == keys[t.0]
    {
      hide StoreOk, Wf, Forest, EqNoCase, TreeOk, Linked;
      OldLinks(t.0);
      var was := old(arena)[t.0].kids;
      assert old(keys[was[t.1]].sibling == At(was, t.1 + 1));
    }

    twostate lemma NewSibling(p: int)
      requires old(Linked()) && old(Has(arena, p)) && InFront(p)
      ensures var was := old(arena)[p].kids;
              && (forall l :: 0 <= l < |was| ==> was[l] < |old(keys)|)
              && keys[|old(keys)|].sibling == (if was == [] then null else keys[was[0]])
              && keys[|old(keys)|].parent == keys[p] && keys[p].name == old(arena)[p].name
    {
      hide StoreOk, Wf, Forest, EqNoCase, TreeOk, Linked;
      OldLinks(p);
    }

    twostate lemma ParentLinked(p: nat)
      requires old(Linked()) && old(Has(arena, p)) && InFront(p) && |keys| == |arena|
      requires Has(arena, p) && KidsLinked(arena, p, arena[p].kids)
      requires arena[p] == old(arena)[p].(kids := [|old(keys)|] + old(arena)[p].kids)
      ensures LinksOk(p)
    {
      hide StoreOk, Wf, Forest, EqNoCase, TreeOk, Linked, KidsLinked;
      var kids, was := arena[p].kids, old(arena)[p].kids;
      NewSibling(p);
      forall j | 0 <= j < |kids| ensures keys[kids[j]].sibling == At(kids, j + 1) && keys[kids[j]].parent == keys[p] {
        assert j + 1 < |kids| ==> kids[j + 1] == was[j];
        if j > 0 {
          assert kids[j] == was[j - 1];
          FormerSibling((p, j - 1));
        }
      }
    }

    twostate lemma OthersLinked(p: nat)
      requires old(Linked()) && old(Has(arena, p)) && InFront(p) && |keys| == |arena| && Forest(arena)
      requires forall i :: old(Has(arena, i)) && i != p ==> Has(arena, i) && arena[i] == old(arena)[i]
      ensures forall i :: old(Has(arena, i)) && i != p ==> KidsLinked(arena, i, arena[i].kids) && LinksOk(i)
    {
      forall i | old(Has(arena, i)) && i != p ensures KidsLinked(arena, i, arena[i].kids) && LinksOk(i) {
        assert old(LinksOk(i));
        var kids := arena[i].kids;
        assert KidsLinked(arena, i, kids);
        assert old(KidsLinked(arena, i, arena[i].kids));
        forall l | 0 <= l < |kids| ensures keys[kids[l]] == old(keys)[kids[l]] {
        }
      }
    }

    twostate lemma AllLinked(p: nat)
      requires old(Linked()) && old(Has(arena, p)) && InFront(p) && Forest(arena)
      requires arena == AddKey(old(arena), p, keys[|old(keys)|].name)
      ensures forall i :: Has(arena, i) ==> KidsLinked(arena, i, arena[i].kids) && LinksOk(i)
    {
      assert KidsLinked(arena, p, arena[p].kids);
      ParentLinked(p);
      OthersLinked(p);
      assert KidsLinked(arena, |old(keys)|, []);
      assert LinksOk(|old(keys)|);
      forall i | Has(arena, i) ensures KidsLinked(arena, i, arena[i].kids) && LinksOk(i) {
        if i != p && i != |old(keys)| { assert old(Has(arena, i)); }
      }
    }

    twostate lemma AllStored(p: nat)
      requires old(Linked()) && old(Has(arena, p)) && InFront(p)
      requires arena == AddKey(old(arena), p, keys[|old(keys)|].name)
      ensures forall i :: Has(arena, i) ==> StoreOk(i)
    {
      hide Wf, Forest, LinksOk, KidsLinked, EqNoCase, SetVal, DropVal;
      forall i | Has(arena, i) ensures StoreOk(i) {
        if i < |old(keys)| {
          assert old(Has(arena, i));
          assert old(StoreOk(i));
          assert keys[i] == old(keys)[i];
          assert keys[i].Vals() == old(keys[i].Vals());
        } else {
          assert keys[i].Vals() == [];
        }
      }
    }

    /** `CreateKey`: link a fresh key in front of its siblings. */
    method CreateChild(parent: RegKey, name: WStr, ghost p: nat) returns (key: RegKey)
      requires Linked() && Has(arena, p) && p < |keys| && parent == keys[p]
      modifies this`keys, this`arena, parent`child
      ensures Linked() && fresh(key) && p < |old(arena)|
      ensures arena == AddKey(old(arena), p, name) && keys == old(keys) + [key] && |keys| == |arena| && Forest(arena)
      ensures old(Wf(arena)) && name != [] && Kid(old(arena), p, name) == None ==> Wf(arena)
    {
      hide Wf, Forest, LinksOk, StoreOk, KidsLinked, Kid;
      key := new RegKey(name, parent, |keys|);
      key.sibling := parent.child;
      parent.child := key;
      keys, arena := keys + [key], AddKey(arena, p, name);
      AddKeyForest(old(arena), p, name);
      if old(Wf(arena)) && name != [] && Kid(old(arena), p, name) == None { AddKeyWf(old(arena), p, name); }
      AllLinked(p);
      AllStored(p);
    }

    /** One turn of NavigatePath's loop. */
    method Descend(cur: RegKey, token: WStr, create: bool, ghost k: nat, ghost ts: seq<WStr>)
      returns (child: RegKey?, ghost c: nat)
      requires TreeOk() && Has(arena, k) && cur == keys[k]
      requires ts != [] && ts[0] == token && AllNonEmpty(ts)
      modifies this`keys, this`arena, cur`child
      ensures TreeOk() && |keys| == |arena| && Wf(arena)
      ensures !create ==> arena == old(arena) && keys == old(keys)
      ensures create ==> child != null
      ensures child != null ==> Has(arena, c) && child == keys[c]
      ensures !create ==> Walk(arena, k, ts) == if child == null then None else Walk(arena, c, ts[1..])
      ensures create ==> Grow(old(arena), k, ts) == Grow(arena, c, ts[1..])
      ensures Grown()
    {
      hide LinksOk, StoreOk, KidsLinked, Wf, Forest, Walk, Grow, EqNoCase;
      NavigateStep(arena, k, ts);
      var prev, found, j := FindChild(cur, token, k);
      child := found;
      if child != null {
        c := Kid(arena, k, token).value;
      } else if create {
        child := CreateChild(cur, token, k);
        c := |arena| - 1;
      } else {
        c := 0;
      }
    }

    lemma TreeOkBasics()
      requires TreeOk()
      ensures |keys| == |arena| && Wf(arena)
    {
    }

    lemma LinkedBasics()
      requires Linked()
      ensures |keys| == |arena| && Forest(arena)
    {
    }

    /** `NavigatePath`: walk the components of a path cut to 512 units, creating missing keys on request. The
        source's early return for an empty path is the loop that finds no component. */
    method NavigatePath(base: RegKey, path: WStr, create: bool, ghost b: nat) returns (key: RegKey?, ghost k: nat)
      requires TreeOk() && Has(arena, b) && base == keys[b]
      modifies this`keys, this`arena, keys`child
      ensures TreeOk()
      ensures !create ==> arena == old(arena) && keys == old(keys)
      ensures !create ==> Walk(arena, b, Split(path)) == if key == null then None else Some(k)
      ensures create ==> key != null && (arena, k) == Grow(old(arena), b, Split(path))
      ensures key != null ==> Has(arena, k) && key == keys[k]
      ensures Grown()
    {
      hide TreeOk, Linked, Wf, Forest, Walk, Grow, Tokens, Split, EqNoCase;
      TreeOkBasics();
      SplitStart(path);
      var temp := Truncate(path, 512);
      var cur, at := base, 0;
      k := b;
      var found, token, next := NextToken(temp, 0);
      while found
        invariant TreeOk() && |keys| == |arena| && Wf(arena) && Has(arena, k) && cur == keys[k] && at <= |temp|
        invariant found <==> Tokens(temp[at..]) != []
        invariant found ==> token != [] && at < next <= |temp| && Tokens(temp[at..]) == [token] + Tokens(temp[next..])
        invariant AllNonEmpty(Tokens(temp[at..]))
        invariant Grown()
        invariant !create ==> arena == old(arena) && keys == old(keys)
        invariant !create ==> Walk(arena, b, Split(path)) == Walk(arena, k, Tokens(temp[at..]))
        invariant create ==> Grow(old(arena), b, Split(path)) == Grow(arena, k, Tokens(temp[at..]))
        decreases |temp| - at
      {
        ghost var ts := Tokens(temp[at..]);
        assert ts[0] == token && ts[1..] == Tokens(temp[next..]);
        assert cur in old(keys) || fresh(cur);
        var child, c := Descend(cur, token, create, k, ts);
        if child == null { return null, 0; }
        cur, k, at := child, c, next;
        found, token, next := NextToken(temp, at);
      }
      NavigateEnd(arena, k);
      key := cur;
    }

    /** `KeyExists`: the same walk, answering only whether it succeeds. */
    method KeyExists(base: RegKey, path: WStr, ghost b: nat) returns (present: bool)
      requires TreeOk() && Wf(arena) && Has(arena, b) && b < |keys| && base == keys[b]
      ensures present <==> Walk(arena, b, Split(path)).Some?
    {
      hide TreeOk, Linked, Wf, Forest, Walk, Grow, Tokens, Split, EqNoCase;
      TreeOkBasics();
      SplitStart(path);
      var temp := Truncate(path, 512);
      var cur, at := base, 0;
      ghost var k := b;
      var found, token, next := NextToken(temp, 0);
      while found
        invariant Has(arena, k) && cur == keys[k] && at <= |temp|
        invariant found <==> Tokens(temp[at..]) != []
        invariant found ==> token != [] && at < next <= |temp| && Tokens(temp[at..]) == [token] + Tokens(temp[next..])
        invariant AllNonEmpty(Tokens(temp[at..]))
        invariant Walk(arena, b, Split(path)) == Walk(arena, k, Tokens(temp[at..]))
        decreases |temp| - at
      {
        ghost var ts := Tokens(temp[at..]);
        assert ts[0] == token && ts[1..] == Tokens(temp[next..]);
        NavigateStep(arena, k, ts);
        var prev, child, j := FindChild(cur, token, k);
        if child == null { return false; }
        k := Kid(arena, k, token).value;
        cur, at := child, next;
        found, token, next := NextToken(temp, at);
      }
      NavigateEnd(arena, k);
      present := true;
    }

    // ---------- Handles ----------

    method HandleKey(h: int) returns (key: RegKey?)
      requires TableOk()
      ensures key == if HandleToKey(View(), h).Some? then keys[HandleToKey(View(), h).value] else null
    {
      if h == FAKE_SERVICE_KEY { return null; }
      var i := Index(h);
      if i < |table| { return table[i]; }
      return null;
    }

    /** The linear search in `CacheLookup`. */
    method FindCached(path: WStr) returns (j: nat)
      requires TableOk()
      ensures j == CacheIndex(cache[..cached], path)
    {
      ghost var entries := cache[..cached];
      j := 0;
      CacheFrom(entries, path, 0);
      while j < cached && !EqNoCase(cache[j].path, path)
        invariant j <= cached
        invariant j + CacheIndex(entries[j..], path) == CacheIndex(entries, path)
      {
        CacheFrom(entries, path, j);
        j := j + 1;
      }
      CacheFrom(entries, path, j);
    }

    /** `AllocHandle` and `CacheLookup`. */
    method Record(key: RegKey, path: WStr, ghost k: nat) returns (h: int)
      requires Valid() && k < |keys| && key == keys[k]
      modifies this`table, this`places, this`paths, this`cached, cache
      ensures Valid() && (View(), h) == Register(old(View()), k, path)
    {
      hide TreeOk, Linked, EqNoCase, CacheIndex;
      ghost var entries := cache[..cached];
      h := FAKE_HANDLE_BASE + |table|;
      var j := FindCached(path);
      table, paths, places := table + [key], paths + [path], places + [k];
      if j < cached {
        h := cache[j].handle;
      } else if cached < MAX_CACHED_HANDLES {
        cache[cached] := Cached(path, h);
        cached := cached + 1;
      }
      assert cache[..cached] == CacheLookup(entries, path, FAKE_HANDLE_BASE + old(|places|)).0;
    }

    method BuildPath(h: int, sub: WStr) returns (full: WStr)
      requires TableOk()
      ensures full == BuildFullPath(View(), h, sub)
    {
      if Predefined(h, true) || h == FAKE_SERVICE_KEY || Index(h) >= |paths| { return sub; }
      full := paths[Index(h)];
      if sub != [] { full := full + [BACKSLASH] + sub; }
      assert paths[Index(h)] + ([BACKSLASH] + sub) == paths[Index(h)] + [BACKSLASH] + sub;
      assert paths[Index(h)] + [] == paths[Index(h)];
    }

    // ---------- The hooks, up to the save that follows a change ----------

    /** The base key of an open or create; null when the handle is not one of ours. */
    method FindBase(h: int, ex: bool) returns (base: RegKey?, ghost b: nat)
      requires Valid() && Usable(View(), h)
      ensures base == null <==> BaseKey(View(), h, ex).None?
      ensures base != null ==> BaseKey(View(), h, ex) == Some(b) && Has(arena, b) && base == keys[b]
    {
      b := 0;
      if Predefined(h, !ex) { return root, 0; }
      base := HandleKey(h);
      if base != null { b := HandleToKey(View(), h).value; }
    }

    /** `Hook_RegOpenKeyExW` (ex) and `Hook_RegOpenKeyW`. */
    method OpenKeyHook(h: int, sub: WStr, ex: bool) returns (o: Outcome)
      requires Valid() && Usable(View(), h)
      modifies this`keys, this`arena, keys`child, this`table, this`places, this`paths, this`cached, cache
      ensures Valid() && Grown() && (View(), o) == OpenKey(old(View()), h, sub, ex)
    {
      hide LinksOk, StoreOk, KidsLinked, Wf, Forest, EqNoCase, Walk, Contains, RedirectSubKey, Split, Register,
          BuildFullPath;
      if Contains(sub, RVPNNETMP) { return Done(ERROR_SUCCESS, FAKE_SERVICE_KEY); }
      var redirected := RedirectSubKey(isWow64 && h == HKEY_LOCAL_MACHINE, sub);
      var base, b := FindBase(h, ex);
      if base == null { return if ex then Done(ERROR_INVALID_HANDLE, 0) else Forwarded; }
      var key, k := NavigatePath(base, redirected, false, b);
      if key == null { return Done(ERROR_FILE_NOT_FOUND, 0); }
      var out := RegisterAt(h, redirected, key, k);
      o := Done(ERROR_SUCCESS, out);
    }

    /** `Hook_RegCreateKeyExW` (ex) and `Hook_RegCreateKeyW`. */
    method CreateKeyHook(h: int, sub: WStr, ex: bool) returns (o: Outcome, existed: bool)
      requires Valid() && Usable(View(), h)
      modifies this`keys, this`arena, keys`child, this`table, this`places, this`paths, this`cached, cache
      ensures Valid() && Grown() && (View(), o) == CreateKey(old(View()), h, sub, ex)
      ensures BaseKey(old(View()), h, ex).Some? ==>
                (existed <==> Existed(old(View()), h, sub, ex))
    {
      hide LinksOk, StoreOk, KidsLinked, Wf, Forest, EqNoCase, Walk, Grow, RedirectSubKey, Split, Register;
      hide BuildFullPath;
      var redirected := RedirectSubKey(isWow64 && h == HKEY_LOCAL_MACHINE, sub);
      var base, b := FindBase(h, ex);
      if base == null { return if ex then Done(ERROR_INVALID_HANDLE, 0) else Forwarded, false; }
      existed := KeyExists(base, redirected, b);
      var key, k := NavigatePath(base, redirected, true, b);
      SamePaths(old(View()), View(), h, redirected);
      var out := RegisterAt(h, redirected, key, k);
      o := Done(ERROR_SUCCESS, out);
    }

    /** The end of an open or create, with the key in hand: the full path, a handle, the cache. */
    method RegisterAt(h: int, redirected: WStr, key: RegKey, ghost k: nat) returns (out: int)
      requires Valid() && k < |keys| && key == keys[k]
      modifies this`table, this`places, this`paths, this`cached, cache
      ensures Valid()
      ensures (View(), out) == Register(old(View()), k, BuildFullPath(old(View()), h, redirected))
    {
      hide TreeOk, EqNoCase, Register, BuildFullPath;
      var full := BuildPath(h, redirected);
      out := Record(key, full, k);
    }

    /** Changing values only leaves every link as it was. */
    twostate lemma LinksKept()
      requires old(Linked()) && keys == old(keys) && |arena| == |old(arena)|
      requires forall i :: 0 <= i < |arena| ==> arena[i].(vals := old(arena)[i].vals) == old(arena)[i]
      requires forall k :: k in keys ==>
                 k.name == old(k.name) && k.child == old(k.child) && k.sibling == old(k.sibling)
                     && k.parent == old(k.parent)
      ensures forall i :: Has(arena, i) ==> KidsLinked(arena, i, arena[i].kids) && LinksOk(i)
    {
      hide StoreOk, Wf, Forest, EqNoCase;
      forall i | Has(arena, i) ensures KidsLinked(arena, i, arena[i].kids) && LinksOk(i) {
        assert old(Has(arena, i));
        assert old(LinksOk(i)) && old(KidsLinked(arena, i, arena[i].kids));
      }
    }

    /** Changing the values of key k leaves the values of the others as they were. */
    twostate lemma OtherStores(k: nat)
      requires old(Linked()) && old(Has(arena, k)) && keys == old(keys) && |arena| == |old(arena)|
      requires forall i :: Has(arena, i) && i != k ==> old(Has(arena, i)) && arena[i].vals == old(arena)[i].vals
      requires forall i :: 0 <= i < |keys| && i != k ==>
                 keys[i].values == old(keys[i].values) && keys[i].chain == old(keys[i].chain)
      requires old(cells) <= cells
      requires forall v :: v in old(cells) && v.owner != keys[k] ==>
                 v.name == old(v.name) && v.typ == old(v.typ) && v.data == old(v.data) && v.next == old(v.next)
      ensures forall i :: Has(arena, i) && i != k ==> StoreOk(i)
    {
      hide LinksOk, KidsLinked, Wf, Forest, EqNoCase;
      forall i | Has(arena, i) && i != k ensures StoreOk(i) {
        assert old(StoreOk(i));
        assert keys[i].id == i && keys[k].id == k;
        assert forall j :: 0 <= j < |keys[i].chain| ==> keys[i].chain[j].owner == keys[i];
        assert keys[i].Vals() == old(keys[i].Vals());
      }
    }

    lemma StoreFacts(k: nat)
      requires Linked() && Has(arena, k)
      ensures k < |keys| == |arena| && Forest(arena)
      ensures keys[k].ListOk() && keys[k].Vals() == arena[k].vals
      ensures forall v :: v in keys[k].chain ==> v in cells
    {
      assert StoreOk(k);
    }

    /** After key k's list was changed in place and the arena with it, the objects still are the arena. */
    twostate lemma ValuesChanged(k: nat)
      requires old(Linked()) && old(Has(arena, k)) && keys == old(keys) && root == old(root)
      requires k < |keys| == |arena| && arena == WithVals(old(arena), k, arena[k].vals)
      requires keys[k].ListOk() && keys[k].Vals() == arena[k].vals
      requires forall v :: v in keys[k].chain ==> v in cells
      requires forall i :: 0 <= i < |keys| && i != k ==>
                 keys[i].values == old(keys[i].values) && keys[i].chain == old(keys[i].chain)
      requires forall c :: c in keys ==>
                 c.name == old(c.name) && c.child == old(c.child) && c.sibling == old(c.sibling)
                     && c.parent == old(c.parent)
      requires old(cells) <= cells
      requires forall v :: v in old(cells) && v.owner != keys[k] ==>
                 v.name == old(v.name) && v.typ == old(v.typ) && v.data == old(v.data) && v.next == old(v.next)
      ensures Linked() && (old(Wf(arena)) ==> Wf(arena))
    {
      hide LinksOk, KidsLinked, EqNoCase, Walk;
      WithValsForest(old(arena), k, arena[k].vals);
      if old(Wf(arena)) { WithValsWalk(old(arena), k, arena[k].vals, k, []); }
      LinksKept();
      OtherStores(k);
      assert StoreOk(k);
    }

    /** `SetValue` on a key of the tree. */
    method StoreValue(key: RegKey, name: WStr, typ: U32, data: seq<Byte>, ghost k: nat)
      requires Linked() && Has(arena, k) && k < |keys| && key == keys[k]
      modifies this`arena, this`cells, key`values, key`chain, cells
      ensures Linked() && k < |old(arena)| && (old(Wf(arena)) ==> Wf(arena))
      ensures arena == WithVals(old(arena), k, SetVal(old(arena)[k].vals, name, typ, data))
      ensures forall v :: v in cells ==> v in old(cells) || fresh(v)
    {
      hide Linked, Wf, Forest, SetVal, RegKey.ListOk, RegKey.Vals;
      StoreFacts(k);
      AllIds();
      key.SetValue(name, typ, data);
      cells := cells + set v | v in key.chain;
      arena := WithVals(arena, k, SetVal(arena[k].vals, name, typ, data));
      ValuesChanged(k);
    }

    lemma AllIds()
      requires Linked()
      ensures forall i :: 0 <= i < |keys| ==> keys[i].id == i
      ensures forall k, v :: Has(arena, k) && k < |keys| && v in keys[k].chain ==> v.owner == keys[k]
    {
      hide LinksOk, Wf, Forest;
      forall k, v | Has(arena, k) && k < |keys| && v in keys[k].chain ensures v.owner == keys[k] {
        assert StoreOk(k);
      }
    }

    /** The unlinking half of the value delete hook, on a key of the tree. */
    method DropValue(key: RegKey, name: WStr, ghost k: nat) returns (found: bool)
      requires TreeOk() && Has(arena, k) && key == keys[k]
      modifies this`arena, key`values, key`chain, cells
      ensures TreeOk() && k < |old(arena)|
      ensures arena == WithVals(old(arena), k, DropVal(old(arena)[k].vals, name))
      ensures found <==> IndexOf(old(arena)[k].vals, name) < |old(arena)[k].vals|
    {
      hide Linked, Wf, Forest, DropVal, IndexOf;
      StoreFacts(k);
      AllIds();
      found := key.DeleteValue(name);
      arena := WithVals(arena, k, DropVal(arena[k].vals, name));
      ValuesChanged(k);
    }

    /** `Hook_RegSetValueExW`. */
    method SetValueHook(h: int, name: WStr, typ: U32, data: seq<Byte>) returns (o: Outcome)
      requires Valid() && Usable(View(), h)
      modifies this`arena, this`cells, keys`values, keys`chain, cells
      ensures Valid() && CellsGrown() && (View(), o) == SetValueEx(old(View()), h, name, typ, data)
    {
      hide LinksOk, KidsLinked, Wf, Forest, EqNoCase, SetVal;
      if h == FAKE_SERVICE_KEY { return Done(ERROR_SUCCESS, 0); }
      var key := HandleKey(h);
      if key == null { return Done(ERROR_INVALID_HANDLE, 0); }
      StoreValue(key, name, typ, data, HandleToKey(View(), h).value);
      o := Done(ERROR_SUCCESS, 0);
    }

    /** `Hook_RegDeleteValueW`. */
    method DeleteValueHook(h: int, name: WStr) returns (o: Outcome)
      requires Valid() && Usable(View(), h)
      modifies this`arena, keys`values, keys`chain, cells
      ensures Valid() && (View(), o) == DeleteValue(old(View()), h, name)
    {
      hide LinksOk, KidsLinked, Wf, Forest, EqNoCase, DropVal, IndexOf;
      if h == FAKE_SERVICE_KEY { return Done(ERROR_SUCCESS, 0); }
      var key := HandleKey(h);
      if key == null { return Forwarded; }
      ghost var k := HandleToKey(View(), h).value;
      DropValAt(arena[k].vals, name);
      var found := DropValue(key, name, k);
      if !found {
        assert arena == old(arena);
        return Done(ERROR_FILE_NOT_FOUND, 0);
      }
      o := Done(ERROR_SUCCESS, 0);
    }

    /** What splicing a subkey out of the sibling list leaves in memory. */
    twostate predicate SplicedOut(s: Slot)
      requires SlotOk(s)
      reads this`keys, this`cells, this`root, keys, cells
    {
      && keys == old(keys) && cells == old(cells) && root == old(root)
      && NamesStay() && ValuesStay() && HeadMoved(s) && SiblingMoved(s)
    }

    twostate predicate NamesStay()
      reads this`keys, keys
    {
      keys == old(keys) && forall c :: c in keys ==> c.name == old(c.name) && c.parent == old(c.parent)
    }

    twostate predicate ValuesStay()
      reads this`keys, this`cells, keys, cells
    {
      && keys == old(keys) && cells == old(cells)
      && (forall c :: c in keys ==> c.values == old(c.values) && c.chain == old(c.chain))
      && (forall v :: v in cells ==>
           v.name == old(v.name) && v.typ == old(v.typ) && v.data == old(v.data) && v.next == old(v.next))
    }

    twostate predicate HeadMoved(s: Slot)
      requires SlotOk(s)
      reads this`keys, keys
    {
      && keys == old(keys)
      && forall c :: c in keys ==>
           c.child == if c == keys[s.p] && s.j == 0 then old(keys[arena[s.p].kids[0]].sibling) else old(c.child)
    }

    twostate predicate SiblingMoved(s: Slot)
      requires SlotOk(s)
      reads this`keys, keys
    {
      var kids := old(arena)[s.p].kids;
      && keys == old(keys)
      && forall c :: c in keys ==>
           c.sibling == if s.j > 0 && c == keys[kids[s.j - 1]] then old(keys[kids[s.j]].sibling) else old(c.sibling)
    }

    twostate predicate SlotOk(s: Slot)
    {
      && 0 <= s.p < |old(arena)| == |old(keys)| && old(Has(arena, s.p)) && 0 <= s.j < |old(arena)[s.p].kids|
      && forall l :: 0 <= l < |old(arena)[s.p].kids| ==> old(arena)[s.p].kids[l] < |old(keys)|
    }

    lemma KidFacts(p: int)
      requires TreeOk() && Has(arena, p)
      ensures |keys| == |arena|
      ensures forall l :: 0 <= l < |arena[p].kids| ==> p < arena[p].kids[l] < |keys|
    {
      assert KidsLinked(arena, p, arena[p].kids);
    }

    /** Where the sibling pointer of a remaining subkey was taken from. */
    twostate lemma SiblingMovedAt(t: (Slot, int))
      requires SlotOk(t.0) && SiblingMoved(t.0) && 0 <= t.1 < |old(arena)[t.0.p].kids| && t.1 != t.0.j
      requires var was := old(arena)[t.0.p].kids;
               forall l, m :: 0 <= l < |was| && 0 <= m < |was| && l != m ==> keys[was[l]] != keys[was[m]]
      ensures keys == old(keys)
      ensures var was := old(arena)[t.0.p].kids;
              keys[was[t.1]].sibling
              == if t.1 + 1 == t.0.j then old(keys[arena[t.0.p].kids[t.0.j]].sibling)
                 else old(keys[arena[t.0.p].kids[t.1]].sibling)
    {
      ghost var was := old(arena)[t.0.p].kids;
      assert keys[was[t.1]] in keys;
      if t.0.j > 0 && t.1 != t.0.j - 1 { assert keys[was[t.1]] != keys[was[t.0.j - 1]]; }
    }

    /** A remaining subkey points to the one that followed it, or to the one after the key taken out. */
    twostate lemma SplicedSibling(t: (Slot, int))
      requires old(TreeOk()) && SlotOk(t.0) && SiblingMoved(t.0) && NamesStay()
      requires 0 <= t.1 < |old(arena)[t.0.p].kids| && t.1 != t.0.j
      ensures var was, m := old(arena)[t.0.p].kids, if t.1 + 1 == t.0.j then t.0.j + 1 else t.1 + 1;
              && keys[was[t.1]].sibling == (if m < |was| then keys[was[m]] else null)
              && keys[was[t.1]].parent == keys[t.0.p]
    {
      hide StoreOk, Wf, Forest, EqNoCase, TreeOk, Linked, KidsLinked, LinksOk, SiblingMoved, NamesStay;
      LinkWas((t.0.p, t.1));
      LinkWas((t.0.p, t.0.j));
      ParentStays((t.0.p, t.1));
      SiblingKeysDistinct(old(arena)[t.0.p].kids);
      SiblingMovedAt(t);
    }

    /** A subkey pointed to its parent and to the next subkey. */
    twostate lemma LinkWas(t: (int, int))
      requires old(TreeOk()) && old(Has(arena, t.0)) && 0 <= t.1 < |old(arena)[t.0].kids|
      ensures var was := old(arena)[t.0].kids;
              && (forall l :: 0 <= l < |was| ==> was[l] < |old(keys)|) && t.0 < |old(keys)|
              && old(keys[arena[t.0].kids[t.1]].sibling)
                 == (if t.1 + 1 < |was| then old(keys)[was[t.1 + 1]] else null)
              && old(keys[arena[t.0].kids[t.1]].parent) == old(keys)[t.0]
    {
      hide StoreOk, Wf, Forest, EqNoCase, TreeOk, Linked;
      OldLinks(t.0);
      ghost var was := old(arena)[t.0].kids;
      assert old(keys[was[t.1]].sibling == At(was, t.1 + 1));
    }

    twostate lemma ParentStays(t: (int, int))
      requires NamesStay() && 0 <= t.0 < |old(arena)| && 0 <= t.1 < |old(arena)[t.0].kids|
      requires old(arena)[t.0].kids[t.1] < |old(keys)|
      ensures keys == old(keys)
      ensures keys[old(arena)[t.0].kids[t.1]].parent == old(keys[arena[t.0].kids[t.1]].parent)
    {
      assert keys[old(arena)[t.0].kids[t.1]] in keys;
    }

    twostate lemma SplicedHead(s: Slot)
      requires old(TreeOk()) && SlotOk(s) && HeadMoved(s) && NamesStay()
      ensures keys == old(keys) && keys[s.p].name == old(arena)[s.p].name
      ensures var was := old(arena)[s.p].kids;
              keys[s.p].child == if s.j > 0 then keys[was[0]] else if 1 < |was| then keys[was[1]] else null
    {
      hide StoreOk, Wf, Forest, EqNoCase, TreeOk, Linked, KidsLinked;
      var was := old(arena)[s.p].kids;
      OldLinks(s.p);
      assert old(keys[s.p].child == At(was, 0));
      assert old(keys[was[s.j]].sibling == At(was, s.j + 1));
    }

    twostate lemma SplicedParent(s: Slot)
      requires old(TreeOk()) && SlotOk(s) && SplicedOut(s)
      requires |keys| == |arena| && Has(arena, s.p) && arena[s.p].name == old(arena)[s.p].name
      requires arena[s.p].kids == old(arena)[s.p].kids[..s.j] + old(arena)[s.p].kids[s.j + 1..]
      requires KidsLinked(arena, s.p, arena[s.p].kids)
      ensures LinksOk(s.p)
    {
      hide StoreOk, Wf, Forest, EqNoCase, TreeOk, Linked, KidsLinked, HeadMoved, SiblingMoved, ValuesStay;
      var was, kids := old(arena)[s.p].kids, arena[s.p].kids;
      SplicedHead(s);
      forall l | 0 <= l < |kids| ensures keys[kids[l]].sibling == At(kids, l + 1) && keys[kids[l]].parent == keys[s.p] {
        var m := if l < s.j then l else l + 1;
        SplicedSibling((s, m));
        assert kids[l] == was[m];
        assert l + 1 < |kids| ==> kids[l + 1] == was[if l + 1 < s.j then l + 1 else l + 2];
      }
    }

    twostate lemma OldLinks(p: int)
      requires old(Linked()) && old(Has(arena, p))
      ensures old(|keys| == |arena| && KidsLinked(arena, p, arena[p].kids) && LinksOk(p))
    {
    }

    /** Distinct subkeys are distinct objects. */
    twostate lemma SiblingKeysDistinct(ks: seq<nat>)
      requires old(TreeOk()) && keys == old(keys)
      requires exists p :: old(Has(arena, p)) && old(arena)[p].kids == ks
      ensures forall l, m :: 0 <= l < |ks| && 0 <= m < |ks| && l != m ==>
                ks[l] < |keys| && ks[m] < |keys| && keys[ks[l]] != keys[ks[m]]
    {
      hide StoreOk, LinksOk, EqNoCase;
      var p :| old(Has(arena, p)) && old(arena)[p].kids == ks;
      assert old(KidsLinked(arena, p, arena[p].kids));
      forall l, m | 0 <= l < |ks| && 0 <= m < |ks| && l != m
        ensures ks[l] < |keys| && ks[m] < |keys| && keys[ks[l]] != keys[ks[m]]
      {
        KidsDistinct(old(arena), p, l, m);
        assert keys[ks[l]].id == ks[l] && keys[ks[m]].id == ks[m];
      }
    }

    /** The key whose sibling pointer changed is not a subkey of any other key. */
    twostate lemma NotSpliced(s: Slot)
      requires old(TreeOk()) && SlotOk(s) && keys == old(keys) && |keys| == |arena|
      requires forall i :: Has(arena, i) && i != s.p ==> old(Has(arena, i)) && arena[i] == old(arena)[i]
      ensures s.j > 0 ==> forall i, l :: Has(arena, i) && i != s.p && 0 <= l < |arena[i].kids| ==>
                arena[i].kids[l] < |keys| && keys[arena[i].kids[l]] != keys[old(arena)[s.p].kids[s.j - 1]]
    {
      hide StoreOk, EqNoCase, Wf, Forest, LinksOk;
      if s.j > 0 {
        var c := old(arena)[s.p].kids[s.j - 1];
        assert old(KidsLinked(arena, s.p, arena[s.p].kids));
        forall i, l | Has(arena, i) && i != s.p && 0 <= l < |arena[i].kids|
          ensures arena[i].kids[l] < |keys| && keys[arena[i].kids[l]] != keys[c]
        {
          assert old(KidsLinked(arena, i, arena[i].kids));
          assert old(arena)[arena[i].kids[l]].parent == i && old(arena)[c].parent == s.p;
          assert keys[c].id == c && keys[arena[i].kids[l]].id == arena[i].kids[l];
        }
      }
    }

    twostate lemma SplicedOther(t: (Slot, int))
      requires old(TreeOk()) && SlotOk(t.0) && HeadMoved(t.0) && SiblingMoved(t.0) && NamesStay() && |keys| == |arena|
          && Wf(arena)
      requires Has(arena, t.1) && t.1 != t.0.p && old(Has(arena, t.1)) && arena[t.1] == old(arena)[t.1]
      requires forall l :: 0 <= l < |arena[t.1].kids| ==> arena[t.1].kids[l] < |keys|
      requires t.0.j > 0 ==> forall l :: 0 <= l < |arena[t.1].kids| ==>
                 keys[arena[t.1].kids[l]] != keys[old(arena)[t.0.p].kids[t.0.j - 1]]
      ensures KidsLinked(arena, t.1, arena[t.1].kids) && LinksOk(t.1)
    {
      hide StoreOk, EqNoCase, TreeOk, Linked;
      AllIdsOld();
      OldLinks(t.1);
      assert KidsOk(arena, t.1, arena[t.1].kids);
    }

    twostate lemma SplicedOthers(s: Slot)
      requires old(TreeOk()) && SlotOk(s) && HeadMoved(s) && SiblingMoved(s) && NamesStay() && |keys| == |arena|
          && Wf(arena)
      requires forall i :: Has(arena, i) && i != s.p ==> old(Has(arena, i)) && arena[i] == old(arena)[i]
      ensures forall i :: Has(arena, i) && i != s.p ==> KidsLinked(arena, i, arena[i].kids) && LinksOk(i)
    {
      hide StoreOk, EqNoCase, TreeOk, Linked, LinksOk, HeadMoved, SiblingMoved;
      NotSpliced(s);
      forall i | Has(arena, i) && i != s.p ensures KidsLinked(arena, i, arena[i].kids) && LinksOk(i) {
        assert KidsOk(arena, i, arena[i].kids);
        SplicedOther((s, i));
      }
    }

    twostate lemma AllIdsOld()
      requires old(TreeOk())
      ensures forall i :: 0 <= i < |old(keys)| ==> old(keys)[i].id == i
    {
    }

    twostate lemma SplicedStores()
      requires old(TreeOk()) && NamesStay() && ValuesStay() && |keys| == |arena|
      requires forall i :: Has(arena, i) ==> old(Has(arena, i)) && arena[i].vals == old(arena)[i].vals
      ensures forall i :: Has(arena, i) ==> StoreOk(i)
    {
      hide LinksOk, Wf, Forest, EqNoCase, KidsLinked;
      forall i | Has(arena, i) ensures StoreOk(i) {
        assert old(StoreOk(i));
        assert keys[i].Vals() == old(keys[i].Vals());
      }
    }

    twostate lemma SplicedTree(s: Slot)
      requires old(TreeOk()) && SlotOk(s) && SplicedOut(s)
      requires |keys| == |arena| && Wf(arena) && Has(arena, s.p)
      requires arena == RemoveKid(old(arena), s.p, old(arena)[s.p].kids[s.j])
      requires arena[s.p].kids == old(arena)[s.p].kids[..s.j] + old(arena)[s.p].kids[s.j + 1..]
      ensures TreeOk()
    {
      hide LinksOk, StoreOk, EqNoCase, Without, HeadMoved, SiblingMoved;
      assert KidsOk(arena, s.p, arena[s.p].kids);
      SplicedParent(s);
      SplicedOthers(s);
      SplicedStores();
    }

    /** The one pointer a deletion writes. */
    method Splice(base: RegKey, prev: RegKey?, child: RegKey, ghost p: nat, ghost j: nat)
      requires p < |arena| == |keys| && Has(arena, p) && base == keys[p] && j < |arena[p].kids|
      requires forall l :: 0 <= l < |arena[p].kids| ==> arena[p].kids[l] < |keys|
      requires child == keys[arena[p].kids[j]] && prev == if 0 < j then keys[arena[p].kids[j - 1]] else null
      modifies base`child, keys`sibling
      ensures SlotOk(Slot(p, j)) && SplicedOut(Slot(p, j))
    {
      if prev != null { prev.sibling := child.sibling; } else { base.child := child.sibling; }
    }

    /** Splice a direct subkey out of its sibling list and give its memory back. */
    method RemoveChild(base: RegKey, prev: RegKey?, child: RegKey, ghost p: nat, ghost j: nat)
      requires TreeOk() && Has(arena, p) && base == keys[p]
      requires |keys| == |arena| && forall l :: 0 <= l < |arena[p].kids| ==> arena[p].kids[l] < |keys|
      requires j < |arena[p].kids| && child == keys[arena[p].kids[j]]
      requires prev == if 0 < j then keys[arena[p].kids[j - 1]] else null
      modifies this`arena, base`child, keys`sibling
      ensures p < |old(arena)| && j < |old(arena)[p].kids| && old(arena)[p].kids[j] < |old(arena)|
      ensures TreeOk() && arena == RemoveKid(old(arena), p, old(arena)[p].kids[j])
    {
      hide LinksOk, StoreOk, KidsLinked, Wf, Forest, EqNoCase, Without, SplicedOut;
      ghost var k := arena[p].kids[j];
      ghost var at := WithoutKid(arena, p, k);
      Splice(base, prev, child, p, j);
      RemoveKidWf(arena, p, k);
      arena := RemoveKid(arena, p, k);
      SplicedTree(Slot(p, j));
    }

    /** `Hook_RegDeleteKeyW`, and with it the two hooks that only call it. */
    method DeleteKeyHook(h: int, name: WStr) returns (o: Outcome)
      requires Valid() && Usable(View(), h)
      modifies this`arena, keys`child, keys`sibling
      ensures Valid() && (View(), o) == DeleteKey(old(View()), h, name)
    {
      hide LinksOk, StoreOk, KidsLinked, Wf, Forest, EqNoCase, Kid, RemoveKid;
      if h == FAKE_SERVICE_KEY { return Done(ERROR_SUCCESS, 0); }
      var base := HandleKey(h);
      if base == null { return Forwarded; }
      ghost var p := HandleToKey(View(), h).value;
      KidFacts(p);
      var prev, child, j := FindChild(base, name, p);
      if child == null { return Done(ERROR_FILE_NOT_FOUND, 0); }
      RemoveChild(base, prev, child, p, j);
      o := Done(ERROR_SUCCESS, 0);
    }

    /** `Hook_RegQueryValueExW`: the handle test comes before the fake service key's own branch, which is
        therefore never reached. `room` is `*lpcbData` on entry. */
    method QueryValueHook(h: int, name: WStr, buffer: array?<Byte>, room: nat) returns (answer: Answer)
      requires Valid() && Usable(View(), h) && (buffer != null ==> room <= buffer.Length)
      modifies buffer
      ensures Valid() && View() == old(View())
      ensures answer == QueryValueEx(View(), h, name, if buffer == null then None else Some(room))
      ensures buffer != null ==>
                |answer.written| <= room && buffer[..] == answer.written + old(buffer[..])[|answer.written|..]
    {
      hide LinksOk, KidsLinked, Wf, Forest, EqNoCase, IndexOf;
      var key := HandleKey(h);
      if key == null { return Answer(ERROR_INVALID_HANDLE, None, None, []); }
      ghost var k := HandleToKey(View(), h).value;
      assert StoreOk(k);
      var found, typ, size := key.GetValue(name, null, 0);
      if !found { return Answer(ERROR_FILE_NOT_FOUND, None, None, []); }
      if buffer != null {
        if room < size.value { return Answer(ERROR_MORE_DATA, typ, size, []); }
        ghost var was := buffer[..];
        var ok, t, n := key.GetValue(name, buffer, size.value);
        return Answer(ERROR_SUCCESS, typ, size, buffer[..size.value]);
      }
      answer := Answer(ERROR_SUCCESS, typ, size, []);
    }

    // ---------- Enumeration ----------

    ghost function SubkeyNames(i: nat): (names: seq<WStr>)
      requires Has(arena, i) && KidsLinked(arena, i, arena[i].kids)
      reads this`arena
    {
      KeyNames(arena, arena[i].kids)
    }

    lemma ChildFacts(i: nat)
      requires Linked() && Has(arena, i)
      ensures |keys| == |arena| && KidsLinked(arena, i, arena[i].kids) && LinksOk(i)
      ensures forall j :: 0 <= j < |arena[i].kids| ==> keys[arena[i].kids[j]].name == SubkeyNames(i)[j]
    {
      hide StoreOk, Wf, Forest, EqNoCase;
      forall j | 0 <= j < |arena[i].kids| ensures keys[arena[i].kids[j]].name == SubkeyNames(i)[j] {
        assert LinksOk(arena[i].kids[j]);
      }
    }

    /** `Hook_RegEnumKeyExW`. */
    method EnumKeyHook(h: int, index: nat, room: nat) returns (item: Option<KeyItem>)
      requires Valid() && Usable(View(), h)
      ensures h == FAKE_SERVICE_KEY ==> item == Some(KeyItem(ERROR_NO_MORE_ITEMS, [], room))
      ensures h != FAKE_SERVICE_KEY ==> (item == None <==> HandleToKey(View(), h) == None)
      ensures HandleToKey(View(), h).Some? ==>
                var i := HandleToKey(View(), h).value;
                Has(arena, i) && KidsLinked(arena, i, arena[i].kids)
                    && item == Some(EnumKey(SubkeyNames(i), index, room))
    {
      hide TreeOk, Linked, LinksOk, StoreOk, Wf, Forest, EqNoCase;
      if h == FAKE_SERVICE_KEY { return Some(KeyItem(ERROR_NO_MORE_ITEMS, [], room)); }
      var key := HandleKey(h);
      if key == null { return None; }
      ghost var k := HandleToKey(View(), h).value;
      var child, i := SkipChildren(key, index, k);
      ChildFacts(k);
      if child == null { return Some(KeyItem(ERROR_NO_MORE_ITEMS, [], room)); }
      if child.name != [] && room <= |child.name| { return Some(KeyItem(ERROR_MORE_DATA, [], |child.name| + 1)); }
      item := Some(KeyItem(ERROR_SUCCESS, child.name, |child.name|));
    }

    /** The enumeration loop: the index-th subkey, or null. */
    method SkipChildren(key: RegKey, index: nat, ghost k: nat) returns (child: RegKey?, i: nat)
      requires TreeOk() && Has(arena, k) && k < |keys| && key == keys[k]
      ensures KidsLinked(arena, k, arena[k].kids) && |keys| == |arena|
      ensures child == if index < |arena[k].kids| then keys[arena[k].kids[index]] else null
    {
      hide TreeOk, Linked, StoreOk, Wf, Forest, LinksOk;
      ChildFacts(k);
      FirstChild(k);
      ghost var kids := arena[k].kids;
      child, i := key.child, 0;
      while child != null && i < index
        invariant i <= index && i <= |kids|
        invariant child == At(kids, i)
        decreases index - i
      {
        NextChild(k, i);
        child, i := child.sibling, i + 1;
      }
    }

    /** The two counting loops of `Hook_RegQueryInfoKeyW`. */
    method CountChildren(key: RegKey, ghost k: nat) returns (count: nat, longest: nat)
      requires TreeOk() && Has(arena, k) && k < |keys| && key == keys[k]
      ensures KidsLinked(arena, k, arena[k].kids)
      ensures count == |SubkeyNames(k)| && longest == MaxOf(Lengths(SubkeyNames(k)))
    {
      hide TreeOk, Linked, StoreOk, Wf, Forest;
      ChildFacts(k);
      ghost var kids, lengths := arena[k].kids, Lengths(SubkeyNames(k));
      count, longest := 0, 0;
      var child := key.child;
      while child != null
        invariant count <= |kids| && child == At(kids, count)
        invariant longest == MaxOf(lengths[..count])
        decreases |kids| - count
      {
        MaxOfStep(lengths, count);
        if |child.name| > longest { longest := |child.name|; }
        child, count := child.sibling, count + 1;
      }
      assert lengths[..count] == lengths;
    }

    method CountValues(key: RegKey) returns (count: nat, longestName: nat, largest: nat)
      requires key.ListOk()
      ensures count == |key.Vals()|
      ensures longestName == MaxOf(NameLengths(key.Vals())) && largest == MaxOf(DataLengths(key.Vals()))
    {
      hide MaxOf, NameLengths, DataLengths;
      ghost var names, datas := NameLengths(key.Vals()), DataLengths(key.Vals());
      NoLengths();
      count, longestName, largest := 0, 0, 0;
      var v := key.values;
      while v != null
        invariant count <= |key.chain| && v == key.Link(count)
        invariant longestName == MaxOf(names[..count]) && largest == MaxOf(datas[..count])
        decreases |key.chain| - count
      {
        LengthsAt(key.Vals(), count);
        MaxOfStep(names, count);
        MaxOfStep(datas, count);
        longestName, largest := Larger(longestName, |v.name|), Larger(largest, |v.data|);
        assert key.chain[count].next == key.Link(count + 1);
        v, count := v.next, count + 1;
      }
      assert names[..count] == names && datas[..count] == datas;
    }

    /** `Hook_RegQueryInfoKeyW`. */
    method QueryInfoHook(h: int) returns (answer: InfoAnswer)
      requires Valid() && Usable(View(), h)
      ensures h == FAKE_SERVICE_KEY ==> answer == ServiceKey(0, 0)
      ensures h != FAKE_SERVICE_KEY ==> (answer == NotOurs <==> HandleToKey(View(), h) == None)
      ensures HandleToKey(View(), h).Some? ==>
                var i := HandleToKey(View(), h).value;
                && Has(arena, i) && KidsLinked(arena, i, arena[i].kids)
                && answer == Reported(QueryInfo(SubkeyNames(i), arena[i].vals))
    {
      hide TreeOk, Linked, LinksOk, StoreOk, Wf, Forest, EqNoCase, MaxOf, Lengths, NameLengths, DataLengths;
      if h == FAKE_SERVICE_KEY { return ServiceKey(0, 0); }
      var key := HandleKey(h);
      if key == null { return NotOurs; }
      ghost var k := HandleToKey(View(), h).value;
      StoreFacts(k);
      var subKeys, maxSub := CountChildren(key, k);
      var values, maxName, maxData := CountValues(key);
      answer := Reported(Info(subKeys, maxSub + 1, values, maxName + 1, maxData));
    }

    /** The enumeration loop: the index-th value, or null. */
    method SkipValues(key: RegKey, index: nat) returns (v: RegValue?)
      requires key.ListOk()
      ensures v == null <==> index >= |key.Vals()|
      ensures v != null ==> Val(v.name, v.typ, v.data) == key.Vals()[index]
    {
      var i := 0;
      v := key.values;
      while v != null && i < index
        invariant i <= index && i <= |key.chain| && v == key.Link(i)
        decreases index - i
      {
        assert key.chain[i].next == key.Link(i + 1);
        v, i := v.next, i + 1;
      }
    }

    /** The part of the value hook that answers from the value it found. */
    method AnswerValue(v: RegValue, room: Option<nat>, buffer: array?<Byte>, dataRoom: nat) returns (item: ValueItem)
      requires buffer != null ==> dataRoom <= buffer.Length
      modifies buffer
      ensures item == ValueAnswer(Val(v.name, v.typ, v.data), room, if buffer == null then None else Some(dataRoom))
      ensures buffer != null ==>
                |item.data| <= buffer.Length && buffer[..] == item.data + old(buffer[..])[|item.data|..]
    {
      var name, cch := [], 0;
      if room.Some? {
        if room.value <= |v.name| { return ValueItem(ERROR_MORE_DATA, [], |v.name| + 1, None, None, []); }
        name, cch := v.name, |v.name|;
      }
      if buffer == null { return ValueItem(ERROR_SUCCESS, name, cch, Some(v.typ), Some(|v.data|), []); }
      if dataRoom < |v.data| { return ValueItem(ERROR_MORE_DATA, name, cch, Some(v.typ), Some(|v.data|), []); }
      CopyInto(buffer, 0, v.data);
      item := ValueItem(ERROR_SUCCESS, name, cch, Some(v.typ), Some(|v.data|), v.data);
    }

    /** `Hook_RegEnumValueW`; a null buffer is a null data pointer. */
    method EnumValueHook(h: int, index: nat, room: Option<nat>, buffer: array?<Byte>, dataRoom: nat)
        returns (item: Option<ValueItem>)
      requires Valid() && Usable(View(), h) && (buffer != null ==> dataRoom <= buffer.Length)
      modifies buffer
      ensures Valid() && View() == old(View())
      ensures h == FAKE_SERVICE_KEY ==> item == Some(ValueItem(ERROR_NO_MORE_ITEMS, [], Got(room), None, None, []))
      ensures h != FAKE_SERVICE_KEY ==> (item == None <==> HandleToKey(View(), h) == None)
      ensures HandleToKey(View(), h).Some? ==>
                item == Some(EnumValue(arena[HandleToKey(View(), h).value].vals, index, room,
                                       if buffer == null then None else Some(dataRoom)))
      ensures buffer != null ==>
                var data := if item.Some? then item.value.data else [];
                |data| <= buffer.Length && buffer[..] == data + old(buffer[..])[|data|..]
    {
      hide TreeOk, Linked, LinksOk, StoreOk, Wf, Forest, EqNoCase, ValueAnswer;
      if h == FAKE_SERVICE_KEY { return Some(ValueItem(ERROR_NO_MORE_ITEMS, [], Got(room), None, None, [])); }
      var key := HandleKey(h);
      if key == null { return None; }
      StoreFacts(HandleToKey(View(), h).value);
      var v := SkipValues(key, index);
      if v == null { return Some(ValueItem(ERROR_NO_MORE_ITEMS, [], Got(room), None, None, [])); }
      var answer := AnswerValue(v, room, buffer, dataRoom);
      item := Some(answer);
    }

    // ---------- The file ----------

    method WriteWideString(str: WStr)
      requires Fits32(|str| + 1)
      modifies this`output
      ensures output == old(output) + WideString(str)
    {
      output := output + Dword(|str| + 1);
      output := output + (Units(str) + [0, 0]);
      assert output == old(output) + WideString(str);
    }

    method CountList(key: RegKey) returns (count: nat)
      requires key.ListOk()
      ensures count == |key.chain|
    {
      var v := key.values;
      count := 0;
      while v != null
        invariant count <= |key.chain| && v == key.Link(count)
        decreases |key.chain| - count
      {
        assert key.chain[count].next == key.Link(count + 1);
        count, v := count + 1, v.next;
      }
    }

    method WriteValue(v: RegValue)
      requires ValFits(Val(v.name, v.typ, v.data))
      modifies this`output
      ensures output == old(output) + ValueImage(Val(v.name, v.typ, v.data))
    {
      hide ValueImage, WideString, Dword;
      WriteWideString(v.name);
      output := output + Dword(v.typ);
      output := output + Dword(|v.data|);
      output := output + v.data;
      ValueImageIs(Val(v.name, v.typ, v.data));
      assert output == old(output) + ValueImage(Val(v.name, v.typ, v.data));
    }

    /** The value half of `SaveKeyToFile`: count the list, then write it. */
    method SaveValues(key: RegKey)
      requires key.ListOk() && Fits32(|key.Vals()|) && forall j :: 0 <= j < |key.Vals()| ==> ValFits(key.Vals()[j])
      modifies this`output
      ensures output == old(output) + (Dword(|key.Vals()|) + ValuesImage(key.Vals()))
    {
      hide ValuesImage, ValFits, Dword, RegKey.Vals, RegKey.ListOk;
      var count := CountList(key);
      output := output + Dword(count);
      SaveCells(key);
    }

    method SaveCells(key: RegKey)
      requires key.ListOk() && forall j :: 0 <= j < |key.Vals()| ==> ValFits(key.Vals()[j])
      modifies this`output
      ensures output == old(output) + ValuesImage(key.Vals())
    {
      hide ValuesImage, ValueImage, ValFits, RegKey.Vals, RegKey.ListOk;
      ghost var vals, done := key.Vals(), [];
      NoValues();
      key.FirstCell();
      var v := key.values;
      ghost var j := 0;
      while v != null
        invariant j <= |key.chain| && v == key.Link(j)
        invariant done == ValuesImage(vals[..j]) && output == old(output) + done
        decreases |key.chain| - j
      {
        key.CellAt(j);
        WriteValue(v);
        ValuesImageStep(vals, j);
        done := done + ValueImage(vals[j]);
        j, v := j + 1, v.next;
      }
      assert vals[..j] == vals;
    }

    method CountSubkeys(key: RegKey, ghost i: nat) returns (count: nat)
      requires Linked() && Has(arena, i) && i < |keys| && key == keys[i]
      ensures count == |arena[i].kids|
    {
      hide TreeOk, Linked, StoreOk, Wf, Forest, LinksOk;
      ChildFacts(i);
      FirstChild(i);
      ghost var kids := arena[i].kids;
      var child := key.child;
      count := 0;
      while child != null
        invariant count <= |kids| && child == At(kids, count)
        decreases |kids| - count
      {
        NextChild(i, count);
        count, child := count + 1, child.sibling;
      }
    }

    /** `SaveKeyToFile`: the key, its values, and its subkeys in sibling order. */
    method SaveKeyToFile(key: RegKey, ghost i: nat)
      requires Linked() && Forest(arena) && Has(arena, i) && i < |keys| && key == keys[i] && KeyFits(TreeOf(arena, i))
      modifies this`output
      ensures Linked() && output == old(output) + KeyImage(TreeOf(arena, i))
      decreases |arena| - i, 1
    {
      hide Linked, LinksOk, StoreOk, KeyImage, KeysImage, ValuesImage, WideString, Dword, KeyFits, ValFits, TreeOf,
          Forest;
      ghost var tree := TreeOf(arena, i);
      StoreFacts(i);
      NameFacts(i);
      TreeFits(arena, i);
      WriteWideString(key.name);
      SaveValues(key);
      var count := CountSubkeys(key, i);
      output := output + Dword(count);
      SaveSubkeys(key, i);
      KeyImageIs(tree);
      assert output == old(output) + KeyImage(tree);
    }

    method SaveSubkeys(key: RegKey, ghost i: nat)
      requires Linked() && Forest(arena) && Has(arena, i) && i < |keys| && key == keys[i] && KeyFits(TreeOf(arena, i))
      modifies this`output
      ensures Linked() && output == old(output) + KeysImage(TreeOf(arena, i).kids)
      decreases |arena| - i, 0
    {
      hide Linked, LinksOk, StoreOk, KeyImage, KeysImage, KeyFits, TreeOf, Forest;
      ghost var trees, kids := TreeOf(arena, i).kids, arena[i].kids;
      ChildFacts(i);
      FirstChild(i);
      KidsFit(arena, i);
      NoKeys();
      var child := key.child;
      ghost var j := 0;
      while child != null
        invariant j <= |kids| && child == At(kids, j) && Linked()
        invariant output == old(output) + KeysImage(trees[..j])
        decreases |kids| - j
      {
        SaveKeyToFile(child, kids[j]);
        KeysImageStep(trees, j);
        NextChild(i, j);
        j, child := j + 1, child.sibling;
      }
      assert trees[..j] == trees;
    }

    lemma NameFacts(i: nat)
      requires Linked() && Has(arena, i)
      ensures i < |keys| && keys[i].name == arena[i].name
    {
    }

    lemma FirstChild(i: nat)
      requires Linked() && Has(arena, i) && i < |keys| && forall l :: 0 <= l < |arena[i].kids| ==>
          arena[i].kids[l] < |keys|
      ensures keys[i].child == At(arena[i].kids, 0)
    {
    }

    lemma NextChild(i: nat, j: nat)
      requires Linked() && Has(arena, i) && j < |arena[i].kids|
      requires forall l :: 0 <= l < |arena[i].kids| ==> arena[i].kids[l] < |keys|
      ensures keys[arena[i].kids[j]].sibling == At(arena[i].kids, j + 1)
    {
    }

    /** What `SaveRegistryToFile` puts in the temporary file. */
    method SaveTree()
      requires Linked() && Forest(arena) && KeyFits(TreeOf(arena, 0))
      modifies this`output
      ensures Linked() && output == FileImage(TreeOf(arena, 0))
    {
      hide LinksOk, StoreOk, EqNoCase;
      output := REGFILE_MAGIC;
      SaveKeyToFile(root, 0);
    }

    method ReadDwordFromFile() returns (n: U32)
      requires ReadDword(input).Some?
      modifies this`input
      ensures ReadDword(old(input)) == Some((n, input))
    {
      var r := ReadDword(input).value;
      n, input := r.0, r.1;
    }

    method ReadNameFromFile() returns (name: Option<WStr>)
      requires ReadWideString(input).Some?
      modifies this`input
      ensures ReadWideString(old(input)) == Some((name, input))
    {
      var r := ReadWideString(input).value;
      name, input := r.0, r.1;
    }

    /** The loader's value loop, on a key that has no subkeys yet. */
    method LoadValues(key: RegKey, count: nat, ghost n: nat, ghost vals: seq<Val>, ghost rest: Bytes)
      requires Linked() && Has(arena, n) && n < |keys| && key == keys[n]
      requires ReadValues(count, input, arena[n].vals) == Some((vals, rest))
      modifies this`input, this`arena, this`cells, key`values, key`chain, cells
      ensures Linked() && Forest(arena) && Has(arena, n) && (old(Wf(arena)) ==> Wf(arena))
      ensures n < |old(arena)| && arena == WithVals(old(arena), n, vals) && input == rest
      ensures forall v :: v in cells ==> v in old(cells) || fresh(v)
    {
      hide Linked, Wf, Forest, ReadValue, SetVal;
      var i := 0;
      assert arena == WithVals(arena, n, arena[n].vals);
      while i < count
        invariant i <= count && Linked() && (old(Wf(arena)) ==> Wf(arena)) && n < |arena| && Has(arena, n)
            && n < |keys| && key == keys[n]
        invariant |arena| == |old(arena)| && arena == WithVals(old(arena), n, arena[n].vals)
        invariant ReadValues(count - i, input, arena[n].vals) == Some((vals, rest))
        invariant forall v :: v in cells ==> v in old(cells) || fresh(v)
      {
        ReadValuesUnfold(count - i, input, arena[n].vals);
        var v := ReadValue(input).value;
        input := v.1;
        StoreValue(key, v.0.name, v.0.typ, v.0.data, n);
        i := i + 1;
      }
      LinkedBasics();
    }

    /** `LoadKeyFromFile`: read one key below `parent`, or nothing if its name is NULL. */
    method LoadKeyFromFile(parent: RegKey, ghost p: nat, ghost t: Option<Key>, ghost rest: Bytes)
      requires Linked() && Forest(arena) && Has(arena, p) && p < |keys| && parent == keys[p]
      requires ReadKey(input) == Some((t, rest))
      modifies this`input, this`keys, this`arena, this`cells, keys`child, keys`values, keys`chain, cells
      ensures Linked() && Forest(arena) && input == rest && Grown() && CellsGrown()
      ensures old(Wf(arena)) && (t.Some? ==> Loadable(t.value) && NewName(old(arena), p, t.value.name)) ==> Wf(arena)
      ensures p < |old(arena)| && Attached(old(arena), arena, p, t)
      decreases |input|, 0
    {
      hide Linked, Wf, Forest, NewName, Loadable, ReadKey, ReadBody, ReadKeys, ReadValues, ReadWideString, Kid,
          EqNoCase, TreeOf;
      ReadKeyUnfold(input);
      var name := ReadNameFromFile();
      if name == None { return; }
      NamedBody(name.value, input);
      LoadBody(parent, name.value, p, t.value, rest);
    }

    /** Create the key and read its values and subkeys. */
    method LoadBody(parent: RegKey, name: WStr, ghost p: nat, ghost t: Key, ghost rest: Bytes)
      requires Linked() && Forest(arena) && Has(arena, p) && p < |keys| && parent == keys[p]
      requires ReadBody(name, input) == Some((t, rest))
      requires name == t.name
      modifies this`input, this`keys, this`arena, this`cells, keys`child, keys`values, keys`chain, cells
      ensures Linked() && Forest(arena) && input == rest && Grown() && CellsGrown()
      ensures old(Wf(arena)) && Loadable(t) && NewName(old(arena), p, name) ==> Wf(arena)
      ensures p < |old(arena)| && Attached(old(arena), arena, p, Some(t))
      decreases |input|, 2
    {
      hide Linked, Wf, Forest, ReadBody, ReadKeys, ReadValues, Kid, EqNoCase, TreeOf;
      ReadBodyUnfold(name, input);
      var key := CreateChild(parent, name, p);
      ghost var n := |arena| - 1;
      FreshKey(n);
      var nv := ReadDwordFromFile();
      LoadValues(key, nv, n, t.vals, ReadValues(nv, input, []).value.1);
      var nk := ReadDwordFromFile();
      LoadSubkeys(key, nk, n, t.kids, rest);
    }

    /** The loader's subkey loop: each key read becomes the first subkey. */
    method LoadSubkeys(parent: RegKey, count: nat, ghost p: nat, ghost result: seq<Key>, ghost rest: Bytes)
      requires Linked() && Forest(arena) && Has(arena, p) && p < |keys| && parent == keys[p]
      requires ReadKeys(count, input, TreeOf(arena, p).kids) == Some((result, rest))
      modifies this`input, this`keys, this`arena, this`cells, keys`child, keys`values, keys`chain, cells
      ensures Linked() && Forest(arena) && input == rest && Grown() && CellsGrown()
      ensures old(Wf(arena)) && LoadableAll(result) ==> Wf(arena)
      ensures p < |old(arena)| <= |arena| && Has(arena, p) && TreeOf(arena, p).kids == result
      ensures OnlyKidsOf(old(arena), arena, p)
      decreases |input|, 1
    {
      hide Linked, Wf, Forest, NewName, LoadableAll, ReadKey, ReadKeys, EqNoCase, TreeOf, Kid, Loadable;
      var i := 0;
      while i < count
        invariant i <= count && Linked() && Forest(arena) && (old(Wf(arena)) && LoadableAll(result) ==> Wf(arena))
            && Has(arena, p) && p < |keys| && parent == keys[p]
        invariant Grown() && CellsGrown() && p < |old(arena)| && OnlyKidsOf(old(arena), arena, p)
        invariant |input| <= |old(input)|
        invariant ReadKeys(count - i, input, TreeOf(arena, p).kids) == Some((result, rest))
      {
        ReadKeysUnfold(count - i, input, TreeOf(arena, p).kids);
        ghost var r := ReadKey(input).value;
        if LoadableAll(result) { NextLoadable(arena, p, count - i, input, result, rest); }
        ghost var was := arena;
        LoadKeyFromFile(parent, p, r.0, r.1);
        AttachedKids(was, arena, p, r.0);
        OnlyKidsTwice(old(arena), was, arena, p);
        i := i + 1;
      }
      ReadKeysDone(input, TreeOf(arena, p).kids);
    }

    /** `LoadRegistryFromFile` on an opened file, into a registry that has only its root. */
    method LoadTree(file: Bytes, ghost kids: seq<Key>) returns (ok: bool)
      requires TreeOk() && |arena| == |keys| == 1 && Has(arena, 0) && arena[0].kids == [] && root == keys[0]
      requires LoadFile(file) == Some(kids)
      modifies this`input, this`keys, this`arena, this`cells, keys`child, keys`values, keys`chain, cells
      ensures Linked() && Forest(arena) && Grown() && TreeOf(arena, 0).kids == kids
      ensures LoadableAll(kids) ==> TreeOk()
      ensures ok <==> file[..4] == REGFILE_MAGIC
      ensures OnlyKidsOf(old(arena), arena, 0)
    {
      hide Linked, Wf, Forest, ReadBody, ReadKeys, ReadValues, Kid, EqNoCase, TreeOf, Loadable;
      LoadFileHeader(file);
      FreshKey(0);
      assert arena[..|arena|] == arena[0 := arena[0].(kids := arena[0].kids)];
      if file[..4] != REGFILE_MAGIC { return false; }
      ok, input := true, file[4..];
      var name := ReadNameFromFile();
      if name == None { return; }
      if name.value != [] {
        LoadFileNamed(file, name.value, input);
        ghost var r := ReadBody(name.value, input).value;
        assert kids[0] == r.0;
        NamedBody(name.value, input);
        LoadBody(root, name.value, 0, r.0, r.1);
        AttachedKids(old(arena), arena, 0, Some(r.0));
        assert [r.0] + [] == [r.0];
      } else {
        LoadFileRoot(file, input);
        var dummy := ReadDwordFromFile();
        var subCount := ReadDwordFromFile();
        LoadSubkeys(root, subCount, 0, kids, ReadKeys(subCount, input, []).value.1);
      }
    }

    lemma FreshKey(n: nat)
      requires Linked() && n < |arena| && Has(arena, n) && arena[n].kids == []
      ensures Forest(arena) && n < |keys| && TreeOf(arena, n).kids == []
    {
    }

    twostate predicate CellsGrown()
      reads this`cells
    {
      forall v :: v in cells ==> v in old(cells) || fresh(v)
    }
  }

  /** Nothing but the subkeys of p changed in the old part of the arena. */
  ghost predicate OnlyKidsOf(a: Arena, b: Arena, p: nat) {
    p < |a| <= |b| && b[..|a|] == a[p := a[p].(kids := b[p].kids)]
  }

  lemma OnlyKidsTwice(a: Arena, b: Arena, c: Arena, p: nat)
    requires OnlyKidsOf(a, b, p) && OnlyKidsOf(b, c, p)
    ensures OnlyKidsOf(a, c, p)
  {
    assert c[..|a|] == c[..|b|][..|a|];
    assert b[p] == b[..|a|][p];
  }

  /** No subkey of p has this name, which is one a path can have. */
  ghost predicate NewName(a: Arena, p: nat, name: WStr)
    requires Forest(a) && Has(a, p)
  {
    name != [] && forall j :: 0 <= j < |a[p].kids| ==> !EqNoCase(a[a[p].kids[j]].name, name)
  }

  /** b is a with the tree t, if any, attached as the first subkey of p. */
  ghost predicate Attached(a: Arena, b: Arena, p: nat, t: Option<Key>)
    requires Forest(b)
  {
    if t.None? then a == b
    else
      && p < |a| < |b| && b[..|a|] == a[p := a[p].(kids := [|a|] + a[p].kids)]
      && Has(b, |a|) && TreeOf(b, |a|) == t.value
  }

  lemma {:induction false} ReadValuesUnfold(n: nat, bs: Bytes, acc: seq<Val>)
    requires n > 0 && ReadValues(n, bs, acc).Some?
    ensures ReadValue(bs).Some?
    ensures var r := ReadValue(bs).value;
            ReadValues(n, bs, acc) == ReadValues(n - 1, r.1, SetVal(acc, r.0.name, r.0.typ, r.0.data))
  {
  }

  lemma {:induction false} ReadKeyUnfold(bs: Bytes)
    requires ReadKey(bs).Some?
    ensures ReadWideString(bs).Some?
    ensures var w := ReadWideString(bs).value;
            if w.0.None? then ReadKey(bs).value == (None, w.1)
            else ReadBody(w.0.value, w.1).Some?
                 && ReadKey(bs).value == (Some(ReadBody(w.0.value, w.1).value.0), ReadBody(w.0.value, w.1).value.1)
  {
  }

  lemma {:induction false} ReadBodyUnfold(name: WStr, bs: Bytes)
    requires ReadBody(name, bs).Some?
    ensures ReadDword(bs).Some? && |ReadDword(bs).value.1| < |bs|
    ensures var d := ReadDword(bs).value;
            ReadValues(d.0, d.1, []).Some? && ReadDword(ReadValues(d.0, d.1, []).value.1).Some? &&
            var v := ReadValues(d.0, d.1, []).value;
            var e := ReadDword(v.1).value;
            |v.1| <= |d.1| && |e.1| < |v.1| && ReadKeys(e.0, e.1, []).Some? &&
            var k := ReadKeys(e.0, e.1, []).value;
            ReadBody(name, bs).value == (Key(name, v.0, k.0), k.1)
  {
  }

  lemma {:induction false} ReadKeysUnfold(n: nat, bs: Bytes, acc: seq<Key>)
    requires n > 0 && ReadKeys(n, bs, acc).Some?
    ensures ReadKey(bs).Some? && |ReadKey(bs).value.1| <= |bs|
    ensures var r := ReadKey(bs).value;
            ReadKeys(n, bs, acc) == ReadKeys(n - 1, r.1, if r.0.None? then acc else [r.0.value] + acc)
  {
  }

  lemma {:induction false} LoadFileHeader(file: Bytes)
    requires LoadFile(file).Some?
    ensures |file| >= 4
    ensures file[..4] != REGFILE_MAGIC ==> LoadFile(file).value == []
    ensures file[..4] == REGFILE_MAGIC ==> ReadWideString(file[4..]).Some?
    ensures file[..4] == REGFILE_MAGIC && ReadWideString(file[4..]).value.0 == None ==> LoadFile(file).value == []
  {
    hide ReadWideString, ReadBody, ReadKeys;
  }

  lemma {:induction false} LoadFileNamed(file: Bytes, name: WStr, b1: Bytes)
    requires LoadFile(file).Some? && |file| >= 4 && file[..4] == REGFILE_MAGIC
    requires ReadWideString(file[4..]) == Some((Some(name), b1)) && name != []
    ensures ReadBody(name, b1).Some? && LoadFile(file).value == [ReadBody(name, b1).value.0]
  {
    hide ReadWideString, ReadBody, ReadKeys;
  }

  lemma {:induction false} LoadFileRoot(file: Bytes, b1: Bytes)
    requires LoadFile(file).Some? && |file| >= 4 && file[..4] == REGFILE_MAGIC
    requires ReadWideString(file[4..]) == Some((Some([]), b1))
    ensures ReadDword(b1).Some? && ReadDword(ReadDword(b1).value.1).Some?
    ensures var d := ReadDword(ReadDword(b1).value.1).value;
            ReadKeys(d.0, d.1, []).Some? && LoadFile(file).value == ReadKeys(d.0, d.1, []).value.0
  {
    hide ReadWideString, ReadBody, ReadKeys;
  }

  lemma {:induction false} NamedBody(name: WStr, bs: Bytes)
    requires ReadBody(name, bs).Some?
    ensures ReadBody(name, bs).value.0.name == name
  {
    ReadBodyUnfold(name, bs);
  }

  lemma ReadKeysDone(bs: Bytes, acc: seq<Key>)
    ensures ReadKeys(0, bs, acc) == Some((acc, bs))
  {
  }

  /** The next key read is one of the result, so it is loadable and new among its siblings. */
  lemma {:induction false} NextLoadable(a: Arena, p: nat, n: nat, bs: Bytes, result: seq<Key>, rest: Bytes)
    requires Forest(a) && Has(a, p) && n > 0 && LoadableAll(result)
    requires ReadKeys(n, bs, TreeOf(a, p).kids) == Some((result, rest)) && ReadKey(bs).Some?
    ensures ReadKey(bs).value.0.Some? ==>
              Loadable(ReadKey(bs).value.0.value) && NewName(a, p, ReadKey(bs).value.0.value.name)
  {
    hide ReadKey, ReadKeys;
    ReadKeysUnfold(n, bs, TreeOf(a, p).kids);
    if ReadKey(bs).value.0.Some? {
      var k, acc := ReadKey(bs).value.0.value, TreeOf(a, p).kids;
      ReadKeysSuffix(n - 1, ReadKey(bs).value.1, [k] + acc);
      var m := |result| - |acc| - 1;
      assert result[m] == result[m..][0] == k;
      forall j | 0 <= j < |a[p].kids| ensures !EqNoCase(a[a[p].kids[j]].name, k.name) {
        assert result[m + 1 + j] == result[m..][1 + j] == acc[j];
        assert acc[j].name == a[a[p].kids[j]].name;
      }
    }
  }

  /** Attaching a key leaves the trees of its new siblings as they were. */
  lemma {:induction false} AttachedKids(a: Arena, b: Arena, p: nat, t: Option<Key>)
    requires Forest(a) && Has(a, p) && Forest(b) && p < |a| && Attached(a, b, p, t)
    ensures Has(b, p) && TreeOf(b, p).kids == (if t.None? then [] else [t.value]) + TreeOf(a, p).kids
    ensures OnlyKidsOf(a, b, p)
  {
    hide Forest, EqNoCase, TreeOf;
    if t.Some? {
      assert b[p] == b[..|a|][p];
      KidTree(b, p, 0);
      KidCount(a, p);
      KidCount(b, p);
      var was, now := TreeOf(a, p).kids, TreeOf(b, p).kids;
      forall j | 0 <= j < |was| ensures now[j + 1] == was[j] { KidStays(a, b, p, t, j); }
      assert now == [t.value] + was;
    } else {
      assert [] + TreeOf(a, p).kids == TreeOf(a, p).kids;
      assert b[..|a|] == a;
    }
  }

  lemma {:induction false} KidStays(a: Arena, b: Arena, p: nat, t: Option<Key>, j: nat)
    requires Forest(a) && Has(a, p) && Forest(b) && p < |a| && t.Some? && Attached(a, b, p, t) && j < |a[p].kids|
    ensures Has(b, p) && |TreeOf(b, p).kids| == |a[p].kids| + 1 && TreeOf(b, p).kids[j + 1] == TreeOf(a, p).kids[j]
  {
    hide Forest;
    assert b[p] == b[..|a|][p];
    var k := a[p].kids[j];
    assert b[p].kids[j + 1] == k;
    KidAfter(a, p, j);
    assert b[k..|a|] == b[..|a|][k..] == a[k..];
    TreeFrame(a, b, k);
    KidTree(a, p, j);
    KidTree(b, p, j + 1);
  }

  lemma KidCount(a: Arena, p: nat)
    requires Forest(a) && Has(a, p)
    ensures |TreeOf(a, p).kids| == |a[p].kids|
  {
  }

  lemma KidTree(a: Arena, p: nat, j: nat)
    requires Forest(a) && Has(a, p) && j < |a[p].kids|
    ensures Has(a, a[p].kids[j]) && TreeOf(a, p).kids[j] == TreeOf(a, a[p].kids[j])
  {
    assert KidsLinked(a, p, a[p].kids);
  }

  lemma KidAfter(a: Arena, p: nat, j: nat)
    requires Forest(a) && Has(a, p) && j < |a[p].kids|
    ensures p < a[p].kids[j] && Has(a, a[p].kids[j])
  {
  }

  lemma TreeFits(a: Arena, i: nat)
    requires Forest(a) && Has(a, i) && KeyFits(TreeOf(a, i))
    ensures TreeOf(a, i).name == a[i].name && TreeOf(a, i).vals == a[i].vals && |TreeOf(a, i).kids| == |a[i].kids|
    ensures Fits32(|a[i].name| + 1) && Fits32(|a[i].vals|) && Fits32(|a[i].kids|)
    ensures forall j :: 0 <= j < |a[i].vals| ==> ValFits(a[i].vals[j])
  {
  }

  lemma KidsFit(a: Arena, i: nat)
    requires Forest(a) && Has(a, i) && KeyFits(TreeOf(a, i))
    ensures |TreeOf(a, i).kids| == |a[i].kids|
    ensures forall j :: 0 <= j < |a[i].kids| ==> i < a[i].kids[j] && Has(a, a[i].kids[j])
    ensures forall j :: 0 <= j < |a[i].kids| ==> TreeOf(a, i).kids[j] == TreeOf(a, a[i].kids[j])
    ensures forall j :: 0 <= j < |a[i].kids| ==> KeyFits(TreeOf(a, i).kids[j])
  {
    assert KidsLinked(a, i, a[i].kids);
  }

  lemma SamePaths(r: Reg, r': Reg, h: int, sub: WStr)
    requires r'.paths == r.paths && |r.table| == |r.paths| == |r'.table|
    ensures BuildFullPath(r', h, sub) == BuildFullPath(r, h, sub)
  {
  }

  lemma NoValues()
    ensures ValuesImage([]) == []
  {
  }

  lemma NoKeys()
    ensures KeysImage([]) == []
  {
  }

  lemma ValueImageIs(v: Val)
    requires ValFits(v)
    ensures ValueImage(v) == WideString(v.name) + Dword(v.typ) + Dword(|v.data|) + v.data
  {
  }

  lemma KeyImageIs(k: Key)
    requires KeyFits(k)
    ensures KeyImage(k) == WideString(k.name) + (Dword(|k.vals|) + ValuesImage(k.vals)) + Dword(|k.kids|)
        + KeysImage(k.kids)
  {
    var a, b, c := WideString(k.name), Dword(|k.vals|), ValuesImage(k.vals);
    assert a + b + c == a + (b + c);
  }

  lemma {:induction false} CacheFrom(cache: seq<Cached>, path: WStr, j: nat)
    requires j <= |cache|
    ensures cache[0..] == cache
    ensures j == |cache| ==> CacheIndex(cache[j..], path) == 0
    ensures j < |cache| && EqNoCase(cache[j].path, path) ==> CacheIndex(cache[j..], path) == 0
    ensures j < |cache| && !EqNoCase(cache[j].path, path) ==>
              CacheIndex(cache[j..], path) == 1 + CacheIndex(cache[j + 1..], path)
  {
    if j < |cache| { assert cache[j..][1..] == cache[j + 1..]; }
  }
}
