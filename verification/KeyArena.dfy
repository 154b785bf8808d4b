/** The key tree as a value: every key ever allocated has an index in creation order, and a key holds the
    indices of its subkeys in sibling-list order (newest first). Index 0 is the root. */
module KeyArena {
  import opened Basics
  import opened WideStrings

  datatype Val = Val(name: WStr, typ: U32, data: seq<Byte>)

  /** `alive` is false once the key's memory has been given back. */
  datatype Node = Node(alive: bool, parent: int, name: WStr, kids: seq<nat>, vals: seq<Val>)

  type Arena = seq<Node>

  predicate Has(a: Arena, i: int) {
    0 <= i < |a| && a[i].alive
  }

  predicate KidsLinked(a: Arena, i: nat, kids: seq<nat>) {
    forall j :: 0 <= j < |kids| ==> i < kids[j] && Has(a, kids[j]) && a[kids[j]].parent == i
  }

  predicate KidsNamed(a: Arena, kids: seq<nat>)
    requires forall j :: 0 <= j < |kids| ==> kids[j] < |a|
  {
    && (forall j :: 0 <= j < |kids| ==> a[kids[j]].name != [])
    && (forall j, l :: 0 <= j < l < |kids| ==> !EqNoCase(a[kids[j]].name, a[kids[l]].name))
  }

  predicate KidsOk(a: Arena, i: nat, kids: seq<nat>) {
    KidsLinked(a, i, kids) && KidsNamed(a, kids)
  }

  /** A finite forest: subkeys are younger than their key and know it. */
  ghost predicate Forest(a: Arena) {
    Has(a, 0) && forall i :: Has(a, i) ==> KidsLinked(a, i, a[i].kids)
  }

  /** A forest whose sibling names are non-empty and differ without regard to case. */
  ghost predicate Wf(a: Arena)
    ensures Wf(a) ==> Forest(a)
  {
    Has(a, 0) && forall i :: Has(a, i) ==> KidsOk(a, i, a[i].kids)
  }

  /** The sibling-list search every hook repeats: the first subkey whose name compares equal. */
  function FindIn(a: Arena, kids: seq<nat>, name: WStr): (r: Option<nat>)
    requires forall j :: 0 <= j < |kids| ==> kids[j] < |a|
    ensures r.Some? ==> r.value in kids && EqNoCase(a[r.value].name, name)
    ensures r.None? ==> forall k :: k in kids ==> !EqNoCase(a[k].name, name)
  {
    if kids == [] then None
    else if EqNoCase(a[kids[0]].name, name) then Some(kids[0])
    else FindIn(a, kids[1..], name)
  }

  ghost function Kid(a: Arena, i: nat, name: WStr): (r: Option<nat>)
    requires Wf(a) && Has(a, i)
    ensures r.Some? ==> i < r.value && Has(a, r.value) && r.value in a[i].kids && EqNoCase(a[r.value].name, name)
    ensures r.Some? ==> a[r.value].parent == i
    ensures r.None? ==> forall k :: k in a[i].kids ==> !EqNoCase(a[k].name, name)
  {
    FindIn(a, a[i].kids, name)
  }

  /** `NavigatePath` without creation. */
  ghost function Walk(a: Arena, i: nat, ts: seq<WStr>): (r: Option<nat>)
    requires Wf(a) && Has(a, i)
    ensures r.Some? ==> Has(a, r.value) && i <= r.value && (ts != [] ==> i < r.value)
    decreases |ts|
  {
    if ts == [] then Some(i)
    else
      match Kid(a, i, ts[0])
      case None => None
      case Some(k) => Walk(a, k, ts[1..])
  }

  /** `CreateKey`: a new first subkey. */
  function AddKey(a: Arena, p: nat, name: WStr): Arena
    requires p < |a|
  {
    a[p := a[p].(kids := [|a|] + a[p].kids)] + [Node(true, p, name, [], [])]
  }

  predicate AllNonEmpty(ts: seq<WStr>) {
    forall j :: 0 <= j < |ts| ==> ts[j] != []
  }

  /** `NavigatePath` with creation: the grown arena and the key reached. */
  ghost function Grow(a: Arena, i: nat, ts: seq<WStr>): (r: (Arena, nat))
    requires Wf(a) && Has(a, i) && AllNonEmpty(ts)
    ensures Wf(r.0) && Has(r.0, r.1)
    decreases |ts|
  {
    if ts == [] then (a, i)
    else
      match Kid(a, i, ts[0])
      case Some(k) => Grow(a, k, ts[1..])
      case None =>
        AddKeyWf(a, i, ts[0]);
        Grow(AddKey(a, i, ts[0]), |a|, ts[1..])
  }

  /** Sibling names are compared in the same way in any arena that kept them. */
  lemma NamesKept(a: Arena, b: Arena, kids: seq<nat>)
    requires forall j :: 0 <= j < |kids| ==> kids[j] < |a| && kids[j] < |b| && b[kids[j]].name == a[kids[j]].name
    requires KidsNamed(a, kids)
    ensures KidsNamed(b, kids)
  {
  }

  lemma NamesPrepended(b: Arena, n: nat, kids: seq<nat>)
    requires n < |b| && forall j :: 0 <= j < |kids| ==> kids[j] < |b|
    requires KidsNamed(b, kids) && b[n].name != []
    requires forall j :: 0 <= j < |kids| ==> !EqNoCase(b[kids[j]].name, b[n].name)
    ensures forall j :: 0 <= j < |[n] + kids| ==> ([n] + kids)[j] < |b|
    ensures KidsNamed(b, [n] + kids)
  {
    var ks := [n] + kids;
    forall j, l | 0 <= j < l < |ks| ensures !EqNoCase(b[ks[j]].name, b[ks[l]].name) {
      assert ks[l] == kids[l - 1];
      if j > 0 { assert ks[j] == kids[j - 1]; }
    }
  }

  lemma NamesWithout(b: Arena, kids: seq<nat>, j: nat, rest: seq<nat>)
    requires j < |kids| && forall l :: 0 <= l < |kids| ==> kids[l] < |b|
    requires KidsNamed(b, kids) && rest == kids[..j] + kids[j + 1..]
    ensures forall l :: 0 <= l < |rest| ==> rest[l] < |b| && rest[l] == kids[if l < j then l else l + 1]
    ensures KidsNamed(b, rest)
  {
  }

  /** Whatever the name of the new key. */
  lemma AddKeyForest(a: Arena, p: nat, name: WStr)
    requires Forest(a) && Has(a, p)
    ensures Forest(AddKey(a, p, name)) && Has(AddKey(a, p, name), |a|)
  {
    var b := AddKey(a, p, name);
    forall i | Has(b, i) ensures KidsLinked(b, i, b[i].kids) {
      if i < |a| { assert KidsLinked(a, i, a[i].kids); }
    }
  }

  lemma AddKeyWf(a: Arena, p: nat, name: WStr)
    requires Wf(a) && Has(a, p) && name != [] && Kid(a, p, name) == None
    ensures Wf(AddKey(a, p, name)) && Has(AddKey(a, p, name), |a|)
  {
    var b := AddKey(a, p, name);
    forall i | Has(b, i) ensures KidsOk(b, i, b[i].kids) {
      if i < |a| {
        assert KidsOk(a, i, a[i].kids);
        assert KidsLinked(b, i, a[i].kids);
        NamesKept(a, b, a[i].kids);
        if i == p {
          NamesPrepended(b, |a|, a[i].kids);
        }
      }
    }
  }

  /** At most one subkey compares equal to a name, so the first found is the only one. */
  lemma KidIs(a: Arena, i: nat, name: WStr, k: nat)
    requires Wf(a) && Has(a, i) && k in a[i].kids && EqNoCase(a[k].name, name)
    ensures Kid(a, i, name) == Some(k)
  {
    assert KidsOk(a, i, a[i].kids);
    var j :| 0 <= j < |a[i].kids| && a[i].kids[j] == k;
    var r := Kid(a, i, name).value;
    var l :| 0 <= l < |a[i].kids| && a[i].kids[l] == r;
  }

  lemma {:induction false} WalkJoin(a: Arena, i: nat, ts: seq<WStr>, us: seq<WStr>)
    requires Wf(a) && Has(a, i)
    ensures Walk(a, i, ts + us)
         == if Walk(a, i, ts).None? then None else Walk(a, Walk(a, i, ts).value, us)
    decreases |ts|
  {
    if ts == [] {
      assert ts + us == us;
    } else {
      assert (ts + us)[1..] == ts[1..] + us && (ts + us)[0] == ts[0];
      if Kid(a, i, ts[0]).Some? { WalkJoin(a, Kid(a, i, ts[0]).value, ts[1..], us); }
    }
  }

  lemma WalkSnoc(a: Arena, i: nat, us: seq<WStr>, t: WStr)
    requires Wf(a) && Has(a, i)
    ensures Walk(a, i, us + [t]) == if Walk(a, i, us).None? then None else Kid(a, Walk(a, i, us).value, t)
  {
    WalkJoin(a, i, us, [t]);
    if Walk(a, i, us).Some? {
      var k := Walk(a, i, us).value;
      var one := [t];
      assert one[1..] == [];
      assert Kid(a, k, one[0]).Some? ==> Walk(a, Kid(a, k, one[0]).value, []) == Kid(a, k, t);
    }
  }

  lemma {:induction false} WalkLast(a: Arena, i: nat, ts: seq<WStr>)
    requires Wf(a) && Has(a, i) && ts != [] && Walk(a, i, ts).Some?
    ensures var q := Walk(a, i, ts[..|ts| - 1]);
            q.Some? && Kid(a, q.value, ts[|ts| - 1]) == Walk(a, i, ts)
  {
    assert ts == ts[..|ts| - 1] + [ts[|ts| - 1]];
    WalkSnoc(a, i, ts[..|ts| - 1], ts[|ts| - 1]);
  }

  /** A path means the same whatever the case of its letters. */
  lemma {:induction false} WalkNoCase(a: Arena, i: nat, ts: seq<WStr>, us: seq<WStr>)
    requires Wf(a) && Has(a, i) && FoldAll(ts) == FoldAll(us)
    ensures Walk(a, i, ts) == Walk(a, i, us)
    decreases |ts|
  {
    assert |ts| == |FoldAll(ts)| == |us|;
    if ts != [] {
      assert FoldAll(ts)[0] == Fold(ts[0]) && FoldAll(us)[0] == Fold(us[0]);
      assert FoldAll(ts[1..]) == FoldAll(ts)[1..] && FoldAll(us[1..]) == FoldAll(us)[1..];
      match Kid(a, i, ts[0])
      case None =>
      case Some(k) =>
        KidIs(a, i, us[0], k);
        WalkNoCase(a, k, ts[1..], us[1..]);
    }
  }

  /** A key has one path, up to case. */
  lemma {:induction false} UniquePath(a: Arena, i: nat, ts: seq<WStr>, us: seq<WStr>)
    requires Wf(a) && Has(a, i) && Walk(a, i, ts).Some? && Walk(a, i, ts) == Walk(a, i, us)
    ensures FoldAll(ts) == FoldAll(us)
    decreases |ts|
  {
    hide Wf, Forest, Kid, EqNoCase, FoldAll;
    if ts != [] && us != [] {
      WalkLast(a, i, ts);
      WalkLast(a, i, us);
      UniquePath(a, i, ts[..|ts| - 1], us[..|us| - 1]);
      BothNamed(a[Walk(a, i, ts).value].name, ts[|ts| - 1], us[|us| - 1]);
      SameSnoc(ts, us);
    }
  }

  lemma BothNamed(name: WStr, s: WStr, t: WStr)
    requires EqNoCase(name, s) && EqNoCase(name, t)
    ensures EqNoCase(s, t)
  {
  }

  lemma {:induction false} SameSnoc(ts: seq<WStr>, us: seq<WStr>)
    requires ts != [] && us != [] && EqNoCase(ts[|ts| - 1], us[|us| - 1])
    requires FoldAll(ts[..|ts| - 1]) == FoldAll(us[..|us| - 1])
    ensures FoldAll(ts) == FoldAll(us)
  {
    hide EqNoCase;
    assert ts == ts[..|ts| - 1] + [ts[|ts| - 1]] && us == us[..|us| - 1] + [us[|us| - 1]];
    FoldAllSnoc(ts[..|ts| - 1], ts[|ts| - 1], us[..|us| - 1], us[|us| - 1]);
  }

  lemma FoldAllSnoc(us: seq<WStr>, t: WStr, ps: seq<WStr>, name: WStr)
    ensures FoldAll(us + [t]) == FoldAll(ps + [name]) <==> FoldAll(us) == FoldAll(ps) && EqNoCase(t, name)
  {
    FoldAllAppend(us, [t]);
    FoldAllAppend(ps, [name]);
    assert FoldAll([t]) == [Fold(t)] && FoldAll([name]) == [Fold(name)];
    if FoldAll(us + [t]) == FoldAll(ps + [name]) {
      assert FoldAll(us) == FoldAll(us + [t])[..|us|];
      assert FoldAll(ps) == FoldAll(ps + [name])[..|ps|];
      assert |us + [t]| == |FoldAll(us + [t])| == |ps + [name]|;
      assert FoldAll(us + [t])[|us|] == Fold(t) && FoldAll(ps + [name])[|ps|] == Fold(name);
    }
  }

  /** After one creation, exactly the new key's path changes meaning, for paths from any key above it. */
  lemma {:induction false} AddKeyExact(a: Arena, i: nat, ps: seq<WStr>, name: WStr, us: seq<WStr>)
    requires Wf(a) && Has(a, i) && Walk(a, i, ps).Some? && name != []
    requires Kid(a, Walk(a, i, ps).value, name) == None
    ensures var b := AddKey(a, Walk(a, i, ps).value, name);
            Wf(b) && Walk(b, i, us) == if FoldAll(us) == FoldAll(ps + [name]) then Some(|a|) else Walk(a, i, us)
    decreases |us|
  {
    var p := Walk(a, i, ps).value;
    var b := AddKey(a, p, name);
    AddKeyWf(a, p, name);
    if us == [] {
      assert |FoldAll(us)| == 0 && |FoldAll(ps + [name])| > 0;
    } else {
      var us', t := us[..|us| - 1], us[|us| - 1];
      assert us == us' + [t];
      AddKeyExact(a, i, ps, name, us');
      FoldAllSnoc(us', t, ps, name);
      WalkSnoc(a, i, us', t);
      WalkSnoc(b, i, us', t);
      WalkSnoc(a, i, ps, name);
      if FoldAll(us') == FoldAll(ps + [name]) {
        WalkNoCase(a, i, us', ps + [name]);
        assert |us'| == |FoldAll(us')| == |ps| + 1 && |FoldAll(us)| == |us'| + 1;
        assert b[|a|].kids == [];
      } else if Walk(a, i, us').Some? {
        var q := Walk(a, i, us').value;
        AddKeyKid(a, p, name, q, t);
        if q == p { UniquePath(a, i, us', ps); }
        if FoldAll(us') == FoldAll(ps) { WalkNoCase(a, i, us', ps); }
      } else if FoldAll(us') == FoldAll(ps) {
        WalkNoCase(a, i, us', ps);
      }
    }
  }

  lemma AddKeyKid(a: Arena, p: nat, name: WStr, q: nat, t: WStr)
    requires Wf(a) && Has(a, p) && Has(a, q) && name != [] && Kid(a, p, name) == None
    ensures var b := AddKey(a, p, name);
            Wf(b) && Kid(b, q, t) == if q == p && EqNoCase(t, name) then Some(|a|) else Kid(a, q, t)
  {
    var b := AddKey(a, p, name);
    AddKeyWf(a, p, name);
    if q == p && EqNoCase(t, name) {
      KidIs(b, q, t, |a|);
    } else {
      match Kid(a, q, t)
      case Some(k) => KidIs(b, q, t, k);
      case None =>
        forall k | k in b[q].kids ensures !EqNoCase(b[k].name, t) {
        }
    }
  }

  // ---------- Growth: NavigatePath(.., TRUE) as a functional insert ----------

  /** Components of a path for which no key exists. */
  ghost function Missing(a: Arena, i: nat, ts: seq<WStr>): (m: nat)
    requires Wf(a) && Has(a, i)
    ensures m <= |ts|
    decreases |ts|
  {
    if ts == [] then 0
    else
      match Kid(a, i, ts[0])
      case None => |ts|
      case Some(k) => Missing(a, k, ts[1..])
  }

  /** `us` names an initial part of the path `ts`. */
  predicate PathPrefix(us: seq<WStr>, ts: seq<WStr>) {
    |us| <= |ts| && FoldAll(us) == FoldAll(ts[..|us|])
  }

  /** The deepest key that exists along a path. */
  ghost function LastKnown(a: Arena, i: nat, ts: seq<WStr>): (k: nat)
    requires Wf(a) && Has(a, i)
    ensures Has(a, k)
    decreases |ts|
  {
    if ts == [] then i
    else
      match Kid(a, i, ts[0])
      case None => i
      case Some(k) => LastKnown(a, k, ts[1..])
  }

  /** Growth prepends one subkey to the deepest existing key, if a component is missing, and touches no
      other existing key. */
  lemma {:induction false} GrowOld(a: Arena, i: nat, ts: seq<WStr>)
    requires Wf(a) && Has(a, i) && AllNonEmpty(ts)
    ensures var b := Grow(a, i, ts).0; var d := LastKnown(a, i, ts);
            && |b| == |a| + Missing(a, i, ts)
            && b[..|a|] == if Missing(a, i, ts) == 0 then a else a[d := a[d].(kids := [|a|] + a[d].kids)]
    decreases |ts|
  {
    if ts != [] {
      match Kid(a, i, ts[0])
      case Some(k) =>
        GrowOld(a, k, ts[1..]);
      case None =>
        AddKeyWf(a, i, ts[0]);
        var c := AddKey(a, i, ts[0]);
        GrowOld(c, |a|, ts[1..]);
        assert ts[1..] != [] ==> Kid(c, |a|, ts[1..][0]) == None;
        var b := Grow(a, i, ts).0;
        assert b[..|a|] == b[..|c|][..|a|];
        assert LastKnown(c, |a|, ts[1..]) == |a|;
        assert b[..|a|] == c[..|a|];
    }
  }

  /** The keys added are the missing components, each the only subkey of the one before it. */
  lemma {:induction false} GrowNew(a: Arena, i: nat, ts: seq<WStr>, x: nat)
    requires Wf(a) && Has(a, i) && AllNonEmpty(ts)
    requires |a| <= x < |Grow(a, i, ts).0|
    ensures var b := Grow(a, i, ts).0;
            && |b| - x <= |ts|
            && b[x].name == ts[|ts| - (|b| - x)] && b[x].vals == []
            && b[x].kids == if x + 1 < |b| then [x + 1] else []
    decreases |ts|
  {
    hide Wf, Forest, EqNoCase;
    if ts != [] {
      match Kid(a, i, ts[0])
      case Some(k) =>
        GrowNew(a, k, ts[1..], x);
      case None =>
        AddKeyWf(a, i, ts[0]);
        var c := AddKey(a, i, ts[0]);
        GrowOld(c, |a|, ts[1..]);
        assert ts[1..] != [] ==> Kid(c, |a|, ts[1..][0]) == None;
        var b := Grow(a, i, ts).0;
        assert b == Grow(c, |a|, ts[1..]).0;
        if x == |a| {
          assert b[..|c|][x] == b[x];
          assert LastKnown(c, |a|, ts[1..]) == |a|;
        } else {
          GrowNew(c, |a|, ts[1..], x);
        }
    }
  }

  /** Growth refines insertion into the set of paths: what resolved still resolves to the same key, and what
      did not now does exactly if it names an initial part of the path grown. */
  lemma {:induction false} GrowExact(a: Arena, i: nat, ps: seq<WStr>, ts: seq<WStr>, us: seq<WStr>)
    requires Wf(a) && Has(a, i) && Walk(a, i, ps).Some? && AllNonEmpty(ts)
    ensures var (b, n) := Grow(a, Walk(a, i, ps).value, ts);
            && Has(b, i)
            && Walk(b, i, ps + ts) == Some(n)
            && (Walk(a, i, us).Some? ==> Walk(b, i, us) == Walk(a, i, us))
            && (Walk(a, i, us).None? ==> (Walk(b, i, us).Some? <==> PathPrefix(us, ps + ts)))
    decreases |ts|
  {
    var p := Walk(a, i, ps).value;
    if ts == [] {
      assert ps + ts == ps;
      if PathPrefix(us, ps) { PrefixResolves(a, i, us, ps); }
    } else {
      var ps1 := ps + [ts[0]];
      assert ps1 + ts[1..] == ps + ts;
      WalkSnoc(a, i, ps, ts[0]);
      match Kid(a, p, ts[0])
      case Some(k) =>
        GrowExact(a, i, ps1, ts[1..], us);
      case None =>
        var c := AddKey(a, p, ts[0]);
        AddKeyExact(a, i, ps, ts[0], us);
        AddKeyExact(a, i, ps, ts[0], ps1);
        GrowExact(c, i, ps1, ts[1..], us);
        if FoldAll(us) == FoldAll(ps1) {
          assert |us| == |FoldAll(us)| == |FoldAll(ps1)| == |ps1|;
          assert (ps + ts)[..|us|] == ps1;
          WalkNoCase(a, i, us, ps1);
        }
    }
  }

  lemma PrefixResolves(a: Arena, i: nat, us: seq<WStr>, ps: seq<WStr>)
    requires Wf(a) && Has(a, i) && Walk(a, i, ps).Some? && PathPrefix(us, ps)
    ensures Walk(a, i, us).Some?
  {
    assert ps == ps[..|us|] + ps[|us|..];
    WalkJoin(a, i, ps[..|us|], ps[|us|..]);
    WalkNoCase(a, i, us, ps[..|us|]);
  }

  // ---------- Deletion: unlinking one direct subkey and freeing it ----------

  function Without(ks: seq<nat>, k: nat): (r: seq<nat>)
    ensures forall x :: x in r ==> x in ks
  {
    if ks == [] then [] else if ks[0] == k then ks[1..] else [ks[0]] + Without(ks[1..], k)
  }

  lemma {:induction false} WithoutAt(ks: seq<nat>, j: nat)
    requires j < |ks| && forall l :: 0 <= l < j ==> ks[l] != ks[j]
    ensures Without(ks, ks[j]) == ks[..j] + ks[j + 1..]
    decreases |ks|
  {
    if j == 0 {
      assert ks[..0] + ks[1..] == ks[1..];
    } else {
      var rest := ks[1..];
      assert rest[j - 1] == ks[j];
      WithoutAt(rest, j - 1);
      assert rest[..j - 1] == ks[1..j] && rest[j..] == ks[j + 1..];
      assert ks[..j] == [ks[0]] + ks[1..j];
    }
  }

  lemma KidsDistinct(a: Arena, p: nat, j: nat, l: nat)
    requires Wf(a) && Has(a, p) && j < |a[p].kids| && l < |a[p].kids| && j != l
    ensures a[p].kids[j] != a[p].kids[l]
  {
    assert KidsOk(a, p, a[p].kids);
    var x, y := if j < l then j else l, if j < l then l else j;
    assert !EqNoCase(a[a[p].kids[x]].name, a[a[p].kids[y]].name);
  }

  function RemoveKid(a: Arena, p: nat, k: nat): Arena
    requires p < |a| && k < |a|
  {
    a[p := a[p].(kids := Without(a[p].kids, k))][k := a[k].(alive := false)]
  }

  /** Whether a path passes through (or ends at) key k: computable before the deletion. */
  ghost predicate Meets(a: Arena, i: nat, us: seq<WStr>, k: nat)
    requires Wf(a) && Has(a, i)
    decreases |us|
  {
    i == k || (us != [] && Kid(a, i, us[0]).Some? && Meets(a, Kid(a, i, us[0]).value, us[1..], k))
  }

  lemma WithoutKid(a: Arena, p: nat, k: nat) returns (j: nat)
    requires Wf(a) && Has(a, p) && k in a[p].kids
    ensures j < |a[p].kids| && a[p].kids[j] == k
    ensures Without(a[p].kids, k) == a[p].kids[..j] + a[p].kids[j + 1..]
    ensures forall l :: 0 <= l < |a[p].kids| && l != j ==> a[p].kids[l] != k
  {
    j :| 0 <= j < |a[p].kids| && a[p].kids[j] == k;
    forall l | 0 <= l < |a[p].kids| && l != j ensures a[p].kids[l] != k {
      KidsDistinct(a, p, j, l);
    }
    WithoutAt(a[p].kids, j);
  }

  lemma KidsOkAt(a: Arena, p: nat)
    requires Wf(a) && Has(a, p)
    ensures KidsOk(a, p, a[p].kids)
  {
  }

  lemma {:induction false} RemoveKidParent(a: Arena, p: nat, k: nat)
    requires Wf(a) && Has(a, p) && k in a[p].kids
    ensures p < k < |a| && KidsOk(RemoveKid(a, p, k), p, Without(a[p].kids, k))
  {
    hide Wf, KidsNamed, EqNoCase;
    KidsOkAt(a, p);
    var j := WithoutKid(a, p, k);
    var b, rest := RemoveKid(a, p, k), Without(a[p].kids, k);
    NamesKept(a, b, a[p].kids);
    NamesWithout(b, a[p].kids, j, rest);
    assert forall l :: 0 <= l < |rest| ==> rest[l] != k;
  }

  lemma RemoveKidWf(a: Arena, p: nat, k: nat)
    requires Wf(a) && Has(a, p) && k in a[p].kids
    ensures Wf(RemoveKid(a, p, k)) && p < k < |a| && Has(a, k)
  {
    RemoveKidParent(a, p, k);
    var b := RemoveKid(a, p, k);
    assert KidsLinked(a, p, a[p].kids);
    forall i | Has(b, i) ensures KidsOk(b, i, b[i].kids) {
      if i != p {
        assert KidsOk(a, i, a[i].kids);
        NamesKept(a, b, a[i].kids);
        assert forall l :: 0 <= l < |a[i].kids| ==> a[a[i].kids[l]].parent == i;
        assert KidsLinked(b, i, a[i].kids);
      }
    }
  }

  lemma RemainingKids(a: Arena, p: nat, k: nat)
    requires Wf(a) && Has(a, p) && k in a[p].kids
    ensures k !in Without(a[p].kids, k)
    ensures forall x :: x in a[p].kids && x != k ==> x in Without(a[p].kids, k)
  {
    hide Wf, Forest, EqNoCase, Without;
    var j := WithoutKid(a, p, k);
    CutOut(a[p].kids, j);
  }

  /** A sequence without one element that occurs once: the others are still there, and it is not. */
  lemma CutOut(ks: seq<nat>, j: nat)
    requires j < |ks| && forall l :: 0 <= l < |ks| && l != j ==> ks[l] != ks[j]
    ensures ks[j] !in ks[..j] + ks[j + 1..]
    ensures forall x :: x in ks && x != ks[j] ==> x in ks[..j] + ks[j + 1..]
  {
    forall x | x in ks && x != ks[j] ensures x in ks[..j] || x in ks[j + 1..] {
      var l :| 0 <= l < |ks| && ks[l] == x;
      if l < j { assert ks[..j][l] == x; } else { assert ks[j + 1..][l - j - 1] == x; }
    }
  }

  /** After a deletion exactly the paths through the deleted key stop resolving; all others are unchanged. */
  lemma {:induction false} RemoveKidExact(a: Arena, p: nat, k: nat, i: nat, us: seq<WStr>)
    requires Wf(a) && Has(a, p) && k in a[p].kids && Has(a, i) && i != k
    ensures var b := RemoveKid(a, p, k);
            Wf(b) && Has(b, i) && Walk(b, i, us) == if Meets(a, i, us, k) then None else Walk(a, i, us)
    decreases |us|
  {
    var b := RemoveKid(a, p, k);
    RemoveKidWf(a, p, k);
    RemainingKids(a, p, k);
    if us != [] {
      match Kid(a, i, us[0])
      case Some(c) =>
        assert KidsOk(a, i, a[i].kids);
        if c == k {
          if Kid(b, i, us[0]).Some? {
            KidIs(a, i, us[0], Kid(b, i, us[0]).value);
          }
        } else {
          assert c in b[i].kids;
          KidIs(b, i, us[0], c);
          RemoveKidExact(a, p, k, c, us[1..]);
        }
      case None =>
    }
  }
}
