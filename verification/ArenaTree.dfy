/** The tree that hangs under a key of the arena: what the saver writes and what path lookups see. */
module ArenaTree {
  import opened Basics
  import opened WideStrings
  import opened KeyArena
  import opened Values
  import opened RegFile

  ghost function TreeOf(a: Arena, i: nat): (k: Key)
    requires Forest(a) && Has(a, i)
    ensures k.name == a[i].name && k.vals == a[i].vals && |k.kids| == |a[i].kids|
    decreases |a| - i, 1, 0
  {
    Key(a[i].name, a[i].vals, TreesOf(a, i, a[i].kids))
  }

  ghost function TreesOf(a: Arena, i: nat, ks: seq<nat>): (r: seq<Key>)
    requires Forest(a) && Has(a, i)
    requires forall j :: 0 <= j < |ks| ==> i < ks[j] && Has(a, ks[j])
    ensures |r| == |ks|
    ensures forall j :: 0 <= j < |ks| ==> r[j] == TreeOf(a, ks[j])
    decreases |a| - i, 0, |ks|
  {
    if ks == [] then [] else [TreeOf(a, ks[0])] + TreesOf(a, i, ks[1..])
  }

  /** A key's tree depends on that key and younger ones only. */
  lemma {:induction false} TreeFrame(a: Arena, b: Arena, i: nat)
    requires Forest(a) && Has(a, i) && Forest(b) && |a| <= |b| && a[i..] == b[i..|a|]
    ensures Has(b, i) && TreeOf(b, i) == TreeOf(a, i)
    decreases |a| - i
  {
    assert b[i] == b[i..|a|][0] == a[i];
    forall j | 0 <= j < |a[i].kids| ensures TreeOf(b, i).kids[j] == TreeOf(a, i).kids[j] {
      var k := a[i].kids[j];
      assert KidsLinked(a, i, a[i].kids);
      assert a[k..] == a[i..][k - i..] && b[k..|a|] == b[i..|a|][k - i..];
      TreeFrame(a, b, k);
    }
    assert TreeOf(b, i).kids == TreeOf(a, i).kids;
  }

  /** Navigating the arena is navigating the tree. */
  lemma {:induction false} WalkIsFind(a: Arena, i: nat, ts: seq<WStr>)
    requires Wf(a) && Has(a, i)
    ensures Find(TreeOf(a, i), ts)
         == if Walk(a, i, ts).None? then None else Some(TreeOf(a, Walk(a, i, ts).value))
    decreases |ts|
  {
    if ts != [] {
      var t := TreeOf(a, i);
      var j := KidNamed(t.kids, ts[0]);
      if j < |t.kids| {
        var k := a[i].kids[j];
        KidIs(a, i, ts[0], k);
        WalkIsFind(a, k, ts[1..]);
      } else {
        assert forall l :: 0 <= l < |t.kids| ==> t.kids[l].name == a[a[i].kids[l]].name;
      }
    }
  }

  ghost predicate ValuesUnique(a: Arena) {
    forall i :: Has(a, i) ==> Unique(a[i].vals)
  }

  /** The arena's invariants are the uniqueness the file round trip needs. */
  lemma {:induction false} TreeNamed(a: Arena, i: nat)
    requires Wf(a) && Has(a, i) && ValuesUnique(a)
    ensures Named(TreeOf(a, i)) && UniqueValues(TreeOf(a, i))
    decreases |a| - i
  {
    var t := TreeOf(a, i);
    assert KidsOk(a, i, a[i].kids);
    forall j | 0 <= j < |t.kids| ensures Named(t.kids[j]) && UniqueValues(t.kids[j]) {
      TreeNamed(a, a[i].kids[j]);
    }
    forall j, l | 0 <= j < l < |t.kids| ensures !EqNoCase(t.kids[j].name, t.kids[l].name) {
      assert t.kids[j].name == a[a[i].kids[j]].name && t.kids[l].name == a[a[i].kids[l]].name;
    }
  }

  lemma {:induction false} MirrorKid(k: Key, j: nat)
    requires j < |k.kids|
    ensures |Mirror(k).kids| == |k.kids| && Mirror(k).kids[j] == Mirror(k.kids[|k.kids| - 1 - j])
  {
    MirrorAllAt(k.kids, |k.kids| - 1 - j);
  }

  /** The arena's invariants are also what the loader asks of the mirrored tree. */
  lemma {:induction false} MirrorLoadable(a: Arena, i: nat)
    requires Wf(a) && Has(a, i) && ValuesUnique(a)
    ensures Unique(Mirror(TreeOf(a, i)).vals) && LoadableAll(Mirror(TreeOf(a, i)).kids)
    decreases |a| - i
  {
    hide EqNoCase, Unique, Mirror;
    var t := TreeOf(a, i);
    var m := Mirror(t);
    assert KidsOk(a, i, a[i].kids);
    MirrorVals(t);
    forall j | 0 <= j < |t.kids|
      ensures |m.kids| == |t.kids| && m.kids[j].name == a[a[i].kids[|t.kids| - 1 - j]].name && Loadable(m.kids[j])
    {
      MirrorKid(t, j);
      var k := a[i].kids[|t.kids| - 1 - j];
      MirrorVals(TreeOf(a, k));
      MirrorLoadable(a, k);
    }
    MirrorCount(t);
    forall j, l | 0 <= j < l < |m.kids| ensures !EqNoCase(m.kids[j].name, m.kids[l].name) {
      var n := |t.kids| - 1;
      assert !EqNoCase(a[a[i].kids[n - l]].name, a[a[i].kids[n - j]].name);
      EqNoCaseSymmetric(a[a[i].kids[n - l]].name, a[a[i].kids[n - j]].name);
    }
  }

  lemma MirrorCount(k: Key)
    ensures |Mirror(k).kids| == |k.kids|
  {
  }

  lemma EqNoCaseSymmetric(s: WStr, t: WStr)
    ensures EqNoCase(s, t) <==> EqNoCase(t, s)
  {
  }

  lemma {:induction false} MirrorVals(k: Key)
    ensures Mirror(k).name == k.name
    ensures Unique(k.vals) ==> Unique(Mirror(k).vals)
  {
    if Unique(k.vals) { RevUnique(k.vals); }
  }

  /** Whatever the hooks have built, as long as the root has no values, loads from the image saved of it into an
      empty tree, as the mirror. */
  lemma {:induction false} SavedArenaLoads(a: Arena)
    requires Wf(a) && ValuesUnique(a) && KeyFits(TreeOf(a, 0)) && a[0].name == [] && a[0].vals == []
    ensures LoadFile(FileImage(TreeOf(a, 0))) == Some(Mirror(TreeOf(a, 0)).kids)
    ensures LoadableAll(Mirror(TreeOf(a, 0)).kids)
  {
    hide LoadFile, KeyFits, UniqueValues, Mirror, LoadableAll;
    TreeNamed(a, 0);
    LoadSavedIff(TreeOf(a, 0));
    MirrorLoadable(a, 0);
  }
}
