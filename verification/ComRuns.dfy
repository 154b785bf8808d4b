/** Whole runs over the COM objects: a client that makes calls on what it was given keeps the objects those of the
    counted state, and never sees the connection freed. */
module ComRuns {
  import opened Basics
  import opened ComRefs

  /** The client has the collections and enumerators made so far, in order. */
  ghost predicate Knows(w: World, cs: seq<Holder>, es: seq<Holder>)
    reads w
  {
    w.Valid() && w.colls == cs && w.enums == es
  }

  /** One call of a client that holds the reference it names. */
  method Perform(w: World, cs: seq<Holder>, es: seq<Holder>, call: Call) returns (cs': seq<Holder>, es': seq<Holder>)
    requires Knows(w, cs, es) && Holds(w.View(), call)
    modifies w, w.conn, cs, es
    ensures Knows(w, cs', es') && w.View() == Step(old(w.View()), call)
    ensures w.conn == old(w.conn) || (old(w.conn) == null && fresh(w.conn))
    ensures forall i :: 0 <= i < |cs'| ==> cs'[i] in cs || fresh(cs'[i])
    ensures forall i :: 0 <= i < |es'| ==> es'[i] in es || fresh(es'[i])
  {
    hide World.Valid, Step;
    cs', es' := cs, es;
    match call
    case EnumEvery => var c := w.GetEnumEveryConnection(); cs' := cs + [c];
    case NewEnum(c) => var e := w.GetNewEnum(cs[c], c); es' := es + [e];
    case Value(c) => var got := w.CallValue(cs[c], c);
    case Next(e, celt) => var got, fetched := w.CallNext(es[e], e, celt);
    case Reset(e) => w.CallReset(es[e], e);
    case AddRef(k, i) => w.CallAddRef(if k.Collection? then cs[i] else es[i], k, i);
    case Release(k, i) => var ref := w.CallRelease(if k.Collection? then cs[i] else es[i], k, i);
    case ConnAddRef => w.CallConnAddRef();
    case ConnRelease => var ref := w.CallConnRelease();
  }

  lemma {:induction false} RunSnoc(s: Com, calls: seq<Call>, n: nat)
    requires n < |calls|
    ensures Run(s, calls[..n + 1]) == Step(Run(s, calls[..n]), calls[n])
    ensures Proper(s, calls) ==> Holds(Run(s, calls[..n]), calls[n])
    decreases n
  {
    hide Step, Holds;
    if n == 0 {
      assert calls[..1] == [calls[0]] && calls[..1][1..] == [] && calls[..0] == [];
    } else {
      assert calls[..n + 1][1..] == calls[1..][..n] && calls[..n][1..] == calls[1..][..n - 1];
      RunSnoc(Step(s, calls[0]), calls[1..], n - 1);
    }
  }

  /** Any run of a proper client, from objects that count right: the objects count right after it, and none of them
      was the connection given back. */
  method RunCalls(w: World, cs: seq<Holder>, es: seq<Holder>, calls: seq<Call>)
      returns (cs': seq<Holder>, es': seq<Holder>)
    requires Knows(w, cs, es) && Inv(w.View()) && Proper(w.View(), calls)
    modifies w, w.conn, cs, es
    ensures Knows(w, cs', es') && w.View() == Run(old(w.View()), calls) && Inv(w.View())
    ensures w.conn != null ==> !w.conn.freed
  {
    hide World.Valid, Step, Holds, World.View;
    cs', es' := cs, es;
    ghost var s := w.View();
    assert calls[..0] == [];
    for n := 0 to |calls|
      invariant Knows(w, cs', es') && w.View() == Run(s, calls[..n])
      invariant w.conn == old(w.conn) || (old(w.conn) == null && fresh(w.conn))
      invariant forall i :: 0 <= i < |cs'| ==> cs'[i] in cs || fresh(cs'[i])
      invariant forall i :: 0 <= i < |es'| ==> es'[i] in es || fresh(es'[i])
    {
      RunSnoc(s, calls, n);
      cs', es' := Perform(w, cs', es', calls[n]);
    }
    assert calls[..|calls|] == calls;
    CountConserved(s, calls);
    NotFreed(w);
  }

  lemma NotFreed(w: World)
    requires Inv(w.View())
    ensures w.conn != null ==> !w.conn.freed
  {
  }

  /** The same from the start. */
  method Session(calls: seq<Call>) returns (w: World, cs: seq<Holder>, es: seq<Holder>)
    requires Proper(Com(None, [], []), calls)
    ensures Knows(w, cs, es) && w.View() == Run(Com(None, [], []), calls) && Inv(w.View())
    ensures w.conn != null ==> !w.conn.freed
  {
    w := new World();
    StartInv();
    cs, es := RunCalls(w, [], [], calls);
  }
}
