/** The reference counts of the fake connection, of the collections and the enumerators over it. */
module ComRefs {
  import opened Basics

  /** One object: its count, whether its memory was given back, whether an enumerator has already returned the
      connection, and how many references to it the client holds. */
  datatype Obj = Obj(refs: int, freed: bool, returned: bool, client: int)

  /** The singleton connection, once there is one, and every collection and enumerator made so far. */
  datatype Com = Com(conn: Option<Obj>, colls: seq<Obj>, enums: seq<Obj>)

  datatype Kind = Collection | Enumerator

  /** The client's calls. EnumEvery: get_EnumEveryConnection. NewEnum: get__NewEnum of a collection. Value: Invoke
      with DISPID_VALUE. AddRef stands for QueryInterface too. */
  datatype Call =
    | EnumEvery
    | NewEnum(c: nat)
    | Value(c: nat)
    | Next(e: nat, celt: nat)
    | Reset(e: nat)
    | AddRef(k: Kind, i: nat)
    | Release(k: Kind, i: nat)
    | ConnAddRef
    | ConnRelease

  function NewObj(): Obj { Obj(1, false, false, 1) }

  function Objs(s: Com, k: Kind): seq<Obj> {
    if k.Collection? then s.colls else s.enums
  }

  function WithObj(s: Com, k: Kind, i: nat, o: Obj): Com
    requires i < |Objs(s, k)|
  {
    if k.Collection? then s.(colls := s.colls[i := o]) else s.(enums := s.enums[i := o])
  }

  /** The reference the caller names is one the client holds. */
  predicate Holds(s: Com, call: Call) {
    match call
    case EnumEvery => true
    case NewEnum(c) => c < |s.colls| && s.colls[c].client > 0
    case Value(c) => c < |s.colls| && s.colls[c].client > 0
    case Next(e, _) => e < |s.enums| && s.enums[e].client > 0
    case Reset(e) => e < |s.enums| && s.enums[e].client > 0
    case AddRef(k, i) => i < |Objs(s, k)| && Objs(s, k)[i].client > 0
    case Release(k, i) => i < |Objs(s, k)| && Objs(s, k)[i].client > 0
    case ConnAddRef => s.conn.Some? && s.conn.value.client > 0
    case ConnRelease => s.conn.Some? && s.conn.value.client > 0
  }

  /** One count down; the memory goes with the last reference. */
  function Drop(o: Obj): Obj {
    o.(refs := o.refs - 1, freed := o.freed || o.refs == 1)
  }

  /** The connection gains a reference, which may be the client's. */
  function Gain(s: Com, client: int): Com
    requires s.conn.Some?
  {
    s.(conn := Some(s.conn.value.(refs := s.conn.value.refs + 1, client := s.conn.value.client + client)))
  }

  function Existing(s: Com): (t: Com)
    ensures t.conn.Some? && t.colls == s.colls && t.enums == s.enums
  {
    if s.conn.Some? then s else s.(conn := Some(Obj(1, false, false, 0)))
  }

  /** What a call does, whether or not the client may make it; one on an object that never was does nothing. */
  function Step(s: Com, call: Call): Com {
    match call
    case EnumEvery =>
      var t := Existing(s);
      Gain(t, 0).(colls := t.colls + [NewObj()])
    case NewEnum(c) =>
      if c < |s.colls| && s.conn.Some? then Gain(s, 0).(enums := s.enums + [NewObj()]) else s
    case Value(c) =>
      if c < |s.colls| && s.conn.Some? then Gain(s, 1) else s
    case Next(e, celt) =>
      if e < |s.enums| && s.conn.Some? && !s.enums[e].returned && celt >= 1 then
        Gain(WithObj(s, Enumerator, e, s.enums[e].(returned := true)), 1)
      else s
    case Reset(e) =>
      if e < |s.enums| then WithObj(s, Enumerator, e, s.enums[e].(returned := false)) else s
    case AddRef(k, i) =>
      if i < |Objs(s, k)| then
        var o := Objs(s, k)[i];
        WithObj(s, k, i, o.(refs := o.refs + 1, client := o.client + 1))
      else s
    case Release(k, i) =>
      if i < |Objs(s, k)| && s.conn.Some? then
        var o := Drop(Objs(s, k)[i].(client := Objs(s, k)[i].client - 1));
        var t := WithObj(s, k, i, o);
        if o.refs == 0 then t.(conn := Some(Drop(s.conn.value))) else t
      else s
    case ConnAddRef =>
      if s.conn.Some? then Gain(s, 1) else s
    case ConnRelease =>
      if s.conn.Some? then s.(conn := Some(Drop(s.conn.value.(client := s.conn.value.client - 1)))) else s
  }

  function Live(os: seq<Obj>): nat {
    if os == [] then 0 else (if os[0].freed then 0 else 1) + Live(os[1..])
  }

  /** Every collection and enumerator counts the client's references and is freed when there are none; the
      connection counts its creator's, theirs and the client's. */
  predicate Counted(os: seq<Obj>) {
    forall i :: 0 <= i < |os| ==> os[i].refs == os[i].client >= 0 && (os[i].freed <==> os[i].client == 0)
  }

  predicate Inv(s: Com) {
    && Counted(s.colls) && Counted(s.enums)
    && (s.conn.None? ==> s.colls == [] && s.enums == [])
    && (s.conn.Some? ==>
          && s.conn.value.refs == 1 + Live(s.colls) + Live(s.enums) + s.conn.value.client
          && s.conn.value.client >= 0 && !s.conn.value.freed)
  }

  lemma {:induction false} LiveSnoc(os: seq<Obj>, o: Obj)
    ensures Live(os + [o]) == Live(os) + if o.freed then 0 else 1
  {
    if os == [] {
      assert os + [o] == [o];
    } else {
      assert (os + [o])[1..] == os[1..] + [o];
      LiveSnoc(os[1..], o);
    }
  }

  lemma {:induction false} LiveUpdate(os: seq<Obj>, i: nat, o: Obj)
    requires i < |os|
    ensures Live(os[i := o]) + (if os[i].freed then 0 else 1) == Live(os) + if o.freed then 0 else 1
    decreases |os|
  {
    if i == 0 {
      assert os[0 := o][1..] == os[1..];
    } else {
      assert os[i := o][1..] == os[1..][i - 1 := o];
      LiveUpdate(os[1..], i - 1, o);
    }
  }

  lemma {:induction false} CountedUpdate(os: seq<Obj>, i: nat, o: Obj)
    requires Counted(os) && i < |os| && o.refs == o.client >= 0 && (o.freed <==> o.client == 0)
    ensures Counted(os[i := o])
  {
  }

  lemma {:induction false} AddRefInv(s: Com, k: Kind, i: nat)
    requires Inv(s) && Holds(s, AddRef(k, i))
    ensures Inv(Step(s, AddRef(k, i)))
  {
    hide Live;
    var o := Objs(Step(s, AddRef(k, i)), k)[i];
    LiveUpdate(Objs(s, k), i, o);
    CountedUpdate(Objs(s, k), i, o);
  }

  lemma {:induction false} ReleaseInv(s: Com, k: Kind, i: nat)
    requires Inv(s) && Holds(s, Release(k, i))
    ensures Inv(Step(s, Release(k, i)))
  {
    hide Live;
    var o := Objs(Step(s, Release(k, i)), k)[i];
    LiveUpdate(Objs(s, k), i, o);
    CountedUpdate(Objs(s, k), i, o);
  }

  lemma {:induction false} EnumInv(s: Com, e: nat, o: Obj)
    requires Inv(s) && e < |s.enums| && o == s.enums[e].(returned := o.returned)
    ensures Inv(WithObj(s, Enumerator, e, o))
  {
    hide Live;
    LiveUpdate(s.enums, e, o);
    CountedUpdate(s.enums, e, o);
  }

  lemma {:induction false} StepInv(s: Com, call: Call)
    requires Inv(s) && Holds(s, call)
    ensures Inv(Step(s, call))
  {
    hide Live;
    match call
    case EnumEvery => LiveSnoc(s.colls, NewObj()); NoneLive();
    case NewEnum(c) => LiveSnoc(s.enums, NewObj());
    case Next(e, celt) => EnumInv(s, e, s.enums[e].(returned := true));
    case Reset(e) => EnumInv(s, e, s.enums[e].(returned := false));
    case AddRef(k, i) => AddRefInv(s, k, i);
    case Release(k, i) => ReleaseInv(s, k, i);
    case _ =>
  }

  lemma NoneLive()
    ensures Live([]) == 0
  {
  }

  function Run(s: Com, calls: seq<Call>): Com
    decreases |calls|
  {
    if calls == [] then s else Run(Step(s, calls[0]), calls[1..])
  }

  /** The client only uses references it was given and has not released. */
  predicate Proper(s: Com, calls: seq<Call>)
    decreases |calls|
  {
    calls == [] || (Holds(s, calls[0]) && Proper(Step(s, calls[0]), calls[1..]))
  }

  /** In every run of a client that keeps to its references the connection's count is one more than the
      live collections, the live enumerators and the client's own references together; so it is never freed. */
  lemma {:induction false} CountConserved(s: Com, calls: seq<Call>)
    requires Inv(s) && Proper(s, calls)
    ensures Inv(Run(s, calls))
    decreases |calls|
  {
    hide Inv, Step, Holds;
    if calls != [] {
      StepInv(s, calls[0]);
      CountConserved(Step(s, calls[0]), calls[1..]);
    }
  }

  lemma StartInv()
    ensures Inv(Com(None, [], []))
  {
  }

  /** A collection or enumerator is freed by a call exactly when that call releases its last reference; no
      object comes back. */
  lemma {:induction false} FreedByLastRelease(s: Com, call: Call, k: Kind, i: nat)
    requires Inv(s) && Holds(s, call) && i < |Objs(s, k)|
    ensures i < |Objs(Step(s, call), k)|
    ensures Objs(Step(s, call), k)[i].freed <==>
              Objs(s, k)[i].freed || (call == Release(k, i) && Objs(s, k)[i].refs == 1)
  {
  }

  lemma {:induction false} RunStep(s: Com, calls: seq<Call>, j: nat)
    requires j < |calls|
    ensures Run(s, calls[..j + 1]) == Run(Step(s, calls[0]), calls[1..][..j])
    ensures Run(s, calls[..0]) == s
  {
    hide Step;
    assert calls[..j + 1][0] == calls[0] && calls[..j + 1][1..] == calls[1..][..j];
    assert calls[..0] == [];
  }

  /** The j-th call of the run releases the last reference to an object. */
  predicate LastRelease(s: Com, calls: seq<Call>, k: Kind, i: nat, j: int) {
    && 0 <= j < |calls| && calls[j] == Release(k, i)
    && var t := Run(s, calls[..j]); i < |Objs(t, k)| && Objs(t, k)[i].refs == 1
  }

  /** Over any run of a proper client a collection or enumerator that was there at the start is freed in the end
      exactly if some call of the run released its last reference; and the client then holds none. */
  lemma {:induction false} FreedInRun(s: Com, calls: seq<Call>, k: Kind, i: nat)
    requires Inv(s) && Proper(s, calls) && i < |Objs(s, k)| && !Objs(s, k)[i].freed
    ensures i < |Objs(Run(s, calls), k)|
    ensures Objs(Run(s, calls), k)[i].freed <==> exists j :: LastRelease(s, calls, k, i, j)
    ensures Objs(Run(s, calls), k)[i].freed <==> Objs(Run(s, calls), k)[i].client == 0
    decreases |calls|
  {
    hide Step, Inv, Holds;
    CountConserved(s, calls);
    if calls != [] {
      var s1 := Step(s, calls[0]);
      StepInv(s, calls[0]);
      FreedByLastRelease(s, calls[0], k, i);
      RunStep(s, calls, 0);
      assert LastRelease(s, calls, k, i, 0) <==> Objs(s1, k)[i].freed;
      if Objs(s1, k)[i].freed {
        StaysFreed(s1, calls[1..], k, i);
      } else {
        FreedInRun(s1, calls[1..], k, i);
        forall j: nat | 1 <= j < |calls|
          ensures LastRelease(s, calls, k, i, j) <==> LastRelease(s1, calls[1..], k, i, j - 1)
        {
          RunStep(s, calls, j - 1);
        }
        if j :| LastRelease(s1, calls[1..], k, i, j) { assert LastRelease(s, calls, k, i, j + 1); }
      }
    }
    FreedIffNone(Run(s, calls), k, i);
  }

  lemma {:induction false} StaysFreed(s: Com, calls: seq<Call>, k: Kind, i: nat)
    requires Inv(s) && Proper(s, calls) && i < |Objs(s, k)| && Objs(s, k)[i].freed
    ensures i < |Objs(Run(s, calls), k)| && Objs(Run(s, calls), k)[i].freed
    decreases |calls|
  {
    hide Step, Inv, Holds;
    if calls != [] {
      StepInv(s, calls[0]);
      FreedByLastRelease(s, calls[0], k, i);
      StaysFreed(Step(s, calls[0]), calls[1..], k, i);
    }
  }

  lemma FreedIffNone(s: Com, k: Kind, i: nat)
    requires Inv(s) && i < |Objs(s, k)|
    ensures Objs(s, k)[i].freed <==> Objs(s, k)[i].client == 0
  {
  }

  /** The rule is needed: two releases of a connection the client was never given free it under a live collection. */
  lemma {:induction false} OverReleaseFrees()
    ensures var s := Run(Com(None, [], []), [EnumEvery, ConnRelease, ConnRelease]);
            s.conn.Some? && s.conn.value.freed && Live(s.colls) == 1
  {
    var s1 := Step(Com(None, [], []), EnumEvery);
    var s2 := Step(s1, ConnRelease);
    var s3 := Step(s2, ConnRelease);
    assert [EnumEvery, ConnRelease, ConnRelease][1..] == [ConnRelease, ConnRelease];
    assert [ConnRelease, ConnRelease][1..] == [ConnRelease] && [ConnRelease][1..] == [];
    assert Run(s2, [ConnRelease]) == Run(s3, []) == s3;
    assert s3.colls == [NewObj()] && s3.colls[1..] == [];
  }

  /** An enumerator hands the connection out once, and once more after each reset. */
  lemma {:induction false} NextOncePerReset(s: Com, e: nat, celt: nat)
    requires Inv(s) && Holds(s, Next(e, celt)) && celt >= 1
    ensures var s1 := Step(s, Next(e, celt));
            && s1.enums[e].returned && Step(s1, Next(e, celt)) == s1
            && s1.conn.value.client == s.conn.value.client + (if s.enums[e].returned then 0 else 1)
            && Step(Step(s1, Reset(e)), Next(e, celt)).conn.value.client == s1.conn.value.client + 1
  {
  }

  // ---------- The objects ----------

  class FakeConnection {
    var refCount: int
    var freed: bool
    ghost var client: int

    constructor ()
      ensures refCount == 1 && !freed && client == 0
    {
      refCount, freed, client := 1, false, 0;
    }

    ghost function View(): Obj
      reads this
    {
      Obj(refCount, freed, false, client)
    }

    method AddRef(ghost forClient: bool)
      modifies this
      ensures View() == old(View()).(refs := old(refCount) + 1, client := old(client) + if forClient then 1 else 0)
    {
      refCount := refCount + 1;
      if forClient { client := client + 1; }
    }

    method Release(ghost forClient: bool) returns (ref: int)
      modifies this
      ensures View() == Drop(old(View()).(client := old(client) - if forClient then 1 else 0)) && ref == refCount
    {
      refCount := refCount - 1;
      if forClient { client := client - 1; }
      ref := refCount;
      if ref == 0 { freed := true; }
    }
  }

  /** FakeConnectionCollection and FakeVarEnumerator, whose AddRef and Release are the same. */
  class Holder {
    const connection: FakeConnection
    var refCount: int
    var alreadyReturned: bool
    var freed: bool
    ghost var client: int

    constructor (conn: FakeConnection)
      modifies conn
      ensures connection == conn && View() == NewObj()
      ensures conn.View() == old(conn.View()).(refs := old(conn.refCount) + 1)
    {
      connection := conn;
      refCount, alreadyReturned, freed, client := 1, false, false, 1;
      new;
      conn.AddRef(false);
    }

    ghost function View(): Obj
      reads this
    {
      Obj(refCount, freed, alreadyReturned, client)
    }

    method AddRef()
      modifies this
      ensures View() == old(View()).(refs := old(refCount) + 1, client := old(client) + 1)
    {
      refCount := refCount + 1;
      client := client + 1;
    }

    method Release() returns (ref: int)
      modifies this, connection
      ensures View() == Drop(old(View()).(client := old(client) - 1)) && ref == refCount
      ensures connection.View() == if refCount == 0 then Drop(old(connection.View())) else old(connection.View())
    {
      refCount := refCount - 1;
      client := client - 1;
      ref := refCount;
      if ref == 0 {
        var r := connection.Release(false);
        freed := true;
      }
    }

    /** VarEnum_Next. */
    method Next(celt: nat) returns (got: FakeConnection?, fetched: nat)
      modifies this`alreadyReturned, connection
      ensures var some := !old(alreadyReturned) && celt >= 1;
              && got == (if some then connection else null) && fetched == (if some then 1 else 0)
              && View() == old(View()).(returned := old(alreadyReturned) || some)
              && connection.View() == if some
                   then old(connection.View()).(refs := old(connection.refCount) + 1,
                                                 client := old(connection.client) + 1)
                   else old(connection.View())
    {
      if !alreadyReturned && celt >= 1 {
        connection.AddRef(true);
        alreadyReturned := true;
        return connection, 1;
      }
      return null, 0;
    }
  }

  /** The module's variable for the singleton, and every object made over it. */
  class World {
    var conn: FakeConnection?
    ghost var colls: seq<Holder>
    ghost var enums: seq<Holder>

    constructor ()
      ensures Valid() && View() == Com(None, [], [])
    {
      conn, colls, enums := null, [], [];
    }

    ghost function Holders(k: Kind): seq<Holder>
      reads this
    {
      if k.Collection? then colls else enums
    }

    /** All are distinct, and all refer to the singleton. */
    ghost predicate Valid()
      reads this
    {
      && (forall h :: h in colls ==> conn != null && h.connection == conn)
      && (forall h :: h in enums ==> conn != null && h.connection == conn)
      && (forall i, j :: 0 <= i < j < |colls| ==> colls[i] != colls[j])
      && (forall i, j :: 0 <= i < j < |enums| ==> enums[i] != enums[j])
      && (forall i, j :: 0 <= i < |colls| && 0 <= j < |enums| ==> colls[i] != enums[j])
    }

    ghost function Views(hs: seq<Holder>): (os: seq<Obj>)
      reads hs
      ensures |os| == |hs| && forall i :: 0 <= i < |os| ==> os[i] == hs[i].View()
    {
      seq(|hs|, i requires 0 <= i < |hs| reads hs => hs[i].View())
    }

    ghost function View(): Com
      reads this, conn, colls, enums
    {
      Com(if conn == null then None else Some(conn.View()), Views(colls), Views(enums))
    }

    /** get_EnumEveryConnection, with the singleton made on first use. */
    method GetEnumEveryConnection() returns (c: Holder)
      requires Valid()
      modifies this, conn
      ensures Valid() && fresh(c) && View() == Step(old(View()), EnumEvery)
      ensures colls == old(colls) + [c] && enums == old(enums)
      ensures conn != null && if old(conn) == null then fresh(conn) else conn == old(conn)
    {
      EnsureConnection();
      c := new Holder(conn);
      ViewsSnoc(colls, c);
      colls := colls + [c];
      assert Views(old(colls)) == old(Views(colls));
      assert Views(enums) == old(Views(enums));
    }

    lemma ViewsSnoc(hs: seq<Holder>, h: Holder)
      ensures Views(hs + [h]) == Views(hs) + [h.View()]
    {
    }

    method EnsureConnection()
      requires Valid()
      modifies this`conn
      ensures Valid() && View() == Existing(old(View()))
      ensures conn != null && if old(conn) == null then fresh(conn) else conn == old(conn)
    {
      if conn == null {
        NoHolders();
        conn := new FakeConnection();
      }
    }

    lemma NoHolders()
      requires Valid() && conn == null
      ensures colls == [] && enums == []
    {
      SomeIn(colls);
      SomeIn(enums);
    }

    lemma SomeIn(hs: seq<Holder>)
      ensures hs == [] || exists h :: h in hs
    {
      if hs != [] { assert hs[0] in hs; }
    }

    /** get__NewEnum. */
    method GetNewEnum(c: Holder, ghost i: nat) returns (e: Holder)
      requires Valid() && i < |colls| && c == colls[i]
      modifies this`enums, conn
      ensures Valid() && fresh(e) && View() == Step(old(View()), NewEnum(i))
      ensures enums == old(enums) + [e]
    {
      assert c in colls;
      e := new Holder(c.connection);
      ViewsSnoc(enums, e);
      enums := enums + [e];
      assert Views(old(enums)) == old(Views(enums));
      assert Views(colls) == old(Views(colls));
    }

    /** Next on an enumerator. */
    method CallNext(e: Holder, ghost i: nat, celt: nat) returns (got: FakeConnection?, fetched: nat)
      requires Valid() && i < |enums| && e == enums[i]
      modifies e, conn
      ensures Valid() && View() == Step(old(View()), Next(i, celt))
      ensures got == (if fetched == 1 then conn else null) && (fetched == 1 <==> !old(e.alreadyReturned) && celt >= 1)
    {
      Placed(Enumerator, i);
      got, fetched := e.Next(celt);
      OneChanged((Enumerator, i));
    }

    /** The last Release of a collection or an enumerator also gives its reference to the connection back. */
    method CallRelease(h: Holder, ghost k: Kind, ghost i: nat) returns (ref: int)
      requires Valid() && i < |Holders(k)| && h == Holders(k)[i]
      modifies h, conn
      ensures Valid() && View() == Step(old(View()), Release(k, i)) && ref == h.refCount
    {
      Placed(k, i);
      ref := h.Release();
      OneChanged((k, i));
    }

    /** AddRef, or a QueryInterface that succeeds, on a collection or an enumerator. */
    method CallAddRef(h: Holder, ghost k: Kind, ghost i: nat)
      requires Valid() && i < |Holders(k)| && h == Holders(k)[i]
      modifies h
      ensures Valid() && View() == Step(old(View()), AddRef(k, i))
    {
      Placed(k, i);
      h.AddRef();
      OneChanged((k, i));
    }

    /** Invoke with DISPID_VALUE on a collection. */
    method CallValue(c: Holder, ghost i: nat) returns (got: FakeConnection)
      requires Valid() && i < |colls| && c == colls[i]
      modifies conn
      ensures Valid() && got == conn && View() == Step(old(View()), Value(i))
    {
      assert c in colls;
      c.connection.AddRef(true);
      got := c.connection;
      assert Views(colls) == old(Views(colls)) && Views(enums) == old(Views(enums));
    }

    method CallReset(e: Holder, ghost i: nat)
      requires Valid() && i < |enums| && e == enums[i]
      modifies e
      ensures Valid() && View() == Step(old(View()), Reset(i))
    {
      Placed(Enumerator, i);
      e.alreadyReturned := false;
      OneChanged((Enumerator, i));
    }

    /** AddRef on the connection by the client. */
    method CallConnAddRef()
      requires Valid() && conn != null
      modifies conn
      ensures Valid() && View() == Step(old(View()), ConnAddRef)
    {
      conn.AddRef(true);
      assert Views(colls) == old(Views(colls)) && Views(enums) == old(Views(enums));
    }

    /** Release of the connection by the client. */
    method CallConnRelease() returns (ref: int)
      requires Valid() && conn != null
      modifies conn
      ensures Valid() && View() == Step(old(View()), ConnRelease) && ref == conn.refCount
    {
      ref := conn.Release(true);
      assert Views(colls) == old(Views(colls)) && Views(enums) == old(Views(enums));
    }

    /** After a change to one object the views differ in its place only. */
    twostate lemma OneChanged(p: (Kind, nat))
      requires old(Valid()) && colls == old(colls) && enums == old(enums) && p.1 < |Holders(p.0)|
      requires forall h :: (h in colls || h in enums) && h != Holders(p.0)[p.1] ==> h.View() == old(h.View())
      ensures var h := Holders(p.0)[p.1];
              if p.0.Collection?
              then Views(colls) == old(Views(colls))[p.1 := h.View()] && Views(enums) == old(Views(enums))
              else Views(enums) == old(Views(enums))[p.1 := h.View()] && Views(colls) == old(Views(colls))
    {
      ghost var h := Holders(p.0)[p.1];
      forall j | 0 <= j < |colls| && !(p.0.Collection? && j == p.1) ensures Views(colls)[j] == old(Views(colls))[j] {
        assert colls[j] in colls && colls[j] != h;
      }
      forall j | 0 <= j < |enums| && !(p.0.Enumerator? && j == p.1) ensures Views(enums)[j] == old(Views(enums))[j] {
        assert enums[j] in enums && enums[j] != h;
      }
    }

    /** An object is in one place in one list. */
    lemma Placed(k: Kind, i: nat)
      requires Valid() && i < |Holders(k)|
      ensures Holders(k)[i].connection == conn
      ensures forall j :: 0 <= j < |colls| && colls[j] == Holders(k)[i] ==> k.Collection? && j == i
      ensures forall j :: 0 <= j < |enums| && enums[j] == Holders(k)[i] ==> k.Enumerator? && j == i
    {
      var h := Holders(k)[i];
      assert if k.Collection? then h in colls else h in enums;
    }
  }
}
