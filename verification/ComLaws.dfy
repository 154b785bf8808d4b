/** The reference counts told from the list of the client's calls alone: how often it added and released a reference,
    and how often it was handed the connection. */
module ComLaws {
  import opened Basics
  import opened ComRefs
  import opened ComRuns

  /** How many calls of the list are of a kind. */
  function Count(calls: seq<Call>, p: Call -> bool): nat {
    if calls == [] then 0
    else Count(calls[..|calls| - 1], p) + if p(calls[|calls| - 1]) then 1 else 0
  }

  predicate Asks(call: Call, e: nat) { call.Next? && call.e == e && call.celt >= 1 }

  /** The enumerator was asked for an item, and not reset since. */
  ghost predicate Exhausted(calls: seq<Call>, e: nat) {
    exists i :: 0 <= i < |calls| && Asks(calls[i], e) && forall r :: i < r < |calls| ==> calls[r] != Reset(e)
  }

  /** How many calls of Next hand out the connection: those that ask an enumerator for an item, for the first time or
      for the first time since it was reset. */
  ghost function Handouts(calls: seq<Call>): nat {
    if calls == [] then 0
    else
      var was, last := calls[..|calls| - 1], calls[|calls| - 1];
      Handouts(was) + if last.Next? && last.celt >= 1 && !Exhausted(was, last.e) then 1 else 0
  }

  /** The references to the object that the list leaves the client, who was given the first. */
  function Left(calls: seq<Call>, k: Kind, i: nat): int {
    var (added: int, released: int) := (multiset(calls)[AddRef(k, i)], multiset(calls)[Release(k, i)]);
    1 + added - released
  }

  ghost function ConnectionsLeft(calls: seq<Call>): int {
    Count(calls, (c: Call) => c.Value?) + Handouts(calls) + Count(calls, (c: Call) => c == ConnAddRef)
        - Count(calls, (c: Call) => c == ConnRelease)
  }

  // ---------- What the lists tell of the objects ----------

  ghost predicate ObjectsTold(s: Com, calls: seq<Call>) {
    && |s.colls| == Count(calls, (c: Call) => c == EnumEvery)
    && |s.enums| == Count(calls, (c: Call) => c.NewEnum?)
    && (forall k: Kind, i: nat :: i < |Objs(s, k)| ==> Objs(s, k)[i].client == Left(calls, k, i))
    && (forall k: Kind, i: nat :: i >= |Objs(s, k)| ==> AddRef(k, i) !in calls && Release(k, i) !in calls)
  }

  ghost predicate ReturnsTold(s: Com, calls: seq<Call>) {
    && (forall e: nat :: e < |s.enums| ==> (s.enums[e].returned <==> Exhausted(calls, e)))
    && (forall e: nat :: e >= |s.enums| ==> !Exhausted(calls, e))
  }

  ghost predicate ConnectionTold(s: Com, calls: seq<Call>) {
    (if s.conn.Some? then s.conn.value.client else 0) == ConnectionsLeft(calls)
  }

  lemma {:induction false} CountSnoc(calls: seq<Call>, c: Call, p: Call -> bool)
    ensures Count(calls + [c], p) == Count(calls, p) + if p(c) then 1 else 0
  {
    assert (calls + [c])[..|calls|] == calls;
  }

  lemma {:induction false} LeftSnoc(calls: seq<Call>, c: Call, k: Kind, i: nat)
    ensures Left(calls + [c], k, i)
         == Left(calls, k, i) + (if c == AddRef(k, i) then 1 else 0) - (if c == Release(k, i) then 1 else 0)
  {
    assert multiset(calls + [c]) == multiset(calls) + multiset{c};
  }

  lemma {:induction false} ExhaustedSnoc(calls: seq<Call>, c: Call, e: nat)
    ensures Exhausted(calls + [c], e) <==> Asks(c, e) || (Exhausted(calls, e) && c != Reset(e))
  {
    var all := calls + [c];
    if Asks(c, e) { assert Asks(all[|calls|], e); }
    if i :| 0 <= i < |calls| && Asks(calls[i], e) && forall r :: i < r < |calls| ==> calls[r] != Reset(e) {
      assert Asks(all[i], e);
      if c != Reset(e) {
        forall r | i < r < |all| ensures all[r] != Reset(e) { if r < |calls| { assert all[r] == calls[r]; } }
      }
    }
    if i :| 0 <= i < |all| && Asks(all[i], e) && forall r :: i < r < |all| ==> all[r] != Reset(e) {
      if i < |calls| {
        assert Asks(calls[i], e) && all[|calls|] == c;
        forall r | i < r < |calls| ensures calls[r] != Reset(e) { assert all[r] == calls[r]; }
      }
    }
  }

  lemma {:induction false} HandoutsSnoc(calls: seq<Call>, c: Call)
    ensures Handouts(calls + [c])
         == Handouts(calls) + if c.Next? && c.celt >= 1 && !Exhausted(calls, c.e) then 1 else 0
  {
    assert (calls + [c])[..|calls|] == calls;
  }

  lemma {:induction false} ObjectsStep(s: Com, calls: seq<Call>, c: Call)
    requires Inv(s) && Holds(s, c) && ObjectsTold(s, calls)
    ensures ObjectsTold(Step(s, c), calls + [c])
  {
    hide Left, Count, Inv, Step, Holds, Objs;
    CountSnoc(calls, c, (c: Call) => c == EnumEvery);
    CountSnoc(calls, c, (c: Call) => c.NewEnum?);
    var s' := Step(s, c);
    forall k: Kind, i: nat
      ensures i < |Objs(s', k)| ==> Objs(s', k)[i].client == Left(calls + [c], k, i)
      ensures i >= |Objs(s', k)| ==> AddRef(k, i) !in calls + [c] && Release(k, i) !in calls + [c]
    {
      ObjectStep(s, c, k, i);
      LeftSnoc(calls, c, k, i);
      if i >= |Objs(s, k)| { NoneLeft(calls, k, i); }
    }
    ObjectStep(s, c, Collection, 0);
  }

  /** What a proper call does to one object, and to the number of them. */
  lemma {:induction false} ObjectStep(s: Com, c: Call, k: Kind, i: nat)
    requires Inv(s) && Holds(s, c)
    ensures var s' := Step(s, c);
            && |s'.colls| == |s.colls| + (if c == EnumEvery then 1 else 0)
            && |s'.enums| == |s.enums| + (if c.NewEnum? then 1 else 0)
            && |Objs(s, k)| <= |Objs(s', k)|
            && (i < |Objs(s', k)| ==>
                  Objs(s', k)[i].client == (if i < |Objs(s, k)| then Objs(s, k)[i].client else 1)
                      + (if c == AddRef(k, i) then 1 else 0) - (if c == Release(k, i) then 1 else 0))
            && (i >= |Objs(s', k)| ==> c != AddRef(k, i) && c != Release(k, i))
  {
    hide Inv;
    Connected(s);
  }

  lemma Connected(s: Com)
    requires Inv(s)
    ensures s.conn.None? ==> s.colls == [] && s.enums == []
  {
  }

  lemma NoneLeft(calls: seq<Call>, k: Kind, i: nat)
    requires AddRef(k, i) !in calls && Release(k, i) !in calls
    ensures Left(calls, k, i) == 1
  {
  }

  lemma {:induction false} ReturnsStep(s: Com, calls: seq<Call>, c: Call)
    requires Inv(s) && Holds(s, c) && ReturnsTold(s, calls)
    ensures ReturnsTold(Step(s, c), calls + [c])
  {
    hide Exhausted, Inv;
    Connected(s);
    var s' := Step(s, c);
    forall e: nat
      ensures e < |s'.enums| ==> (s'.enums[e].returned <==> Exhausted(calls + [c], e))
      ensures e >= |s'.enums| ==> !Exhausted(calls + [c], e)
    {
      ExhaustedSnoc(calls, c, e);
    }
  }

  lemma {:induction false} ConnectionStep(s: Com, calls: seq<Call>, c: Call)
    requires Inv(s) && Holds(s, c) && ReturnsTold(s, calls) && ConnectionTold(s, calls)
    ensures ConnectionTold(Step(s, c), calls + [c])
  {
    hide Exhausted, Handouts, Count, Inv;
    Connected(s);
    HandoutsSnoc(calls, c);
    CountSnoc(calls, c, (c: Call) => c.Value?);
    CountSnoc(calls, c, (c: Call) => c == ConnAddRef);
    CountSnoc(calls, c, (c: Call) => c == ConnRelease);
  }

  lemma {:induction false} Told(calls: seq<Call>, n: nat)
    requires Proper(Com(None, [], []), calls) && n <= |calls|
    ensures var s := Run(Com(None, [], []), calls[..n]);
            Inv(s) && ObjectsTold(s, calls[..n]) && ReturnsTold(s, calls[..n]) && ConnectionTold(s, calls[..n])
  {
    hide Step, Inv, Holds, ObjectsTold, ReturnsTold, ConnectionTold;
    var s0 := Com(None, [], []);
    if n == 0 {
      assert calls[..0] == [];
      StartInv();
      StartTold();
    } else {
      Told(calls, n - 1);
      RunSnoc(s0, calls, n - 1);
      var was, s := calls[..n - 1], Run(s0, calls[..n - 1]);
      assert calls[..n] == was + [calls[n - 1]];
      StepInv(s, calls[n - 1]);
      ObjectsStep(s, was, calls[n - 1]);
      ReturnsStep(s, was, calls[n - 1]);
      ConnectionStep(s, was, calls[n - 1]);
    }
  }

  lemma StartTold()
    ensures var s := Com(None, [], []); ObjectsTold(s, []) && ReturnsTold(s, []) && ConnectionTold(s, [])
  {
  }

  // ---------- The laws ----------

  ghost function StillThere(os: seq<Obj>): set<int> {
    set i | 0 <= i < |os| && os[i].client > 0
  }

  lemma {:induction false} LiveAre(os: seq<Obj>)
    requires Counted(os)
    ensures Live(os) == |StillThere(os)|
    decreases |os|
  {
    hide Live;
    NoneLive();
    if os != [] {
      var was, n := os[..|os| - 1], |os| - 1;
      LiveAre(was);
      assert os == was + [os[n]];
      LiveSnoc(was, os[n]);
      assert os[n].freed ==> StillThere(os) == StillThere(was);
      assert !os[n].freed ==> StillThere(os) == StillThere(was) + {n};
    }
  }

  /** A proper client from the start: each get_EnumEveryConnection made a collection and each get__NewEnum an
      enumerator; one of them is referred to as often as the client was given a reference, added one with AddRef, and
      has not released it, and it is freed just when that is not at all. */
  lemma {:induction false} ObjectCounts(calls: seq<Call>, k: Kind, i: nat)
    requires Proper(Com(None, [], []), calls)
    ensures var s := Run(Com(None, [], []), calls);
            && |s.colls| == Count(calls, (c: Call) => c == EnumEvery)
            && |s.enums| == Count(calls, (c: Call) => c.NewEnum?)
            && (i < |Objs(s, k)| ==>
                  var (added: int, released: int) := (multiset(calls)[AddRef(k, i)], multiset(calls)[Release(k, i)]);
                  var n := 1 + added - released;
                  && Objs(s, k)[i].refs == n && Objs(s, k)[i].client == n >= 0
                  && (Objs(s, k)[i].freed <==> n == 0))
  {
    hide Run, Proper, Count, ReturnsTold, ConnectionTold;
    assert calls[..|calls|] == calls;
    Told(calls, |calls|);
  }

  /** The connection, once there is one, is referred to once by its variable, once by each collection and enumerator
      the client still refers to, and by the client as often as Invoke or Next handed it out or the client added a
      reference, less its releases. */
  lemma {:induction false} ConnectionCount(calls: seq<Call>)
    requires Proper(Com(None, [], []), calls)
    ensures var s := Run(Com(None, [], []), calls);
            s.conn.Some? ==>
              var n := Count(calls, (c: Call) => c.Value?) + Handouts(calls)
                       + Count(calls, (c: Call) => c == ConnAddRef) - Count(calls, (c: Call) => c == ConnRelease);
              && s.conn.value.client == n >= 0
              && s.conn.value.refs == 1 + |StillThere(s.colls)| + |StillThere(s.enums)| + n
              && !s.conn.value.freed
  {
    hide Run, Proper, Count, Handouts, ReturnsTold, ObjectsTold, StillThere, Live;
    assert calls[..|calls|] == calls;
    Told(calls, |calls|);
    var s := Run(Com(None, [], []), calls);
    LiveAre(s.colls);
    LiveAre(s.enums);
  }
}
