/** What the two fields of an OVERLAPPED say about its read, over every run in which the application reuses an
    OVERLAPPED only once the read it was last given to is over. */
module ReadStatus {
  import opened Basics
  import opened Wire
  import opened Receive
  import opened PendingQueue
  import opened ReadEngine

  /** The OVERLAPPED a call is about. */
  function On(c: Call): Option<nat> {
    match c
    case Idle => None
    case Polling(o) => Some(o)
    case _ => Some(c.r.ov)
  }

  predicate Owner(c: Call) { c.Holding? || c.Giving? || c.Matched? }

  ghost predicate Owned(s: Engine, o: nat) {
    exists t :: 0 <= t < |s.calls| && Owner(s.calls[t]) && On(s.calls[t]) == Some(o)
  }

  ghost predicate QueuedOn(q: seq<Read>, o: nat) {
    exists r :: r in q && r.ov == o
  }

  /** A read on this OVERLAPPED was submitted and has not completed. */
  ghost predicate InFlight(s: Engine, o: nat) {
    QueuedOn(s.queue, o) || Owned(s, o)
  }

  ghost predicate Busy(s: Engine, o: nat) {
    exists t :: 0 <= t < |s.calls| && On(s.calls[t]) == Some(o)
  }

  /** ReadFile on this OVERLAPPED has queued the read and not yet stored STATUS_PENDING. */
  ghost predicate ReadFileUnderWay(s: Engine, o: nat) {
    exists t :: 0 <= t < |s.calls| && s.calls[t].Storing? && On(s.calls[t]) == Some(o)
  }

  /** A poll on this OVERLAPPED has stored Internal and not yet InternalHigh. */
  ghost predicate CountUnderWay(s: Engine, o: nat) {
    exists t :: 0 <= t < |s.calls| && s.calls[t].Landing? && On(s.calls[t]) == Some(o)
  }

  /** The application's side: a read is submitted on an OVERLAPPED with no read in flight and no call under way. */
  ghost predicate Allowed(s: Engine, e: Event) {
    e.Submit? ==> !InFlight(s, e.o) && !Busy(s, e.o)
  }

  ghost predicate AllAllowed(s: Engine, es: seq<Event>)
    decreases |es|
  {
    es == [] || (Allowed(s, es[0]) && AllAllowed(Step(s, es[0]), es[1..]))
  }

  // ---------- The invariant ----------

  /** No two reads in flight share an OVERLAPPED. */
  ghost predicate Apart(s: Engine) {
    && DistinctOvs(s.queue)
    && (forall t, r :: 0 <= t < |s.calls| && Owner(s.calls[t]) && r in s.queue ==> On(s.calls[t]) != Some(r.ov))
    && (forall t, u :: 0 <= t < u < |s.calls| && Owner(s.calls[t]) && Owner(s.calls[u]) ==>
        On(s.calls[t]) != On(s.calls[u]))
  }

  /** Until ReadFile has stored STATUS_PENDING its read stays queued and no other call is about it; while a
      count is under way only polls are. */
  ghost predicate Exclusive(s: Engine) {
    && (forall t :: 0 <= t < |s.calls| && s.calls[t].Storing? ==> s.calls[t].r in s.queue)
    && (forall t, u :: 0 <= t < |s.calls| && 0 <= u < |s.calls| && t != u && s.calls[t].Storing? ==>
        On(s.calls[u]) != On(s.calls[t]))
    && (forall t, u :: 0 <= t < |s.calls| && 0 <= u < |s.calls| && t != u ==>
          s.calls[t].Landing? && On(s.calls[u]) == On(s.calls[t]) ==> s.calls[u].Polling?)
    && (forall t, r :: 0 <= t < |s.calls| && s.calls[t].Landing? && r in s.queue ==> On(s.calls[t]) != Some(r.ov))
  }

  ghost predicate PendingRight(s: Engine, o: nat) {
    StatusOf(s, o).pending <==> InFlight(s, o) && !ReadFileUnderWay(s, o)
  }

  ghost predicate StatusInv(s: Engine) {
    Apart(s) && Exclusive(s) && forall o :: PendingRight(s, o)
  }

  lemma StartInv(threads: nat)
    ensures StatusInv(Start(threads))
  {
  }

  lemma {:induction false} WithoutIs(q: seq<Read>, o: nat)
    requires DistinctOvs(q)
    ensures DistinctOvs(Without(q, o))
    ensures forall r :: r in Without(q, o) <==> r in q && r.ov != o
    ensures Find(q, o) < |q| <==> QueuedOn(q, o)
  {
    var j := Find(q, o);
    var w := Without(q, o);
    if j < |q| {
      assert q[j] in q;
      assert forall i :: 0 <= i < |w| ==> w[i] == q[if i < j then i else i + 1];
      forall r | r in q && r.ov != o ensures r in w {
        var i :| 0 <= i < |q| && q[i] == r;
        assert w[if i < j then i else i - 1] == r;
      }
    }
  }

  /** A thread's move on one OVERLAPPED changes nothing for the others. */
  lemma {:induction false} Elsewhere(s: Engine, s': Engine, t: nat, o: nat)
    requires t < |s.calls| == |s'.calls| && s'.calls == s.calls[t := s'.calls[t]]
    requires On(s'.calls[t]) != Some(o) && On(s.calls[t]) != Some(o)
    requires forall r: Read :: r.ov == o ==> (r in s'.queue <==> r in s.queue)
    requires StatusOf(s', o) == StatusOf(s, o) && PendingRight(s, o)
    ensures PendingRight(s', o)
  {
    assert forall u :: 0 <= u < |s.calls| && u != t ==> s'.calls[u] == s.calls[u];
    assert QueuedOn(s'.queue, o) <==> QueuedOn(s.queue, o);
    assert Owned(s', o) <==> Owned(s, o);
    assert ReadFileUnderWay(s', o) <==> ReadFileUnderWay(s, o);
  }

  lemma {:induction false} SubmitInv(s: Engine, e: Event)
    requires StatusInv(s) && e.Submit? && Allowed(s, e)
    ensures StatusInv(Step(s, e))
  {
    hide InFlight, PendingRight;
    var s' := Step(s, e);
    var t := e.t;
    if t < |s.calls| && s.calls[t].Idle? {
      var q := s'.queue[|s.queue|];
      assert forall r :: r in s'.queue <==> r in s.queue || r == q;
      SubmitApart(s, e);
      SubmitExclusive(s, e);
      forall o ensures PendingRight(s', o) {
        if o != e.o { Elsewhere(s, s', t, o); } else { SubmitPending(s, e); }
      }
    }
  }

  lemma {:induction false} SubmitApart(s: Engine, e: Event)
    requires Apart(s) && Exclusive(s) && e.Submit? && Allowed(s, e)
    ensures Apart(Step(s, e))
  {
    hide Exclusive, StatusOf;
    var s' := Step(s, e);
    var t := e.t;
    if t < |s.calls| && s.calls[t].Idle? {
      var q := s'.queue[|s.queue|];
      assert forall r :: r in s'.queue <==> r in s.queue || r == q;
      assert forall u :: 0 <= u < |s.calls| && u != t ==> On(s'.calls[u]) != Some(e.o);
    }
  }

  lemma {:induction false} SubmitExclusive(s: Engine, e: Event)
    requires Apart(s) && Exclusive(s) && e.Submit? && Allowed(s, e)
    ensures Exclusive(Step(s, e))
  {
    hide Apart, StatusOf;
    var s' := Step(s, e);
    var t := e.t;
    if t < |s.calls| && s.calls[t].Idle? {
      var q := s'.queue[|s.queue|];
      assert forall r :: r in s'.queue <==> r in s.queue || r == q;
      assert forall u :: 0 <= u < |s.calls| && u != t ==> On(s'.calls[u]) != Some(e.o);
    }
  }

  lemma {:induction false} SubmitPending(s: Engine, e: Event)
    requires e.Submit? && e.t < |s.calls| && s.calls[e.t].Idle? && PendingRight(s, e.o) && Allowed(s, e)
    ensures PendingRight(Step(s, e), e.o)
  {
    assert Step(s, e).calls[e.t].Storing?;
    assert ReadFileUnderWay(Step(s, e), e.o);
  }

  lemma {:induction false} MarkInv(s: Engine, t: nat)
    requires StatusInv(s)
    ensures StatusInv(Step(s, MarkPending(t)))
  {
    hide PendingRight, StatusOf;
    var s' := Step(s, MarkPending(t));
    if At(s, t).Storing? {
      var r := s.calls[t].r;
      assert Apart(s') && Exclusive(s');
      forall o ensures PendingRight(s', o) {
        if o != r.ov { StatusElsewhere(s, s', o, r.ov); Elsewhere(s, s', t, o); } else { MarkPendingRight(s, t); }
      }
    }
  }

  lemma StatusElsewhere(s: Engine, s': Engine, o: nat, p: nat)
    requires o != p && p in s'.status && s'.status == s.status[p := s'.status[p]]
    ensures StatusOf(s', o) == StatusOf(s, o)
  {
  }

  lemma {:induction false} MarkPendingRight(s: Engine, t: nat)
    requires Exclusive(s) && At(s, t).Storing?
    ensures PendingRight(Step(s, MarkPending(t)), s.calls[t].r.ov)
  {
    var s' := Step(s, MarkPending(t));
    assert s.calls[t].r in s'.queue;
    assert forall u :: 0 <= u < |s.calls| && u != t ==> s'.calls[u] == s.calls[u];
  }

  lemma {:induction false} CheckInv(s: Engine, t: nat, o: nat)
    requires StatusInv(s)
    ensures StatusInv(Step(s, Check(t, o)))
  {
    hide PendingRight;
    var s' := Step(s, Check(t, o));
    if At(s, t).Idle? && t < |s.calls| && StatusOf(s, o).pending {
      NotUnderWay(s, o);
      CheckApart(s, t, o);
      CheckExclusive(s, t, o);
      forall p ensures PendingRight(s', p) { SameFlight(s, s', t, p); }
    }
  }

  lemma {:induction false} CheckApart(s: Engine, t: nat, o: nat)
    requires Apart(s) && At(s, t).Idle?
    ensures Apart(Step(s, Check(t, o)))
  {
    hide StatusOf;
    assert forall u :: 0 <= u < |s.calls| && u != t ==> Step(s, Check(t, o)).calls[u] == s.calls[u];
  }

  lemma {:induction false} CheckExclusive(s: Engine, t: nat, o: nat)
    requires Exclusive(s) && At(s, t).Idle?
    requires forall u :: 0 <= u < |s.calls| && On(s.calls[u]) == Some(o) ==> !s.calls[u].Storing?
    ensures Exclusive(Step(s, Check(t, o)))
  {
    hide StatusOf;
    assert forall u :: 0 <= u < |s.calls| && u != t ==> Step(s, Check(t, o)).calls[u] == s.calls[u];
  }

  lemma {:induction false} NotUnderWay(s: Engine, o: nat)
    requires StatusInv(s) && StatusOf(s, o).pending
    ensures !ReadFileUnderWay(s, o) && InFlight(s, o)
    ensures forall u :: 0 <= u < |s.calls| && On(s.calls[u]) == Some(o) ==> !s.calls[u].Storing?
  {
    assert PendingRight(s, o);
  }

  /** A move that keeps the queue, what the thread owns and whether it is in ReadFile keeps what is pending. */
  lemma {:induction false} SameFlight(s: Engine, s': Engine, t: nat, o: nat)
    requires t < |s.calls| == |s'.calls| && s'.calls == s.calls[t := s'.calls[t]] && s'.queue == s.queue
    requires Owner(s.calls[t]) <==> Owner(s'.calls[t])
    requires Owner(s.calls[t]) ==> On(s.calls[t]) == On(s'.calls[t])
    requires !s.calls[t].Storing? && !s'.calls[t].Storing?
    requires StatusOf(s', o).pending == StatusOf(s, o).pending && PendingRight(s, o)
    ensures PendingRight(s', o)
  {
    assert forall u :: 0 <= u < |s.calls| && u != t ==> s'.calls[u] == s.calls[u];
    assert Owned(s', o) <==> Owned(s, o);
    assert ReadFileUnderWay(s', o) <==> ReadFileUnderWay(s, o);
  }

  lemma {:induction false} TakeInv(s: Engine, t: nat)
    requires StatusInv(s)
    ensures StatusInv(Step(s, Take(t)))
  {
    hide PendingRight, Find, Without;
    var s' := Step(s, Take(t));
    if At(s, t).Polling? {
      var o := s.calls[t].ov;
      if Find(s.queue, o) < |s.queue| {
        WithoutIs(s.queue, o);
        FoundThere(s.queue, o);
        TakeApart(s, t);
        forall p ensures PendingRight(s', p) {
          if p != o { Elsewhere(s, s', t, p); } else { TakePending(s, t); }
        }
      } else {
        TakeMisses(s, t);
      }
    }
  }

  /** A thread that is done, and was not in ReadFile, leaves the rest apart. */
  lemma {:induction false} DoneApart(s: Engine, s': Engine, t: nat)
    requires Apart(s) && Exclusive(s) && t < |s.calls| && !s.calls[t].Storing?
    requires s'.calls == s.calls[t := Idle] && s'.queue == s.queue
    ensures Apart(s') && Exclusive(s')
  {
    assert forall u :: 0 <= u < |s.calls| && u != t ==> s'.calls[u] == s.calls[u];
  }

  lemma {:induction false} TakeMisses(s: Engine, t: nat)
    requires StatusInv(s) && At(s, t).Polling? && Find(s.queue, s.calls[t].ov) == |s.queue|
    ensures StatusInv(Step(s, Take(t)))
  {
    hide PendingRight, Find, Without, StatusOf, Apart, Exclusive;
    var s' := Step(s, Take(t));
    DoneApart(s, s', t);
    forall p ensures PendingRight(s', p) {
      SameStatus(s, s', p);
      SameFlight(s, s', t, p);
    }
  }

  lemma SameStatus(s: Engine, s': Engine, o: nat)
    requires s'.status == s.status
    ensures StatusOf(s', o) == StatusOf(s, o)
  {
  }

  lemma FoundThere(q: seq<Read>, o: nat)
    requires Find(q, o) < |q|
    ensures q[Find(q, o)].ov == o && q[Find(q, o)] in q
  {
  }

  lemma {:induction false} TakeApart(s: Engine, t: nat)
    requires StatusInv(s) && At(s, t).Polling? && Find(s.queue, s.calls[t].ov) < |s.queue|
    ensures Apart(Step(s, Take(t))) && Exclusive(Step(s, Take(t)))
  {
    hide PendingRight, StatusOf, Find, Without;
    var s' := Step(s, Take(t));
    var o := s.calls[t].ov;
    WithoutIs(s.queue, o);
    FoundThere(s.queue, o);
    assert forall u :: 0 <= u < |s.calls| && u != t ==> s'.calls[u] == s.calls[u];
    assert On(s'.calls[t]) == On(s.calls[t]) == Some(o);
  }

  lemma {:induction false} TakePending(s: Engine, t: nat)
    requires StatusInv(s) && At(s, t).Polling? && Find(s.queue, s.calls[t].ov) < |s.queue|
    ensures PendingRight(Step(s, Take(t)), s.calls[t].ov)
  {
    hide Find, Without, Apart;
    var s' := Step(s, Take(t));
    var o := s.calls[t].ov;
    FoundThere(s.queue, o);
    assert PendingRight(s, o);
    assert QueuedOn(s.queue, o);
    assert !ReadFileUnderWay(s, o);
    assert forall u :: 0 <= u < |s.calls| && u != t ==> s'.calls[u] == s.calls[u];
    assert Owner(s'.calls[t]) && On(s'.calls[t]) == Some(o);
    assert !ReadFileUnderWay(s', o);
  }

  lemma {:induction false} RecvInv(s: Engine, t: nat)
    requires StatusInv(s)
    ensures StatusInv(Step(s, Recv(t)))
  {
    hide PendingRight, Readable, MacMatches;
    var s' := Step(s, Recv(t));
    if At(s, t).Holding? {
      assert Owner(s'.calls[t]) && s'.calls[t].r == s.calls[t].r && s'.queue == s.queue && s'.status == s.status;
      assert s'.calls == s.calls[t := s'.calls[t]];
      SameOwner(s, s', t);
    }
  }

  lemma {:induction false} SameOwner(s: Engine, s': Engine, t: nat)
    requires StatusInv(s) && t < |s.calls| == |s'.calls| && s'.calls == s.calls[t := s'.calls[t]]
    requires Owner(s.calls[t]) && Owner(s'.calls[t]) && s'.calls[t].r == s.calls[t].r
    requires s'.queue == s.queue && s'.status == s.status
    ensures StatusInv(s')
  {
    hide PendingRight;
    assert forall u :: 0 <= u < |s.calls| && u != t ==> s'.calls[u] == s.calls[u];
    assert Apart(s') && Exclusive(s');
    forall o ensures PendingRight(s', o) { SameFlight(s, s', t, o); }
  }

  lemma {:induction false} RequeueInv(s: Engine, t: nat)
    requires StatusInv(s)
    ensures StatusInv(Step(s, Requeue(t)))
  {
    hide PendingRight;
    var s' := Step(s, Requeue(t));
    if At(s, t).Giving? {
      var q := s.calls[t].r;
      assert forall r :: r in s'.queue <==> r in s.queue || r == q;
      assert forall u :: 0 <= u < |s.calls| && u != t ==> s'.calls[u] == s.calls[u];
      RequeueApart(s, t);
      RequeueExclusive(s, t);
      forall p ensures PendingRight(s', p) {
        if p != q.ov { Elsewhere(s, s', t, p); } else { RequeuePending(s, t); }
      }
    }
  }

  lemma {:induction false} RequeueApart(s: Engine, t: nat)
    requires StatusInv(s) && At(s, t).Giving?
    ensures Apart(Step(s, Requeue(t)))
  {
    hide PendingRight, StatusOf, Exclusive;
    var s' := Step(s, Requeue(t));
    var q := s.calls[t].r;
    assert forall r :: r in s'.queue <==> r in s.queue || r == q;
    assert forall u :: 0 <= u < |s.calls| && u != t ==> s'.calls[u] == s.calls[u];
  }

  lemma {:induction false} RequeueExclusive(s: Engine, t: nat)
    requires StatusInv(s) && At(s, t).Giving?
    ensures Exclusive(Step(s, Requeue(t)))
  {
    hide PendingRight, StatusOf, Apart;
    var s' := Step(s, Requeue(t));
    var q := s.calls[t].r;
    assert forall r :: r in s'.queue <==> r in s.queue || r == q;
    assert forall u :: 0 <= u < |s.calls| && u != t ==> s'.calls[u] == s.calls[u];
    assert forall u :: 0 <= u < |s.calls| && u != t ==> !(s.calls[u].Landing? && On(s.calls[u]) == Some(q.ov));
  }

  lemma {:induction false} RequeuePending(s: Engine, t: nat)
    requires StatusInv(s) && At(s, t).Giving?
    ensures PendingRight(Step(s, Requeue(t)), s.calls[t].r.ov)
  {
    hide Apart;
    var s' := Step(s, Requeue(t));
    var q := s.calls[t].r;
    assert PendingRight(s, q.ov) && Owned(s, q.ov);
    assert q in s'.queue;
    assert forall u :: 0 <= u < |s.calls| && u != t ==> s'.calls[u] == s.calls[u];
  }

  lemma {:induction false} CompleteInv(s: Engine, t: nat)
    requires StatusInv(s)
    ensures StatusInv(Step(s, Complete(t)))
  {
    hide PendingRight, StatusOf, Block;
    var s' := Step(s, Complete(t));
    if At(s, t).Matched? {
      var q := s.calls[t].r;
      assert forall u :: 0 <= u < |s.calls| && u != t ==> s'.calls[u] == s.calls[u];
      assert Apart(s');
      CompleteExclusive(s, t);
      forall p ensures PendingRight(s', p) {
        if p != q.ov { StatusElsewhere(s, s', p, q.ov); Elsewhere(s, s', t, p); } else { CompletePending(s, t); }
      }
    }
  }

  lemma {:induction false} CompleteExclusive(s: Engine, t: nat)
    requires StatusInv(s) && At(s, t).Matched?
    ensures Exclusive(Step(s, Complete(t)))
  {
    hide PendingRight, Block, StatusOf;
    var s' := Step(s, Complete(t));
    assert forall u :: 0 <= u < |s.calls| && u != t ==> s'.calls[u] == s.calls[u];
    assert On(s'.calls[t]) == On(s.calls[t]);
    assert forall u :: 0 <= u < |s.calls| && u != t && On(s.calls[u]) == On(s.calls[t]) ==> s.calls[u].Polling?;
  }

  lemma {:induction false} CompletePending(s: Engine, t: nat)
    requires StatusInv(s) && At(s, t).Matched?
    ensures PendingRight(Step(s, Complete(t)), s.calls[t].r.ov)
  {
    hide Block;
    var s' := Step(s, Complete(t));
    var o := s.calls[t].r.ov;
    assert forall u :: 0 <= u < |s.calls| && u != t ==> s'.calls[u] == s.calls[u];
    assert !Owned(s', o) && !QueuedOn(s'.queue, o);
    assert !StatusOf(s', o).pending;
  }

  lemma {:induction false} StoreCountInv(s: Engine, t: nat)
    requires StatusInv(s)
    ensures StatusInv(Step(s, StoreCount(t)))
  {
    hide PendingRight, Apart, Exclusive;
    var s' := Step(s, StoreCount(t));
    if At(s, t).Landing? {
      DoneApart(s, s', t);
      forall o ensures PendingRight(s', o) { SameFlight(s, s', t, o); }
    }
  }

  lemma {:induction false} OtherInv(s: Engine, e: Event)
    requires StatusInv(s) && (e.SetMac? || e.Arrive?)
    ensures StatusInv(Step(s, e))
  {
    hide PendingRight;
    var s' := Step(s, e);
    assert s'.calls == s.calls && s'.queue == s.queue && s'.status == s.status;
    assert Apart(s') && Exclusive(s');
    forall o ensures PendingRight(s', o) { SamePending(s, s', o); }
  }

  lemma SamePending(s: Engine, s': Engine, o: nat)
    requires s'.calls == s.calls && s'.queue == s.queue && s'.status == s.status && PendingRight(s, o)
    ensures PendingRight(s', o)
  {
  }

  lemma {:induction false} StepInv(s: Engine, e: Event)
    requires StatusInv(s) && Allowed(s, e)
    ensures StatusInv(Step(s, e))
  {
    hide StatusInv, Step, Allowed;
    match e
    case SetMac(_) => OtherInv(s, e);
    case Arrive(_, _) => OtherInv(s, e);
    case Submit(_, _, _, _) => SubmitInv(s, e);
    case MarkPending(t) => MarkInv(s, t);
    case Check(t, o) => CheckInv(s, t, o);
    case Take(t) => TakeInv(s, t);
    case Recv(t) => RecvInv(s, t);
    case Requeue(t) => RequeueInv(s, t);
    case Complete(t) => CompleteInv(s, t);
    case StoreCount(t) => StoreCountInv(s, t);
  }

  /** What a poll answers is true exactly when no ReadFile on its OVERLAPPED is still under way: a poll that
      comes before ReadFile has stored STATUS_PENDING reports a read as complete that is not. */
  lemma {:induction false} PollTellsTruthIff(s: Engine, o: nat)
    requires StatusInv(s)
    ensures (StatusOf(s, o).pending <==> InFlight(s, o)) <==> !ReadFileUnderWay(s, o)
  {
    assert PendingRight(s, o);
    if t :| 0 <= t < |s.calls| && s.calls[t].Storing? && On(s.calls[t]) == Some(o) {
      assert s.calls[t].r in s.queue;
    }
  }

  // ---------- The byte count ----------

  /** The last completion on an OVERLAPPED. */
  function Latest(cs: seq<Completion>, o: nat): Option<Completion> {
    if cs == [] then None
    else if cs[|cs| - 1].r.ov == o then Some(cs[|cs| - 1])
    else Latest(cs[..|cs| - 1], o)
  }

  function Size(c: Completion): nat { |Block(c.frame, c.r.buflen)| }

  ghost predicate CountRight(s: Engine, o: nat) {
    Latest(s.done, o).Some? && !CountUnderWay(s, o) ==> StatusOf(s, o).count == Size(Latest(s.done, o).value)
  }

  ghost predicate CountInv(s: Engine) {
    && (forall t :: 0 <= t < |s.calls| && s.calls[t].Landing? ==>
          var l := Latest(s.done, s.calls[t].r.ov); l.Some? && s.calls[t].count == Size(l.value))
    && forall o :: CountRight(s, o)
  }

  lemma {:induction false} LatestSnoc(cs: seq<Completion>, c: Completion, o: nat)
    ensures Latest(cs + [c], o) == if c.r.ov == o then Some(c) else Latest(cs, o)
  {
    assert (cs + [c])[..|cs|] == cs;
  }

  lemma {:induction false} CompleteCount(s: Engine, t: nat)
    requires StatusInv(s) && CountInv(s)
    ensures CountInv(Step(s, Complete(t)))
  {
    hide Apart, PendingRight, Block, Latest;
    var s' := Step(s, Complete(t));
    if At(s, t).Matched? {
      var c := Completion(s.calls[t].r, s.calls[t].frame, s.calls[t].mac);
      assert forall u :: 0 <= u < |s.calls| && u != t ==> s'.calls[u] == s.calls[u];
      forall u | 0 <= u < |s'.calls| && s'.calls[u].Landing?
        ensures var l := Latest(s'.done, s'.calls[u].r.ov); l.Some? && s'.calls[u].count == Size(l.value)
      {
        LatestSnoc(s.done, c, s'.calls[u].r.ov);
      }
      forall o ensures CountRight(s', o) {
        LatestSnoc(s.done, c, o);
        if o == c.r.ov {
          assert s'.calls[t].Landing? && On(s'.calls[t]) == Some(o);
        } else {
          assert CountRight(s, o);
          assert CountUnderWay(s', o) <==> CountUnderWay(s, o);
        }
      }
    }
  }

  lemma {:induction false} StoreCountCount(s: Engine, t: nat)
    requires StatusInv(s) && CountInv(s)
    ensures CountInv(Step(s, StoreCount(t)))
  {
    hide Apart, PendingRight, Block, Latest;
    var s' := Step(s, StoreCount(t));
    if At(s, t).Landing? {
      assert forall u :: 0 <= u < |s.calls| && u != t ==> s'.calls[u] == s.calls[u];
      forall o ensures CountRight(s', o) {
        assert CountRight(s, o);
        if o != s.calls[t].r.ov { assert CountUnderWay(s', o) <==> CountUnderWay(s, o); }
      }
    }
  }

  /** Every other step leaves the completions, the counts and the counts under way alone. */
  lemma {:induction false} StepCount(s: Engine, e: Event)
    requires StatusInv(s) && CountInv(s)
    ensures CountInv(Step(s, e))
  {
    hide StatusInv, Apart, Exclusive, PendingRight, Block, Latest, Find, Without, Readable, MacMatches;
    if e.Complete? { CompleteCount(s, e.t); }
    else if e.StoreCount? { StoreCountCount(s, e.t); }
    else {
      hide Step;
      PlainStep(s, e);
      var s' := Step(s, e);
      forall o ensures CountRight(s', o) {
        assert CountRight(s, o);
        assert CountUnderWay(s', o) <==> CountUnderWay(s, o);
      }
    }
  }

  lemma {:induction false} PlainStep(s: Engine, e: Event)
    requires !e.Complete? && !e.StoreCount?
    ensures var s' := Step(s, e);
            && s'.done == s.done && |s'.calls| == |s.calls|
            && (forall u :: 0 <= u < |s.calls| ==> (s'.calls[u].Landing? <==> s.calls[u].Landing?))
            && (forall u :: 0 <= u < |s.calls| && s.calls[u].Landing? ==> s'.calls[u] == s.calls[u])
            && (forall o :: StatusOf(s', o).count == StatusOf(s, o).count)
  {
    hide Find, Without, Readable, MacMatches;
    match e
    case MarkPending(t) =>
    case Recv(t) =>
    case Take(t) =>
    case _ =>
  }

  /** Between the two stores of a completing poll, another poll on the same OVERLAPPED is told that the read is
      done but gets the count stored before, which is right only by coincidence; the second store puts it right. */
  lemma {:induction false} CountLags(s: Engine, t: nat)
    requires At(s, t).Matched?
    ensures var (o, size) := (s.calls[t].r.ov, |Block(s.calls[t].frame, s.calls[t].r.buflen)|);
            var s1 := Step(s, Complete(t));
            && !StatusOf(s1, o).pending
            && (StatusOf(s1, o).count == size <==> StatusOf(s, o).count == size)
            && StatusOf(Step(s1, StoreCount(t)), o) == Status(false, size)
  {
    hide Block;
  }

  /** Over any interleaving of any number of threads, as long as the application reuses an OVERLAPPED only when its
      read is over: polls are right about completion exactly while ReadFile is not still under way, and
      right about the count of the last completed read unless a store of the count is under way. */
  lemma {:induction false} RunTruth(s: Engine, es: seq<Event>)
    requires StatusInv(s) && CountInv(s) && AllAllowed(s, es)
    ensures StatusInv(Run(s, es)) && CountInv(Run(s, es))
    ensures forall o ::
              (StatusOf(Run(s, es), o).pending <==> InFlight(Run(s, es), o)) <==> !ReadFileUnderWay(Run(s, es), o)
    decreases |es|
  {
    hide StatusInv, CountInv, Step, InFlight, ReadFileUnderWay, StatusOf;
    if es == [] {
      forall o { PollTellsTruthIff(s, o); }
    } else {
      StepInv(s, es[0]);
      StepCount(s, es[0]);
      RunTruth(Step(s, es[0]), es[1..]);
    }
  }

  lemma StartCount(threads: nat)
    ensures CountInv(Start(threads))
  {
  }

  /** The same from the opening of the handle on, with every read in exactly one place. */
  lemma {:induction false} RunFromStart(threads: nat, es: seq<Event>)
    requires AllAllowed(Start(threads), es)
    ensures var s := Run(Start(threads), es);
            && Conserved(s) && StatusInv(s) && CountInv(s)
            && forall o :: (StatusOf(s, o).pending <==> InFlight(s, o)) <==> !ReadFileUnderWay(s, o)
  {
    hide StatusInv, CountInv, Step, InFlight, ReadFileUnderWay, StatusOf, Conserved, Run, AllAllowed;
    StartInv(threads);
    StartCount(threads);
    StartConserves(threads);
    RunConserves(Start(threads), es);
    RunTruth(Start(threads), es);
  }

  // ---------- The same, told from the reads submitted and completed ----------

  ghost predicate Unfinished(s: Engine, o: nat) {
    exists r :: r in s.submitted && r.ov == o && forall c :: c in s.done ==> c.r != r
  }

  /** The i-th completion is the last on this OVERLAPPED. */
  ghost predicate LastOn(s: Engine, o: nat, i: nat) {
    i < |s.done| && s.done[i].r.ov == o && forall j :: i < j < |s.done| ==> s.done[j].r.ov != o
  }

  lemma {:induction false} InFlightIs(s: Engine, o: nat)
    requires Conserved(s)
    ensures InFlight(s, o) <==> Unfinished(s, o)
  {
    hide Conserved;
    if r :| r in s.queue && r.ov == o { NotDone(s, r); }
    if t :| 0 <= t < |s.calls| && Owner(s.calls[t]) && On(s.calls[t]) == Some(o) {
      assert Has(s.calls[t], s.calls[t].r);
      NotDone(s, s.calls[t].r);
    }
    if r :| r in s.submitted && r.ov == o && forall c :: c in s.done ==> c.r != r {
      OneRead(s, r);
      if r !in s.queue {
        var t :| 0 <= t < |s.calls| && Has(s.calls[t], r);
        assert Owner(s.calls[t]) && On(s.calls[t]) == Some(o);
      }
    }
  }

  lemma NotDone(s: Engine, r: Read)
    requires Conserved(s) && (r in s.queue || HeldBySome(s, r))
    ensures r in s.submitted && forall c :: c in s.done ==> c.r != r
  {
    hide Conserved;
    OneRead(s, r);
  }

  lemma {:induction false} LatestIs(cs: seq<Completion>, o: nat, i: nat)
    requires i < |cs| && cs[i].r.ov == o && forall j :: i < j < |cs| ==> cs[j].r.ov != o
    ensures Latest(cs, o) == Some(cs[i])
    decreases |cs|
  {
    if i < |cs| - 1 { LatestIs(cs[..|cs| - 1], o, i); }
  }

  /** The two fields at any moment of any such run. Internal says pending exactly while some read submitted on the
      OVERLAPPED has not completed, except that it does not yet while a ReadFile on it is still to store so.
      InternalHigh then is the size of the last block given to a read on it: eight bytes more than its frame, or
      what the buffer holds if that is less; except while a poll is still to store it. */
  lemma {:induction false} FieldsTell(threads: nat, es: seq<Event>, o: nat)
    requires AllAllowed(Start(threads), es)
    ensures var s := Run(Start(threads), es);
            && (!ReadFileUnderWay(s, o) ==> (StatusOf(s, o).pending <==> Unfinished(s, o)))
            && (ReadFileUnderWay(s, o) ==> !StatusOf(s, o).pending && Unfinished(s, o))
            && forall i: nat :: LastOn(s, o, i) && !CountUnderWay(s, o) ==>
                 var n := 8 + |s.done[i].frame|;
                 StatusOf(s, o).count == if n < s.done[i].r.buflen then n else s.done[i].r.buflen
  {
    hide Step, InFlight, ReadFileUnderWay, StatusOf, Conserved, Run, AllAllowed, Block, Latest, Unfinished,
        CountUnderWay;
    var s := Run(Start(threads), es);
    RunFromStart(threads, es);
    InFlightIs(s, o);
    assert PendingRight(s, o) && CountRight(s, o);
    if ReadFileUnderWay(s, o) { assert InFlight(s, o) by { UnderWayInFlight(s, o); } }
    forall i: nat | LastOn(s, o, i) && !CountUnderWay(s, o)
      ensures var n := 8 + |s.done[i].frame|;
              StatusOf(s, o).count == if n < s.done[i].r.buflen then n else s.done[i].r.buflen
    {
      LatestIs(s.done, o, i);
      BlockIs(s.done[i].frame, s.done[i].r.buflen);
    }
  }

  lemma {:induction false} UnderWayInFlight(s: Engine, o: nat)
    requires Exclusive(s) && ReadFileUnderWay(s, o)
    ensures InFlight(s, o)
  {
    var t :| 0 <= t < |s.calls| && s.calls[t].Storing? && On(s.calls[t]) == Some(o);
    assert s.calls[t].r in s.queue;
  }
}
