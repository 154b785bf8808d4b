/** Delivery to one registered read: the schedules of `Schedules` are runs of the whole system, and the read has
    completed exactly when the schedule says. */
module Delivery {
  import opened Basics
  import opened Wire
  import opened Receive
  import opened PendingQueue
  import opened ReadEngine
  import opened Bridge
  import opened Schedules
  import P = Pipe
  import RS = ReadStatus

  function IndexIn(cs: seq<nat>, a: nat): (x: nat)
    requires a in cs
    ensures x < |cs| && cs[x] == a
  {
    if cs[0] == a then 0 else 1 + IndexIn(cs[1..], a)
  }

  /** An item as steps of application, network and bridge, for the read r. */
  function Do(s: P.Sys, r: Read, it: Item): (s': P.Sys)
    requires |s.buf| == BUFFER_SIZE
    ensures |s'.buf| == BUFFER_SIZE
  {
    match it
    case Frame(f) =>
      var s1 := P.Step(s, P.TapRead(f));
      if f != [] && r.sock.Some? && r.sock.value in s.clients
      then P.Step(s1, P.Deliver(r.id, |s.down| + IndexIn(s.clients, r.sock.value)))
      else s1
    case From(i) => P.Step(s, P.Receive(i))
    case Filter(m) => P.Step(s, P.Hook(SetMac(m)))
    case Poll(t) => s.(eng := PollSteps(s.eng, t, r.ov))
    case Other(e) => P.Step(s, e)
  }

  function DoAll(s: P.Sys, r: Read, items: seq<Item>): (s': P.Sys)
    requires |s.buf| == BUFFER_SIZE
    ensures |s'.buf| == BUFFER_SIZE
  {
    if items == [] then s else Do(DoAll(s, r, items[..|items| - 1]), r, items[|items| - 1])
  }

  /** A step of the hooks that begins nothing on the read's OVERLAPPED. */
  predicate HookElsewhere(r: Read, h: ReadEngine.Event) {
    !h.SetMac? && !h.Arrive? && (h.Submit? || h.Check? ==> h.o != r.ov)
  }

  /** What Other stands for: the rest of the application, the steps of its reads and calls one by one, and the
      network to other reads. */
  predicate Elsewhere(r: Read, e: P.Event) {
    match e
    case Hook(h) => HookElsewhere(r, h)
    case Deliver(id, _) => id != r.id
    case TapRead(_) => false
    case Receive(_) => false
    case _ => true
  }

  /** Polls of the read come from threads between calls; the rest is elsewhere. */
  ghost predicate Fair(s: P.Sys, r: Read, it: Item) {
    match it
    case Poll(t) => t < |s.eng.calls| && s.eng.calls[t].Idle?
    case Other(e) => Elsewhere(r, e)
    case _ => true
  }

  ghost predicate FairAll(s: P.Sys, r: Read, items: seq<Item>)
    requires |s.buf| == BUFFER_SIZE
  {
    items == [] || (FairAll(s, r, items[..|items| - 1])
        && Fair(DoAll(s, r, items[..|items| - 1]), r, items[|items| - 1]))
  }

  ghost predicate HasCompleted(e: Engine, r: Read) {
    exists c :: c in e.done && c.r == r
  }

  /** The read has completed with this frame. */
  ghost predicate CompletedWith(e: Engine, r: Read, f: Bytes) {
    exists c :: c in e.done && c.r == r && c.frame == f
  }

  // ---------- The system is where the scene says ----------

  /** No call is on the read's OVERLAPPED. */
  ghost predicate NotOn(e: Engine, o: nat) {
    forall u :: 0 <= u < |e.calls| ==> RS.On(e.calls[u]) != Some(o)
  }

  /** The read is queued and the only one on its OVERLAPPED. */
  ghost predicate Alone(q: seq<Read>, r: Read) {
    r in q && forall p :: p in q && p.ov == r.ov ==> p == r
  }

  ghost predicate ReadTracked(e: Engine, v: Scene, r: Read) {
    && e.mac == v.mac && Conserved(e) && NotOn(e, r.ov)
    && r.id < |e.submitted| && e.submitted[r.id] == r && r.sock.Some?
    && (v.got.None? ==>
          Alone(e.queue, r) && StatusOf(e, r.ov).pending && Mail(e, r.id) == v.mail && !HasCompleted(e, r))
    && (v.got.Some? ==> !StatusOf(e, r.ov).pending && HasCompleted(e, r) && CompletedWith(e, r, v.got.value))
  }

  function Froms(up: seq<P.Sent>): (from: seq<nat>)
    ensures |from| == |up| && forall i :: 0 <= i < |up| ==> from[i] == up[i].from
  {
    seq(|up|, i requires 0 <= i < |up| => up[i].from)
  }

  ghost predicate Tracks(s: P.Sys, v: Scene, r: Read) {
    |s.buf| == BUFFER_SIZE && v.senders == Froms(s.up) && s.clients == v.clients && ReadTracked(s.eng, v, r)
  }

  lemma {:induction false} AloneFound(q: seq<Read>, r: Read)
    requires Alone(q, r)
    ensures Find(q, r.ov) < |q| && q[Find(q, r.ov)] == r && Alone(Polled(q, r.ov), r)
  {
    hide Find, Polled, Without;
    var j := Find(q, r.ov);
    var i :| 0 <= i < |q| && q[i] == r;
    assert q[j] in q;
    PolledKeeps(q, r.ov);
    assert multiset(Polled(q, r.ov))[r] > 0;
    forall p | p in Polled(q, r.ov) ensures p in q { assert p in multiset(Polled(q, r.ov)); }
  }

  lemma {:induction false} PollTracked(e: Engine, v: Scene, r: Read, t: nat)
    requires ReadTracked(e, v, r) && t < |e.calls| && e.calls[t].Idle?
    ensures ReadTracked(PollSteps(e, t, r.ov), Play(v, r.sock.value, Poll(t)), r)
  {
    hide Find, Without, Polled, Found, Taken, PollSteps, StatusOf, Block, OthersKeep, HasCompleted, CompletedWith, Mail,
        Conserved, Alone, NotOn, PollEvents;
    PollAlone(e, t, r.ov);
    PollIsRun(e, t, r.ov);
    RunConserves(e, PollEvents(e, t, r.ov));
    var e' := PollSteps(e, t, r.ov);
    SameCalls(e, e', r.ov);
    if v.got.None? {
      AloneFound(e.queue, r);
      var f := Found(v.mac, v.mail);
      if f.Some? {
        CompletedNow(e, e', Completion(r, f.value, e.mac));
      } else {
        SameStatus(e, e', r);
      }
    }
  }

  lemma SameCalls(e: Engine, e': Engine, o: nat)
    requires NotOn(e, o) && e'.calls == e.calls
    ensures NotOn(e', o)
  {
  }

  lemma CompletedNow(e: Engine, e': Engine, c: Completion)
    requires e'.done == e.done + [c]
    ensures HasCompleted(e', c.r) && CompletedWith(e', c.r, c.frame)
  {
    assert c in e'.done;
  }

  lemma SameStatus(e: Engine, e': Engine, r: Read)
    requires e'.status == e.status && e'.done == e.done
    ensures StatusOf(e', r.ov) == StatusOf(e, r.ov) && (HasCompleted(e', r) <==> HasCompleted(e, r))
    ensures forall f :: CompletedWith(e, r, f) ==> CompletedWith(e', r, f)
  {
  }

  lemma {:induction false} ArriveTracked(e: Engine, v: Scene, r: Read, d: Bytes)
    requires ReadTracked(e, v, r)
    ensures ReadTracked(ReadEngine.Step(e, Arrive(r.id, d)), v.(mail := v.mail + [d]), r)
  {
    hide Conserved, Alone;
    StepConserves(e, Arrive(r.id, d));
  }

  lemma {:induction false} FilterTracked(e: Engine, v: Scene, r: Read, m: Bytes)
    requires ReadTracked(e, v, r)
    ensures ReadTracked(ReadEngine.Step(e, SetMac(m)), if |m| == MAC_SIZE then v.(mac := Some(m)) else v, r)
  {
    hide Conserved, Alone;
    StepConserves(e, SetMac(m));
  }

  lemma {:induction false} MailElsewhere(e: Engine, v: Scene, r: Read, id: nat, d: Bytes)
    requires ReadTracked(e, v, r) && id != r.id
    ensures ReadTracked(ReadEngine.Step(e, Arrive(id, d)), v, r)
  {
    hide Conserved, Alone;
    StepConserves(e, Arrive(id, d));
  }

  // ---------- Steps of other calls ----------

  /** A read a thread holds is one that was submitted. */
  lemma {:induction false} HeldSubmitted(e: Engine, t: nat)
    requires Conserved(e) && At(e, t).Holding?
    ensures var r := e.calls[t].r; r.id < |e.submitted| && e.submitted[r.id] == r
  {
    hide Completed, Queued;
    var r := e.calls[t].r;
    HeldThere(e.calls, t, r);
    assert Places(e, r) == if r in e.submitted then 1 else 0;
  }

  lemma {:induction false} HeldThere(cs: seq<Call>, t: nat, r: Read)
    requires t < |cs| && cs[t].Holding? && cs[t].r == r
    ensures Held(cs, r) > 0
    decreases t
  {
    if t > 0 { HeldThere(cs[1..], t - 1, r); }
  }

  lemma {:induction false} StillAlone(q: seq<Read>, r: Read, o: nat)
    requires Alone(q, r) && o != r.ov && Find(q, o) < |q|
    ensures Alone(Without(q, o), r)
  {
    hide Find;
    CutKeeps(q, Find(q, o), r);
    CutWithin(q, Find(q, o));
  }

  /** A step of another call, whichever thread makes it, does not touch the read. */
  lemma {:induction false} HookTracked(e: Engine, v: Scene, r: Read, h: ReadEngine.Event)
    requires ReadTracked(e, v, r) && HookElsewhere(r, h)
    ensures ReadTracked(ReadEngine.Step(e, h), v, r)
  {
    hide Conserved, Alone, Find, Without, Readable, MacMatches, Block, HasCompleted, CompletedWith;
    StepConserves(e, h);
    StepNotOn(e, r.ov, h);
    StepMail(e, r, h);
    if v.got.None? { StepQueue(e, r, h); }
    StepDone(e, r, h);
  }

  lemma {:induction false} StepNotOn(e: Engine, o: nat, h: ReadEngine.Event)
    requires NotOn(e, o) && (h.Submit? || h.Check? ==> h.o != o)
    ensures NotOn(ReadEngine.Step(e, h), o)
    ensures StatusOf(ReadEngine.Step(e, h), o) == StatusOf(e, o)
  {
    hide Find, Without, Readable, MacMatches, Block;
  }

  lemma {:induction false} StepMail(e: Engine, r: Read, h: ReadEngine.Event)
    requires Conserved(e) && NotOn(e, r.ov) && HookElsewhere(r, h)
    requires r.id < |e.submitted| && e.submitted[r.id] == r
    ensures Mail(ReadEngine.Step(e, h), r.id) == Mail(e, r.id) && ReadEngine.Step(e, h).mac == e.mac
    ensures r.id < |ReadEngine.Step(e, h).submitted| && ReadEngine.Step(e, h).submitted[r.id] == r
  {
    hide Conserved, Find, Without, Readable, MacMatches, Block;
    if h.Recv? && At(e, h.t).Holding? { HeldSubmitted(e, h.t); }
  }

  lemma {:induction false} StepQueue(e: Engine, r: Read, h: ReadEngine.Event)
    requires NotOn(e, r.ov) && HookElsewhere(r, h) && Alone(e.queue, r)
    ensures Alone(ReadEngine.Step(e, h).queue, r)
  {
    hide Find, Without, Readable, MacMatches, Block;
    if h.Take? && At(e, h.t).Polling? && Find(e.queue, e.calls[h.t].ov) < |e.queue| {
      StillAlone(e.queue, r, e.calls[h.t].ov);
    }
  }

  lemma {:induction false} StepDone(e: Engine, r: Read, h: ReadEngine.Event)
    requires NotOn(e, r.ov)
    ensures HasCompleted(ReadEngine.Step(e, h), r) <==> HasCompleted(e, r)
    ensures forall f :: CompletedWith(e, r, f) ==> CompletedWith(ReadEngine.Step(e, h), r, f)
  {
    hide Find, Without, Readable, MacMatches, Block;
    var e' := ReadEngine.Step(e, h);
    if h.Complete? && At(e, h.t).Matched? {
      assert e'.done[..|e.done|] == e.done && e'.done[|e.done|].r.ov != r.ov;
      forall c | c in e'.done && c.r == r ensures c in e.done {
        var i :| 0 <= i < |e'.done| && e'.done[i] == c;
      }
    } else {
      assert e'.done == e.done;
    }
  }

  lemma {:induction false} OtherTracks(s: P.Sys, v: Scene, r: Read, e: P.Event)
    requires Tracks(s, v, r) && Elsewhere(r, e)
    ensures Tracks(P.Step(s, e), v.(senders := v.senders + Sender(e)), r)
  {
    hide ReadTracked, ReadEngine.Step, Act, Received, Extract, DataPacket, Encode, Sized;
    SameScene(s.eng, v, r);
    match e
    case Hook(h) => HookTracked(s.eng, v, r, h); SameScene(ReadEngine.Step(s.eng, h), v, r);
    case Deliver(id, i) =>
      if i < |s.down| {
        MailElsewhere(s.eng, v, r, id, s.down[i].data);
        SameScene(ReadEngine.Step(s.eng, Arrive(id, s.down[i].data)), v, r);
      }
    case _ =>
  }

  /** The table and the senders are no part of what is tracked of the read. */
  lemma SameScene(e: Engine, v: Scene, r: Read)
    requires ReadTracked(e, v, r)
    ensures forall u: Scene :: u.mac == v.mac && u.mail == v.mail && u.got == v.got ==> ReadTracked(e, u, r)
  {
  }

  lemma {:induction false} DoTracks(s: P.Sys, v: Scene, r: Read, it: Item)
    requires Tracks(s, v, r) && r.sock.Some? && Fair(s, r, it)
    ensures Tracks(Do(s, r, it), Play(v, r.sock.value, it), r)
  {
    hide Found, Taken, PollSteps, Act, Received, Admit, ReadTracked, Elsewhere;
    TrackedRead(s.eng, v, r);
    SameScene(s.eng, v, r);
    match it
    case Frame(f) =>
      if f != [] && r.sock.value in s.clients {
        var x := IndexIn(s.clients, r.sock.value);
        assert (s.down + Broadcast(s.clients, f))[|s.down| + x] == Broadcast(s.clients, f)[x];
        ArriveTracked(s.eng, v, r, Packed(f));
      }
    case From(i) =>
    case Filter(m) => FilterTracked(s.eng, v, r, m);
    case Poll(t) => PollTracked(s.eng, v, r, t);
    case Other(e) => OtherTracks(s, v, r, e);
  }

  lemma TrackedRead(e: Engine, v: Scene, r: Read)
    requires ReadTracked(e, v, r)
    ensures r.id < |e.submitted| && e.submitted[r.id] == r && r.sock.Some?
  {
  }

  /** However long the schedule, the system is where the scene says. */
  lemma {:induction false} DoAllTracks(s: P.Sys, v: Scene, r: Read, items: seq<Item>)
    requires Tracks(s, v, r) && r.sock.Some? && FairAll(s, r, items)
    ensures Tracks(DoAll(s, r, items), PlayAll(v, r.sock.value, items), r)
    decreases |items|
  {
    hide Do, Play, Fair, ReadTracked;
    if items != [] {
      var before := items[..|items| - 1];
      DoAllTracks(s, v, r, before);
      DoTracks(DoAll(s, r, before), PlayAll(v, r.sock.value, before), r, items[|items| - 1]);
    }
  }

  // ---------- Where a schedule can start ----------

  /** A ReadFile with a socket of its own at a new address, run to its end, and its registration received. */
  function Registered(s: P.Sys, t: nat, o: nat, buflen: nat, a: nat): P.Sys
    requires |s.buf| == BUFFER_SIZE
  {
    P.Run(s, [P.Register(a), P.Hook(Submit(t, o, buflen, Some(a))), P.Hook(MarkPending(t)), P.Receive(|s.up|)])
  }

  lemma {:induction false} FourSteps(s: P.Sys, w: P.Event, x: P.Event, y: P.Event, z: P.Event)
    requires |s.buf| == BUFFER_SIZE
    ensures P.Run(s, [w, x, y, z]) == P.Step(P.Step(P.Step(P.Step(s, w), x), y), z)
  {
    hide P.Step;
    assert [w, x, y, z] == [w] + ([x] + ([y] + [z]));
    PipeRunAppend(s, [w], [x] + ([y] + [z]));
    PipeOneStep(s, w);
    PipeRunAppend(P.Step(s, w), [x], [y] + [z]);
    PipeOneStep(P.Step(s, w), x);
    PipeRunAppend(P.Step(P.Step(s, w), x), [y], [z]);
    PipeOneStep(P.Step(P.Step(s, w), x), y);
    PipeOneStep(P.Step(P.Step(P.Step(s, w), x), y), z);
  }

  /** There the read is tracked, with nothing on its socket. */
  lemma {:induction false} RegisteredTracks(s: P.Sys, t: nat, o: nat, buflen: nat, a: nat)
    requires |s.buf| == BUFFER_SIZE && Conserved(s.eng) && t < |s.eng.calls| && s.eng.calls[t].Idle?
    requires NotOn(s.eng, o) && !RS.QueuedOn(s.eng.queue, o) && Mail(s.eng, |s.eng.submitted|) == []
    ensures var r := Read(|s.eng.submitted|, o, buflen, Some(a));
            var s' := Registered(s, t, o, buflen, a);
            Tracks(s', Scene(Admit(s.clients, a), Froms(s'.up), s.eng.mac, [], None), r)
  {
    hide Received, Act, Admit, ReadTracked, NotOn, Conserved, RS.QueuedOn;
    FourSteps(s, P.Register(a), P.Hook(Submit(t, o, buflen, Some(a))), P.Hook(MarkPending(t)), P.Receive(|s.up|));
    SubmittedTracked(s.eng, t, o, buflen, a);
    var r := Read(|s.eng.submitted|, o, buflen, Some(a));
    SameScene(ReadSteps(s.eng, t, o, buflen, Some(a)), Scene([], [], s.eng.mac, [], None), r);
  }

  lemma {:induction false} SubmittedTracked(e: Engine, t: nat, o: nat, buflen: nat, a: nat)
    requires Conserved(e) && t < |e.calls| && e.calls[t].Idle? && NotOn(e, o) && !RS.QueuedOn(e.queue, o)
    requires Mail(e, |e.submitted|) == []
    ensures ReadTracked(ReadSteps(e, t, o, buflen, Some(a)), Scene([], [], e.mac, [], None),
        Read(|e.submitted|, o, buflen, Some(a)))
  {
    hide Conserved, ReadSteps, HasCompleted, StatusOf;
    var r, e' := Read(|e.submitted|, o, buflen, Some(a)), ReadSteps(e, t, o, buflen, Some(a));
    ReadAlone(e, t, o, buflen, Some(a));
    ReadConserves(e, t, o, buflen, Some(a));
    NewUncompleted(e, r);
    SameDone(e, e', r);
    assert r in e'.queue;
    NotQueued(e.queue, o);
  }

  lemma NotQueued(q: seq<Read>, o: nat)
    requires !RS.QueuedOn(q, o)
    ensures forall p :: p in q ==> p.ov != o
  {
  }

  lemma {:induction false} ReadConserves(e: Engine, t: nat, o: nat, buflen: nat, sock: Option<nat>)
    requires Conserved(e)
    ensures Conserved(ReadSteps(e, t, o, buflen, sock))
  {
    hide Conserved, ReadEngine.Step;
    StepConserves(e, Submit(t, o, buflen, sock));
    StepConserves(ReadEngine.Step(e, Submit(t, o, buflen, sock)), MarkPending(t));
  }

  lemma {:induction false} NewUncompleted(e: Engine, r: Read)
    requires Conserved(e) && r.id == |e.submitted|
    ensures !HasCompleted(e, r)
  {
    hide Conserved;
    forall c | c in e.done ensures c.r != r { DoneSubmitted(e, c); }
  }

  lemma {:induction false} DoneSubmitted(e: Engine, c: Completion)
    requires Conserved(e) && c in e.done
    ensures c.r.id < |e.submitted| && e.submitted[c.r.id] == c.r
  {
    hide Held, Queued;
    CompletedThere(e.done, c);
    assert Places(e, c.r) == if c.r in e.submitted then 1 else 0;
  }

  lemma {:induction false} CompletedThere(cs: seq<Completion>, c: Completion)
    requires c in cs
    ensures Completed(cs, c.r) > 0
    decreases |cs|
  {
    if cs[0] != c { CompletedThere(cs[1..], c); }
  }

  lemma SameDone(e: Engine, e': Engine, r: Read)
    requires e'.done == e.done
    ensures HasCompleted(e', r) <==> HasCompleted(e, r)
  {
  }

  // ---------- When the read completes ----------

  /** From a state in which a read's registration has just been received, over any schedule, frames of any length and
      any steps of other calls included: the read has completed at the end exactly if some poll looked at a frame, read
      from TAP before the 32nd later admission, that is to a group address or to the address the handle then had; and it
      completed with the first such, its first 2047 bytes. */
  lemma {:induction false} DeliveredIff(s: P.Sys, v: Scene, r: Read, cs: seq<nat>, items: seq<Item>)
    requires Tracks(s, v, r) && r.sock.Some? && v.got == None && v.mail == [] && FairAll(s, r, items)
    requires NoDuplicates(cs) && |cs| <= 32 && r.sock.value !in cs && v.clients == Admit(cs, r.sock.value)
    requires r.sock.value !in Heard(v, r.sock.value, items)
    ensures var (e, sent) := (DoAll(s, r, items).eng, InTime(v, r.sock.value, items));
            && (HasCompleted(e, r) <==> exists i, k :: Completing(v, items, sent, i, k))
            && (forall i, k :: FirstCompleting(v, items, sent, i, k) ==> CompletedWith(e, r, Cut(items[i].f, 2047)))
  {
    hide PlayAll, DoAll, Admit, Heard, NoDuplicates, FairAll, InTable, InTime, Completing, HasCompleted, CompletedWith;
    var a := r.sock.value;
    DoAllTracks(s, v, r, items);
    var e := DoAll(s, r, items).eng;
    GotCompleted(e, PlayAll(v, a, items), r);
    CompletesIffLooked(v, a, items);
    InTableInTime(v, cs, a, items);
    if PlayAll(v, a, items).got.Some? {
      var i, k := CompletesWith(v, a, items);
      OnlyFirst(v, items, InTime(v, a, items), i, k);
    }
  }

  /** There is one first. */
  lemma OnlyFirst(v: Scene, items: seq<Item>, sent: seq<bool>, i: int, k: int)
    requires |sent| == |items| && FirstCompleting(v, items, sent, i, k)
    ensures forall j, l :: FirstCompleting(v, items, sent, j, l) ==> j == i && l == k
  {
    hide Completing;
  }

  lemma GotCompleted(e: Engine, v: Scene, r: Read)
    requires ReadTracked(e, v, r)
    ensures HasCompleted(e, r) <==> v.got.Some?
    ensures v.got.Some? ==> CompletedWith(e, r, v.got.value)
  {
  }

  /** A frame read in time is one the handle wants at the first poll after it. */
  ghost predicate NextWants(v: Scene, a: nat, items: seq<Item>, i: int, k: int) {
    && 0 <= i < k < |items| && items[k].Poll? && InTime(v, a, items)[i]
    && (forall l :: i < l < k ==> !items[l].Poll?)
    && Wanted(LastFilter(v.mac, items[..k]), items[i].f)
  }

  /** With no frame too short to look at, that is: some frame read in time is wanted at the first poll after it. */
  lemma {:induction false} DeliveredNextIff(s: P.Sys, v: Scene, r: Read, cs: seq<nat>, items: seq<Item>)
    requires Tracks(s, v, r) && r.sock.Some? && v.got == None && v.mail == [] && FairAll(s, r, items) && AllLong(items)
    requires NoDuplicates(cs) && |cs| <= 32 && r.sock.value !in cs && v.clients == Admit(cs, r.sock.value)
    requires r.sock.value !in Heard(v, r.sock.value, items)
    ensures HasCompleted(DoAll(s, r, items).eng, r) <==> exists i, k :: NextWants(v, r.sock.value, items, i, k)
  {
    hide PlayAll, DoAll, Admit, Heard, NoDuplicates, FairAll, AllLong, Wanted, Tracks, Looked, LastFilter;
    var a, sent := r.sock.value, InTime(v, r.sock.value, items);
    DeliveredIff(s, v, r, cs, items);
    forall i, k ensures Completing(v, items, sent, i, k) <==> NextWants(v, a, items, i, k) {
      if 0 <= i < k < |items| { LookedSince(items, sent, i, k); }
    }
    if i, k :| Completing(v, items, sent, i, k) { assert NextWants(v, a, items, i, k); }
    if i, k :| NextWants(v, a, items, i, k) { assert Completing(v, items, sent, i, k); }
  }

  // ---------- These are runs ----------

  function Hooks(es: seq<ReadEngine.Event>): seq<P.Event> {
    seq(|es|, i requires 0 <= i < |es| => P.Hook(es[i]))
  }

  lemma {:induction false} HooksRun(s: P.Sys, es: seq<ReadEngine.Event>)
    requires |s.buf| == BUFFER_SIZE && forall x :: x in es ==> !x.Arrive?
    ensures P.Run(s, Hooks(es)) == s.(eng := ReadEngine.Run(s.eng, es))
    decreases |es|
  {
    hide ReadEngine.Step;
    if es != [] {
      assert es[0] in es && Hooks(es)[1..] == Hooks(es[1..]);
      HooksRun(P.Step(s, P.Hook(es[0])), es[1..]);
    }
  }

  lemma {:induction false} PipeRunAppend(s: P.Sys, es: seq<P.Event>, fs: seq<P.Event>)
    requires |s.buf| == BUFFER_SIZE
    ensures |P.Run(s, es).buf| == BUFFER_SIZE && P.Run(s, es + fs) == P.Run(P.Run(s, es), fs)
    decreases |es|
  {
    hide P.Step;
    if es == [] {
      assert es + fs == fs;
    } else {
      assert (es + fs)[1..] == es[1..] + fs;
      PipeRunAppend(P.Step(s, es[0]), es[1..], fs);
    }
  }

  lemma {:induction false} PipeOneStep(s: P.Sys, x: P.Event)
    requires |s.buf| == BUFFER_SIZE
    ensures P.Run(s, [x]) == P.Step(s, x)
  {
    hide P.Step;
    assert [x][1..] == [];
    assert P.Run(P.Step(s, x), []) == P.Step(s, x);
  }

  lemma {:induction false} DoIsRun(s: P.Sys, r: Read, it: Item) returns (es: seq<P.Event>)
    requires |s.buf| == BUFFER_SIZE
    ensures P.Run(s, es) == Do(s, r, it)
  {
    hide P.Step, PollSteps, PollEvents;
    match it
    case Frame(f) =>
      var s1 := P.Step(s, P.TapRead(f));
      PipeOneStep(s, P.TapRead(f));
      es := [P.TapRead(f)];
      if f != [] && r.sock.Some? && r.sock.value in s.clients {
        var d := P.Deliver(r.id, |s.down| + IndexIn(s.clients, r.sock.value));
        PipeRunAppend(s, es, [d]);
        PipeOneStep(s1, d);
        es := es + [d];
      }
    case From(i) => PipeOneStep(s, P.Receive(i)); es := [P.Receive(i)];
    case Filter(m) => PipeOneStep(s, P.Hook(SetMac(m))); es := [P.Hook(SetMac(m))];
    case Poll(t) =>
      PollIsRun(s.eng, t, r.ov);
      es := Hooks(PollEvents(s.eng, t, r.ov));
      HooksRun(s, PollEvents(s.eng, t, r.ov));
    case Other(e) => PipeOneStep(s, e); es := [e];
  }

  /** Every such schedule is a run of the whole system. */
  lemma {:induction false} ScheduleIsRun(s: P.Sys, r: Read, items: seq<Item>) returns (es: seq<P.Event>)
    requires |s.buf| == BUFFER_SIZE
    ensures P.Run(s, es) == DoAll(s, r, items)
    decreases |items|
  {
    hide Do, P.Step;
    if items == [] {
      es := [];
    } else {
      var before := items[..|items| - 1];
      var es1 := ScheduleIsRun(s, r, before);
      var es2 := DoIsRun(DoAll(s, r, before), r, items[|items| - 1]);
      PipeRunAppend(s, es1, es2);
      es := es1 + es2;
    }
  }
}
