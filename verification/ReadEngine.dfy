/** ReadFile and GetOverlappedResult on one open device handle, as the steps between which other threads may run:
    what happens under the lock is one step, and so is each recv and each store to the OVERLAPPED. */
module ReadEngine {
  import opened Basics
  import opened Wire
  import opened Receive
  import opened PendingQueue

  /** Where a thread is. Storing: ReadFile has queued r, not yet written STATUS_PENDING. Polling: the OVERLAPPED
      read as pending, the search is next. Holding: r is out of the queue, the receive loop runs. Giving: no data, r
      goes back next. Matched: a frame passed the filter as it then was. Landing: Internal is 0, InternalHigh is
      about to be stored. */
  datatype Call =
    | Idle
    | Storing(r: Read)
    | Polling(ov: nat)
    | Holding(r: Read)
    | Giving(r: Read)
    | Matched(r: Read, frame: Frame, mac: Option<Bytes>)
    | Landing(r: Read, count: nat)

  /** A frame that came out of the receive buffer. */
  type Frame = f: Bytes | |f| < BUFFER_SIZE witness []

  /** Internal == STATUS_PENDING, and InternalHigh. */
  datatype Status = Status(pending: bool, count: nat)

  /** The block a completed read was given, and the filter it passed. */
  datatype Completion = Completion(r: Read, frame: Frame, mac: Option<Bytes>)

  datatype Engine = Engine(
    mac: Option<Bytes>,
    queue: seq<Read>,
    calls: seq<Call>,
    status: map<nat, Status>,
    mail: map<nat, seq<Bytes>>,
    submitted: seq<Read>,
    done: seq<Completion>)

  datatype Event =
    | SetMac(m: Bytes)
    | Submit(t: nat, o: nat, buflen: nat, sock: Option<nat>)
    | MarkPending(t: nat)
    | Check(t: nat, o: nat)
    | Take(t: nat)
    | Recv(t: nat)
    | Requeue(t: nat)
    | Complete(t: nat)
    | StoreCount(t: nat)
    | Arrive(id: nat, d: Bytes)

  /** An OVERLAPPED nobody has written yet is zero. */
  function StatusOf(s: Engine, o: nat): Status {
    if o in s.status then s.status[o] else Status(false, 0)
  }

  function Mail(s: Engine, id: nat): seq<Bytes> {
    if id in s.mail then s.mail[id] else []
  }

  function At(s: Engine, t: nat): Call {
    if t < |s.calls| then s.calls[t] else Idle
  }

  function Goto(s: Engine, t: nat, c: Call): Engine {
    if t < |s.calls| then s.(calls := s.calls[t := c]) else s
  }

  function Start(threads: nat): Engine {
    Engine(None, [], seq(threads, _ => Idle), map[], map[], [], [])
  }

  /** One step; an event that does not fit changes nothing. */
  function Step(s: Engine, e: Event): Engine {
    match e
    case SetMac(m) => if |m| == MAC_SIZE then s.(mac := Some(m)) else s
    case Submit(t, o, buflen, sock) =>
      if t < |s.calls| && s.calls[t].Idle? then
        var r := Read(|s.submitted|, o, buflen, sock);
        Goto(s, t, Storing(r)).(queue := s.queue + [r], submitted := s.submitted + [r])
      else s
    case MarkPending(t) =>
      if At(s, t).Storing? then
        var o := s.calls[t].r.ov;
        Goto(s, t, Idle).(status := s.status[o := Status(true, StatusOf(s, o).count)])
      else s
    case Check(t, o) =>
      if At(s, t).Idle? && StatusOf(s, o).pending then Goto(s, t, Polling(o)) else s
    case Take(t) =>
      if At(s, t).Polling? then
        var j := Find(s.queue, s.calls[t].ov);
        if j < |s.queue| then Goto(s, t, Holding(s.queue[j])).(queue := Without(s.queue, s.calls[t].ov))
            else Goto(s, t, Idle)
      else s
    case Recv(t) =>
      if At(s, t).Holding? then
        var r := s.calls[t].r;
        var m := Mail(s, r.id);
        if r.sock.None? || m == [] then Goto(s, t, Giving(r))
        else
          var s' := s.(mail := s.mail[r.id := m[1..]]);
          if !Readable(m[0]) then Goto(s', t, Giving(r))
          else if MacMatches(s.mac, m[0][1..]) then Goto(s', t, Matched(r, m[0][1..], s.mac))
          else s'
      else s
    case Requeue(t) =>
      if At(s, t).Giving? then Goto(s, t, Idle).(queue := s.queue + [s.calls[t].r]) else s
    case Complete(t) =>
      if At(s, t).Matched? then
        var c := s.calls[t];
        Goto(s, t, Landing(c.r, |Block(c.frame, c.r.buflen)|)).(
          status := s.status[c.r.ov := Status(false, StatusOf(s, c.r.ov).count)],
          done := s.done + [Completion(c.r, c.frame, c.mac)])
      else s
    case StoreCount(t) =>
      if At(s, t).Landing? then
        var c := s.calls[t];
        Goto(s, t, Idle).(status := s.status[c.r.ov := Status(StatusOf(s, c.r.ov).pending, c.count)])
      else s
    case Arrive(id, d) =>
      if id < |s.submitted| && s.submitted[id].sock.Some? then s.(mail := s.mail[id := Mail(s, id) + [d]]) else s
  }

  function Run(s: Engine, es: seq<Event>): Engine
    decreases |es|
  {
    if es == [] then s else Run(Step(s, es[0]), es[1..])
  }

  // ---------- Every read is in exactly one place ----------

  /** The thread owns r: it is in no queue and not completed. */
  function Owns(c: Call, r: Read): (n: nat) {
    if (c.Holding? || c.Giving? || c.Matched?) && c.r == r then 1 else 0
  }

  function Held(cs: seq<Call>, r: Read): nat {
    if cs == [] then 0 else Owns(cs[0], r) + Held(cs[1..], r)
  }

  function Queued(q: seq<Read>, r: Read): nat {
    multiset(q)[r]
  }

  function Completed(cs: seq<Completion>, r: Read): nat {
    if cs == [] then 0 else (if cs[0].r == r then 1 else 0) + Completed(cs[1..], r)
  }

  /** How many times r is in the queue, held by a thread, or completed. */
  function Places(s: Engine, r: Read): nat {
    Queued(s.queue, r) + Held(s.calls, r) + Completed(s.done, r)
  }

  ghost predicate Conserved(s: Engine) {
    && (forall i :: 0 <= i < |s.submitted| ==> s.submitted[i].id == i)
    && forall r :: Places(s, r) == if r in s.submitted then 1 else 0
  }

  lemma {:induction false} HeldMove(cs: seq<Call>, t: nat, c: Call, r: Read)
    requires t < |cs|
    ensures Held(cs[t := c], r) + Owns(cs[t], r) == Held(cs, r) + Owns(c, r)
    decreases |cs|
  {
    if t > 0 {
      HeldMove(cs[1..], t - 1, c, r);
      assert cs[t := c][1..] == cs[1..][t - 1 := c];
    } else {
      assert cs[0 := c][1..] == cs[1..];
    }
  }

  lemma {:induction false} HeldIdle(n: nat, r: Read)
    ensures Held(seq(n, _ => Idle), r) == 0
  {
    if n > 0 {
      var cs: seq<Call> := seq(n, _ => Idle);
      assert cs[1..] == seq(n - 1, _ => Idle);
      HeldIdle(n - 1, r);
    }
  }

  lemma {:induction false} WithoutTakesOne(q: seq<Read>, o: nat, r: Read)
    requires Find(q, o) < |q|
    ensures Queued(Without(q, o), r) + (if q[Find(q, o)] == r then 1 else 0) == Queued(q, r)
  {
    var j := Find(q, o);
    assert q == q[..j] + [q[j]] + q[j + 1..];
  }

  lemma {:induction false} CompletedSnoc(cs: seq<Completion>, c: Completion, r: Read)
    ensures Completed(cs + [c], r) == Completed(cs, r) + (if c.r == r then 1 else 0)
  {
    if cs == [] {
      assert cs + [c] == [c];
    } else {
      CompletedSnoc(cs[1..], c, r);
      assert (cs + [c])[1..] == cs[1..] + [c];
    }
  }

  lemma {:induction false} TakePlaces(s: Engine, t: nat, r: Read)
    ensures Places(Step(s, Take(t)), r) == Places(s, r)
  {
    hide Find, Held, Completed, Without, Queued;
    if At(s, t).Polling? {
      HeldMove(s.calls, t, Step(s, Take(t)).calls[t], r);
      if Find(s.queue, s.calls[t].ov) < |s.queue| { WithoutTakesOne(s.queue, s.calls[t].ov, r); }
    }
  }

  lemma {:induction false} RecvPlaces(s: Engine, t: nat, r: Read)
    ensures Places(Step(s, Recv(t)), r) == Places(s, r)
  {
    hide Held, Completed, Queued, Readable, MacMatches;
    if At(s, t).Holding? {
      var c := Step(s, Recv(t)).calls[t];
      HeldMove(s.calls, t, c, r);
      assert Step(s, Recv(t)).calls == s.calls[t := c];
    }
  }

  lemma {:induction false} CompletePlaces(s: Engine, t: nat, r: Read)
    ensures Places(Step(s, Complete(t)), r) == Places(s, r)
  {
    hide Held, Completed, Queued, Block;
    if At(s, t).Matched? {
      var c := s.calls[t];
      HeldMove(s.calls, t, Step(s, Complete(t)).calls[t], r);
      CompletedSnoc(s.done, Completion(c.r, c.frame, c.mac), r);
    }
  }

  lemma {:induction false} SubmitPlaces(s: Engine, e: Event, r: Read)
    requires e.Submit?
    ensures var s' := Step(s, e);
            Places(s', r) ==
              Places(s, r) + if s'.submitted != s.submitted && r == s'.submitted[|s.submitted|] then 1 else 0
  {
    hide Held, Completed;
    if e.t < |s.calls| { HeldMove(s.calls, e.t, At(Step(s, e), e.t), r); }
  }

  lemma {:induction false} RequeuePlaces(s: Engine, t: nat, r: Read)
    ensures Places(Step(s, Requeue(t)), r) == Places(s, r)
  {
    hide Held, Completed;
    if t < |s.calls| { HeldMove(s.calls, t, Idle, r); }
  }

  /** A step moves a read from one place to another, or submits one. */
  lemma {:induction false} StepPlaces(s: Engine, e: Event, r: Read)
    ensures var s' := Step(s, e);
            Places(s', r) ==
              Places(s, r) + if s'.submitted != s.submitted && r == s'.submitted[|s.submitted|] then 1 else 0
  {
    hide Find, Held, Completed, Queued, Without, Readable, MacMatches, Block;
    match e
    case Take(t) => TakePlaces(s, t, r);
    case Recv(t) => RecvPlaces(s, t, r);
    case Complete(t) => CompletePlaces(s, t, r);
    case Submit(_, _, _, _) => SubmitPlaces(s, e, r);
    case Requeue(t) => RequeuePlaces(s, t, r);
    case MarkPending(t) => if t < |s.calls| { HeldMove(s.calls, t, Idle, r); }
    case Check(t, o) => if t < |s.calls| { HeldMove(s.calls, t, Polling(o), r); }
    case StoreCount(t) => if t < |s.calls| { HeldMove(s.calls, t, Idle, r); }
    case _ =>
  }

  lemma {:induction false} StepConserves(s: Engine, e: Event)
    requires Conserved(s)
    ensures Conserved(Step(s, e)) && |Step(s, e).calls| == |s.calls|
    ensures s.submitted <= Step(s, e).submitted && s.done <= Step(s, e).done
  {
    hide Find, Held, Completed, Without, Readable, MacMatches, Block, Places;
    var s' := Step(s, e);
    forall r ensures Places(s', r) == if r in s'.submitted then 1 else 0 {
      StepPlaces(s, e, r);
      assert Places(s, r) == if r in s.submitted then 1 else 0;
      if s'.submitted != s.submitted {
        assert s'.submitted == s.submitted + [s'.submitted[|s.submitted|]];
      }
    }
  }

  /** Whatever the threads do and however they interleave, every read ever submitted is at all times in exactly
      one place: once in the queue, held by one thread, or completed once; and nothing else is in any of them. */
  lemma {:induction false} RunConserves(s: Engine, es: seq<Event>)
    requires Conserved(s)
    ensures Conserved(Run(s, es))
    decreases |es|
  {
    if es != [] {
      StepConserves(s, es[0]);
      RunConserves(Step(s, es[0]), es[1..]);
    }
  }

  lemma {:induction false} StartConserves(threads: nat)
    ensures Conserved(Start(threads))
  {
    forall r ensures Places(Start(threads), r) == 0 { HeldIdle(threads, r); }
  }

  predicate Has(c: Call, r: Read) { (c.Holding? || c.Giving? || c.Matched?) && c.r == r }

  /** The same place by place: the reads submitted are those queued, those a thread has taken out of the queue, and
      those completed; no read is in two of these, or in one of them twice. */
  ghost predicate OnePlaceEach(s: Engine) {
    && (forall r :: r in s.submitted <==>
          || r in s.queue
          || (exists t :: 0 <= t < |s.calls| && Has(s.calls[t], r))
          || (exists c :: c in s.done && c.r == r))
    && (forall i, j :: 0 <= i < j < |s.queue| ==> s.queue[i] != s.queue[j])
    && (forall i, j :: 0 <= i < j < |s.done| ==> s.done[i].r != s.done[j].r)
    && (forall r, t, u :: 0 <= t < u < |s.calls| && Has(s.calls[t], r) ==> !Has(s.calls[u], r))
    && (forall t :: 0 <= t < |s.calls| && (s.calls[t].Holding? || s.calls[t].Giving? || s.calls[t].Matched?) ==>
          s.calls[t].r !in s.queue)
    && (forall c :: c in s.done ==> c.r !in s.queue && forall t :: 0 <= t < |s.calls| ==> !Has(s.calls[t], c.r))
  }

  lemma {:induction false} HeldIs(cs: seq<Call>, r: Read)
    ensures Held(cs, r) > 0 <==> exists t :: 0 <= t < |cs| && Has(cs[t], r)
    decreases |cs|
  {
    if cs != [] {
      var more := cs[1..];
      HeldIs(more, r);
      assert forall t :: 1 <= t < |cs| ==> cs[t] == more[t - 1];
      if t :| 0 <= t < |more| && Has(more[t], r) { assert Has(cs[t + 1], r); }
      if t :| 0 <= t < |cs| && Has(cs[t], r) { assert t == 0 || Has(more[t - 1], r); }
    }
  }

  lemma {:induction false} HeldTwice(cs: seq<Call>, t: nat, u: nat, r: Read)
    requires t < u < |cs| && Has(cs[t], r) && Has(cs[u], r)
    ensures Held(cs, r) >= 2
    decreases t
  {
    var more := cs[1..];
    assert Has(more[u - 1], r);
    if t > 0 { HeldTwice(more, t - 1, u - 1, r); } else { HeldIs(more, r); }
  }

  lemma {:induction false} CompletedIs(cs: seq<Completion>, r: Read)
    ensures Completed(cs, r) > 0 <==> exists i :: 0 <= i < |cs| && cs[i].r == r
    ensures Completed(cs, r) <= 1 ==> forall i, j :: 0 <= i < j < |cs| && cs[i].r == r ==> cs[j].r != r
    decreases |cs|
  {
    if cs != [] {
      var more := cs[1..];
      CompletedIs(more, r);
      assert forall t :: 1 <= t < |cs| ==> cs[t] == more[t - 1];
      if t :| 0 <= t < |more| && more[t].r == r { assert cs[t + 1].r == r; }
    }
  }

  lemma {:induction false} QueuedIs(q: seq<Read>, r: Read)
    ensures Queued(q, r) > 0 <==> r in q
    ensures Queued(q, r) <= 1 ==> forall i, j :: 0 <= i < j < |q| && q[i] == r ==> q[j] != r
  {
    forall i, j | 0 <= i < j < |q| && q[i] == r && q[j] == r ensures Queued(q, r) > 1 {
      assert q == q[..i] + [q[i]] + q[i + 1..];
      assert q[i + 1..][j - i - 1] == r;
    }
  }

  ghost predicate HeldBySome(s: Engine, r: Read) { exists t :: 0 <= t < |s.calls| && Has(s.calls[t], r) }

  ghost predicate IsDone(s: Engine, r: Read) { exists i :: 0 <= i < |s.done| && s.done[i].r == r }

  lemma {:induction false} OneRead(s: Engine, r: Read)
    requires Conserved(s)
    ensures r in s.submitted <==> r in s.queue || HeldBySome(s, r) || IsDone(s, r)
    ensures !(r in s.queue && HeldBySome(s, r)) && !(r in s.queue && IsDone(s, r))
    ensures !(HeldBySome(s, r) && IsDone(s, r))
    ensures forall i, j :: 0 <= i < j < |s.queue| && s.queue[i] == r ==> s.queue[j] != r
    ensures forall i, j :: 0 <= i < j < |s.done| && s.done[i].r == r ==> s.done[j].r != r
    ensures forall t, u :: 0 <= t < u < |s.calls| && Has(s.calls[t], r) ==> !Has(s.calls[u], r)
  {
    hide Held, Completed, Queued, Has;
    assert Places(s, r) == if r in s.submitted then 1 else 0;
    QueuedIs(s.queue, r);
    HeldIs(s.calls, r);
    CompletedIs(s.done, r);
    forall t, u | 0 <= t < u < |s.calls| && Has(s.calls[t], r) ensures !Has(s.calls[u], r) {
      if Has(s.calls[u], r) { HeldTwice(s.calls, t, u, r); }
    }
  }

  lemma {:induction false} OnePlace(s: Engine)
    requires Conserved(s)
    ensures OnePlaceEach(s)
  {
    hide Conserved;
    forall r
      ensures r in s.submitted <==> r in s.queue || HeldBySome(s, r) || IsDone(s, r)
      ensures !(r in s.queue && HeldBySome(s, r)) && !(r in s.queue && IsDone(s, r))
      ensures !(HeldBySome(s, r) && IsDone(s, r))
    {
      OneRead(s, r);
    }
    forall r ensures IsDone(s, r) <==> exists c :: c in s.done && c.r == r {
      if c :| c in s.done && c.r == r { var i :| 0 <= i < |s.done| && s.done[i] == c; }
    }
    forall i, j | 0 <= i < j < |s.queue| ensures s.queue[i] != s.queue[j] { OneRead(s, s.queue[i]); }
    forall i, j | 0 <= i < j < |s.done| ensures s.done[i].r != s.done[j].r { OneRead(s, s.done[i].r); }
    forall r, t, u | 0 <= t < u < |s.calls| && Has(s.calls[t], r) ensures !Has(s.calls[u], r) { OneRead(s, r); }
    forall t | 0 <= t < |s.calls| && (s.calls[t].Holding? || s.calls[t].Giving? || s.calls[t].Matched?)
      ensures s.calls[t].r !in s.queue
    {
      assert Has(s.calls[t], s.calls[t].r);
    }
    forall c | c in s.done ensures c.r !in s.queue && forall t :: 0 <= t < |s.calls| ==> !Has(s.calls[t], c.r) {
      assert IsDone(s, c.r);
    }
  }

  /** From the opening of the handle, whatever the threads do and however they interleave. */
  lemma {:induction false} OnePlaceAlways(threads: nat, es: seq<Event>)
    ensures OnePlaceEach(Run(Start(threads), es))
  {
    hide OnePlaceEach, Conserved;
    StartConserves(threads);
    RunConserves(Start(threads), es);
    OnePlace(Run(Start(threads), es));
  }

  // ---------- One poll on its own ----------

  /** The thread's receive loop with nothing arriving meanwhile. */
  function Drain(s: Engine, t: nat): Engine
    decreases if At(s, t).Holding? then 1 + |Mail(s, s.calls[t].r.id)| else 0
  {
    if At(s, t).Holding? then Drain(Step(s, Recv(t)), t) else s
  }

  /** Left alone, the receive steps are the receive loop: they take what it takes and find what it finds. */
  lemma {:induction false} DrainIsReceive(s: Engine, t: nat)
    requires At(s, t).Holding? && s.calls[t].r.sock.Some?
    ensures var (r, m) := (s.calls[t].r, Mail(s, s.calls[t].r.id));
            && At(Drain(s, t), t) == (if Found(s.mac, m).Some? then Matched(r, Found(s.mac, m).value, s.mac)
                else Giving(r))
            && Mail(Drain(s, t), r.id) == m[Taken(s.mac, m)..]
    decreases |Mail(s, s.calls[t].r.id)|
  {
    hide MacMatches;
    var r, m := s.calls[t].r, Mail(s, s.calls[t].r.id);
    var s1 := Step(s, Recv(t));
    if m == [] {
      assert Drain(s1, t) == s1;
    } else {
      assert Mail(s1, r.id) == m[1..];
      if At(s1, t).Holding? {
        DrainIsReceive(s1, t);
      } else {
        assert Drain(s1, t) == s1;
      }
    }
  }

  /** Every read but one has the mail it had. */
  ghost predicate OthersKeep(s: Engine, s': Engine, id: nat) {
    forall x :: x != id ==> Mail(s', x) == Mail(s, x)
  }

  lemma OtherKeeps(s: Engine, s': Engine, id: nat, x: nat)
    requires OthersKeep(s, s', id) && x != id
    ensures Mail(s', x) == Mail(s, x)
  {
  }

  /** Left alone, the receive steps change nothing but the thread's place and the read's socket. */
  lemma {:induction false} DrainFrame(s: Engine, t: nat)
    ensures var d := Drain(s, t);
            && d.queue == s.queue && d.status == s.status && d.done == s.done && d.mac == s.mac
                && d.submitted == s.submitted
            && |d.calls| == |s.calls| && (forall u :: 0 <= u < |s.calls| && u != t ==> d.calls[u] == s.calls[u])
            && (At(s, t).Holding? ==> OthersKeep(s, d, s.calls[t].r.id))
    decreases if At(s, t).Holding? then 1 + |Mail(s, s.calls[t].r.id)| else 0
  {
    hide Readable, MacMatches;
    if At(s, t).Holding? {
      var s1 := Step(s, Recv(t));
      DrainFrame(s1, t);
      var id := s.calls[t].r.id;
      assert OthersKeep(s, s1, id);
      if !At(s1, t).Holding? { DrainIdle(s1, t); }
    }
  }

  lemma {:induction false} DrainWithoutSocket(s: Engine, t: nat)
    requires At(s, t).Holding? && s.calls[t].r.sock.None?
    ensures At(Drain(s, t), t) == Giving(s.calls[t].r)
  {
    var s1 := Step(s, Recv(t));
    assert Drain(s1, t) == s1;
  }

  /** The steps of one poll, with no other thread running. */
  function PollSteps(s: Engine, t: nat, o: nat): Engine {
    var s1 := Step(s, Check(t, o));
    if !At(s1, t).Polling? then s1
    else
      var s2 := Drain(Step(s1, Take(t)), t);
      if At(s2, t).Giving? then Step(s2, Requeue(t))
      else if At(s2, t).Matched? then Step(Step(s2, Complete(t)), StoreCount(t))
      else s2
  }

  /** The steps of one ReadFile, with no other thread running. */
  function ReadSteps(s: Engine, t: nat, o: nat, buflen: nat, sock: Option<nat>): Engine {
    Step(Step(s, Submit(t, o, buflen, sock)), MarkPending(t))
  }

  lemma {:induction false} ReadAlone(s: Engine, t: nat, o: nat, buflen: nat, sock: Option<nat>)
    requires t < |s.calls| && s.calls[t].Idle?
    ensures var s' := ReadSteps(s, t, o, buflen, sock);
            var r := Read(|s.submitted|, o, buflen, sock);
            && s'.calls == s.calls && s'.mac == s.mac && s'.mail == s.mail && s'.done == s.done
            && s'.queue == s.queue + [r] && s'.submitted == s.submitted + [r]
            && StatusOf(s', o) == Status(true, StatusOf(s, o).count)
                && (forall x :: x != o ==> StatusOf(s', x) == StatusOf(s, x))
  {
    var c := s.calls[t := Storing(Read(|s.submitted|, o, buflen, sock))];
    assert c[t := Idle] == s.calls;
  }

  /** What waits on the socket of a read; a read without one has nothing. */
  function MailFor(s: Engine, r: Read): seq<Bytes> {
    if r.sock.Some? then Mail(s, r.id) else []
  }

  /** Where the receive loop leaves the thread that holds r. */
  function Outcome(mac: Option<Bytes>, mail: seq<Bytes>, r: Read): Call {
    if Found(mac, mail).Some? then Matched(r, Found(mac, mail).value, mac) else Giving(r)
  }

  /** The thread has taken the read r at o off the queue of s and drained its socket. */
  ghost predicate Drained(s: Engine, s2: Engine, t: nat, r: Read, o: nat) {
    && t < |s.calls| && r.ov == o
    && s2.queue == Without(s.queue, o) && s2.status == s.status && s2.done == s.done
    && |s2.calls| == |s.calls| && (forall u :: 0 <= u < |s.calls| && u != t ==> s2.calls[u] == s.calls[u])
    && MailFor(s2, r) == MailFor(s, r)[Taken(s.mac, MailFor(s, r))..]
    && s2.mac == s.mac && s2.submitted == s.submitted && OthersKeep(s, s2, r.id)
    && At(s2, t) == Outcome(s.mac, MailFor(s, r), r)
  }

  lemma KeepSame(s: Engine, s1: Engine, s2: Engine, s3: Engine, id: nat)
    requires OthersKeep(s1, s2, id) && s1.mail == s.mail && s3.mail == s2.mail
    ensures OthersKeep(s, s3, id)
  {
    forall x | x != id ensures Mail(s3, x) == Mail(s, x) { assert Mail(s2, x) == Mail(s1, x); }
  }

  lemma {:induction false} CheckTake(s: Engine, t: nat, o: nat)
    requires t < |s.calls| && s.calls[t].Idle? && StatusOf(s, o).pending
    ensures Step(s, Check(t, o)) == s.(calls := s.calls[t := Polling(o)])
    ensures var s1 := Step(Step(s, Check(t, o)), Take(t));
            var j := Find(s.queue, o);
            s1 == if j < |s.queue| then s.(calls := s.calls[t := Holding(s.queue[j])], queue := Without(s.queue, o))
                else s
  {
    hide Find, Without, StatusOf;
    assert s.calls[t := Polling(o)][t := Idle] == s.calls;
    if Find(s.queue, o) < |s.queue| {
      var c := Holding(s.queue[Find(s.queue, o)]);
      assert s.calls[t := Polling(o)][t := c] == s.calls[t := c];
    }
  }

  lemma {:induction false} TakenAndDrained(s: Engine, t: nat, o: nat)
    requires t < |s.calls| && s.calls[t].Idle? && StatusOf(s, o).pending && Find(s.queue, o) < |s.queue|
    ensures var s1 := Step(Step(s, Check(t, o)), Take(t));
            Drained(s, Drain(s1, t), t, s.queue[Find(s.queue, o)], o)
  {
    hide Find, Without, Found, Taken, Drain, Step, StatusOf;
    CheckTake(s, t, o);
    FoundOv(s.queue, o);
    var r := s.queue[Find(s.queue, o)];
    HeldDrained(s, s.(calls := s.calls[t := Holding(r)], queue := Without(s.queue, o)), t, r, o);
  }

  lemma {:induction false} HeldOutcome(s: Engine, t: nat, r: Read)
    requires At(s, t) == Holding(r)
    ensures var d, m := Drain(s, t), MailFor(s, r);
            MailFor(d, r) == m[Taken(s.mac, m)..] && At(d, t) == Outcome(s.mac, m, r)
  {
    hide Found, Taken, Drain;
    if r.sock.Some? {
      DrainIsReceive(s, t);
    } else {
      DrainWithoutSocket(s, t);
      NothingFound(s.mac);
      NothingTaken(s.mac);
    }
  }

  lemma NothingTaken(mac: Option<Bytes>)
    ensures Taken(mac, []) == 0
  {
  }

  lemma SameMailFor(s: Engine, s1: Engine, r: Read)
    requires s1.mail == s.mail
    ensures MailFor(s1, r) == MailFor(s, r)
  {
  }

  lemma {:induction false} HeldDrained(s: Engine, s1: Engine, t: nat, r: Read, o: nat)
    requires t < |s.calls| == |s1.calls| && r.ov == o && s1.queue == Without(s.queue, o) && s1.mac == s.mac
    requires s1.calls[t] == Holding(r) && forall u :: 0 <= u < |s.calls| && u != t ==> s1.calls[u] == s.calls[u]
    requires s1.mail == s.mail && s1.status == s.status && s1.done == s.done && s1.submitted == s.submitted
    ensures Drained(s, Drain(s1, t), t, r, o)
  {
    hide Find, Without, Found, Taken, Drain, OthersKeep, MailFor, Mail, Outcome;
    var d := Drain(s1, t);
    DrainFrame(s1, t);
    KeepSame(s, s1, d, d, r.id);
    SameMailFor(s, s1, r);
    HeldOutcome(s1, t, r);
    assert forall u :: 0 <= u < |s.calls| && u != t ==> d.calls[u] == s.calls[u];
  }

  lemma {:induction false} GivingEnds(s: Engine, s2: Engine, t: nat, r: Read, o: nat)
    requires Drained(s, s2, t, r, o) && At(s2, t).Giving? && s.calls[t].Idle?
    ensures Step(s2, Requeue(t)) == s2.(calls := s.calls, queue := s2.queue + [r])
  {
    hide Find, Without, Found, Taken, OthersKeep;
    var calls := s2.calls[t := Idle];
    assert calls == s.calls;
  }

  lemma {:induction false} MatchedEnds(s: Engine, s2: Engine, t: nat, r: Read, o: nat)
    requires Drained(s, s2, t, r, o) && At(s2, t).Matched? && s.calls[t].Idle?
    ensures var s' := Step(Step(s2, Complete(t)), StoreCount(t));
            && s'.calls == s.calls && s'.queue == s2.queue && s'.mail == s2.mail && s'.mac == s2.mac
                && s'.submitted == s2.submitted
            && s'.done == s2.done + [Completion(r, s2.calls[t].frame, s.mac)]
            && StatusOf(s', o) == Status(false, |Block(s2.calls[t].frame, r.buflen)|)
            && (forall x :: x != o ==> StatusOf(s', x) == StatusOf(s, x))
  {
    hide Find, Without, Found, Taken, Block, OthersKeep;
    var s3 := Step(s2, Complete(t));
    var s4 := Step(s3, StoreCount(t));
    assert forall u :: 0 <= u < |s.calls| && u != t ==> s3.calls[u] == s2.calls[u];
    assert forall u :: 0 <= u < |s.calls| && u != t ==> s4.calls[u] == s3.calls[u];
    assert s4.calls == s.calls;
  }

  /** The thread's own steps of a poll that finds its read, up to where the loop leaves it. */
  lemma {:induction false} PollTaken(s: Engine, t: nat, o: nat) returns (s2: Engine)
    requires t < |s.calls| && s.calls[t].Idle? && StatusOf(s, o).pending && Find(s.queue, o) < |s.queue|
    ensures Drained(s, s2, t, s.queue[Find(s.queue, o)], o)
    ensures PollSteps(s, t, o)
         == if At(s2, t).Giving? then Step(s2, Requeue(t)) else Step(Step(s2, Complete(t)), StoreCount(t))
  {
    hide Find, Without, Found, Taken, Drain, Block, Step, StatusOf, OthersKeep, MailFor, Mail;
    CheckTake(s, t, o);
    TakenAndDrained(s, t, o);
    s2 := Drain(Step(Step(s, Check(t, o)), Take(t)), t);
  }

  /** A poll of a read that is not pending, or not queued, changes nothing. */
  lemma {:induction false} PollNothing(s: Engine, t: nat, o: nat)
    requires t < |s.calls| && s.calls[t].Idle? && (!StatusOf(s, o).pending || Find(s.queue, o) == |s.queue|)
    ensures PollSteps(s, t, o) == s
  {
    hide Find, Without, Drain, Step, StatusOf;
    if StatusOf(s, o).pending {
      CheckTake(s, t, o);
      DrainIdle(s, t);
    } else {
      NotPending(s, t, o);
    }
  }

  /** A poll that finds its read without a frame that passes puts it at the back. */
  lemma {:induction false} PollReturns(s: Engine, t: nat, o: nat)
    requires t < |s.calls| && s.calls[t].Idle? && StatusOf(s, o).pending && Find(s.queue, o) < |s.queue|
    requires var r := s.queue[Find(s.queue, o)]; Found(s.mac, MailFor(s, r)).None?
    ensures var s', r := PollSteps(s, t, o), s.queue[Find(s.queue, o)];
            && s'.calls == s.calls && s'.submitted == s.submitted && s'.mac == s.mac
            && s'.queue == Polled(s.queue, o) && s'.status == s.status && s'.done == s.done
            && MailFor(s', r) == MailFor(s, r)[Taken(s.mac, MailFor(s, r))..] && OthersKeep(s, s', r.id)
  {
    hide Find, Without, Polled, Found, Taken, Step, StatusOf, OthersKeep, MailFor, Mail, PollSteps;
    var r := s.queue[Find(s.queue, o)];
    PolledKeeps(s.queue, o);
    var s2 := PollTaken(s, t, o);
    GivingEnds(s, s2, t, r, o);
    SameMailFor(s2, PollSteps(s, t, o), r);
    KeepSame(s, s, s2, PollSteps(s, t, o), r.id);
  }

  /** A poll that finds a frame that passes completes the read with the first such, and stores its size. */
  lemma {:induction false} PollCompletes(s: Engine, t: nat, o: nat)
    requires t < |s.calls| && s.calls[t].Idle? && StatusOf(s, o).pending && Find(s.queue, o) < |s.queue|
    requires var r := s.queue[Find(s.queue, o)]; Found(s.mac, MailFor(s, r)).Some?
    ensures var s', r := PollSteps(s, t, o), s.queue[Find(s.queue, o)];
            var f := Found(s.mac, MailFor(s, r)).value;
            && s'.calls == s.calls && s'.submitted == s.submitted && s'.mac == s.mac
            && s'.queue == Without(s.queue, o) && s'.done == s.done + [Completion(r, f, s.mac)]
            && StatusOf(s', o) == Status(false, |Block(f, r.buflen)|)
            && (forall x :: x != o ==> StatusOf(s', x) == StatusOf(s, x))
            && MailFor(s', r) == MailFor(s, r)[Taken(s.mac, MailFor(s, r))..] && OthersKeep(s, s', r.id)
  {
    hide Find, Without, Found, Taken, Step, StatusOf, OthersKeep, MailFor, Mail, PollSteps, Block;
    var r := s.queue[Find(s.queue, o)];
    var s2 := PollTaken(s, t, o);
    MatchedEnds(s, s2, t, r, o);
    SameMailFor(s2, PollSteps(s, t, o), r);
    KeepSame(s, s, s2, PollSteps(s, t, o), r.id);
  }

  /** One thread alone takes a poll's steps to where GetOverlappedResult as a whole takes the objects: a read not
      found or without a matching frame leaves the OVERLAPPED alone and the queue as it was or with the read at the
      back; a read with one is completed with the first, and its size stored. */
  lemma {:induction false} PollAlone(s: Engine, t: nat, o: nat)
    requires t < |s.calls| && s.calls[t].Idle?
    ensures var s' := PollSteps(s, t, o);
            var j := Find(s.queue, o);
            && s'.calls == s.calls && s'.submitted == s.submitted
            && (!StatusOf(s, o).pending || j == |s.queue| ==> s' == s)
            && (StatusOf(s, o).pending && j < |s.queue| ==>
                  var r := s.queue[j];
                  var mail := MailFor(s, r);
                  && MailFor(s', r) == mail[Taken(s.mac, mail)..]
                  && s'.mac == s.mac && OthersKeep(s, s', r.id)
                  && match Found(s.mac, mail)
                     case None => s'.queue == Polled(s.queue, o) && s'.status == s.status && s'.done == s.done
                     case Some(f) =>
                       && s'.queue == Without(s.queue, o) && s'.done == s.done + [Completion(r, f, s.mac)]
                       && StatusOf(s', o) == Status(false, |Block(f, r.buflen)|)
                       && (forall x :: x != o ==> StatusOf(s', x) == StatusOf(s, x)))
  {
    hide Find, Without, Polled, Found, Taken, Block, StatusOf, OthersKeep, MailFor, PollSteps;
    if !StatusOf(s, o).pending || Find(s.queue, o) == |s.queue| {
      PollNothing(s, t, o);
    } else if Found(s.mac, MailFor(s, s.queue[Find(s.queue, o)])).None? {
      PollReturns(s, t, o);
    } else {
      PollCompletes(s, t, o);
    }
  }

  /** A poll that does not complete its read leaves every status alone; one that does, those of the others. */
  lemma {:induction false} StatusAfter(s: Engine, t: nat, o: nat)
    requires t < |s.calls| && s.calls[t].Idle?
    ensures forall x :: x != o ==> StatusOf(PollSteps(s, t, o), x) == StatusOf(s, x)
    ensures var j := Find(s.queue, o);
            !StatusOf(s, o).pending || j == |s.queue| || Found(s.mac, MailFor(s, s.queue[j])).None? ==>
              StatusOf(PollSteps(s, t, o), o) == StatusOf(s, o)
  {
    hide Find, Without, Polled, Found, Taken, Block, OthersKeep, MailFor, PollSteps;
    PollAlone(s, t, o);
  }

  /** The mail a poll leaves to each queued read: what the loop did not take to the one polled, all of it to others. */
  function MailLeft(s: Engine, o: nat, r: Read): seq<Bytes> {
    var j := Find(s.queue, o);
    if StatusOf(s, o).pending && j < |s.queue| && r == s.queue[j] then MailFor(s, r)[Taken(s.mac, MailFor(s, r))..]
    else MailFor(s, r)
  }

  lemma {:induction false} PollMail(s: Engine, t: nat, o: nat, r: Read)
    requires t < |s.calls| && s.calls[t].Idle?
    requires Find(s.queue, o) < |s.queue| && s.queue[Find(s.queue, o)] != r ==> s.queue[Find(s.queue, o)].id != r.id
    ensures MailFor(PollSteps(s, t, o), r) == MailLeft(s, o, r)
  {
    hide Find, Without, Polled, Found, Taken, Block, Step, Drain, PollSteps, StatusOf, OthersKeep, Mail;
    PollAlone(s, t, o);
    var j := Find(s.queue, o);
    if StatusOf(s, o).pending && j < |s.queue| && r != s.queue[j] {
      OtherKeeps(s, PollSteps(s, t, o), s.queue[j].id, r.id);
    }
  }

  lemma NotPending(s: Engine, t: nat, o: nat)
    requires !StatusOf(s, o).pending
    ensures Step(s, Check(t, o)) == s
  {
  }

  lemma FoundOv(q: seq<Read>, o: nat)
    requires Find(q, o) < |q|
    ensures q[Find(q, o)].ov == o
  {
  }

  lemma DrainIdle(s: Engine, t: nat)
    requires !At(s, t).Holding?
    ensures Drain(s, t) == s
  {
  }

  // ---------- One poll's steps as a run ----------

  /** The steps of an undisturbed receive loop, one by one. */
  function DrainEvents(e: Engine, t: nat): seq<Event>
    decreases if At(e, t).Holding? then 1 + |Mail(e, e.calls[t].r.id)| else 0
  {
    if At(e, t).Holding? then [Recv(t)] + DrainEvents(Step(e, Recv(t)), t) else []
  }

  function PollEvents(e: Engine, t: nat, o: nat): seq<Event> {
    var e1 := Step(e, Check(t, o));
    if !At(e1, t).Polling? then [Check(t, o)]
    else
      var e2 := Step(e1, Take(t));
      var e3 := Drain(e2, t);
      [Check(t, o), Take(t)] + DrainEvents(e2, t)
      + (if At(e3, t).Giving? then [Requeue(t)] else if At(e3, t).Matched? then [Complete(t), StoreCount(t)] else [])
  }

  lemma {:induction false} RunAppend(e: Engine, es: seq<Event>, fs: seq<Event>)
    ensures Run(e, es + fs) == Run(Run(e, es), fs)
    decreases |es|
  {
    hide Step;
    if es == [] {
      assert es + fs == fs;
    } else {
      assert (es + fs)[1..] == es[1..] + fs;
      RunAppend(Step(e, es[0]), es[1..], fs);
    }
  }

  lemma {:induction false} DrainIsRun(e: Engine, t: nat)
    ensures Run(e, DrainEvents(e, t)) == Drain(e, t)
    ensures forall x :: x in DrainEvents(e, t) ==> !x.Arrive?
    decreases if At(e, t).Holding? then 1 + |Mail(e, e.calls[t].r.id)| else 0
  {
    hide Readable, MacMatches;
    if At(e, t).Holding? {
      var e1 := Step(e, Recv(t));
      DrainIsRun(e1, t);
      assert DrainEvents(e, t)[1..] == DrainEvents(e1, t);
    }
  }

  lemma {:induction false} OneStep(e: Engine, x: Event)
    ensures Run(e, [x]) == Step(e, x)
  {
    hide Step;
    assert [x][1..] == [];
    assert Run(Step(e, x), []) == Step(e, x);
  }

  lemma {:induction false} TwoSteps(e: Engine, x: Event, y: Event)
    ensures Run(e, [x, y]) == Step(Step(e, x), y)
  {
    hide Step;
    assert [x, y] == [x] + [y];
    RunAppend(e, [x], [y]);
    OneStep(e, x);
    OneStep(Step(e, x), y);
  }

  lemma {:induction false} PollIsRun(e: Engine, t: nat, o: nat)
    ensures Run(e, PollEvents(e, t, o)) == PollSteps(e, t, o)
    ensures forall x :: x in PollEvents(e, t, o) ==> !x.Arrive?
  {
    hide Step, Drain, DrainEvents;
    var e1 := Step(e, Check(t, o));
    OneStep(e, Check(t, o));
    if At(e1, t).Polling? {
      var e2 := Step(e1, Take(t));
      var e3 := Drain(e2, t);
      var start, mid := [Check(t, o), Take(t)], DrainEvents(e2, t);
      TwoSteps(e, Check(t, o), Take(t));
      DrainIsRun(e2, t);
      RunAppend(e, start, mid);
      if At(e3, t).Giving? {
        RunAppend(e, start + mid, [Requeue(t)]);
        OneStep(e3, Requeue(t));
      } else if At(e3, t).Matched? {
        RunAppend(e, start + mid, [Complete(t), StoreCount(t)]);
        TwoSteps(e3, Complete(t), StoreCount(t));
      } else {
        assert start + mid + [] == start + mid;
      }
    }
  }
}
