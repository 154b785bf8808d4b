/** Whole runs over the objects of one device handle, one thread making the calls: the objects stay those of an engine
    state, and that state is the end of a run of the engine's steps. */
module DeviceRuns {
  import opened Basics
  import opened Receive
  import opened PendingQueue
  import opened ReadEngine
  import opened Device

  /** Filter: the MAC-setting IOCTL. Submits: a ReadFile on the o-th OVERLAPPED into the b-th buffer, with a socket at
      the address `made` if one could be made. Polls: GetOverlappedResult on the o-th OVERLAPPED. Datagram: the network
      brings d to an address. */
  datatype Call =
    | Filter(m: Bytes)
    | Submits(o: nat, b: nat, buflen: nat, made: Option<nat>)
    | Polls(o: nat)
    | Datagram(addr: nat, d: Bytes)

  /** The queued read whose socket has this address. */
  function Addressed(q: seq<Read>, addr: nat): (j: nat)
    ensures j <= |q|
    ensures j < |q| ==> q[j].sock == Some(addr)
    ensures forall l :: 0 <= l < j ==> q[l].sock != Some(addr)
  {
    if q == [] || q[0].sock == Some(addr) then 0 else 1 + Addressed(q[1..], addr)
  }

  /** The engine's steps of one call by thread t; `ids` are the OVERLAPPEDs. */
  function After(e: Engine, t: nat, ids: seq<nat>, c: Call): Engine {
    match c
    case Filter(m) => Step(e, SetMac(m))
    case Submits(o, b, buflen, made) => if o < |ids| then ReadSteps(e, t, ids[o], buflen, made) else e
    case Polls(o) => if o < |ids| then PollSteps(e, t, ids[o]) else e
    case Datagram(addr, d) =>
      var j := Addressed(e.queue, addr);
      if j < |e.queue| then Step(e, Arrive(e.queue[j].id, d)) else e
  }

  function AfterAll(e: Engine, t: nat, ids: seq<nat>, cs: seq<Call>): Engine
    decreases |cs|
  {
    if cs == [] then e else AfterAll(After(e, t, ids, cs[0]), t, ids, cs[1..])
  }

  /** The application names what it has, a buffer has the room it says, and a new socket's address is none a queued
      read has. */
  predicate Sound(e: Engine, ids: seq<nat>, rooms: seq<nat>, c: Call) {
    match c
    case Submits(o, b, buflen, made) =>
      o < |ids| && b < |rooms| && buflen <= rooms[b] && (made.Some? ==> Addressed(e.queue, made.value) == |e.queue|)
    case Polls(o) => o < |ids|
    case _ => true
  }

  predicate SoundAll(e: Engine, t: nat, ids: seq<nat>, rooms: seq<nat>, cs: seq<Call>)
    decreases |cs|
  {
    cs == [] || (Sound(e, ids, rooms, cs[0]) && SoundAll(After(e, t, ids, cs[0]), t, ids, rooms, cs[1..]))
  }

  // ---------- Calls are runs of the engine ----------

  function Events(e: Engine, t: nat, ids: seq<nat>, c: Call): seq<ReadEngine.Event> {
    match c
    case Filter(m) => [SetMac(m)]
    case Submits(o, b, buflen, made) => if o < |ids| then [Submit(t, ids[o], buflen, made), MarkPending(t)] else []
    case Polls(o) => if o < |ids| then PollEvents(e, t, ids[o]) else []
    case Datagram(addr, d) =>
      var j := Addressed(e.queue, addr);
      if j < |e.queue| then [Arrive(e.queue[j].id, d)] else []
  }

  lemma {:induction false} CallIsRun(e: Engine, t: nat, ids: seq<nat>, c: Call)
    ensures ReadEngine.Run(e, Events(e, t, ids, c)) == After(e, t, ids, c)
  {
    hide Step, PollSteps, PollEvents, Addressed;
    match c
    case Filter(m) => OneStep(e, SetMac(m));
    case Submits(o, b, buflen, made) => if o < |ids| { TwoSteps(e, Submit(t, ids[o], buflen, made), MarkPending(t)); }
    case Polls(o) => if o < |ids| { PollIsRun(e, t, ids[o]); }
    case Datagram(addr, d) =>
      var j := Addressed(e.queue, addr);
      if j < |e.queue| { OneStep(e, Arrive(e.queue[j].id, d)); }
  }

  /** Any series of calls is a run of the engine, so what holds of every run holds after it. */
  lemma {:induction false} CallsAreRun(e: Engine, t: nat, ids: seq<nat>, cs: seq<Call>)
      returns (es: seq<ReadEngine.Event>)
    ensures ReadEngine.Run(e, es) == AfterAll(e, t, ids, cs)
    decreases |cs|
  {
    hide After, Events;
    if cs == [] {
      es := [];
    } else {
      CallIsRun(e, t, ids, cs[0]);
      var more := CallsAreRun(After(e, t, ids, cs[0]), t, ids, cs[1..]);
      es := Events(e, t, ids, cs[0]) + more;
      RunAppend(e, Events(e, t, ids, cs[0]), more);
    }
  }

  // ---------- What every call keeps of the engine ----------

  /** Reads are conserved, the thread is between calls, and only submitted reads have mail. */
  ghost predicate Between(e: Engine, t: nat) {
    && Conserved(e) && t < |e.calls| && e.calls[t].Idle?
    && NoEarlyMail(e)
  }

  ghost predicate NoEarlyMail(e: Engine) {
    forall x :: x >= |e.submitted| ==> Mail(e, x) == []
  }

  lemma {:induction false} StartBetween(threads: nat, t: nat)
    requires t < threads
    ensures Between(Start(threads), t)
  {
    hide Conserved;
    StartConserves(threads);
  }

  lemma {:induction false} QueuedSubmitted(e: Engine, r: Read)
    requires Conserved(e) && r in e.queue
    ensures r.id < |e.submitted| && e.submitted[r.id] == r
  {
    hide Held, Completed;
    assert Places(e, r) == if r in e.submitted then 1 else 0;
  }

  lemma {:induction false} PollBetween(e: Engine, t: nat, o: nat)
    requires Between(e, t)
    ensures PollSteps(e, t, o).calls == e.calls && NoEarlyMail(PollSteps(e, t, o))
  {
    hide Conserved, PollSteps, Find, Without, Polled, StatusOf, Found, Taken, Mail, OthersKeep;
    PollAlone(e, t, o);
    var e', j := PollSteps(e, t, o), Find(e.queue, o);
    if StatusOf(e, o).pending && j < |e.queue| {
      QueuedSubmitted(e, e.queue[j]);
      forall x | x >= |e'.submitted| ensures Mail(e', x) == [] { OtherKeeps(e, e', e.queue[j].id, x); }
    }
  }

  lemma {:induction false} SameMail(e: Engine, e': Engine)
    requires NoEarlyMail(e) && e'.mail == e.mail && |e'.submitted| >= |e.submitted|
    ensures NoEarlyMail(e')
  {
    forall x | x >= |e'.submitted| ensures Mail(e', x) == [] { assert Mail(e, x) == []; }
  }

  lemma {:induction false} ArriveBetween(e: Engine, id: nat, d: Bytes)
    requires NoEarlyMail(e)
    ensures NoEarlyMail(Step(e, Arrive(id, d)))
  {
    var e' := Step(e, Arrive(id, d));
    forall x | x >= |e'.submitted| ensures Mail(e', x) == [] { assert Mail(e, x) == []; }
  }

  lemma {:induction false} BetweenStays(e: Engine, t: nat, ids: seq<nat>, c: Call)
    requires Between(e, t)
    ensures Between(After(e, t, ids, c), t)
  {
    hide Conserved, PollSteps, ReadSteps, Events, Addressed, StatusOf;
    CallIsRun(e, t, ids, c);
    RunConserves(e, Events(e, t, ids, c));
    match c
    case Filter(m) => SameMail(e, After(e, t, ids, c));
    case Submits(o, b, buflen, made) =>
      if o < |ids| {
        ReadAlone(e, t, ids[o], buflen, made);
        SameMail(e, After(e, t, ids, c));
      }
    case Polls(o) => if o < |ids| { PollBetween(e, t, ids[o]); }
    case Datagram(addr, d) =>
      var j := Addressed(e.queue, addr);
      if j < |e.queue| { ArriveBetween(e, e.queue[j].id, d); }
  }

  lemma {:induction false} ArriveFrame(e: Engine, t: nat, ids: seq<nat>, addr: nat, d: Bytes)
    ensures var e' := After(e, t, ids, Datagram(addr, d));
            e'.queue == e.queue && e'.mac == e.mac && e'.status == e.status
  {
  }

  /** A datagram goes to the one queued read at its address. */
  lemma {:induction false} ArriveMail(e: Engine, t: nat, ids: seq<nat>, addr: nat, d: Bytes, r: Read)
    requires Between(e, t) && Separate(e.queue) && r in e.queue
    ensures ReadEngine.MailFor(After(e, t, ids, Datagram(addr, d)), r)
         == ReadEngine.MailFor(e, r) + if r.sock == Some(addr) then [d] else []
  {
    hide Conserved;
    var j := Addressed(e.queue, addr);
    var i :| 0 <= i < |e.queue| && e.queue[i] == r;
    if j < |e.queue| { QueuedSubmitted(e, e.queue[j]); }
  }

  // ---------- The same calls on the objects ----------

  function Ids(ovs: seq<Overlapped>): (ids: seq<nat>)
    ensures |ids| == |ovs|
  {
    seq(|ovs|, i requires 0 <= i < |ovs| => ovs[i].id)
  }

  function Rooms(buffers: seq<array<Byte>>): (rooms: seq<nat>)
    ensures |rooms| == |buffers|
  {
    seq(|buffers|, i requires 0 <= i < |buffers| => buffers[i].Length)
  }

  function Set<T>(s: seq<T>): set<T> {
    set x | x in s
  }

  /** The objects are those of the engine state, and the queued reads use the application's buffers. */
  ghost predicate Holds(d: DeviceHandle, ovs: seq<Overlapped>, buffers: seq<array<Byte>>, e: Engine, t: nat)
    reads d, d.ctx, d.ctx.chain, ovs, d.sockets.Values
  {
    && d.Valid() && d.Private() && d.Agrees(e, Set(ovs)) && OneEach(Set(ovs)) && d.active
    && Between(e, t) && forall r :: r in d.ctx.chain ==> r.buffer in buffers
  }

  /** A datagram from the network, put on the socket with that address if there is one. */
  method Deliver(d: DeviceHandle, ovs: seq<Overlapped>, buffers: seq<array<Byte>>, addr: nat, data: Bytes,
      ghost e: Engine, ghost t: nat)
    requires Holds(d, ovs, buffers, e, t)
    modifies d.sockets.Values
    ensures Holds(d, ovs, buffers, After(e, t, Ids(ovs), Datagram(addr, data)), t)
  {
    hide HandleContext.Valid, HandleContext.Queue, Between, Conserved, Addressed, Separate, Step;
    ghost var q, e', j := e.queue, After(e, t, Ids(ovs), Datagram(addr, data)), Addressed(e.queue, addr);
    d.SocketsThere();
    if addr in d.sockets {
      d.sockets[addr].mail := d.sockets[addr].mail + [data];
    }
    BetweenStays(e, t, Ids(ovs), Datagram(addr, data));
    ArriveFrame(e, t, Ids(ovs), addr, data);
    forall r | r in q ensures ReadEngine.MailFor(e', r) == d.MailFor(r) {
      ArriveMail(e, t, Ids(ovs), addr, data, r);
      assert old(d.MailFor(r)) == ReadEngine.MailFor(e, r);
      if r.sock.Some? && r.sock.value != addr && addr in d.sockets {
        assert d.sockets[r.sock.value] != d.sockets[addr];
      }
    }
  }

  /** What a poll is told; other calls tell nothing of reads. */
  ghost function Told(e: Engine, t: nat, ids: seq<nat>, c: Call): Option<PollOutcome> {
    if c.Polls? && c.o < |ids| then Some(DeviceHandle.Answer(e, t, ids[c.o])) else None
  }

  ghost function ToldAll(e: Engine, t: nat, ids: seq<nat>, cs: seq<Call>): seq<Option<PollOutcome>>
    decreases |cs|
  {
    if cs == [] then [] else [Told(e, t, ids, cs[0])] + ToldAll(After(e, t, ids, cs[0]), t, ids, cs[1..])
  }

  method Perform(d: DeviceHandle, ovs: seq<Overlapped>, buffers: seq<array<Byte>>, c: Call, ghost e: Engine,
      ghost t: nat)
    returns (told: Option<PollOutcome>)
    requires Holds(d, ovs, buffers, e, t) && Sound(e, Ids(ovs), Rooms(buffers), c)
    modifies d`sockets, d.ctx, d.ctx.chain, d.sockets.Values, ovs, buffers
    ensures Holds(d, ovs, buffers, After(e, t, Ids(ovs), c), t)
    ensures told == Told(e, t, Ids(ovs), c)
    ensures forall i :: 0 <= i < |d.ctx.chain| ==> d.ctx.chain[i] in old(d.ctx.chain) || fresh(d.ctx.chain[i])
    ensures forall s :: s in d.sockets.Values ==> s in old(d.sockets.Values) || fresh(s)
  {
    hide HandleContext.Valid, HandleContext.Queue, Conserved, Separate, PollSteps, ReadSteps, DeviceHandle.Answer;
    told := None;
    BetweenStays(e, t, Ids(ovs), c);
    match c
    case Filter(m) => var ok := d.SetMacFilter(m);
    case Submits(o, b, buflen, made) =>
      NoneAddressed(e, made);
      var sent := d.ReadAsSteps(buffers[b], buflen, ovs[o], made, Set(ovs), e, t);
    case Polls(o) =>
      var outcome := d.PollAsSteps(ovs[o], Set(ovs), e, t);
      told := Some(outcome);
    case Datagram(addr, data) => Deliver(d, ovs, buffers, addr, data, e, t);
  }

  lemma {:induction false} NoneAddressed(e: Engine, made: Option<nat>)
    requires Conserved(e) && (made.Some? ==> Addressed(e.queue, made.value) == |e.queue|)
    ensures forall r :: r in e.queue ==> r.id < |e.submitted| && (made.Some? ==> r.sock != made)
  {
    hide Conserved;
    forall r | r in e.queue ensures r.id < |e.submitted| && (made.Some? ==> r.sock != made) {
      QueuedSubmitted(e, r);
      var i :| 0 <= i < |e.queue| && e.queue[i] == r;
    }
  }

  lemma {:induction false} RunSnoc(e: Engine, t: nat, ids: seq<nat>, rooms: seq<nat>, cs: seq<Call>, n: nat)
    requires n < |cs|
    ensures AfterAll(e, t, ids, cs[..n + 1]) == After(AfterAll(e, t, ids, cs[..n]), t, ids, cs[n])
    ensures ToldAll(e, t, ids, cs[..n + 1]) == ToldAll(e, t, ids, cs[..n])
        + [Told(AfterAll(e, t, ids, cs[..n]), t, ids, cs[n])]
    ensures SoundAll(e, t, ids, rooms, cs) ==> Sound(AfterAll(e, t, ids, cs[..n]), ids, rooms, cs[n])
    decreases n
  {
    hide After, Told, Sound;
    if n == 0 {
      assert cs[..1] == [cs[0]] && cs[..1][1..] == [] && cs[..0] == [];
    } else {
      assert cs[..n + 1][1..] == cs[1..][..n] && cs[..n][1..] == cs[1..][..n - 1];
      RunSnoc(After(e, t, ids, cs[0]), t, ids, rooms, cs[1..], n - 1);
    }
  }

  /** Any series of calls, datagrams from the network in between: the objects afterwards are those of the engine state
      the calls' steps lead to, and every poll was told what those steps say. */
  method RunCalls(d: DeviceHandle, ovs: seq<Overlapped>, buffers: seq<array<Byte>>, cs: seq<Call>, ghost e: Engine,
      ghost t: nat)
    returns (told: seq<Option<PollOutcome>>)
    requires Holds(d, ovs, buffers, e, t) && SoundAll(e, t, Ids(ovs), Rooms(buffers), cs)
    modifies d`sockets, d.ctx, d.ctx.chain, d.sockets.Values, ovs, buffers
    ensures Holds(d, ovs, buffers, AfterAll(e, t, Ids(ovs), cs), t)
    ensures told == ToldAll(e, t, Ids(ovs), cs)
  {
    hide Holds, After, Told, Sound;
    told := [];
    ghost var ids := Ids(ovs);
    assert cs[..0] == [];
    for n := 0 to |cs|
      invariant Holds(d, ovs, buffers, AfterAll(e, t, ids, cs[..n]), t)
      invariant told == ToldAll(e, t, ids, cs[..n])
      invariant forall i :: 0 <= i < |d.ctx.chain| ==> d.ctx.chain[i] in old(d.ctx.chain) || fresh(d.ctx.chain[i])
      invariant forall s :: s in d.sockets.Values ==> s in old(d.sockets.Values) || fresh(s)
    {
      RunSnoc(e, t, ids, Rooms(buffers), cs, n);
      var answer := Perform(d, ovs, buffers, cs[n], AfterAll(e, t, ids, cs[..n]), t);
      told := told + [answer];
    }
    assert cs[..|cs|] == cs;
  }

  /** The same from the opening of a handle, with OVERLAPPEDs nobody has written: the objects are then at the end of a
      run of the engine from its start, so no read was lost or completed twice. */
  method Session(ovs: seq<Overlapped>, buffers: seq<array<Byte>>, cs: seq<Call>)
    returns (d: DeviceHandle, told: seq<Option<PollOutcome>>, ghost es: seq<ReadEngine.Event>)
    requires OneEach(Set(ovs)) && forall ov :: ov in ovs ==> ov.View() == Status(false, 0)
    requires SoundAll(Start(1), 0, Ids(ovs), Rooms(buffers), cs)
    modifies ovs, buffers
    ensures d.Valid() && Conserved(ReadEngine.Run(Start(1), es)) && d.Agrees(ReadEngine.Run(Start(1), es), Set(ovs))
    ensures ReadEngine.Run(Start(1), es) == AfterAll(Start(1), 0, Ids(ovs), cs)
        && told == ToldAll(Start(1), 0, Ids(ovs), cs)
  {
    hide Conserved;
    d := new DeviceHandle();
    d.active := true;
    StartBetween(1, 0);
    told := RunCalls(d, ovs, buffers, cs, Start(1), 0);
    es := CallsAreRun(Start(1), 0, Ids(ovs), cs);
  }
}
