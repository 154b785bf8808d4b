/** The whole path of a frame: the hooks in the application, a network that may lose, repeat and reorder datagrams,
    and the bridge with its TAP device. */
module Pipe {
  import opened Basics
  import opened Wire
  import opened Receive
  import opened PendingQueue
  import opened ReadEngine
  import opened Bridge

  /** A datagram on its way to the bridge. */
  datatype Sent = Sent(from: nat, data: Bytes)

  /** The hooks' state; the bridge's table and buffer; every datagram ever sent either way; and the logs of what
      came out of and went into TAP, of the frames and commands the application sent, and of those applied. */
  datatype Sys = Sys(
    eng: Engine,
    clients: seq<nat>,
    buf: Bytes,
    up: seq<Sent>,
    down: seq<Packet>,
    fromTap: seq<Bytes>,
    toTap: seq<Bytes>,
    frames: seq<Bytes>,
    commands: seq<Command>,
    applied: seq<Command>)

  /** Hook: a step of the reads. Register: ReadFile's socket says it is there. Write: WriteFile, with or without
      success in making its socket. SendFrame and Control: the client's functions. TapRead and Receive: the two
      halves of the bridge's loop; Receive takes any datagram ever sent to it. Deliver: any datagram ever sent
      to a read's address reaches its socket. */
  datatype Event =
    | Hook(e: ReadEngine.Event)
    | Register(a: nat)
    | Write(a: nat, block: Bytes, ok: bool)
    | SendFrame(a: nat, f: Bytes)
    | Control(a: nat, c: Command)
    | TapRead(f: Bytes)
    | Receive(i: nat)
    | Deliver(id: nat, i: nat)

  function Start(threads: nat, buf: Bytes): Sys {
    Sys(ReadEngine.Start(threads), [], buf, [], [], [], [], [], [], [])
  }

  function Sending(s: Sys, a: nat, d: Bytes): Sys {
    s.(up := s.up + [Sent(a, d)])
  }

  function Step(s: Sys, e: Event): (s': Sys)
    requires |s.buf| == BUFFER_SIZE
    ensures |s'.buf| == BUFFER_SIZE
  {
    match e
    case Hook(h) => if h.Arrive? then s else s.(eng := ReadEngine.Step(s.eng, h))
    case Register(a) => Sending(s, a, REGISTRATION)
    case Write(a, block, ok) =>
      if |block| < 0x1_0000_0000 && ok && Extract(block).Framed? then
        var f := Extract(block).frame;
        Sending(s, a, DataPacket(f)).(frames := s.frames + [f])
      else s
    case SendFrame(a, f) =>
      if 0 < |f| <= BUFFER_SIZE then Sending(s, a, DataPacket(f)).(frames := s.frames + [f]) else s
    case Control(a, c) =>
      if Sized(c) then Sending(s, a, Encode(c)).(commands := s.commands + [c]) else s
    case TapRead(f) =>
      if f == [] then s
      else
        s.(fromTap := s.fromTap + [f], down := s.down + Broadcast(s.clients, f),
           buf := Received(s.buf, DataPacket(Cut(f, BUFFER_SIZE - 1))))
    case Receive(i) =>
      if i < |s.up| then
        var d := s.up[i].data;
        var s1 := s.(clients := Admit(s.clients, s.up[i].from), buf := Received(s.buf, d));
        match Act(s.buf, d)
        case Apply(c) => s1.(applied := s.applied + [c])
        case WriteTap(f) => s1.(toTap := s.toTap + [f])
        case Nothing => s1
      else s
    case Deliver(id, i) =>
      if i < |s.down| && id < |s.eng.submitted| && s.eng.submitted[id].sock == Some(s.down[i].to) then
        s.(eng := ReadEngine.Step(s.eng, Arrive(id, s.down[i].data)))
      else s
  }

  function Run(s: Sys, es: seq<Event>): Sys
    requires |s.buf| == BUFFER_SIZE
    decreases |es|
  {
    if es == [] then s else Run(Step(s, es[0]), es[1..])
  }

  // ---------- Safety ----------

  /** What is left of a TAP frame or a submitted frame in a buffer of 2048 bytes that also holds the type byte. */
  function Fitted(f: Bytes): (g: Bytes)
    ensures |g| < BUFFER_SIZE && (g == f <==> |f| < BUFFER_SIZE)
  {
    Cut(f, BUFFER_SIZE - 1)
  }

  /** The datagram carries a frame read from TAP. */
  ghost predicate Carries(taps: seq<Bytes>, d: Bytes) {
    exists f :: f in taps && d == DataPacket(Fitted(f))
  }

  /** The frame was read from TAP, is long enough, and passes the filter. */
  ghost predicate Genuine(taps: seq<Bytes>, frame: Bytes, mac: Option<Bytes>) {
    && |frame| >= SHORTEST - 1 && MacMatches(mac, frame)
    && exists f :: f in taps && frame == Fitted(f)
  }

  ghost predicate ReadsGenuine(e: Engine, taps: seq<Bytes>) {
    && (forall id, k :: id in e.mail && 0 <= k < |e.mail[id]| ==> Carries(taps, e.mail[id][k]))
    && (forall t :: 0 <= t < |e.calls| && e.calls[t].Matched? ==> Genuine(taps, e.calls[t].frame, e.calls[t].mac))
    && (forall c :: c in e.done ==> Genuine(taps, c.frame, c.mac))
  }

  ghost predicate WritesGenuine(s: Sys) {
    && (forall p :: p in s.up ==>
          || p.data == REGISTRATION
          || (exists c :: c in s.commands && p.data == Encode(c))
          || (exists f :: f in s.frames && p.data == DataPacket(f)))
    && (forall g :: g in s.toTap ==> exists f :: f in s.frames && g == Fitted(f))
    && (forall c :: c in s.commands ==> Sized(c))
    && (forall c :: c in s.applied ==> c in s.commands)
  }

  ghost predicate Inv(s: Sys) {
    && |s.buf| == BUFFER_SIZE
    && (forall p :: p in s.down ==> Carries(s.fromTap, p.data))
    && ReadsGenuine(s.eng, s.fromTap)
    && WritesGenuine(s)
    && Conserved(s.eng)
    && NoDuplicates(s.clients) && |s.clients| <= MAX_CLIENTS
  }

  lemma {:induction false} StartInv(threads: nat, buf: Bytes)
    requires |buf| == BUFFER_SIZE
    ensures Inv(Start(threads, buf))
  {
    hide Places;
    StartConserves(threads);
  }

  lemma {:induction false} MoreTaps(e: Engine, taps: seq<Bytes>, f: Bytes)
    requires ReadsGenuine(e, taps)
    ensures ReadsGenuine(e, taps + [f])
    ensures forall d :: Carries(taps, d) ==> Carries(taps + [f], d)
  {
    hide MacMatches, Fitted;
    assert forall g :: g in taps ==> g in taps + [f];
  }

  lemma {:induction false} BroadcastCarries(cs: seq<nat>, taps: seq<Bytes>, f: Bytes)
    requires f in taps
    ensures forall p :: p in Broadcast(cs, f) ==> Carries(taps, p.data)
  {
  }

  /** A recv that matches hands on a frame of the datagram it took. */
  lemma {:induction false} RecvGenuine(e: Engine, taps: seq<Bytes>, t: nat)
    requires ReadsGenuine(e, taps)
    ensures ReadsGenuine(ReadEngine.Step(e, Recv(t)), taps)
  {
    hide MacMatches, Fitted;
    if At(e, t).Holding? && Mail(e, e.calls[t].r.id) != [] {
      var e' := ReadEngine.Step(e, Recv(t));
      var id := e.calls[t].r.id;
      var m := Mail(e, id);
      assert Carries(taps, m[0]);
      var f :| f in taps && m[0] == DataPacket(Fitted(f));
      assert m[0][1..] == Fitted(f);
      assert forall k :: 0 <= k < |m| - 1 ==> m[1..][k] == e.mail[id][k + 1];
    }
  }

  /** Only a recv takes mail or matches a frame, and what completes was matched. */
  lemma {:induction false} HookPlain(e: Engine, h: ReadEngine.Event)
    requires !h.Arrive? && !h.Recv?
    ensures var e' := ReadEngine.Step(e, h);
            && e'.mail == e.mail && |e'.calls| == |e.calls|
            && (forall t :: 0 <= t < |e'.calls| && e'.calls[t].Matched? ==> e'.calls[t] == e.calls[t])
            && (forall c :: c in e'.done && c !in e.done ==>
                  exists t :: 0 <= t < |e.calls| && e.calls[t].Matched? && e.calls[t].frame == c.frame
                              && e.calls[t].mac == c.mac)
  {
    hide Find, Without, Block;
    if h.Complete? && At(e, h.t).Matched? {
      var e' := ReadEngine.Step(e, h);
      assert forall c :: c in e'.done ==> c in e.done || c == e'.done[|e.done|];
    }
  }

  lemma {:induction false} HookGenuine(e: Engine, taps: seq<Bytes>, h: ReadEngine.Event)
    requires ReadsGenuine(e, taps) && !h.Arrive?
    ensures ReadsGenuine(ReadEngine.Step(e, h), taps)
  {
    hide Genuine, Carries, Find, Without, Block, Readable, MacMatches, ReadEngine.Step;
    if h.Recv? {
      RecvGenuine(e, taps, h.t);
    } else {
      HookPlain(e, h);
    }
  }

  lemma {:induction false} ArriveGenuine(e: Engine, taps: seq<Bytes>, id: nat, d: Bytes)
    requires ReadsGenuine(e, taps) && Carries(taps, d)
    ensures ReadsGenuine(ReadEngine.Step(e, Arrive(id, d)), taps)
  {
    hide Genuine, Carries;
  }

  lemma {:induction false} SendingGenuine(s: Sys, e: Event)
    requires Inv(s) && (e.Register? || e.Write? || e.SendFrame? || e.Control?)
    ensures WritesGenuine(Step(s, e))
  {
    hide Extract, Encode, Fitted, ReadsGenuine, Conserved, Carries, NoDuplicates;
    var s' := Step(s, e);
    assert forall f :: f in s.frames ==> f in s'.frames;
    assert forall c :: c in s.commands ==> c in s'.commands;
    if s'.up != s.up {
      var p := s'.up[|s.up|];
      assert forall q :: q in s'.up ==> q in s.up || q == p;
      if e.Control? { assert s'.commands[|s.commands|] == e.c; }
      if e.Write? || e.SendFrame? {
        assert p.data == DataPacket(s'.frames[|s.frames|]) && s'.frames[|s.frames|] in s'.frames;
      }
    }
  }

  /** A datagram the bridge acts on carries the command or the frame the application sent. */
  lemma {:induction false} ReceiveGenuine(s: Sys, i: nat)
    requires Inv(s) && i < |s.up|
    ensures WritesGenuine(Step(s, Receive(i)))
  {
    hide Act, Received, ReadsGenuine, Conserved, Carries, NoDuplicates, Admit;
    var d := s.up[i].data;
    assert s.up[i] in s.up;
    if d == REGISTRATION {
      RegistrationOnly(s.buf);
    } else if c :| c in s.commands && d == Encode(c) {
      SettersRoundTrip(c, s.buf);
    } else {
      var f :| f in s.frames && d == DataPacket(f);
      FrameToTap(s.buf, f);
    }
  }

  lemma {:induction false} StepInv(s: Sys, e: Event)
    requires Inv(s)
    ensures Inv(Step(s, e))
  {
    hide ReadsGenuine, Conserved, Carries, Extract, Act, Received, Encode, NoDuplicates;
    match e
    case Hook(h) =>
      if !h.Arrive? { HookGenuine(s.eng, s.fromTap, h); StepConserves(s.eng, h); }
    case TapRead(f) =>
      if f != [] {
        MoreTaps(s.eng, s.fromTap, f);
        BroadcastCarries(s.clients, s.fromTap + [f], f);
      }
    case Receive(i) =>
      if i < |s.up| {
        ReceiveGenuine(s, i);
        TableShape(s.clients, [s.up[i].from]);
        assert Table(s.clients, [s.up[i].from]) == Admit(s.clients, s.up[i].from)
            by { OneSender(s.clients, s.up[i].from); }
      }
    case Deliver(id, i) =>
      if i < |s.down| && id < |s.eng.submitted| {
        assert s.down[i] in s.down;
        ArriveGenuine(s.eng, s.fromTap, id, s.down[i].data);
        StepConserves(s.eng, Arrive(id, s.down[i].data));
      }
    case _ => SendingGenuine(s, e);
  }

  lemma OneSender(cs: seq<nat>, a: nat)
    ensures Table(cs, [a]) == Admit(cs, a)
  {
    var one := [a];
    assert one[1..] == [];
    assert Table(Admit(cs, a), []) == Admit(cs, a);
  }

  lemma {:induction false} RunInv(s: Sys, es: seq<Event>)
    requires Inv(s)
    ensures Inv(Run(s, es))
    decreases |es|
  {
    hide Inv, Step;
    if es != [] {
      assert |s.buf| == BUFFER_SIZE by { InvBuffer(s); }
      StepInv(s, es[0]);
      RunInv(Step(s, es[0]), es[1..]);
    }
  }

  lemma InvBuffer(s: Sys)
    requires Inv(s)
    ensures |s.buf| == BUFFER_SIZE
  {
  }

  /** Pipe safety, whatever the network loses, repeats or reorders and however the threads interleave: every read
      completes with a block of a frame that was read from TAP before (its first 2047 bytes) and passes the
      filter its handle had when it was matched; every frame written to TAP is (the first 2047 bytes of) one
      the application wrote or sent; every command applied is one it sent; no read is lost or completed twice. */
  lemma {:induction false} PipeSafe(threads: nat, buf: Bytes, es: seq<Event>)
    requires |buf| == BUFFER_SIZE
    ensures var s := Run(Start(threads, buf), es);
            && (forall c :: c in s.eng.done ==>
                  && Wanted(c.mac, c.frame)
                  && exists f :: f in s.fromTap && c.frame == if |f| < 2048 then f else f[..2047])
            && (forall g :: g in s.toTap ==> exists f :: f in s.frames && g == if |f| < 2048 then f else f[..2047])
            && (forall c :: c in s.applied ==> c in s.commands)
            && Conserved(s.eng)
  {
    hide Conserved;
    StartInv(threads, buf);
    RunInv(Start(threads, buf), es);
  }

  // ---------- From the application to TAP ----------

  /** What was sent stays there to be received. */
  lemma {:induction false} RunKeepsSent(s: Sys, es: seq<Event>, i: nat)
    requires |s.buf| == BUFFER_SIZE && i < |s.up|
    ensures i < |Run(s, es).up| && Run(s, es).up[i] == s.up[i]
    decreases |es|
  {
    if es != [] {
      StepKeepsSent(s, es[0]);
      RunKeepsSent(Step(s, es[0]), es[1..], i);
    }
  }

  lemma StepKeepsSent(s: Sys, e: Event)
    requires |s.buf| == BUFFER_SIZE
    ensures s.up <= Step(s, e).up
  {
    hide Act, Extract, Encode, ReadEngine.Step, Received, Admit;
  }

  lemma {:induction false} RunKeepsBuffer(s: Sys, es: seq<Event>)
    requires |s.buf| == BUFFER_SIZE
    ensures |Run(s, es).buf| == BUFFER_SIZE
    decreases |es|
  {
    hide Step;
    if es != [] { RunKeepsBuffer(Step(s, es[0]), es[1..]); }
  }

  /** A block that holds as many bytes as its length says, written with a socket to spare, and then anything at all:
      whenever the bridge receives the datagram it writes just the frame to TAP, its first 2047 bytes if it is longer,
      and applies no command. */
  lemma {:induction false} WrittenReachesTap(s: Sys, a: nat, b: Bytes, es: seq<Event>)
    requires |s.buf| == 2048 && 8 <= |b| < 0x1_0000_0000
    requires var (b4: int, b5: int, b6: int, b7: int) := (b[4], b[5], b[6], b[7]);
             8 + b4 + 256 * b5 + 65536 * b6 + 16777216 * b7 <= |b|
    ensures var (b4: int, b5: int, b6: int, b7: int) := (b[4], b[5], b[6], b[7]);
            var f := b[8..8 + b4 + 256 * b5 + 65536 * b6 + 16777216 * b7];
            var s1 := Run(Step(s, Write(a, b, true)), es);
            |s1.buf| == 2048 && Writes(s1, Step(s1, Receive(|s.up|)), a, f)
  {
    hide Extract, Act;
    ExtractIs(b);
    var f := Extract(b).frame;
    PacketsAre(f, [], 0);
    SentIsWritten(Step(s, Write(a, b, true)), |s.up|, a, f, es);
  }

  /** The same for `send_raw_frame`, of 1 to 2048 bytes. */
  lemma {:induction false} RawFrameReachesTap(s: Sys, a: nat, f: Bytes, es: seq<Event>)
    requires |s.buf| == 2048 && 1 <= |f| <= 2048
    ensures var s1 := Run(Step(s, SendFrame(a, f)), es);
            |s1.buf| == 2048 && Writes(s1, Step(s1, Receive(|s.up|)), a, f)
  {
    hide Extract, Act;
    PacketsAre(f, [], 0);
    SentIsWritten(Step(s, SendFrame(a, f)), |s.up|, a, f, es);
  }

  /** The bridge writes this frame to TAP, cut to 2047 bytes, applies nothing, and knows the sender. */
  ghost predicate Writes(s: Sys, s': Sys, a: nat, f: Bytes) {
    && s'.toTap == s.toTap + [if |f| < 2048 then f else f[..2047]]
    && s'.applied == s.applied && a in s'.clients && s'.fromTap == s.fromTap && s'.eng == s.eng
  }

  lemma {:induction false} SentIsWritten(s: Sys, i: nat, a: nat, f: Bytes, es: seq<Event>)
    requires |s.buf| == BUFFER_SIZE && i < |s.up| && s.up[i] == Sent(a, [0] + f)
    ensures var s1 := Run(s, es); |s1.buf| == BUFFER_SIZE && Writes(s1, Step(s1, Receive(i)), a, f)
  {
    hide Step, Act, Admit;
    RunKeepsSent(s, es, i);
    RunKeepsBuffer(s, es);
    var s1 := Run(s, es);
    assert DataPacket(f) == [0] + f;
    FrameToTap(s1.buf, f);
    SenderKnown(s1.clients, a);
    Received1(s1, i);
  }

  lemma Received1(s: Sys, i: nat)
    requires |s.buf| == BUFFER_SIZE && i < |s.up| && Act(s.buf, s.up[i].data).WriteTap?
    ensures Step(s, Receive(i)) == s.(clients := Admit(s.clients, s.up[i].from), buf := Received(s.buf, s.up[i].data),
                toTap := s.toTap + [Act(s.buf, s.up[i].data).frame])
  {
    hide Act, Received, Admit;
  }

  lemma SenderKnown(cs: seq<nat>, a: nat)
    ensures a in Admit(cs, a)
  {
  }

  /** A command sent, and then anything at all: whenever the bridge receives the datagram it applies just that command
      and writes nothing to TAP. */
  lemma {:induction false} CommandReachesBridge(s: Sys, a: nat, c: Command, es: seq<Event>)
    requires |s.buf| == 2048 && Sized(c)
    ensures var s1 := Run(Step(s, Control(a, c)), es);
            && |s1.buf| == 2048
            && var s2 := Step(s1, Receive(|s.up|));
               && s2.applied == s1.applied + [c] && s2.toTap == s1.toTap && s2.fromTap == s1.fromTap
               && s2.eng == s1.eng && a in s2.clients
  {
    hide Act, Admit, Encode, ReadEngine.Step, Received;
    var s0 := Step(s, Control(a, c));
    RunKeepsSent(s0, es, |s.up|);
    RunKeepsBuffer(s0, es);
    var s1 := Run(s0, es);
    SettersRoundTrip(c, s1.buf);
    SenderKnown(s1.clients, a);
  }
}
