/** ReadFile, WriteFile and GetOverlappedResult run by one thread at a time, over the objects they change, and the
    proof that the engine's steps taken by one thread alone amount to the same. */
module Device {
  import opened Basics
  import opened Wire
  import opened Receive
  import opened PendingQueue
  import opened ReadEngine

  class Overlapped {
    const id: nat
    var pending: bool
    var count: nat

    constructor (id: nat)
      ensures this.id == id && !pending && count == 0
    {
      this.id, pending, count := id, false, 0;
    }

    ghost function View(): Status
      reads this
    {
      Status(pending, count)
    }
  }

  /** Inactive: no bridge. Unsupported: no OVERLAPPED. Queued: ERROR_IO_PENDING. */
  datatype ReadOutcome = Inactive | Unsupported | Queued

  /** Finished: TRUE with a count. Unknown: no such read is queued. Incomplete: no data yet. */
  datatype PollOutcome = Finished(count: nat) | Unknown | Incomplete

  /** No two reads of the queue share an id or an address. */
  ghost predicate Separate(q: seq<Read>) {
    forall i, j :: 0 <= i < j < |q| ==> q[i].id != q[j].id && (q[i].sock.Some? ==> q[i].sock != q[j].sock)
  }

  lemma {:induction false} SeparateSnoc(q: seq<Read>, r: Read)
    requires Separate(q) && forall p :: p in q ==> p.id != r.id && (r.sock.Some? ==> p.sock != r.sock)
    ensures Separate(q + [r])
  {
    forall i | 0 <= i < |q| ensures q[i].id != r.id && (q[i].sock.Some? ==> q[i].sock != r.sock) { assert q[i] in q; }
  }

  lemma {:induction false} AddressesApart(q: seq<Read>, r: Read, j: nat)
    requires Separate(q) && r in q && j < |q| && r != q[j]
    ensures r.sock.Some? ==> r.sock != q[j].sock
  {
    var i :| 0 <= i < |q| && q[i] == r;
    if i < j {
      assert q[i].sock.Some? ==> q[i].sock != q[j].sock;
    } else {
      assert q[j].sock.Some? ==> q[j].sock != q[i].sock;
    }
  }

  /** What the receive loop leaves in the caller's buffer: the block of the frame it found in front of the rest. */
  ghost predicate Filled(now: Bytes, was: Bytes, mac: Option<Bytes>, mail: seq<Bytes>, buflen: nat) {
    match Found(mac, mail)
    case None => now == was
    case Some(f) => |Block(f, buflen)| <= |was| && now == Block(f, buflen) + was[|Block(f, buflen)|..]
  }

  /** An OVERLAPPED is known by its id. */
  ghost predicate OneEach(ovs: set<Overlapped>) {
    forall a, b :: a in ovs && b in ovs && a.id == b.id ==> a == b
  }

  lemma {:induction false} KeptReads(q: seq<Read>, o: nat)
    ensures forall r :: r in Polled(q, o) ==> r in q
    ensures forall r :: r in Without(q, o) ==> r in q
  {
  }

  lemma {:induction false} SeparateWithout(q: seq<Read>, o: nat)
    requires Separate(q)
    ensures Separate(Without(q, o))
    ensures Find(q, o) < |q| ==> Separate(Without(q, o) + [q[Find(q, o)]])
  {
    hide Find;
    var j, w := Find(q, o), Without(q, o);
    if j < |q| {
      assert forall i :: 0 <= i < |w| ==> w[i] == q[if i < j then i else i + 1];
      forall i | 0 <= i < |w| ensures w[i].id != q[j].id && (w[i].sock.Some? ==> w[i].sock != q[j].sock) {
        if i < j { assert w[i] == q[i]; } else { assert w[i] == q[i + 1]; }
      }
    }
  }

  lemma {:induction false} StaySeparate(q: seq<Read>, o: nat)
    requires Separate(q)
    ensures Separate(Polled(q, o)) && Separate(Without(q, o))
  {
    hide Find, Without, Polled, Separate;
    SeparateWithout(q, o);
    PolledKeeps(q, o);
    if Find(q, o) == |q| { NotFoundKeeps(q, o); }
  }

  lemma NotFoundKeeps(q: seq<Read>, o: nat)
    requires Find(q, o) == |q|
    ensures Polled(q, o) == q && Without(q, o) == q
  {
  }

  class DeviceHandle {
    var active: bool
    const ctx: HandleContext
    var sockets: map<nat, Socket>

    constructor ()
      ensures Valid() && Private() && ctx.Queue() == [] && ctx.chain == [] && ctx.mac == None && !active && fresh(ctx)
      ensures sockets == map[]
    {
      active, sockets := false, map[];
      ctx := new HandleContext();
      new;
    }

    /** The read has room for what it asks for, and its socket is there. */
    ghost predicate Ready(r: PendingRead)
      reads this
    {
      r.buflen <= r.buffer.Length && (r.sock.Some? ==> r.sock.value in sockets)
    }

    ghost predicate Valid()
      reads this, ctx, ctx.chain
    {
      ctx.Valid() && forall r :: r in ctx.chain ==> Ready(r)
    }

    /** The MAC-setting IOCTL: only an input of six bytes is taken. */
    method SetMacFilter(input: Bytes) returns (ok: bool)
      requires Valid()
      modifies ctx`mac
      ensures Valid() && ctx.Queue() == old(ctx.Queue())
      ensures ok <==> |input| == 6
      ensures ctx.mac == if ok then Some(input) else old(ctx.mac)
    {
      ok := |input| == MAC_SIZE;
      if ok { ctx.mac := Some(input); }
    }

    /** `made` is the address of the new socket, when one could be made and connected. */
    method ReadFile(buffer: array<Byte>, buflen: nat, ov: Overlapped?, made: Option<nat>, ghost id: nat)
      returns (outcome: ReadOutcome, sent: Option<(nat, Bytes)>)
      requires Valid() && buflen <= buffer.Length
      modifies this`sockets, ctx, ctx.chain, ov
      ensures Valid()
      ensures outcome == if !active then Inactive else if ov == null then Unsupported else Queued
      ensures ctx.mac == old(ctx.mac)
      ensures outcome.Queued? ==>
                && ov.pending && ov.count == old(ov.count)
                && ctx.Queue() == old(ctx.Queue()) + [Read(id, ov.id, buflen, made)]
                && sent == (if made.Some? then Some((made.value, REGISTRATION)) else None)
                && (made.Some? ==>
                      made.value in sockets && fresh(sockets[made.value]) && sockets[made.value].mail == [])
                && sockets == (if made.Some? then old(sockets)[made.value := sockets[made.value]] else old(sockets))
                && |ctx.chain| == |old(ctx.chain)| + 1 && ctx.chain[..|old(ctx.chain)|] == old(ctx.chain)
                && fresh(ctx.chain[|old(ctx.chain)|]) && ctx.chain[|old(ctx.chain)|].buffer == buffer
      ensures !outcome.Queued? ==>
                sent == None && ctx.Queue() == old(ctx.Queue()) && ctx.chain == old(ctx.chain)
                    && sockets == old(sockets)
    {
      hide HandleContext.Valid;
      sent := None;
      if !active { return Inactive, None; }
      if ov == null { return Unsupported, None; }
      if made.Some? {
        var s := new Socket();
        sockets := sockets[made.value := s];
        sent := Some((made.value, REGISTRATION));
      }
      var req := new PendingRead(id, ov.id, buffer, buflen, made, ctx);
      ctx.TailIn();
      ctx.Append(req);
      ov.pending := true;
      outcome := Queued;
    }

    /** Always reports all bytes written; `made` as above. `overrun` says that the copy runs past the caller's
        buffer, after which nothing is known. */
    method WriteFile(block: Bytes, ov: Overlapped?, made: Option<nat>)
      returns (written: nat, sent: Option<(nat, Bytes)>, overrun: bool)
      requires |block| < 0x1_0000_0000
      modifies ov
      ensures overrun <==> active && made.Some? && Extract(block) == Overrun
      ensures !overrun ==>
                && written == |block|
                && sent == (if active && made.Some? && Extract(block).Framed?
                            then Some((made.value, DataPacket(Extract(block).frame))) else None)
                && (ov != null ==> ov.View() == Status(false, |block|))
    {
      written, sent, overrun := |block|, None, false;
      if active && |block| >= HEADER_SIZE {
        var n := HeaderLength(block);
        if (n + HEADER_SIZE) % 0x1_0000_0000 <= |block| && made.Some? {
          if n + HEADER_SIZE > |block| { return 0, None, true; }
          sent := Some((made.value, DataPacket(block[HEADER_SIZE..HEADER_SIZE + n])));
        }
      }
      if ov != null {
        ov.pending, ov.count := false, |block|;
      }
    }

    /** What waits on the socket of a read; a read without one has nothing. */
    ghost function MailFor(r: Read): seq<Bytes>
      reads this, sockets.Values
    {
      if r.sock.Some? && r.sock.value in sockets then sockets[r.sock.value].mail else []
    }

    /** The middle of GetOverlappedResult: outside the lock, on the request it has taken and its socket, if any. */
    method TryReceive(s: Socket?, buffer: array<Byte>, buflen: nat) returns (completed: bool, copyLen: nat)
      requires buflen <= buffer.Length
      modifies s, buffer
      ensures var mail := if s == null then [] else old(s.mail);
              && (s != null ==> s.mail == mail[Taken(ctx.mac, mail)..])
              && Filled(buffer[..], old(buffer[..]), ctx.mac, mail, buflen)
              && match Found(ctx.mac, mail)
                 case None => !completed
                 case Some(f) => completed && copyLen == |Block(f, buflen)|
    {
      hide Found, Taken, Block;
      completed, copyLen := false, 0;
      if s != null {
        completed, copyLen := ReceiveMatching(s, ctx.mac, buffer, buflen);
      } else {
        NothingFound(ctx.mac);
      }
    }

    /** The end of GetOverlappedResult, from the unlinked request on: try to receive, then complete or queue again. */
    method Finish(ov: Overlapped, req: PendingRead, s: Socket?) returns (outcome: PollOutcome)
      requires Valid() && Ready(req) && req.owner == ctx && req !in ctx.chain
      modifies ov, ctx`head, ctx`tail, ctx`chain, (if ctx.tail == null then {req} else {req, ctx.tail})`next, s,
          req.buffer
      ensures Valid() && forall r :: r in ctx.chain ==> r == req || r in old(ctx.chain)
      ensures s != null ==> s.mail == old(s.mail)[Taken(ctx.mac, old(s.mail))..]
      ensures var mail := if s == null then [] else old(s.mail);
              && Filled(req.buffer[..], old(req.buffer[..]), ctx.mac, mail, req.buflen)
              && match Found(ctx.mac, mail)
                 case None =>
                   && outcome == Incomplete && ov.View() == old(ov.View())
                   && ctx.Queue() == old(ctx.Queue()) + [req.View()]
                 case Some(f) =>
                   var size := |Block(f, req.buflen)|;
                   outcome == Finished(size) && ov.View() == Status(false, size) && ctx.Queue() == old(ctx.Queue())
    {
      hide HandleContext.Valid, Found, Taken, Block, Filled;
      var completed, copyLen := TryReceive(s, req.buffer, req.buflen);
      if !completed {
        ctx.Append(req);
        assert forall r :: r in ctx.chain ==> Ready(r);
        return Incomplete;
      }
      ov.pending, ov.count := false, copyLen;
      return Finished(copyLen);
    }

    /** s is the socket of the read that a poll on ov takes. */
    ghost predicate Polls(ov: Overlapped, s: Socket)
      requires ctx.Valid()
      reads this, ctx, ctx.chain, ov
    {
      var j := Find(ctx.Queue(), ov.id);
      ov.pending && j < |ctx.Queue()| && ctx.Queue()[j].sock.Some? && ctx.Queue()[j].sock.value in sockets
      && s == sockets[ctx.Queue()[j].sock.value]
    }

    method GetOverlappedResult(ov: Overlapped) returns (outcome: PollOutcome)
      requires Valid()
      modifies ov, ctx`head, ctx`tail, ctx`chain, ctx.chain`next, sockets.Values, set r | r in ctx.chain :: r.buffer
      ensures Valid() && forall r :: r in ctx.chain ==> r in old(ctx.chain)
      ensures forall s :: s in sockets.Values && !old(Polls(ov, s)) ==> s.mail == old(s.mail)
      ensures !old(ov.pending) ==>
                outcome == Finished(ov.count) && ov.View() == old(ov.View()) && ctx.Queue() == old(ctx.Queue())
      ensures old(ov.pending) && Find(old(ctx.Queue()), ov.id) == |old(ctx.Queue())| ==>
                outcome == Unknown && ctx.Queue() == old(ctx.Queue()) && ov.View() == old(ov.View())
      ensures old(ov.pending) && Find(old(ctx.Queue()), ov.id) < |old(ctx.Queue())| ==>
                var q := old(ctx.Queue());
                var r := q[Find(q, ov.id)];
                var mail := old(MailFor(r));
                && MailFor(r) == mail[Taken(ctx.mac, mail)..]
                && match Found(ctx.mac, mail)
                   case None => outcome == Incomplete && ctx.Queue() == Polled(q, ov.id) && ov.View() == old(ov.View())
                   case Some(f) =>
                     var size := |Block(f, r.buflen)|;
                     outcome == Finished(size) && ov.View() == Status(false, size) && ctx.Queue() == Without(q, ov.id)
      ensures old(ov.pending) && Find(old(ctx.Queue()), ov.id) < |old(ctx.Queue())| ==>
                var j := Find(old(ctx.Queue()), ov.id);
                var buffer := old(ctx.chain)[j].buffer;
                Filled(buffer[..], old(buffer[..]), ctx.mac, old(MailFor(ctx.Queue()[j])), old(ctx.Queue())[j].buflen)
    {
      hide HandleContext.Valid, Find, Found, Taken, Block, Polled, Without, Filled;
      if !ov.pending { return Finished(ov.count); }
      ghost var q, was := ctx.Queue(), ctx.chain;
      PolledKeeps(q, ov.id);
      var req := ctx.Unlink(ov.id);
      if req == null { return Unknown; }
      assert forall r :: r in ctx.chain ==> r in was && Ready(r);
      ghost var j := Find(q, ov.id);
      assert req == was[j] && req in was && Ready(req);
      var s: Socket? := if req.sock.Some? then sockets[req.sock.value] else null;
      assert s != null ==> s in sockets.Values;
      ctx.TailIn();
      outcome := Finish(ov, req, s);
    }

    lemma SocketsThere()
      requires Valid()
      ensures forall r :: r in ctx.Queue() && r.sock.Some? ==> r.sock.value in sockets
    {
      forall r | r in ctx.Queue() && r.sock.Some? ensures r.sock.value in sockets {
        var i :| 0 <= i < |ctx.Queue()| && ctx.Queue()[i] == r;
        assert ctx.chain[i] in ctx.chain && Ready(ctx.chain[i]);
      }
    }

    // ---------- The engine's steps and these methods ----------

    /** No two queued reads share an id or an address, and no two addresses a socket. */
    ghost predicate Private()
      requires ctx.Valid()
      reads this, ctx, ctx.chain
    {
      && Separate(ctx.Queue())
      && forall a, b :: a in sockets && b in sockets && a != b ==> sockets[a] != sockets[b]
    }

    /** The engine state e is what the objects hold, the OVERLAPPEDs of the application included. */
    ghost predicate Agrees(e: Engine, ovs: set<Overlapped>)
      requires ctx.Valid()
      reads this, ctx, ctx.chain, ovs, sockets.Values
    {
      && e.queue == ctx.Queue() && e.mac == ctx.mac
      && (forall ov :: ov in ovs ==> StatusOf(e, ov.id) == ov.View())
      && forall r :: r in e.queue ==> ReadEngine.MailFor(e, r) == MailFor(r)
    }

    /** What a poll answers, read off the engine's steps. */
    static ghost function Answer(e: Engine, t: nat, o: nat): PollOutcome {
      var e' := PollSteps(e, t, o);
      if !StatusOf(e, o).pending then Finished(StatusOf(e, o).count)
      else if Find(e.queue, o) == |e.queue| then Unknown
      else if e'.done == e.done then Incomplete
      else Finished(StatusOf(e', o).count)
    }

    /** ReadFile on an active handle takes objects that agree with an engine state to objects that agree with the
        state its two steps lead to. The new socket's address is none a queued read has. */
    method ReadAsSteps(buffer: array<Byte>, buflen: nat, ov: Overlapped, made: Option<nat>,
                       ghost ovs: set<Overlapped>, ghost e: Engine, ghost t: nat)
      returns (sent: Option<(nat, Bytes)>)
      requires Valid() && Private() && Agrees(e, ovs) && t < |e.calls| && e.calls[t].Idle?
      requires active && ov in ovs && OneEach(ovs) && buflen <= buffer.Length
      requires made.Some? ==> forall r :: r in e.queue ==> r.sock != made
      requires Mail(e, |e.submitted|) == [] && forall r :: r in e.queue ==> r.id < |e.submitted|
      modifies this`sockets, ctx, ctx.chain, ov
      ensures Valid() && Private() && Agrees(ReadSteps(e, t, ov.id, buflen, made), ovs)
      ensures sent == if made.Some? then Some((made.value, REGISTRATION)) else None
      ensures forall r :: r in ctx.chain ==> r in old(ctx.chain) || (fresh(r) && r.buffer == buffer)
      ensures forall s :: s in sockets.Values ==> s in old(sockets.Values) || fresh(s)
    {
      hide HandleContext.Valid, HandleContext.Queue, ReadSteps, Separate;
      ghost var q, r := ctx.Queue(), Read(|e.submitted|, ov.id, buflen, made);
      ReadAlone(e, t, ov.id, buflen, made);
      SeparateSnoc(q, r);
      var outcome;
      outcome, sent := ReadFile(buffer, buflen, ov, made, |e.submitted|);
      assert ctx.chain == ctx.chain[..|old(ctx.chain)|] + [ctx.chain[|old(ctx.chain)|]];
      forall p | p in q + [r] ensures ReadEngine.MailFor(ReadSteps(e, t, ov.id, buflen, made), p) == MailFor(p) {
        if p in q { assert ReadEngine.MailFor(e, p) == old(MailFor(p)); }
      }
    }

    /** The same answer, read off the queue and the mail before the poll. */
    static lemma AnswerIs(e: Engine, t: nat, o: nat)
      requires t < |e.calls| && e.calls[t].Idle?
      ensures StatusOf(e, o).pending && Find(e.queue, o) < |e.queue| ==>
                var r := e.queue[Find(e.queue, o)];
                Answer(e, t, o) == match Found(e.mac, ReadEngine.MailFor(e, r))
                                   case None => Incomplete
                                   case Some(f) => Finished(|Block(f, r.buflen)|)
    {
      hide Find, Found, Taken, Block, Polled, Without, PollSteps, StatusOf, ReadEngine.MailFor, OthersKeep;
      PollAlone(e, t, o);
    }

    /** The i-th datagram is the first with a frame the handle wants, and those before it are of 14 to 2048 bytes. */
    static ghost predicate Comes(mac: Option<Bytes>, mail: seq<Bytes>, i: nat) {
      && i < |mail| && 14 <= |mail[i]| <= 2048 && Wanted(mac, mail[i][1..])
      && forall l :: 0 <= l < i ==> 14 <= |mail[l]| <= 2048 && !Wanted(mac, mail[l][1..])
    }

    /** A poll of a read that is pending and queued ends with TRUE exactly if such a datagram is on its socket, and then
        reports eight bytes more than the frame has, or what the buffer holds if that is less; otherwise it tells
        the caller to come back. */
    static lemma PollAnswers(e: Engine, t: nat, o: nat)
      requires t < |e.calls| && e.calls[t].Idle?
      requires StatusOf(e, o).pending && Find(e.queue, o) < |e.queue|
      ensures var r := e.queue[Find(e.queue, o)];
              var mail := ReadEngine.MailFor(e, r);
              && (Answer(e, t, o).Finished? <==> exists i: nat :: Comes(e.mac, mail, i))
              && (!Answer(e, t, o).Finished? ==> Answer(e, t, o) == Incomplete)
              && forall i: nat :: Comes(e.mac, mail, i) ==>
                   var n := |mail[i]| + 7;
                   Answer(e, t, o) == Finished(if n < r.buflen then n else r.buflen)
    {
      hide Find, Found, Block, StatusOf, ReadEngine.MailFor, Wanted, Answer;
      AnswerIs(e, t, o);
      var r := e.queue[Find(e.queue, o)];
      FirstComes(e.mac, ReadEngine.MailFor(e, r), r.buflen);
    }

    static lemma FirstComes(mac: Option<Bytes>, mail: seq<Bytes>, buflen: nat)
      ensures Found(mac, mail).Some? <==> exists i: nat :: Comes(mac, mail, i)
      ensures forall i: nat :: Comes(mac, mail, i) ==>
                && Found(mac, mail) == Some(mail[i][1..])
                && |Block(mail[i][1..], buflen)| == if |mail[i]| + 7 < buflen then |mail[i]| + 7 else buflen
    {
      hide Found, Taken, Block, Wanted;
      if Found(mac, mail).Some? {
        TakesOne(mac, mail);
        FirstMatch(mac, mail, Taken(mac, mail) - 1);
        assert Comes(mac, mail, Taken(mac, mail) - 1);
      }
      forall i: nat | Comes(mac, mail, i)
        ensures Found(mac, mail) == Some(mail[i][1..])
        ensures |Block(mail[i][1..], buflen)| == if |mail[i]| + 7 < buflen then |mail[i]| + 7 else buflen
      {
        FirstMatch(mac, mail, i);
        BlockIs(mail[i][1..], buflen);
      }
    }

    static lemma TakesOne(mac: Option<Bytes>, mail: seq<Bytes>)
      requires Found(mac, mail).Some?
      ensures Taken(mac, mail) > 0
    {
    }

    /** What a poll does to the caller's buffer: without such a datagram nothing; with one it holds, as far as `buflen`
        reaches, the block of its frame, and the rest is as it was. */
    static lemma BufferAfter(now: Bytes, was: Bytes, mac: Option<Bytes>, mail: seq<Bytes>, buflen: nat)
      requires Filled(now, was, mac, mail, buflen) && buflen <= |was|
      ensures |now| == |was|
      ensures (forall i: nat :: !Comes(mac, mail, i)) ==> now == was
      ensures forall i: nat :: Comes(mac, mail, i) ==>
                var n := |mail[i]| - 1;
                forall k :: 0 <= k < |was| ==>
                  now[k] == (if k >= 8 + n || k >= buflen then was[k] else if k < 4 then 0 else if k == 4 then n % 256
                             else if k == 5 then n / 256 else if k < 8 then 0 else mail[i][k - 7])
    {
      hide Found, Block, Wanted;
      FirstComes(mac, mail, buflen);
      forall i: nat, k | Comes(mac, mail, i) && 0 <= k < |was|
        ensures var n := |mail[i]| - 1;
                now[k] == (if k >= 8 + n || k >= buflen then was[k] else if k < 4 then 0 else if k == 4 then n % 256
                           else if k == 5 then n / 256 else if k < 8 then 0 else mail[i][k - 7])
      {
        BlockIs(mail[i][1..], buflen);
      }
    }

    /** GetOverlappedResult takes objects that agree with an engine state to objects that agree with the state the
        engine's own steps of one poll lead to, and answers what those steps say. */
    method PollAsSteps(ov: Overlapped, ghost ovs: set<Overlapped>, ghost e: Engine, ghost t: nat)
        returns (outcome: PollOutcome)
      requires Valid() && Private() && Agrees(e, ovs) && t < |e.calls| && e.calls[t].Idle?
      requires ov in ovs && OneEach(ovs)
      modifies ov, ctx`head, ctx`tail, ctx`chain, ctx.chain`next, sockets.Values, set r | r in ctx.chain :: r.buffer
      ensures Valid() && Private() && Agrees(PollSteps(e, t, ov.id), ovs)
      ensures forall r :: r in ctx.chain ==> r in old(ctx.chain)
      ensures outcome == Answer(e, t, ov.id)
    {
      hide HandleContext.Valid, HandleContext.Queue, Polls, Find, Found, Taken, Block, Polled, Without, PollSteps;
      hide Answer, StatusOf, Separate, ReadEngine.MailFor, Filled;
      KeptReads(ctx.Queue(), ov.id);
      StaySeparate(ctx.Queue(), ov.id);
      assert Agrees(e, {ov});
      outcome := GetOverlappedResult(ov);
      MailAgrees((ov, e, t));
      StateAgrees((ov, e, t, outcome));
      StatusesAgree((ov, ovs, e, t));
      Agreement(PollSteps(e, t, ov.id), ovs);
    }

    /** The OVERLAPPEDs the poll is not about agree as before. */
    twostate lemma StatusesAgree(p: (Overlapped, set<Overlapped>, Engine, nat))
      requires p.0 in p.1 && OneEach(p.1) && p.3 < |p.2.calls| && p.2.calls[p.3].Idle?
      requires forall v :: v in p.1 ==> StatusOf(p.2, v.id) == old(v.View())
      requires forall v :: v in p.1 && v != p.0 ==> v.View() == old(v.View())
      requires StatusOf(PollSteps(p.2, p.3, p.0.id), p.0.id) == p.0.View()
      ensures forall v :: v in p.1 ==> StatusOf(PollSteps(p.2, p.3, p.0.id), v.id) == v.View()
    {
      hide StatusOf, PollSteps, Find, Found, ReadEngine.MailFor;
      StatusAfter(p.2, p.3, p.0.id);
    }

    lemma Agreement(e: Engine, ovs: set<Overlapped>)
      requires ctx.Valid() && e.queue == ctx.Queue() && e.mac == ctx.mac
      requires forall ov :: ov in ovs ==> StatusOf(e, ov.id) == ov.View()
      requires forall r :: r in e.queue ==> ReadEngine.MailFor(e, r) == MailFor(r)
      ensures Agrees(e, ovs)
    {
    }

    /** Queue, filter, status and answer of the poll are those of the engine's steps. */
    twostate lemma StateAgrees(p: (Overlapped, Engine, nat, PollOutcome))
      requires old(Valid()) && ctx.Valid() && old(Agrees(p.1, {p.0})) && ctx.mac == old(ctx.mac)
      requires p.2 < |p.1.calls| && p.1.calls[p.2].Idle?
      requires var q, o := old(ctx.Queue()), p.0.id;
               if !old(p.0.pending) then
                 p.3 == Finished(p.0.count) && p.0.View() == old(p.0.View()) && ctx.Queue() == q
               else if Find(q, o) == |q| then
                 p.3 == Unknown && p.0.View() == old(p.0.View()) && ctx.Queue() == q
               else
                 match Found(ctx.mac, old(MailFor(ctx.Queue()[Find(ctx.Queue(), p.0.id)])))
                 case None => p.3 == Incomplete && ctx.Queue() == Polled(q, o) && p.0.View() == old(p.0.View())
                 case Some(f) =>
                   var size := |Block(f, q[Find(q, o)].buflen)|;
                   p.3 == Finished(size) && p.0.View() == Status(false, size) && ctx.Queue() == Without(q, o)
      ensures var e' := PollSteps(p.1, p.2, p.0.id);
              && e'.queue == ctx.Queue() && e'.mac == ctx.mac && StatusOf(e', p.0.id) == p.0.View()
              && p.3 == Answer(p.1, p.2, p.0.id)
    {
      hide HandleContext.Valid, HandleContext.Queue, Find, Found, Taken, Block, Polled, Without, PollSteps, StatusOf;
      hide MailFor, ReadEngine.MailFor, OthersKeep;
      ghost var e, t, o := p.1, p.2, p.0.id;
      PollAlone(e, t, o);
      StatusAfter(e, t, o);
      AnswerIs(e, t, o);
      if Find(e.queue, o) < |e.queue| { assert e.queue[Find(e.queue, o)] in e.queue; }
    }

    /** After the poll every read still queued has the mail the engine's steps leave it. */
    twostate lemma MailAgrees(p: (Overlapped, Engine, nat))
      requires old(Valid()) && old(Private()) && old(Agrees(p.1, {p.0})) && sockets == old(sockets)
      requires p.2 < |p.1.calls| && p.1.calls[p.2].Idle?
      requires forall s :: s in sockets.Values && !old(Polls(p.0, s)) ==> s.mail == old(s.mail)
      requires old(p.0.pending) && Find(old(ctx.Queue()), p.0.id) < |old(ctx.Queue())| ==>
                 var r := old(ctx.Queue())[Find(old(ctx.Queue()), p.0.id)];
                 MailFor(r) == old(MailFor(r))[Taken(old(ctx.mac), old(MailFor(r)))..]
      ensures forall r :: r in old(ctx.Queue()) ==>
                ReadEngine.MailFor(PollSteps(p.1, p.2, p.0.id), r) == MailFor(r)
    {
      hide HandleContext.Valid, HandleContext.Queue, Polls, Private, Find, Taken, PollSteps, MailLeft;
      forall r | r in old(ctx.Queue()) ensures ReadEngine.MailFor(PollSteps(p.1, p.2, p.0.id), r) == MailFor(r) {
        DistinctIds(r);
        PollMail(p.1, p.2, p.0.id, r);
        MailStays((p.0, p.1, r));
      }
    }

    twostate lemma DistinctIds(r: Read)
      requires old(Valid()) && old(Private()) && r in old(ctx.Queue())
      ensures forall p :: p in old(ctx.Queue()) && p.id == r.id ==> p == r
    {
      hide HandleContext.Valid, HandleContext.Queue;
      ghost var q := old(ctx.Queue());
      ghost var i :| 0 <= i < |q| && q[i] == r;
      forall p | p in q && p.id == r.id ensures p == r {
        ghost var l :| 0 <= l < |q| && q[l] == p;
      }
    }

    /** The poll leaves in the sockets the mail the engine's steps leave. */
    twostate lemma MailStays(p: (Overlapped, Engine, Read))
      requires old(Valid()) && old(Private()) && old(Agrees(p.1, {p.0})) && p.2 in old(ctx.Queue())
          && sockets == old(sockets)
      requires forall s :: s in sockets.Values && !old(Polls(p.0, s)) ==> s.mail == old(s.mail)
      requires old(p.0.pending) && Find(old(ctx.Queue()), p.0.id) < |old(ctx.Queue())| ==>
                 var r := old(ctx.Queue())[Find(old(ctx.Queue()), p.0.id)];
                 MailFor(r) == old(MailFor(r))[Taken(old(ctx.mac), old(MailFor(r)))..]
      ensures MailFor(p.2) == MailLeft(p.1, p.0.id, p.2)
    {
      hide HandleContext.Valid, HandleContext.Queue, Find, Taken, Separate;
      ghost var q, r, j := old(ctx.Queue()), p.2, Find(old(ctx.Queue()), p.0.id);
      if r.sock.Some? && r.sock.value in sockets {
        ghost var w := sockets[r.sock.value];
        assert w in sockets.Values;
        if !(old(p.0.pending) && j < |q| && r == q[j]) {
          if old(p.0.pending) && j < |q| { AddressesApart(q, r, j); }
          assert !old(Polls(p.0, w));
          assert w.mail == old(w.mail) && MailFor(r) == old(MailFor(r));
        }
      }
    }
  }
}
