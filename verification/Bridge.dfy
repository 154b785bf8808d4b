/** The UDP/TAP bridge: its table of clients, the broadcast of TAP frames, and how long a client stays. */
module Bridge {
  import opened Basics
  import opened Wire
  import opened Receive

  const MAX_CLIENTS := 32

  /** A sender that is known changes nothing; a new one goes last, in a full table at the cost of the oldest. */
  function Admit(cs: seq<nat>, a: nat): seq<nat> {
    if a in cs then cs
    else if |cs| < MAX_CLIENTS then cs + [a]
    else cs[1..] + [a]
  }

  /** The table after datagrams from these senders. */
  function Table(cs: seq<nat>, from: seq<nat>): seq<nat>
    decreases |from|
  {
    if from == [] then cs else Table(Admit(cs, from[0]), from[1..])
  }

  /** The senders that were unknown when they sent: the admissions, in order. */
  function Admissions(cs: seq<nat>, from: seq<nat>): seq<nat>
    decreases |from|
  {
    if from == [] then []
    else (if from[0] in cs then [] else [from[0]]) + Admissions(Admit(cs, from[0]), from[1..])
  }

  function Last(s: seq<nat>, n: nat): seq<nat> {
    if |s| <= n then s else s[|s| - n..]
  }

  ghost predicate NoDuplicates(s: seq<nat>) {
    forall i, j :: 0 <= i < j < |s| ==> s[i] != s[j]
  }

  lemma {:induction false} LastSnoc(log: seq<nat>, a: nat)
    requires a !in Last(log, MAX_CLIENTS)
    ensures Admit(Last(log, MAX_CLIENTS), a) == Last(log + [a], MAX_CLIENTS)
  {
  }

  lemma AdmitKnown(cs: seq<nat>, a: nat)
    requires a in cs
    ensures Admit(cs, a) == cs
  {
  }

  /** The table is the last 32 entries of the log of admissions, from any log on. */
  lemma {:induction false} TableIsLastAdmissions(log: seq<nat>, from: seq<nat>)
    ensures Table(Last(log, 32), from) == Last(log + Admissions(Last(log, 32), from), 32)
    decreases |from|
  {
    hide Last, Admit;
    var cs := Last(log, MAX_CLIENTS);
    if from == [] {
      assert log + [] == log;
    } else if from[0] in cs {
      AdmitKnown(cs, from[0]);
      TableIsLastAdmissions(log, from[1..]);
      assert [] + Admissions(cs, from[1..]) == Admissions(cs, from[1..]);
    } else {
      LastSnoc(log, from[0]);
      TableIsLastAdmissions(log + [from[0]], from[1..]);
      assert log + [from[0]] + Admissions(Admit(cs, from[0]), from[1..])
          == log + ([from[0]] + Admissions(Admit(cs, from[0]), from[1..]));
    }
  }

  /** No client is in the table twice, and the table never shrinks. */
  lemma {:induction false} TableShape(cs: seq<nat>, from: seq<nat>)
    requires NoDuplicates(cs) && |cs| <= 32
    ensures NoDuplicates(Table(cs, from)) && |cs| <= |Table(cs, from)| <= 32
    decreases |from|
  {
    if from != [] {
      TableShape(Admit(cs, from[0]), from[1..]);
    }
  }

  lemma {:induction false} AdmittedSent(cs: seq<nat>, from: seq<nat>, a: nat)
    requires a !in from
    ensures a !in Admissions(cs, from)
    decreases |from|
  {
    if from != [] { AdmittedSent(Admit(cs, from[0]), from[1..], a); }
  }

  /** A client just admitted, which sends nothing more, is in the table until the 32nd later admission, and
      exactly that one puts it out. */
  lemma {:induction false} EvictedByThe32nd(cs: seq<nat>, a: nat, from: seq<nat>)
    requires NoDuplicates(cs + [a]) && |cs| < 32 && a !in from
    ensures a in Table(cs + [a], from) <==> |Admissions(cs + [a], from)| < 32
  {
    var log := cs + [a];
    var later := Admissions(log, from);
    TableIsLastAdmissions(log, from);
    AdmittedSent(log, from, a);
    var all := log + later;
    assert all[|cs|] == a;
    assert forall i :: 0 <= i < |all| && i != |cs| ==> all[i] != a;
    var t := Last(all, MAX_CLIENTS);
    if |later| < MAX_CLIENTS {
      var drop := |all| - |t|;
      assert drop <= |cs| && t[|cs| - drop] == a;
    } else {
      assert forall i :: 0 <= i < |t| ==> t[i] == all[|all| - |t| + i];
    }
  }

  lemma {:induction false} TableAppend(cs: seq<nat>, from: seq<nat>, more: seq<nat>)
    ensures Table(cs, from + more) == Table(Table(cs, from), more)
    ensures Admissions(cs, from + more) == Admissions(cs, from) + Admissions(Table(cs, from), more)
    decreases |from|
  {
    if from == [] {
      assert from + more == more && [] + Admissions(cs, more) == Admissions(cs, more);
    } else {
      assert (from + more)[0] == from[0] && (from + more)[1..] == from[1..] + more;
      TableAppend(Admit(cs, from[0]), from[1..], more);
      var h: seq<nat> := if from[0] in cs then [] else [from[0]];
      assert h + (Admissions(Admit(cs, from[0]), from[1..]) + Admissions(Table(cs, from), more))
          == h + Admissions(Admit(cs, from[0]), from[1..]) + Admissions(Table(cs, from), more);
    }
  }

  // ---------- The bridge in operation ----------

  datatype Packet = Packet(to: nat, data: Bytes)

  /** One frame to every client. */
  function Broadcast(cs: seq<nat>, frame: Bytes): (ps: seq<Packet>)
    ensures |ps| == |cs|
  {
    seq(|cs|, i requires 0 <= i < |cs| => Packet(cs[i], DataPacket(Cut(frame, BUFFER_SIZE - 1))))
  }

  /** What the bridge finds readable: a frame on TAP, or a datagram. */
  datatype Turn = Tap(frame: Bytes) | Udp(sender: nat, d: Bytes)

  function Senders(ts: seq<Turn>): seq<nat> {
    if ts == [] then [] else Senders(ts[..|ts| - 1]) + (if ts[|ts| - 1].Udp? then [ts[|ts| - 1].sender] else [])
  }

  /** The datagrams for one address among these packets. */
  function For(ps: seq<Packet>, a: nat): seq<Bytes> {
    if ps == [] then [] else (if ps[0].to == a then [ps[0].data] else []) + For(ps[1..], a)
  }

  /** A frame goes to each client exactly once, and to nobody else. */
  lemma {:induction false} BroadcastOnce(cs: seq<nat>, frame: Bytes, a: nat)
    requires NoDuplicates(cs)
    ensures For(Broadcast(cs, frame), a) == if a in cs then [[0] + Cut(frame, 2047)] else []
    decreases |cs|
  {
    assert DataPacket(Cut(frame, 2047)) == [0] + Cut(frame, 2047);
    if cs != [] {
      assert Broadcast(cs, frame)[1..] == Broadcast(cs[1..], frame);
      BroadcastOnce(cs[1..], frame, a);
      assert a in cs <==> a == cs[0] || a in cs[1..];
      assert a == cs[0] ==> a !in cs[1..];
    }
  }

  /** Everything sent to a over a run of the bridge, in order. */
  function SentTo(cs: seq<nat>, ts: seq<Turn>, a: nat): seq<Bytes> {
    if ts == [] then []
    else
      var before := ts[..|ts| - 1];
      SentTo(cs, before, a) + match ts[|ts| - 1]
        case Tap(f) => For(Broadcast(Table(cs, Senders(before)), f), a)
        case Udp(_, _) => []
  }

  /** The frames read from TAP while fewer than 32 senders had been admitted. */
  function FramesInTime(cs: seq<nat>, ts: seq<Turn>): seq<Bytes> {
    if ts == [] then []
    else
      var before := ts[..|ts| - 1];
      FramesInTime(cs, before) + match ts[|ts| - 1]
        case Tap(f) =>
          (if |Admissions(cs, Senders(before))| < 32 then [DataPacket(Cut(f, 2047))] else [])
        case Udp(_, _) => []
  }

  /** A read socket, once registered, is sent every TAP frame, once and in order, until the 32nd later
      admission, and none after it. */
  lemma {:induction false} SentUntilEvicted(cs: seq<nat>, a: nat, ts: seq<Turn>)
    requires NoDuplicates(cs + [a]) && |cs| < 32 && a !in Senders(ts)
    ensures SentTo(cs + [a], ts, a) == FramesInTime(cs + [a], ts)
    decreases |ts|
  {
    if ts != [] {
      var before := ts[..|ts| - 1];
      SentUntilEvicted(cs, a, before);
      if ts[|ts| - 1].Tap? {
        EvictedByThe32nd(cs, a, Senders(before));
        TableShape(cs + [a], Senders(before));
        BroadcastOnce(Table(cs + [a], Senders(before)), ts[|ts| - 1].frame, a);
      }
    }
  }

  /** A turn on which a frame the handle wants is read from TAP before the 32nd admission, with no frame under 13 bytes
      before it. */
  ghost predicate GoodTurn(cs: seq<nat>, ts: seq<Turn>, mac: Option<Bytes>, i: nat) {
    && i < |ts| && ts[i].Tap? && Wanted(mac, ts[i].frame)
    && |Admissions(cs, Senders(ts[..i]))| < 32
    && forall l :: 0 <= l < i && ts[l].Tap? ==> |ts[l].frame| >= 13
  }

  ghost predicate PassingTurn(cs: seq<nat>, ts: seq<Turn>, mac: Option<Bytes>, i: nat) {
    && i < |ts| && ts[i].Tap? && Passes(mac, DataPacket(Cut(ts[i].frame, BUFFER_SIZE - 1)))
    && |Admissions(cs, Senders(ts[..i]))| < MAX_CLIENTS
    && forall l :: 0 <= l < i && ts[l].Tap? ==> |ts[l].frame| >= SHORTEST - 1
  }

  /** A new client of any table goes last. */
  lemma AdmittedLast(cs: seq<nat>, a: nat) returns (older: seq<nat>)
    requires NoDuplicates(cs) && |cs| <= MAX_CLIENTS && a !in cs
    ensures Admit(cs, a) == older + [a] && |older| < MAX_CLIENTS && NoDuplicates(older + [a])
  {
    older := if |cs| < MAX_CLIENTS then cs else cs[1..];
  }

  /** A read socket whose registration has just been received stays in the table through exactly 31 later
      admissions. */
  lemma {:induction false} StaysUntilThe32nd(cs: seq<nat>, a: nat, from: seq<nat>)
    requires NoDuplicates(cs) && |cs| <= 32 && a !in cs && a !in from
    ensures a in Table(Admit(cs, a), from) <==> |Admissions(Admit(cs, a), from)| < 32
  {
    var older := AdmittedLast(cs, a);
    EvictedByThe32nd(older, a, from);
  }

  /** With a network that loses nothing and keeps the order, the next poll on a read whose registration has been
      received completes exactly when a frame the handle wants was read from TAP before the 32nd later admission, with
      no frame too short to look at ahead of it. */
  lemma {:induction false} DeliveryIff(cs: seq<nat>, a: nat, ts: seq<Turn>, mac: Option<Bytes>)
    requires NoDuplicates(cs) && |cs| <= 32 && a !in cs && a !in Senders(ts)
    ensures Found(mac, SentTo(Admit(cs, a), ts, a)).Some? <==> exists i :: GoodTurn(Admit(cs, a), ts, mac, i)
  {
    hide GoodTurn, PassingTurn;
    var older := AdmittedLast(cs, a);
    SentUntilEvicted(older, a, ts);
    InTimeIff(older + [a], ts, mac);
    forall i: nat ensures GoodTurn(Admit(cs, a), ts, mac, i) <==> PassingTurn(Admit(cs, a), ts, mac, i) {
      SameTurn(Admit(cs, a), ts, mac, i);
    }
  }

  lemma {:induction false} SameTurn(cs: seq<nat>, ts: seq<Turn>, mac: Option<Bytes>, i: nat)
    ensures GoodTurn(cs, ts, mac, i) <==> PassingTurn(cs, ts, mac, i)
  {
    hide Passes, Wanted, Cut;
    if i < |ts| && ts[i].Tap? { SentWanted(mac, ts[i].frame); }
  }

  /** The bridge's datagram for a frame passes exactly if the frame is wanted, the cut to 2047 bytes notwithstanding. */
  lemma {:induction false} SentWanted(mac: Option<Bytes>, f: Bytes)
    ensures Passes(mac, DataPacket(Cut(f, BUFFER_SIZE - 1))) <==> Wanted(mac, f)
  {
    var c := Cut(f, BUFFER_SIZE - 1);
    PassesIs(mac, DataPacket(c));
    assert DataPacket(c)[1..] == c;
    if |f| >= 13 { assert c[..6] == f[..6]; }
  }

  lemma {:induction false} FoundSnoc(mac: Option<Bytes>, mail: seq<Bytes>, d: Bytes)
    ensures Found(mac, mail + [d]).Some? <==>
              Found(mac, mail).Some? || (AllReadable(mail) && Passes(mac, d))
  {
    var more := mail + [d];
    PassingIff(mac, mail);
    PassingIff(mac, more);
    if Found(mac, mail).Some? {
      var i :| 0 <= i < |mail| && Passes(mac, mail[i]) && forall l :: 0 <= l < i ==> Readable(mail[l]);
      assert Passes(mac, more[i]) && forall l :: 0 <= l < i ==> Readable(more[l]);
    }
    if AllReadable(mail) && Passes(mac, d) {
      assert Passes(mac, more[|mail|]) && forall l :: 0 <= l < |mail| ==> Readable(more[l]);
    }
    if i :| 0 <= i < |more| && Passes(mac, more[i]) && forall l :: 0 <= l < i ==> Readable(more[l]) {
      assert forall l :: 0 <= l < i ==> more[l] == mail[l];
    }
  }

  /** Until the limit is reached every frame is in the list, so none of those is short exactly when none read
      from TAP is. */
  lemma {:induction false} AllInTime(cs: seq<nat>, ts: seq<Turn>)
    requires |Admissions(cs, Senders(ts))| < MAX_CLIENTS
    ensures AllReadable(FramesInTime(cs, ts))
       <==> (forall l :: 0 <= l < |ts| && ts[l].Tap? ==> |ts[l].frame| >= SHORTEST - 1)
    decreases |ts|
  {
    hide Admissions, Senders, Readable, Cut, AllReadable;
    if ts == [] {
      NoneUnreadable(cs);
    } else {
      var before := ts[..|ts| - 1];
      FewerBefore(cs, ts);
      AllInTime(cs, before);
      assert forall l :: 0 <= l < |before| ==> before[l] == ts[l];
      assert FramesInTime(cs, before) + [] == FramesInTime(cs, before);
      if ts[|ts| - 1].Tap? { ReadableSnoc(FramesInTime(cs, before), ts[|ts| - 1].frame); }
    }
  }

  lemma NoneUnreadable(cs: seq<nat>)
    ensures AllReadable(FramesInTime(cs, []))
  {
  }

  predicate AllReadable(ds: seq<Bytes>) {
    forall l :: 0 <= l < |ds| ==> Readable(ds[l])
  }

  lemma {:induction false} ReadableSnoc(fs: seq<Bytes>, f: Bytes)
    ensures AllReadable(fs + [DataPacket(Cut(f, BUFFER_SIZE - 1))]) <==> AllReadable(fs) && |f| >= SHORTEST - 1
  {
    var d := DataPacket(Cut(f, BUFFER_SIZE - 1));
    var more := fs + [d];
    assert Readable(d) <==> |f| >= SHORTEST - 1;
    assert more[|fs|] == d;
    if AllReadable(more) {
      forall l | 0 <= l < |fs| ensures Readable(fs[l]) { assert more[l] == fs[l]; }
    }
  }

  lemma {:induction false} FewerBefore(cs: seq<nat>, ts: seq<Turn>)
    requires ts != []
    ensures |Admissions(cs, Senders(ts[..|ts| - 1]))| <= |Admissions(cs, Senders(ts))|
  {
    TableAppend(cs, Senders(ts[..|ts| - 1]), if ts[|ts| - 1].Udp? then [ts[|ts| - 1].sender] else []);
  }

  lemma {:induction false} InTimeIff(cs: seq<nat>, ts: seq<Turn>, mac: Option<Bytes>)
    ensures Found(mac, FramesInTime(cs, ts)).Some? <==> exists i :: PassingTurn(cs, ts, mac, i)
    decreases |ts|
  {
    hide Admissions, Senders, Found, Readable, MacMatches, Cut;
    if ts == [] {
      NothingFound(mac);
    } else {
      var n := |ts| - 1;
      var before := ts[..n];
      InTimeIff(cs, before, mac);
      forall i | 0 <= i < n ensures PassingTurn(cs, ts, mac, i) <==> PassingTurn(cs, before, mac, i) {
        assert ts[..i] == before[..i];
      }
      assert (exists i :: PassingTurn(cs, ts, mac, i))
          <==> (exists i :: PassingTurn(cs, before, mac, i)) || PassingTurn(cs, ts, mac, n);
      assert FramesInTime(cs, before) + [] == FramesInTime(cs, before);
      if ts[n].Tap? && |Admissions(cs, Senders(before))| < MAX_CLIENTS {
        FoundSnoc(mac, FramesInTime(cs, before), DataPacket(Cut(ts[n].frame, BUFFER_SIZE - 1)));
        AllInTime(cs, before);
        assert forall l :: 0 <= l < n ==> before[l] == ts[l];
      }
    }
  }

  // ---------- The bridge's state in memory ----------

  class BridgeState {
    const clients: array<nat>
    var nclients: nat
    const buf: array<Byte>

    constructor ()
      ensures Valid() && Clients() == [] && fresh(clients) && fresh(buf)
    {
      clients := new nat[MAX_CLIENTS];
      buf := new Byte[BUFFER_SIZE];
      nclients := 0;
    }

    ghost predicate Valid()
      reads this
    {
      clients.Length == MAX_CLIENTS && nclients <= MAX_CLIENTS && buf.Length == BUFFER_SIZE
    }

    ghost function Clients(): seq<nat>
      requires Valid()
      reads this, clients
    {
      clients[..nclients]
    }

    method IsKnown(from: nat) returns (found: bool)
      requires Valid()
      ensures found <==> from in Clients()
    {
      found := false;
      var i := 0;
      while i < nclients
        invariant i <= nclients
        invariant !found && from !in clients[..i]
      {
        if clients[i] == from { return true; }
        i := i + 1;
      }
    }

    /** The table is full: everything moves one slot down over the oldest entry. */
    method DropOldest()
      requires Valid() && nclients == MAX_CLIENTS
      modifies clients
      ensures clients[..MAX_CLIENTS - 1] == old(clients[1..])
    {
      var i := 0;
      while i < MAX_CLIENTS - 1
        invariant i <= MAX_CLIENTS - 1
        invariant forall k :: 0 <= k < i ==> clients[k] == old(clients[k + 1])
        invariant forall k :: i <= k < MAX_CLIENTS ==> clients[k] == old(clients[k])
      {
        clients[i] := clients[i + 1];
        i := i + 1;
      }
    }

    method Learn(from: nat)
      requires Valid()
      modifies this`nclients, clients
      ensures Valid() && Clients() == Admit(old(Clients()), from)
    {
      var found := IsKnown(from);
      if !found {
        if nclients < MAX_CLIENTS {
          clients[nclients] := from;
          nclients := nclients + 1;
        } else {
          DropOldest();
          clients[MAX_CLIENTS - 1] := from;
          assert clients[..MAX_CLIENTS - 1] == old(clients[1..]);
        }
      }
    }

    /** The type byte, and one read of TAP behind it. */
    method Fill(frame: Bytes) returns (n: nat)
      requires Valid()
      modifies buf
      ensures n < BUFFER_SIZE && buf[..n + 1] == DataPacket(Cut(frame, BUFFER_SIZE - 1))
      ensures buf[..] == Received(old(buf[..]), DataPacket(Cut(frame, BUFFER_SIZE - 1)))
    {
      n := if |frame| < BUFFER_SIZE - 1 then |frame| else BUFFER_SIZE - 1;
      buf[0] := DATA;
      CopyInto(buf, 1, frame[..n]);
      assert buf[..1] == [DATA];
      assert buf[..n + 1] == DataPacket(frame[..n]);
    }

    /** A frame readable on TAP, sent to each client. */
    method TapToUdp(frame: Bytes) returns (sent: seq<Packet>)
      requires Valid() && 0 < |frame|
      modifies buf
      ensures sent == Broadcast(Clients(), frame)
      ensures buf[..] == Received(old(buf[..]), DataPacket(Cut(frame, BUFFER_SIZE - 1)))
    {
      hide Received;
      var n := Fill(frame);
      sent := [];
      var i := 0;
      while i < nclients
        invariant i <= nclients && sent == Broadcast(Clients(), frame)[..i]
      {
        sent := sent + [Packet(clients[i], buf[..n + 1])];
        i := i + 1;
      }
    }

    /** A datagram readable: received into the buffer, its sender learnt, its content acted on. */
    method UdpToTap(from: nat, d: Bytes) returns (action: Action)
      requires Valid()
      modifies this`nclients, clients, buf
      ensures Valid() && Clients() == Admit(old(Clients()), from)
      ensures buf[..] == Received(old(buf[..]), d) && action == Act(old(buf[..]), d)
    {
      var n := if |d| < BUFFER_SIZE then |d| else BUFFER_SIZE;
      CopyInto(buf, 0, d[..n]);
      assert buf[..] == Received(old(buf[..]), d);
      Learn(from);
      action := Dispatch(buf[..], n);
    }
  }
}
