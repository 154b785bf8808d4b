/** Schedules around one registered read, over a network that keeps order and loses nothing: which frames each poll
    looks at, and at which poll the read completes. */
module Schedules {
  import opened Basics
  import opened Wire
  import opened Receive
  import opened Bridge
  import P = Pipe

  /** Frame: a frame is read from TAP, and what the bridge sends the read's socket for it arrives at once. From: the
      bridge receives the i-th datagram sent to it. Filter: the handle's MAC is set. Poll: thread t polls the read.
      Other: anything else the system does, other reads and their polls included. */
  datatype Item = Frame(f: Bytes) | From(i: nat) | Filter(m: Bytes) | Poll(t: nat) | Other(e: P.Event)

  /** The bridge's table, the senders of the datagrams sent to it, the filter, the datagrams on the read's socket, and
      the frame it completed with. */
  datatype Scene = Scene(clients: seq<nat>, senders: seq<nat>, mac: Option<Bytes>, mail: seq<Bytes>, got: Option<Bytes>)

  function Packed(f: Bytes): (d: Bytes)
    ensures Readable(d) <==> |f| >= SHORTEST - 1
  {
    DataPacket(Cut(f, BUFFER_SIZE - 1))
  }

  /** The sender of what an event sends to the bridge. */
  function Sender(e: P.Event): seq<nat> {
    match e
    case Register(a) => [a]
    case Write(a, block, ok) => if |block| < 0x1_0000_0000 && ok && Extract(block).Framed? then [a] else []
    case SendFrame(a, f) => if 0 < |f| <= BUFFER_SIZE then [a] else []
    case Control(a, c) => if Sized(c) then [a] else []
    case _ => []
  }

  /** `a` is the address of the read's socket. */
  function Play(v: Scene, a: nat, it: Item): Scene {
    match it
    case Frame(f) => if f != [] && a in v.clients then v.(mail := v.mail + [Packed(f)]) else v
    case From(i) => if i < |v.senders| then v.(clients := Admit(v.clients, v.senders[i])) else v
    case Filter(m) => if |m| == MAC_SIZE then v.(mac := Some(m)) else v
    case Poll(_) => if v.got.Some? then v else v.(mail := v.mail[Taken(v.mac, v.mail)..], got := Found(v.mac, v.mail))
    case Other(e) => v.(senders := v.senders + Sender(e))
  }

  function PlayAll(v: Scene, a: nat, items: seq<Item>): Scene {
    if items == [] then v else Play(PlayAll(v, a, items[..|items| - 1]), a, items[|items| - 1])
  }

  // ---------- The frames a poll looks at ----------

  /** How many datagrams a poll looks at if none passes: all, or up to the first that is too short. */
  function LooksAt(mail: seq<Bytes>): (n: nat)
    ensures n <= |mail|
  {
    if mail == [] then 0 else if !Readable(mail[0]) then 1 else 1 + LooksAt(mail[1..])
  }

  /** The frames at these places of the schedule. */
  function Letters(items: seq<Item>, w: seq<nat>): (ds: seq<Bytes>)
    requires forall x :: x in w ==> x < |items| && items[x].Frame?
    ensures |ds| == |w|
  {
    seq(|w|, i requires 0 <= i < |w| => assert w[i] in w; Packed(items[w[i]].f))
  }

  /** The places of the frames on their way to the next poll; `sent` says of each whether it is sent to the read. No
      filter comes into it. */
  function Waits(items: seq<Item>, sent: seq<bool>): (w: seq<nat>)
    requires |sent| == |items|
    ensures forall x :: x in w ==> x < |items| && items[x].Frame? && sent[x]
  {
    if items == [] then []
    else
      var n := |items| - 1;
      var w := Waits(items[..n], sent[..n]);
      match items[n]
      case Frame(_) => if sent[n] then w + [n] else w
      case Poll(_) => w[LooksAt(Letters(items[..n], w))..]
      case _ => w
  }

  /** The places of the frames that the poll at k looks at. */
  function Looked(items: seq<Item>, sent: seq<bool>, k: nat): (w: seq<nat>)
    requires |sent| == |items| && k < |items|
    ensures forall x :: x in w ==> x < k && items[x].Frame? && sent[x]
  {
    var w := Waits(items[..k], sent[..k]);
    w[..LooksAt(Letters(items[..k], w))]
  }

  /** Which frames find the read's socket in the table. */
  function InTable(v: Scene, a: nat, items: seq<Item>): (sent: seq<bool>)
    ensures |sent| == |items|
  {
    seq(|items|, i requires 0 <= i < |items| => items[i].Frame? && items[i].f != []
        && a in PlayAll(v, a, items[..i]).clients)
  }

  /** The poll at k looks at the frame at i, and the filter as it then is lets it pass. */
  ghost predicate Pair(v: Scene, a: nat, items: seq<Item>, sent: seq<bool>, i: int, k: int)
    requires |sent| == |items|
  {
    && 0 <= i < k < |items| && items[k].Poll? && i in Looked(items, sent, k)
    && Passes(PlayAll(v, a, items[..k]).mac, Packed(items[i].f))
  }

  lemma {:induction false} LooksIs(mac: Option<Bytes>, mail: seq<Bytes>)
    ensures Found(mac, mail).Some? <==> exists x :: 0 <= x < LooksAt(mail) && Passes(mac, mail[x])
    ensures Found(mac, mail).None? ==> Taken(mac, mail) == LooksAt(mail)
    decreases |mail|
  {
    if mail != [] && Readable(mail[0]) && !Passes(mac, mail[0]) {
      var more := mail[1..];
      LooksIs(mac, more);
      if x :| 0 <= x < LooksAt(more) && Passes(mac, more[x]) { assert Passes(mac, mail[x + 1]); }
      if x :| 0 <= x < LooksAt(mail) && Passes(mac, mail[x]) { assert mail[x] == more[x - 1]; }
    } else if mail != [] && Readable(mail[0]) {
      assert Passes(mac, mail[0]);
    }
  }

  lemma {:induction false} InTablePrefix(v: Scene, a: nat, items: seq<Item>, n: nat)
    requires n <= |items|
    ensures InTable(v, a, items)[..n] == InTable(v, a, items[..n])
  {
    hide PlayAll;
    forall i | 0 <= i < n ensures InTable(v, a, items)[i] == InTable(v, a, items[..n])[i] {
      assert items[..n][..i] == items[..i];
    }
  }

  /** Until the read completes, what is on its socket is what waits for the next poll. */
  lemma {:induction false} MailIsWaiting(v: Scene, a: nat, items: seq<Item>)
    requires v.mail == [] && v.got == None && PlayAll(v, a, items).got == None
    ensures PlayAll(v, a, items).mail == Letters(items, Waits(items, InTable(v, a, items)))
    decreases |items|
  {
    hide PlayAll, Play, Waits, LooksAt, Found, Taken, Packed, InTable;
    if items == [] {
      NothingWaits(v, a);
    } else {
      var n := |items| - 1;
      LastPlayed(v, a, items);
      MailIsWaiting(v, a, items[..n]);
      InTablePrefix(v, a, items, n);
      NextWaits(v, a, items);
    }
  }

  lemma NothingWaits(v: Scene, a: nat)
    ensures PlayAll(v, a, []) == v && Waits([], []) == []
  {
  }

  lemma LastPlayed(v: Scene, a: nat, items: seq<Item>)
    requires items != []
    ensures var u := PlayAll(v, a, items[..|items| - 1]);
            PlayAll(v, a, items) == Play(u, a, items[|items| - 1])
                && (u.got.Some? ==> PlayAll(v, a, items).got == u.got)
  {
  }

  lemma {:induction false} NextWaits(v: Scene, a: nat, items: seq<Item>)
    requires items != [] && PlayAll(v, a, items).got == None && PlayAll(v, a, items[..|items| - 1]).got == None
    requires InTable(v, a, items)[..|items| - 1] == InTable(v, a, items[..|items| - 1])
    requires var before := items[..|items| - 1];
             PlayAll(v, a, before).mail == Letters(before, Waits(before, InTable(v, a, before)))
    ensures PlayAll(v, a, items).mail == Letters(items, Waits(items, InTable(v, a, items)))
  {
    hide LooksAt, Found, Taken, Packed, Readable;
    var n, sent := |items| - 1, InTable(v, a, items);
    var u, w := PlayAll(v, a, items[..n]), Waits(items[..n], sent[..n]);
    assert Letters(items, w) == u.mail;
    match items[n]
    case Frame(f) => if sent[n] { assert Letters(items, w + [n]) == Letters(items, w) + [Packed(f)]; }
    case Poll(_) =>
      LooksIs(u.mac, u.mail);
      assert Letters(items, w[LooksAt(u.mail)..]) == u.mail[LooksAt(u.mail)..];
    case _ =>
  }

  /** Whether a pair exists does not depend on what comes after its poll. */
  lemma {:induction false} PairsOf(v: Scene, a: nat, items: seq<Item>, sent: seq<bool>)
    requires |sent| == |items| > 0
    ensures var n := |items| - 1;
            forall i, k :: k < n ==> (Pair(v, a, items, sent, i, k) <==> Pair(v, a, items[..n], sent[..n], i, k))
  {
    hide PlayAll, Passes, Waits, LooksAt, Letters;
    var n := |items| - 1;
    forall i, k | 0 <= i < k < n ensures Pair(v, a, items, sent, i, k) <==> Pair(v, a, items[..n], sent[..n], i, k) {
      assert items[..n][..k] == items[..k] && sent[..n][..k] == sent[..k];
    }
  }

  ghost predicate PairedAt(v: Scene, a: nat, items: seq<Item>, sent: seq<bool>, k: int)
    requires |sent| == |items|
  {
    exists i :: Pair(v, a, items, sent, i, k)
  }

  ghost predicate Paired(v: Scene, a: nat, items: seq<Item>, sent: seq<bool>)
    requires |sent| == |items|
  {
    exists i, k :: Pair(v, a, items, sent, i, k)
  }

  /** A pair's poll is the last item or an earlier one. */
  lemma {:induction false} PairedSnoc(v: Scene, a: nat, items: seq<Item>, sent: seq<bool>)
    requires |sent| == |items| > 0
    ensures var n := |items| - 1;
            && (Paired(v, a, items, sent) <==> Paired(v, a, items[..n], sent[..n]) || PairedAt(v, a, items, sent, n))
            && (PairedAt(v, a, items, sent, n) ==> items[n].Poll?)
  {
    hide PlayAll, Passes, Looked;
    var n := |items| - 1;
    PairsOf(v, a, items, sent);
    if i, k :| Pair(v, a, items, sent, i, k) {
      if k < n { assert Pair(v, a, items[..n], sent[..n], i, k); } else { assert PairedAt(v, a, items, sent, n); }
    }
    if i, k :| Pair(v, a, items[..n], sent[..n], i, k) { assert Pair(v, a, items, sent, i, k); }
  }

  /** Over any schedule, frames of any length included: the read has completed at the end exactly if some poll looked
      at a frame that its filter lets pass. */
  lemma {:induction false} CompletesIffPair(v: Scene, a: nat, items: seq<Item>)
    requires v.mail == [] && v.got == None
    ensures PlayAll(v, a, items).got.Some? <==> Paired(v, a, items, InTable(v, a, items))
    decreases |items|
  {
    hide Readable, MacMatches, Found, Taken, InTable, Pair, PlayAll;
    if items == [] {
      NothingWaits(v, a);
      NonePaired(v, a);
    } else {
      var n := |items| - 1;
      CompletesIffPair(v, a, items[..n]);
      InTablePrefix(v, a, items, n);
      PairedSnoc(v, a, items, InTable(v, a, items));
      LastPlayed(v, a, items);
      if items[n].Poll? && PlayAll(v, a, items[..n]).got.None? { FoundAmong(v, a, items); }
    }
  }

  lemma NonePaired(v: Scene, a: nat)
    ensures !Paired(v, a, [], [])
  {
  }

  lemma {:induction false} FoundAmong(v: Scene, a: nat, items: seq<Item>)
    requires v.mail == [] && v.got == None && items != [] && PlayAll(v, a, items[..|items| - 1]).got == None
    requires items[|items| - 1].Poll?
    ensures var n := |items| - 1;
            var u := PlayAll(v, a, items[..n]);
            Found(u.mac, u.mail).Some? <==> PairedAt(v, a, items, InTable(v, a, items), n)
  {
    hide PlayAll, Readable, MacMatches, Found, Taken, Waits, Passes, LooksAt;
    var n := |items| - 1;
    var before, sent := items[..n], InTable(v, a, items);
    var u := PlayAll(v, a, before);
    MailIsWaiting(v, a, before);
    InTablePrefix(v, a, items, n);
    LooksIs(u.mac, u.mail);
    var w := Waits(before, sent[..n]);
    if x :| 0 <= x < LooksAt(u.mail) && Passes(u.mac, u.mail[x]) {
      assert w[..LooksAt(u.mail)][x] == w[x];
      assert Pair(v, a, items, sent, w[x], n);
    }
    if i :| Pair(v, a, items, sent, i, n) {
      var x :| 0 <= x < LooksAt(u.mail) && w[x] == i;
      assert Passes(u.mac, u.mail[x]);
    }
  }

  // ---------- Which frame completes the read ----------

  /** The filter in force after these items: the last of six bytes. */
  function LastFilter(mac: Option<Bytes>, items: seq<Item>): Option<Bytes> {
    if items == [] then mac
    else
      match items[|items| - 1]
      case Filter(m) => if |m| == 6 then Some(m) else LastFilter(mac, items[..|items| - 1])
      case _ => LastFilter(mac, items[..|items| - 1])
  }

  lemma {:induction false} MacIs(v: Scene, a: nat, items: seq<Item>)
    ensures PlayAll(v, a, items).mac == LastFilter(v.mac, items)
    decreases |items|
  {
    hide Found, Taken, Admit;
    if items != [] { MacIs(v, a, items[..|items| - 1]); }
  }

  /** The poll at k looks at the frame at i, and the handle as it then is wants it. */
  ghost predicate Completing(v: Scene, items: seq<Item>, sent: seq<bool>, i: int, k: int)
    requires |sent| == |items|
  {
    && 0 <= i < k < |items| && items[k].Poll? && i in Looked(items, sent, k)
    && Wanted(LastFilter(v.mac, items[..k]), items[i].f)
  }

  /** Of all such frames, the one looked at first. */
  ghost predicate FirstCompleting(v: Scene, items: seq<Item>, sent: seq<bool>, i: int, k: int)
    requires |sent| == |items|
  {
    && Completing(v, items, sent, i, k)
    && forall j, l :: Completing(v, items, sent, j, l) ==> k < l || (k == l && i <= j)
  }

  lemma {:induction false} PairIs(v: Scene, a: nat, items: seq<Item>, sent: seq<bool>, i: int, k: int)
    requires |sent| == |items|
    ensures Pair(v, a, items, sent, i, k) <==> Completing(v, items, sent, i, k)
  {
    hide PlayAll, Passes, Wanted, Looked, LastFilter, Cut;
    if 0 <= i < k < |items| && items[k].Poll? && i in Looked(items, sent, k) {
      MacIs(v, a, items[..k]);
      SentWanted(LastFilter(v.mac, items[..k]), items[i].f);
    }
  }

  /** Places wait in the order of the schedule. */
  ghost predicate Ordered(w: seq<nat>) {
    forall x, y :: 0 <= x < y < |w| ==> w[x] < w[y]
  }

  lemma {:induction false} WaitsOrdered(items: seq<Item>, sent: seq<bool>)
    requires |sent| == |items|
    ensures Ordered(Waits(items, sent))
    decreases |items|
  {
    hide LooksAt, Letters;
    if items != [] {
      var n := |items| - 1;
      WaitsOrdered(items[..n], sent[..n]);
      var w := Waits(items[..n], sent[..n]);
      assert forall x :: 0 <= x < |w| ==> w[x] in w;
    }
  }

  /** The last poll takes the first wanted frame it looks at. */
  lemma {:induction false} FoundIs(v: Scene, a: nat, items: seq<Item>) returns (i: nat)
    requires v.mail == [] && v.got == None && items != [] && PlayAll(v, a, items[..|items| - 1]).got == None
    requires items[|items| - 1].Poll? && PlayAll(v, a, items).got.Some?
    ensures var (n, sent) := (|items| - 1, InTable(v, a, items));
            && Completing(v, items, sent, i, n) && PlayAll(v, a, items).got == Some(Cut(items[i].f, 2047))
            && forall j :: Completing(v, items, sent, j, n) ==> i <= j
  {
    hide PlayAll, Readable, MacMatches, Found, Taken, Waits, Passes, LooksAt, Completing, Pair, InTable;
    var n, sent := |items| - 1, InTable(v, a, items);
    var u, w := PlayAll(v, a, items[..n]), Waits(items[..n], sent[..n]);
    LastPlayed(v, a, items);
    MailIsWaiting(v, a, items[..n]);
    InTablePrefix(v, a, items, n);
    var x := FirstTaken(u.mac, u.mail);
    i := w[x];
    assert Packed(items[i].f)[1..] == Cut(items[i].f, 2047);
    LastPair(v, a, items, x);
    WaitsOrdered(items[..n], sent[..n]);
    forall j | Completing(v, items, sent, j, n) ensures i <= j {
      PairIs(v, a, items, sent, j, n);
      PairPlace(v, a, items, sent, j, x);
    }
    PairIs(v, a, items, sent, i, n);
  }

  lemma {:induction false} FirstTaken(mac: Option<Bytes>, mail: seq<Bytes>) returns (x: nat)
    requires Found(mac, mail).Some?
    ensures x < LooksAt(mail) && Passes(mac, mail[x]) && Found(mac, mail) == Some(mail[x][1..])
    ensures forall y :: 0 <= y < x ==> !Passes(mac, mail[y])
    decreases |mail|
  {
    if Passes(mac, mail[0]) {
      x := 0;
    } else {
      var y := FirstTaken(mac, mail[1..]);
      x := y + 1;
      assert forall z :: 0 < z < x ==> mail[z] == mail[1..][z - 1];
    }
  }

  /** The x-th frame the last poll looks at passes. */
  lemma {:induction false} LastPair(v: Scene, a: nat, items: seq<Item>, x: nat)
    requires items != [] && items[|items| - 1].Poll?
    requires var (n, sent) := (|items| - 1, InTable(v, a, items));
             var (u, w) := (PlayAll(v, a, items[..n]), Waits(items[..n], sent[..n]));
             u.mail == Letters(items[..n], w) && x < LooksAt(u.mail) && Passes(u.mac, u.mail[x])
    ensures var (n, sent) := (|items| - 1, InTable(v, a, items));
            Pair(v, a, items, sent, Waits(items[..n], sent[..n])[x], n)
  {
    hide PlayAll, Waits, Passes, LooksAt, InTable;
    var n, sent := |items| - 1, InTable(v, a, items);
    var u, w := PlayAll(v, a, items[..n]), Waits(items[..n], sent[..n]);
    assert w[x] in w && w[..LooksAt(u.mail)][x] == w[x];
  }

  /** A frame that passes at the last poll stands at or after the first that does. */
  lemma {:induction false} PairPlace(v: Scene, a: nat, items: seq<Item>, sent: seq<bool>, j: int, x: nat)
    requires items != [] && sent == InTable(v, a, items) && Pair(v, a, items, sent, j, |items| - 1)
    requires var n := |items| - 1;
             var (u, w) := (PlayAll(v, a, items[..n]), Waits(items[..n], sent[..n]));
             && u.mail == Letters(items[..n], w) && x < |w| && Ordered(w)
             && forall y :: 0 <= y < x ==> !Passes(u.mac, u.mail[y])
    ensures Waits(items[..|items| - 1], sent[..|items| - 1])[x] <= j
  {
    hide PlayAll, Waits, Passes, LooksAt, InTable;
    var n := |items| - 1;
    var u, w := PlayAll(v, a, items[..n]), Waits(items[..n], sent[..n]);
    var y :| 0 <= y < |w| && w[y] == j;
    assert Passes(u.mac, u.mail[y]);
  }

  /** The read completes with the first wanted frame a poll looks at, its first 2047 bytes. */
  lemma {:induction false} CompletesWith(v: Scene, a: nat, items: seq<Item>) returns (i: nat, k: nat)
    requires v.mail == [] && v.got == None && PlayAll(v, a, items).got.Some?
    ensures FirstCompleting(v, items, InTable(v, a, items), i, k)
    ensures PlayAll(v, a, items).got == Some(Cut(items[i].f, 2047))
    decreases |items|
  {
    hide PlayAll, Completing, InTable, Play, Found, Taken, Pair;
    if items == [] {
      NothingWaits(v, a);
      assert false;
    } else {
      var n, sent := |items| - 1, InTable(v, a, items);
      LastPlayed(v, a, items);
      InTablePrefix(v, a, items, n);
      if PlayAll(v, a, items[..n]).got.Some? {
        i, k := CompletesWith(v, a, items[..n]);
        CompletingSnoc(v, items, sent);
        FrameBefore(v, items, sent, i, k);
      } else {
        PolledLast(v, a, items);
        i := FoundIs(v, a, items);
        k := n;
        CompletingSnoc(v, items, sent);
        NoneBefore(v, a, items[..n]);
      }
    }
  }

  lemma FrameBefore(v: Scene, items: seq<Item>, sent: seq<bool>, i: nat, k: nat)
    requires |sent| == |items| > 0 && Completing(v, items[..|items| - 1], sent[..|items| - 1], i, k)
    ensures i < |items| - 1 && items[i].Frame? && items[..|items| - 1][i] == items[i]
  {
  }

  lemma {:induction false} PolledLast(v: Scene, a: nat, items: seq<Item>)
    requires items != [] && PlayAll(v, a, items[..|items| - 1]).got == None && PlayAll(v, a, items).got.Some?
    ensures items[|items| - 1].Poll?
  {
    hide Found, Taken, Admit;
  }

  lemma {:induction false} CompletingSnoc(v: Scene, items: seq<Item>, sent: seq<bool>)
    requires |sent| == |items| > 0
    ensures var n := |items| - 1;
            && (forall i, k :: Completing(v, items, sent, i, k) ==>
                k == n || Completing(v, items[..n], sent[..n], i, k))
            && (forall i, k :: Completing(v, items[..n], sent[..n], i, k) ==> k < n && Completing(v, items, sent, i, k))
  {
    hide Wanted, Waits, LooksAt, Letters, LastFilter;
    var n := |items| - 1;
    forall i, k | 0 <= i < k < n
      ensures Completing(v, items, sent, i, k) <==> Completing(v, items[..n], sent[..n], i, k)
    {
      assert items[..n][..k] == items[..k] && sent[..n][..k] == sent[..k];
    }
  }

  lemma {:induction false} NoneBefore(v: Scene, a: nat, items: seq<Item>)
    requires v.mail == [] && v.got == None && PlayAll(v, a, items).got.None?
    ensures forall i, k :: !Completing(v, items, InTable(v, a, items), i, k)
  {
    hide PlayAll, Completing, InTable, Pair;
    CompletesIffPair(v, a, items);
    forall i, k ensures !Completing(v, items, InTable(v, a, items), i, k) {
      PairIs(v, a, items, InTable(v, a, items), i, k);
    }
  }

  /** Over any schedule, frames of any length included: the read has completed at the end exactly if some poll looked
      at a frame its handle wanted. */
  lemma {:induction false} CompletesIffLooked(v: Scene, a: nat, items: seq<Item>)
    requires v.mail == [] && v.got == None
    ensures PlayAll(v, a, items).got.Some? <==> exists i, k :: Completing(v, items, InTable(v, a, items), i, k)
  {
    hide PlayAll, Completing, InTable, Pair;
    CompletesIffPair(v, a, items);
    forall i, k ensures Pair(v, a, items, InTable(v, a, items), i, k)
                   <==> Completing(v, items, InTable(v, a, items), i, k)
    {
      PairIs(v, a, items, InTable(v, a, items), i, k);
    }
  }

  // ---------- Frames long enough ----------

  /** No frame is too short to look at. */
  ghost predicate AllLong(items: seq<Item>) {
    forall l :: 0 <= l < |items| && items[l].Frame? ==> |items[l].f| >= 13
  }

  /** The frame at i is sent to the read, and no poll has come since. */
  ghost predicate Since(items: seq<Item>, sent: seq<bool>, i: int)
    requires |sent| == |items|
  {
    0 <= i < |items| && items[i].Frame? && sent[i] && forall l :: i < l < |items| ==> !items[l].Poll?
  }

  lemma {:induction false} LongLooks(mail: seq<Bytes>)
    requires forall l :: 0 <= l < |mail| ==> Readable(mail[l])
    ensures LooksAt(mail) == |mail|
    decreases |mail|
  {
    hide Readable;
    if mail != [] {
      assert forall l :: 0 <= l < |mail[1..]| ==> mail[1..][l] == mail[l + 1];
      LongLooks(mail[1..]);
    }
  }

  lemma {:induction false} AllLookedAt(items: seq<Item>, w: seq<nat>)
    requires AllLong(items) && forall x :: x in w ==> x < |items| && items[x].Frame?
    ensures LooksAt(Letters(items, w)) == |w|
  {
    hide Readable, Packed, LooksAt;
    forall l | 0 <= l < |w| ensures Readable(Letters(items, w)[l]) {
      assert w[l] in w;
      LongEnough(items[w[l]].f);
    }
    LongLooks(Letters(items, w));
  }

  lemma LongEnough(f: Bytes)
    requires |f| >= SHORTEST - 1
    ensures Readable(Packed(f))
  {
  }

  lemma {:induction false} SinceSnoc(items: seq<Item>, sent: seq<bool>, i: int)
    requires |sent| == |items| > 0
    ensures var n := |items| - 1;
            Since(items, sent, i) <==>
              (Since(items[..n], sent[..n], i) && !items[n].Poll?) || (i == n && items[n].Frame? && sent[n])
  {
    var n := |items| - 1;
    if 0 <= i < n {
      assert items[..n][i] == items[i] && sent[..n][i] == sent[i];
      assert forall l :: i < l < n ==> items[..n][l] == items[l];
    }
  }

  lemma {:induction false} WaitsSince(items: seq<Item>, sent: seq<bool>, i: nat)
    requires |sent| == |items| && AllLong(items)
    ensures i in Waits(items, sent) <==> Since(items, sent, i)
    decreases |items|
  {
    hide LooksAt, Letters, Since;
    if items == [] {
      NoneSince(i);
    } else {
      var n := |items| - 1;
      WaitsSince(items[..n], sent[..n], i);
      SinceSnoc(items, sent, i);
      AllLookedAt(items[..n], Waits(items[..n], sent[..n]));
    }
  }

  lemma NoneSince(i: int)
    ensures !Since([], [], i)
  {
  }

  /** When no frame is too short a poll looks at just the frames sent since the one before it. */
  lemma {:induction false} LookedSince(items: seq<Item>, sent: seq<bool>, i: nat, k: nat)
    requires |sent| == |items| && k < |items| && AllLong(items)
    ensures i in Looked(items, sent, k) <==> Since(items[..k], sent[..k], i)
  {
    hide LooksAt, Letters, Since, Waits;
    assert AllLong(items[..k]);
    WaitsSince(items[..k], sent[..k], i);
    var w := Waits(items[..k], sent[..k]);
    AllLookedAt(items[..k], w);
    assert w[..|w|] == w;
  }

  // ---------- In time ----------

  /** The senders the bridge hears from over the schedule. */
  function Heard(v: Scene, a: nat, items: seq<Item>): seq<nat> {
    if items == [] then []
    else
      var it, u := items[|items| - 1], PlayAll(v, a, items[..|items| - 1]);
      Heard(v, a, items[..|items| - 1]) + if it.From? && it.i < |u.senders| then [u.senders[it.i]] else []
  }

  lemma {:induction false} TableHeard(v: Scene, a: nat, items: seq<Item>)
    ensures PlayAll(v, a, items).clients == Table(v.clients, Heard(v, a, items))
    decreases |items|
  {
    hide Admit, Found, Taken;
    if items != [] {
      var before := items[..|items| - 1];
      TableHeard(v, a, before);
      var it, u := items[|items| - 1], PlayAll(v, a, before);
      var more := if it.From? && it.i < |u.senders| then [u.senders[it.i]] else [];
      TableAppend(v.clients, Heard(v, a, before), more);
      if more != [] { P.OneSender(Table(v.clients, Heard(v, a, before)), more[0]); }
    }
  }

  lemma {:induction false} HeardPrefix(v: Scene, a: nat, items: seq<Item>, i: nat, x: nat)
    requires i <= |items| && x !in Heard(v, a, items)
    ensures x !in Heard(v, a, items[..i])
    decreases |items| - i
  {
    hide PlayAll;
    if i < |items| {
      HeardPrefix(v, a, items, i + 1, x);
      assert items[..i + 1][..i] == items[..i];
    } else {
      assert items[..i] == items;
    }
  }

  /** Which frames are read before the 32nd admission. */
  function InTime(v: Scene, a: nat, items: seq<Item>): (sent: seq<bool>)
    ensures |sent| == |items|
  {
    seq(|items|, i requires 0 <= i < |items| =>
      items[i].Frame? && items[i].f != [] && |Admissions(v.clients, Heard(v, a, items[..i]))| < 32)
  }

  /** With a read whose registration has just been received, the frames sent to it are those read from TAP before the
      32nd later admission. */
  lemma {:induction false} InTableInTime(v: Scene, cs: seq<nat>, a: nat, items: seq<Item>)
    requires NoDuplicates(cs) && |cs| <= 32 && a !in cs && v.clients == Admit(cs, a)
    requires a !in Heard(v, a, items)
    ensures InTable(v, a, items) == InTime(v, a, items)
  {
    hide Admit, PlayAll, Heard, Admissions, Table, NoDuplicates;
    forall i | 0 <= i < |items| ensures InTable(v, a, items)[i] == InTime(v, a, items)[i] {
      HeardPrefix(v, a, items, i, a);
      TableHeard(v, a, items[..i]);
      StaysUntilThe32nd(cs, a, Heard(v, a, items[..i]));
    }
  }
}
