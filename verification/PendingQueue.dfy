/** The queue of pending reads of one device handle: a singly linked list with a head and a tail, changed in place
    under the lock. */
module PendingQueue {
  import opened Basics

  /** A read the application submitted: its place in the order of submission, its OVERLAPPED, the size of its
      buffer, and the address of its own socket if that could be made. */
  datatype Read = Read(id: nat, ov: nat, buflen: nat, sock: Option<nat>)

  /** The position of the first read on this OVERLAPPED. */
  function Find(q: seq<Read>, ov: nat): (j: nat)
    ensures j <= |q|
    ensures j < |q| ==> q[j].ov == ov
    ensures forall l :: 0 <= l < j ==> q[l].ov != ov
  {
    if q == [] || q[0].ov == ov then 0 else 1 + Find(q[1..], ov)
  }

  function Without(q: seq<Read>, ov: nat): seq<Read> {
    var j := Find(q, ov);
    if j < |q| then q[..j] + q[j + 1..] else q
  }

  /** A poll that finds no data: the read goes to the back. */
  function Polled(q: seq<Read>, ov: nat): seq<Read> {
    var j := Find(q, ov);
    if j < |q| then q[..j] + q[j + 1..] + [q[j]] else q
  }

  function PolledAll(q: seq<Read>, ovs: seq<nat>): seq<Read>
    decreases |ovs|
  {
    if ovs == [] then q else PolledAll(Polled(q, ovs[0]), ovs[1..])
  }

  /** Taking out one element leaves every other. */
  lemma CutKeeps(q: seq<Read>, j: nat, r: Read)
    requires j < |q| && r in q && r != q[j]
    ensures r in q[..j] + q[j + 1..]
  {
    var i :| 0 <= i < |q| && q[i] == r;
    if i < j { assert q[..j][i] == r; } else { assert q[j + 1..][i - j - 1] == r; }
  }

  lemma CutWithin(q: seq<Read>, j: nat)
    requires j < |q|
    ensures forall p :: p in q[..j] + q[j + 1..] ==> p in q
  {
  }

  function Ovs(q: seq<Read>): seq<nat> {
    seq(|q|, i requires 0 <= i < |q| => q[i].ov)
  }

  ghost predicate DistinctOvs(q: seq<Read>) {
    forall i, j :: 0 <= i < j < |q| ==> q[i].ov != q[j].ov
  }

  lemma {:induction false} RotateOnce(q: seq<Read>, k: nat)
    requires DistinctOvs(q) && k < |q|
    ensures Polled(q[k..] + q[..k], q[k].ov) == q[k + 1..] + q[..k + 1]
  {
    hide DistinctOvs;
    var r := q[k..] + q[..k];
    assert r[0] == q[k] && Find(r, q[k].ov) == 0;
    assert r[..0] + r[1..] == q[k + 1..] + q[..k];
    assert q[k + 1..] + q[..k] + [q[k]] == q[k + 1..] + q[..k + 1];
  }

  lemma {:induction false} RotateFrom(q: seq<Read>, k: nat)
    requires DistinctOvs(q) && k <= |q|
    ensures PolledAll(q[k..] + q[..k], Ovs(q)[k..]) == q
    decreases |q| - k
  {
    if k == |q| {
      assert q[k..] + q[..k] == q && Ovs(q)[k..] == [];
    } else {
      RotateOnce(q, k);
      assert Ovs(q)[k..][0] == q[k].ov && Ovs(q)[k..][1..] == Ovs(q)[k + 1..];
      RotateFrom(q, k + 1);
    }
  }

  /** Polling every queued read once, in queue order and without data, puts the queue back as it was. */
  lemma {:induction false} PollingRoundRestores(q: seq<Read>)
    requires DistinctOvs(q)
    ensures PolledAll(q, Ovs(q)) == q
  {
    RotateFrom(q, 0);
    assert q[0..] + q[..0] == q && Ovs(q)[0..] == Ovs(q);
  }

  /** A poll moves one read and loses none. */
  lemma {:induction false} PolledKeeps(q: seq<Read>, ov: nat)
    ensures multiset(Polled(q, ov)) == multiset(q) && |Polled(q, ov)| == |q|
    ensures Find(q, ov) < |q| ==> Polled(q, ov) == Without(q, ov) + [q[Find(q, ov)]]
  {
    var j := Find(q, ov);
    if j < |q| { assert q == q[..j] + [q[j]] + q[j + 1..]; }
  }

  class PendingRead {
    ghost const id: nat
    const ov: nat
    const buffer: array<Byte>
    const buflen: nat
    const sock: Option<nat>
    var next: PendingRead?
    ghost const owner: HandleContext

    constructor (ghost id: nat, ov: nat, buffer: array<Byte>, buflen: nat, sock: Option<nat>,
        ghost owner: HandleContext)
      ensures View() == Read(id, ov, buflen, sock) && this.buffer == buffer
      ensures this.owner == owner && next == null
    {
      this.id, this.ov, this.buffer, this.buflen, this.sock := id, ov, buffer, buflen, sock;
      this.owner, next := owner, null;
    }

    ghost function View(): Read {
      Read(id, ov, buflen, sock)
    }
  }

  class HandleContext {
    var mac: Option<Bytes>
    var head: PendingRead?
    var tail: PendingRead?
    ghost var chain: seq<PendingRead>

    constructor ()
      ensures Valid() && Queue() == [] && mac == None
    {
      mac, head, tail, chain := None, null, null, [];
    }

    ghost function Link(j: nat): PendingRead?
      reads this`chain
    {
      if j < |chain| then chain[j] else null
    }

    /** `chain` is the list from `head`; head and tail are null together, and tail is the last node. */
    ghost predicate Valid()
      reads this, chain
    {
      && head == Link(0)
      && tail == (if chain == [] then null else chain[|chain| - 1])
      && (forall j :: 0 <= j < |chain| ==> chain[j].owner == this && chain[j].next == Link(j + 1))
      && (forall j, l :: 0 <= j < l < |chain| ==> chain[j] != chain[l])
    }

    ghost function Queue(): (q: seq<Read>)
      reads this, chain
      ensures |q| == |chain|
    {
      seq(|chain|, j requires 0 <= j < |chain| reads this, chain => chain[j].View())
    }

    lemma TailIn()
      requires Valid()
      ensures tail != null ==> tail in chain
    {
    }

    /** What ReadFile does with a new request, and GetOverlappedResult with one that got no data. */
    method Append(req: PendingRead)
      requires Valid() && req.owner == this && req !in chain
      modifies this`head, this`tail, this`chain, (if tail == null then {req} else {req, tail})`next
      ensures Valid() && chain == old(chain) + [req]
      ensures Queue() == old(Queue()) + [req.View()]
      ensures head != null && tail == req
    {
      req.next := null;
      if tail != null {
        tail.next := req;
        tail := req;
      } else {
        head, tail := req, req;
      }
      chain := chain + [req];
      Linked(req);
    }

    twostate lemma Linked(req: PendingRead)
      requires old(Valid()) && req.owner == this && req !in old(chain) && chain == old(chain) + [req]
      requires tail == req && req.next == null && head == if old(chain) == [] then req else old(head)
      requires forall j :: 0 <= j < |old(chain)| ==>
          old(chain)[j].next == if j + 1 < |old(chain)| then old(Link(j + 1)) else req
      ensures Valid()
    {
      ghost var was := old(chain);
      forall j | 0 <= j < |chain| ensures chain[j].owner == this && chain[j].next == Link(j + 1) {
        if j < |was| { assert chain[j] == was[j]; }
      }
      forall j, l | 0 <= j < l < |chain| ensures chain[j] != chain[l] {
        assert chain[j] == was[j];
        if l < |was| { assert was[j] != was[l]; }
      }
    }

    /** The search under the lock. */
    method Search(ov: nat) returns (prev: PendingRead?, req: PendingRead?, ghost j: nat)
      requires Valid()
      ensures j == Find(Queue(), ov) && req == Link(j)
      ensures prev == if 0 < j then chain[j - 1] else null
    {
      hide Find;
      prev, req, j := null, head, 0;
      FindFrom(Queue(), ov, 0);
      while req != null && req.ov != ov
        invariant j <= |chain| && req == Link(j)
        invariant prev == if 0 < j then chain[j - 1] else null
        invariant j + Find(Queue()[j..], ov) == Find(Queue(), ov)
        decreases |chain| - j
      {
        FindFrom(Queue(), ov, j);
        assert chain[j].next == Link(j + 1);
        prev, req, j := req, req.next, j + 1;
      }
      FindFrom(Queue(), ov, j);
    }

    method Detach(prev: PendingRead?, req: PendingRead, ghost j: nat)
      requires Valid() && j < |chain| && req == chain[j]
      requires prev == if 0 < j then chain[j - 1] else null
      modifies this`head, this`tail, this`chain, chain`next
      ensures Valid() && chain == old(chain)[..j] + old(chain)[j + 1..] && req !in chain
    {
      if prev != null { prev.next := req.next; } else { head := req.next; }
      if req == tail { tail := prev; }
      chain := chain[..j] + chain[j + 1..];
      Relinked(j);
    }

    /** Finds the request by its OVERLAPPED and takes it out of the queue. */
    method Unlink(ov: nat) returns (req: PendingRead?)
      requires Valid()
      modifies this`head, this`tail, this`chain, chain`next
      ensures Valid() && Queue() == Without(old(Queue()), ov)
      ensures var j := Find(old(Queue()), ov);
              if j < |old(chain)| then req == old(chain)[j] && req !in chain && req.owner == this
                  && req.View() == old(Queue())[j]
              else req == null && chain == old(chain)
      ensures forall r :: r in chain ==> r in old(chain)
    {
      hide Find;
      var prev, r, j := Search(ov);
      req := r;
      if req != null {
        Detach(prev, req, j);
        QueueCut(j);
        assert Without(old(Queue()), ov) == old(Queue())[..j] + old(Queue())[j + 1..];
        assert req.View() == old(Queue())[j];
      } else {
        assert Without(old(Queue()), ov) == old(Queue());
      }
    }

    twostate lemma Relinked(j: nat)
      requires old(Valid()) && j < |old(chain)| && chain == old(chain)[..j] + old(chain)[j + 1..]
      requires head == if j == 0 then old(Link(1)) else old(head)
      requires tail == if j + 1 < |old(chain)| then old(tail) else if j == 0 then null else old(chain)[j - 1]
      requires forall l :: 0 <= l < |old(chain)| ==>
          old(chain)[l].next == if l + 1 == j then old(Link(j + 1)) else old(Link(l + 1))
      ensures Valid() && old(chain)[j] !in chain
    {
      ghost var was := old(chain);
      Kept(j);
      forall l | 0 <= l < |chain| ensures chain[l].owner == this && chain[l].next == Link(l + 1) {
        var m := if l < j then l else l + 1;
        assert chain[l] == was[m] && was[m].next == if m + 1 == j then old(Link(j + 1)) else old(Link(m + 1));
      }
    }

    /** The chain without one of its nodes: the others in place, and still distinct. */
    twostate lemma Kept(j: nat)
      requires old(Valid()) && j < |old(chain)| && chain == old(chain)[..j] + old(chain)[j + 1..]
      ensures forall l :: 0 <= l < |chain| ==> chain[l] == old(chain)[if l < j then l else l + 1]
      ensures forall l, m :: 0 <= l < m < |chain| ==> chain[l] != chain[m]
      ensures old(chain)[j] !in chain
    {
      ghost var was := old(chain);
      assert forall l :: 0 <= l < |chain| ==> chain[l] == was[if l < j then l else l + 1];
      forall l, m | 0 <= l < m < |chain| ensures chain[l] != chain[m] {
        assert was[if l < j then l else l + 1] != was[if m < j then m else m + 1];
      }
      assert forall l :: 0 <= l < |chain| ==> chain[l] != was[j];
    }

    twostate lemma QueueCut(j: nat)
      requires old(Valid()) && j < |old(chain)| && chain == old(chain)[..j] + old(chain)[j + 1..]
      ensures Queue() == old(Queue())[..j] + old(Queue())[j + 1..]
    {
      forall l | 0 <= l < |chain| ensures Queue()[l] == old(Queue())[if l < j then l else l + 1] {
        assert chain[l] == old(chain)[if l < j then l else l + 1];
        assert chain[l] in old(chain);
      }
    }

    /** A whole poll that finds no data. */
    method Poll(ov: nat) returns (found: bool)
      requires Valid()
      modifies this`head, this`tail, this`chain, chain`next
      ensures Valid() && Queue() == Polled(old(Queue()), ov)
      ensures found <==> Find(old(Queue()), ov) < |old(Queue())|
    {
      PolledKeeps(Queue(), ov);
      var req := Unlink(ov);
      found := req != null;
      if req != null {
        TailIn();
        Append(req);
      }
    }
  }

  lemma {:induction false} FindFrom(q: seq<Read>, ov: nat, j: nat)
    requires j <= |q|
    ensures q[0..] == q
    ensures j == |q| ==> Find(q[j..], ov) == 0
    ensures j < |q| && q[j].ov == ov ==> Find(q[j..], ov) == 0
    ensures j < |q| && q[j].ov != ov ==> Find(q[j..], ov) == 1 + Find(q[j + 1..], ov)
  {
    if j < |q| { assert q[j..][1..] == q[j + 1..]; }
  }
}
