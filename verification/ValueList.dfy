/** A key object's linked list of value objects, changed in place. */
module ValueList {
  import opened Basics
  import opened WideStrings
  import opened KeyArena
  import opened Values

  class RegValue {
    var name: WStr
    var typ: U32
    var data: seq<Byte>
    var next: RegValue?
    ghost const owner: RegKey

    constructor (name: WStr, typ: U32, data: seq<Byte>, next: RegValue?, ghost owner: RegKey)
      ensures this.name == name && this.typ == typ && this.data == data && this.next == next && this.owner == owner
    {
      this.name, this.typ, this.data, this.next, this.owner := name, typ, data, next, owner;
    }
  }

  class RegKey {
    var name: WStr
    var parent: RegKey?
    var child: RegKey?
    var sibling: RegKey?
    var values: RegValue?
    ghost var chain: seq<RegValue>
    /** How many keys were allocated before this one. */
    ghost const id: nat

    constructor (name: WStr, parent: RegKey?, ghost id: nat)
      ensures this.name == name && this.parent == parent && child == null && sibling == null
      ensures values == null && chain == [] && this.id == id
    {
      this.name, this.parent, this.id := name, parent, id;
      child, sibling, values, chain := null, null, null, [];
    }

    ghost function Link(j: nat): RegValue?
      reads this
    {
      if j < |chain| then chain[j] else null
    }

    /** `chain` is the list that starts at `values`; a value object belongs to one key. */
    ghost predicate ListOk()
      reads this, chain
    {
      && values == Link(0)
      && (forall j :: 0 <= j < |chain| ==> chain[j].owner == this && chain[j].next == Link(j + 1))
      && (forall j, l :: 0 <= j < l < |chain| ==> chain[j] != chain[l])
    }

    ghost function Vals(): (vs: seq<Val>)
      reads this, chain
      ensures |vs| == |chain|
    {
      seq(|chain|, j requires 0 <= j < |chain| reads this, chain => Val(chain[j].name, chain[j].typ, chain[j].data))
    }

    lemma FirstCell()
      requires ListOk()
      ensures values == Link(0)
    {
    }

    /** What the list invariant says of one cell. */
    lemma CellAt(j: nat)
      requires ListOk() && j < |chain|
      ensures chain[j].next == Link(j + 1) && Vals()[j] == Val(chain[j].name, chain[j].typ, chain[j].data)
    {
    }

    /** The search loop that SetValue, GetValue and the delete hook share. */
    method FindValue(name: WStr) returns (prev: RegValue?, v: RegValue?, ghost j: nat)
      requires ListOk()
      ensures j == IndexOf(Vals(), name)
      ensures v == Link(j)
      ensures prev == if 0 < j then chain[j - 1] else null
    {
      hide EqNoCase, IndexOf;
      prev, v, j := null, values, 0;
      IndexFrom(Vals(), name, 0);
      while v != null && !EqNoCase(v.name, name)
        invariant j <= |chain|
        invariant v == Link(j)
        invariant prev == if 0 < j then chain[j - 1] else null
        invariant j + IndexOf(Vals()[j..], name) == IndexOf(Vals(), name)
        decreases |chain| - j
      {
        IndexFrom(Vals(), name, j);
        assert chain[j].next == Link(j + 1);
        prev, v, j := v, v.next, j + 1;
      }
      IndexFrom(Vals(), name, j);
    }

    method Prepend(name: WStr, typ: U32, data: seq<Byte>)
      requires ListOk()
      modifies this`values, this`chain
      ensures ListOk() && Vals() == [Val(name, typ, data)] + old(Vals())
      ensures |chain| > 0 && fresh(chain[0]) && chain[1..] == old(chain)
    {
      var v := new RegValue(name, typ, data, values, this);
      values, chain := v, [v] + chain;
      Prepended(v);
      PrependedVals(v);
    }

    twostate predicate InFront(new v: RegValue)
      reads *
    {
      && chain == [v] + old(chain) && values == v && v.owner == this && v.next == old(values)
      && forall c :: c in old(chain) ==>
           c.next == old(c.next) && c.name == old(c.name) && c.typ == old(c.typ) && c.data == old(c.data)
    }

    twostate lemma PrependedVals(new v: RegValue)
      requires InFront(v)
      ensures Vals() == [Val(v.name, v.typ, v.data)] + old(Vals())
    {
      forall l | 0 < l < |chain| ensures Vals()[l] == old(Vals())[l - 1] {
        assert chain[l] == old(chain)[l - 1] && chain[l] in old(chain);
      }
    }

    twostate lemma InFrontAt(new v: RegValue)
      requires InFront(v)
      ensures |chain| == |old(chain)| + 1 && chain[0] == v && values == v && v.owner == this && v.next == old(values)
      ensures forall l :: 0 < l < |chain| ==> chain[l] == old(chain)[l - 1] && chain[l].next == old(chain[l - 1].next)
    {
    }

    twostate lemma Prepended(new v: RegValue)
      requires old(ListOk()) && InFront(v) && v !in old(chain)
      ensures ListOk()
    {
      hide InFront;
      InFrontAt(v);
      ghost var was := old(chain);
      assert forall l :: 0 <= l < |was| ==> was[l] != v;
      forall l | 0 <= l < |chain| ensures chain[l].owner == this && chain[l].next == Link(l + 1) {
        if l > 0 { assert old(was[l - 1].next == Link(l)); }
      }
      forall j, l | 0 <= j < l < |chain| ensures chain[j] != chain[l] {
        if j > 0 { assert was[j - 1] != was[l - 1]; }
      }
    }

    method Overwrite(v: RegValue, typ: U32, data: seq<Byte>, ghost j: nat)
      requires ListOk() && j < |chain| && v == chain[j]
      modifies v`typ, v`data
      ensures ListOk() && chain == old(chain)
      ensures Vals() == old(Vals())[j := Val(old(v.name), typ, data)]
    {
      v.typ, v.data := typ, data;
    }

    method Unlink(prev: RegValue?, v: RegValue, ghost j: nat)
      requires ListOk() && j < |chain| && v == chain[j]
      requires prev == if 0 < j then chain[j - 1] else null
      modifies this`values, this`chain, chain`next
      ensures chain == old(chain)[..j] + old(chain)[j + 1..]
      ensures ListOk()
    {
      if prev != null { prev.next := v.next; } else { values := v.next; }
      chain := chain[..j] + chain[j + 1..];
      KeptAt(j);
      Relinked(j);
    }

    /** The chain without one of its cells, place by place. */
    twostate lemma KeptAt(j: nat)
      requires old(ListOk()) && j < |old(chain)| && chain == old(chain)[..j] + old(chain)[j + 1..]
      ensures |chain| == |old(chain)| - 1
      ensures forall l :: 0 <= l < |chain| ==> chain[l] == old(chain)[if l < j then l else l + 1]
    {
    }

    twostate lemma Relinked(j: nat)
      requires old(ListOk()) && j < |old(chain)| && |chain| == |old(chain)| - 1
      requires forall l :: 0 <= l < |chain| ==> chain[l] == old(chain)[if l < j then l else l + 1]
      requires values == if j == 0 then old(Link(1)) else old(values)
      requires forall l :: 0 <= l < |old(chain)| ==>
                 old(chain)[l].next == if l + 1 == j then old(Link(j + 1)) else old(Link(l + 1))
      ensures ListOk()
    {
      ghost var was := old(chain);
      forall l | 0 <= l < |chain| ensures chain[l].owner == this && chain[l].next == Link(l + 1) {
        var m := if l < j then l else l + 1;
        assert was[m].next == if m + 1 == j then old(Link(j + 1)) else old(Link(m + 1));
      }
      forall l, m | 0 <= l < m < |chain| ensures chain[l] != chain[m] {
        assert was[if l < j then l else l + 1] != was[if m < j then m else m + 1];
      }
    }

    method SetValue(name: WStr, typ: U32, data: seq<Byte>)
      requires ListOk()
      modifies this`values, this`chain, chain
      ensures ListOk() && Vals() == SetVal(old(Vals()), name, typ, data)
      ensures forall v :: v in chain ==> v in old(chain) || fresh(v)
    {
      hide IndexOf, EqNoCase;
      var prev, v, j := FindValue(name);
      if v == null {
        Prepend(name, typ, data);
        assert chain == [chain[0]] + old(chain);
      } else {
        Overwrite(v, typ, data, j);
      }
    }

    twostate lemma ValsUnlinked(j: nat)
      requires old(ListOk()) && j < old(|chain|) && ListOk()
      requires chain == old(chain)[..j] + old(chain)[j + 1..]
      requires forall v :: v in old(chain) ==> v.name == old(v.name) && v.typ == old(v.typ) && v.data == old(v.data)
      ensures Vals() == old(Vals())[..j] + old(Vals())[j + 1..]
    {
      hide ListOk;
      KeptAt(j);
      forall l | 0 <= l < |chain| ensures Vals()[l] == old(Vals())[if l < j then l else l + 1] {
        ghost var v := chain[l];
        assert v in old(chain) && Val(v.name, v.typ, v.data) == old(Val(v.name, v.typ, v.data));
      }
      CutAt(old(Vals()), Vals(), j);
    }

    lemma CutAt(was: seq<Val>, now: seq<Val>, j: nat)
      requires j < |was| && |now| == |was| - 1
      requires forall l :: 0 <= l < |now| ==> now[l] == was[if l < j then l else l + 1]
      ensures now == was[..j] + was[j + 1..]
    {
    }

    method DeleteValue(name: WStr) returns (found: bool)
      requires ListOk()
      modifies this`values, this`chain, chain
      ensures ListOk() && Vals() == DropVal(old(Vals()), name)
      ensures found <==> IndexOf(old(Vals()), name) < |old(Vals())|
      ensures forall v :: v in chain ==> v in old(chain)
    {
      hide IndexOf, DropVal;
      var prev, v, j := FindValue(name);
      DropValAt(Vals(), name);
      found := v != null;
      if found {
        Unlink(prev, v, j);
        ValsUnlinked(j);
      }
    }

    /** A null buffer asks for the size only; `room` is the caller's `*size` on entry. Nothing is reported
        when there is no such value. */
    method GetValue(name: WStr, buffer: array?<Byte>, room: nat) returns (ok: bool, typ: Option<U32>, size: Option<nat>)
      requires ListOk() && (buffer != null ==> room <= buffer.Length)
      modifies buffer
      ensures ListOk() && chain == old(chain) && Vals() == old(Vals())
      ensures var found := Lookup(Vals(), name);
              if found.None? then !ok && typ == None && size == None
              else && typ == Some(found.value.typ) && size == Some(|found.value.data|)
                   && (ok <==> buffer == null || |found.value.data| <= room)
      ensures buffer != null ==>
                buffer[..] == (if ok
                               then Lookup(Vals(), name).value.data + old(buffer[|Lookup(Vals(), name).value.data|..])
                               else old(buffer[..]))
    {
      var prev, v, j := FindValue(name);
      if v == null { return false, None, None; }
      typ, size := Some(v.typ), Some(|v.data|);
      ok := buffer == null || |v.data| <= room;
      if buffer != null && ok {
        CopyInto(buffer, 0, v.data);
      }
    }
  }

  lemma {:induction false} IndexFrom(vs: seq<Val>, name: WStr, j: nat)
    requires j <= |vs|
    ensures vs[0..] == vs
    ensures j == |vs| ==> IndexOf(vs[j..], name) == 0
    ensures j < |vs| && EqNoCase(vs[j].name, name) ==> IndexOf(vs[j..], name) == 0
    ensures j < |vs| && !EqNoCase(vs[j].name, name) ==> IndexOf(vs[j..], name) == 1 + IndexOf(vs[j + 1..], name)
  {
    if j < |vs| { assert vs[j..][1..] == vs[j + 1..]; }
  }
}
