/** The value list of one key: the source's linked list as a sequence, newest value first. */
module Values {
  import opened Basics
  import opened WideStrings
  import opened KeyArena

  /** The list search of SetValue, GetValue and the delete hook: the first index whose name compares equal,
      or the length of the list. */
  function IndexOf(vs: seq<Val>, name: WStr): (j: nat)
    ensures j <= |vs|
    ensures j < |vs| ==> EqNoCase(vs[j].name, name)
    ensures forall l :: 0 <= l < j ==> !EqNoCase(vs[l].name, name)
  {
    if vs == [] || EqNoCase(vs[0].name, name) then 0 else 1 + IndexOf(vs[1..], name)
  }

  function Lookup(vs: seq<Val>, name: WStr): Option<Val> {
    var j := IndexOf(vs, name);
    if j < |vs| then Some(vs[j]) else None
  }

  /** `SetValue`: overwrite in place, keeping the spelling of the stored name, or prepend. */
  function SetVal(vs: seq<Val>, name: WStr, typ: U32, data: seq<Byte>): seq<Val> {
    var j := IndexOf(vs, name);
    if j < |vs| then vs[j := Val(vs[j].name, typ, data)] else [Val(name, typ, data)] + vs
  }

  /** The unlinking in the delete hook. */
  function DropVal(vs: seq<Val>, name: WStr): seq<Val> {
    if vs == [] then []
    else if EqNoCase(vs[0].name, name) then vs[1..]
    else [vs[0]] + DropVal(vs[1..], name)
  }

  /** The list without the value at j. */
  function CutOne(vs: seq<Val>, j: nat): seq<Val>
    requires j < |vs|
  {
    vs[..j] + vs[j + 1..]
  }

  lemma {:induction false} DropValAt(vs: seq<Val>, name: WStr)
    ensures DropVal(vs, name) == if IndexOf(vs, name) < |vs| then CutOne(vs, IndexOf(vs, name)) else vs
    decreases |vs|
  {
    hide EqNoCase, IndexOf, DropVal, CutOne;
    DropValStep(vs, name);
    if vs != [] {
      CutFirst(vs);
      if !EqNoCase(vs[0].name, name) {
        DropValAt(vs[1..], name);
        if IndexOf(vs[1..], name) < |vs[1..]| { CutLater(vs, IndexOf(vs[1..], name)); }
      }
    }
  }

  lemma CutFirst(vs: seq<Val>)
    requires vs != []
    ensures CutOne(vs, 0) == vs[1..] && [vs[0]] + vs[1..] == vs
  {
  }

  lemma CutLater(vs: seq<Val>, j: nat)
    requires j + 1 < |vs|
    ensures [vs[0]] + CutOne(vs[1..], j) == CutOne(vs, j + 1)
  {
    assert vs[1..][j + 1..] == vs[j + 2..] && [vs[0]] + vs[1..][..j] == vs[..j + 1];
  }

  lemma {:induction false} DropValStep(vs: seq<Val>, name: WStr)
    ensures vs == [] ==> DropVal(vs, name) == [] && IndexOf(vs, name) == 0
    ensures vs != [] && EqNoCase(vs[0].name, name) ==> DropVal(vs, name) == vs[1..] && IndexOf(vs, name) == 0
    ensures vs != [] && !EqNoCase(vs[0].name, name) ==>
              DropVal(vs, name) == [vs[0]] + DropVal(vs[1..], name) && IndexOf(vs, name) == 1 + IndexOf(vs[1..], name)
  {
    hide EqNoCase;
  }

  ghost predicate Unique(vs: seq<Val>) {
    forall j, l :: 0 <= j < l < |vs| ==> !EqNoCase(vs[j].name, vs[l].name)
  }

  datatype Content = Content(typ: U32, data: seq<Byte>)

  /** What the list stores, as a map from folded names. */
  ghost function AsMap(vs: seq<Val>): (m: map<WStr, Content>)
  {
    if vs == [] then map[] else AsMap(vs[1..])[Fold(vs[0].name) := Content(vs[0].typ, vs[0].data)]
  }

  lemma {:induction false} AsMapLookup(vs: seq<Val>, name: WStr)
    ensures Fold(name) in AsMap(vs) <==> IndexOf(vs, name) < |vs|
    ensures Lookup(vs, name).Some? ==>
              AsMap(vs)[Fold(name)] == Content(Lookup(vs, name).value.typ, Lookup(vs, name).value.data)
    decreases |vs|
  {
    if vs != [] && !EqNoCase(vs[0].name, name) { AsMapLookup(vs[1..], name); }
  }

  lemma {:induction false} SetValRefines(vs: seq<Val>, name: WStr, typ: U32, data: seq<Byte>)
    ensures AsMap(SetVal(vs, name, typ, data)) == AsMap(vs)[Fold(name) := Content(typ, data)]
    decreases |vs|
  {
    var j, w := IndexOf(vs, name), SetVal(vs, name, typ, data);
    if j == |vs| {
      assert w[1..] == vs;
    } else if j == 0 {
      assert w[1..] == vs[1..];
    } else {
      SetValRefines(vs[1..], name, typ, data);
      assert w[1..] == SetVal(vs[1..], name, typ, data);
    }
  }

  lemma {:induction false} DropValRefines(vs: seq<Val>, name: WStr)
    requires Unique(vs)
    ensures AsMap(DropVal(vs, name)) == AsMap(vs) - {Fold(name)}
    decreases |vs|
  {
    if vs != [] {
      if EqNoCase(vs[0].name, name) {
        DropFirstRefines(vs, name);
      } else {
        DropValRefines(vs[1..], name);
        assert DropVal(vs, name)[1..] == DropVal(vs[1..], name);
      }
    }
  }

  lemma {:induction false} DropFirstRefines(vs: seq<Val>, name: WStr)
    requires vs != [] && EqNoCase(vs[0].name, name) && Unique(vs)
    ensures AsMap(vs[1..]) == AsMap(vs) - {Fold(name)}
  {
    AsMapLookup(vs[1..], name);
    assert forall l :: 0 <= l < |vs[1..]| ==> !EqNoCase(vs[0].name, vs[1..][l].name);
  }

  lemma SetValUnique(vs: seq<Val>, name: WStr, typ: U32, data: seq<Byte>)
    requires Unique(vs)
    ensures Unique(SetVal(vs, name, typ, data))
  {
    hide IndexOf;
    var j, w := IndexOf(vs, name), SetVal(vs, name, typ, data);
    if j == |vs| {
      assert forall l :: 1 <= l < |w| ==> w[l] == vs[l - 1];
    } else {
      assert forall l :: 0 <= l < |w| ==> w[l].name == vs[l].name;
    }
  }

  lemma DropValUnique(vs: seq<Val>, name: WStr)
    requires Unique(vs)
    ensures Unique(DropVal(vs, name))
  {
    hide EqNoCase, DropVal, IndexOf, CutOne;
    DropValAt(vs, name);
    if IndexOf(vs, name) < |vs| { CutOneAt(vs, IndexOf(vs, name)); }
  }

  lemma CutOneAt(vs: seq<Val>, j: nat)
    requires j < |vs|
    ensures |CutOne(vs, j)| == |vs| - 1
    ensures forall l :: 0 <= l < |vs| - 1 ==> CutOne(vs, j)[l] == vs[if l < j then l else l + 1]
  {
  }

  // ---------- Any history of one key's values ----------

  datatype ValueOp = Set(name: WStr, typ: U32, data: seq<Byte>) | Delete(name: WStr)

  function ApplyList(vs: seq<Val>, ops: seq<ValueOp>): seq<Val>
    decreases |ops|
  {
    if ops == [] then vs
    else
      match ops[0]
      case Set(n, t, d) => ApplyList(SetVal(vs, n, t, d), ops[1..])
      case Delete(n) => ApplyList(DropVal(vs, n), ops[1..])
  }

  ghost function ApplyMap(m: map<WStr, Content>, ops: seq<ValueOp>): map<WStr, Content>
    decreases |ops|
  {
    if ops == [] then m
    else
      match ops[0]
      case Set(n, t, d) => ApplyMap(m[Fold(n) := Content(t, d)], ops[1..])
      case Delete(n) => ApplyMap(m - {Fold(n)}, ops[1..])
  }

  /** Over any history of sets and deletes the list is a case-insensitive map with one entry per name. */
  lemma {:induction false} HistoryRefinesMap(vs: seq<Val>, ops: seq<ValueOp>)
    requires Unique(vs)
    ensures Unique(ApplyList(vs, ops)) && AsMap(ApplyList(vs, ops)) == ApplyMap(AsMap(vs), ops)
    decreases |ops|
  {
    if ops != [] {
      match ops[0]
      case Set(n, t, d) =>
        SetValRefines(vs, n, t, d);
        SetValUnique(vs, n, t, d);
        HistoryRefinesMap(SetVal(vs, n, t, d), ops[1..]);
      case Delete(n) =>
        DropValRefines(vs, n);
        DropValUnique(vs, n);
        HistoryRefinesMap(DropVal(vs, n), ops[1..]);
    }
  }

  lemma {:induction false} UntouchedEntry(m: map<WStr, Content>, ops: seq<ValueOp>, f: WStr)
    requires forall j :: 0 <= j < |ops| ==> Fold(ops[j].name) != f
    ensures f in ApplyMap(m, ops) <==> f in m
    ensures f in m ==> ApplyMap(m, ops)[f] == m[f]
    decreases |ops|
  {
    if ops != [] {
      assert Fold(ops[0].name) != f;
      assert forall j :: 0 <= j < |ops[1..]| ==> ops[1..][j] == ops[j + 1];
      match ops[0]
      case Set(n, t, d) => UntouchedEntry(m[Fold(n) := Content(t, d)], ops[1..], f);
      case Delete(n) => UntouchedEntry(m - {Fold(n)}, ops[1..], f);
    }
  }

  // ---------- The query protocol ----------

  const ERROR_SUCCESS := 0
  const ERROR_FILE_NOT_FOUND := 2
  const ERROR_INVALID_HANDLE := 6
  const ERROR_MORE_DATA := 234
  const ERROR_NO_MORE_ITEMS := 259

  /** What a query leaves behind: status, the reported type and size, and the bytes put in the buffer. */
  datatype Answer = Answer(status: int, typ: Option<U32>, size: Option<nat>, written: seq<Byte>)

  /** The emulated-key branch of the query hook; `room` is None for a null data pointer. */
  function Query(vs: seq<Val>, name: WStr, room: Option<nat>): Answer {
    match Lookup(vs, name)
    case None => Answer(ERROR_FILE_NOT_FOUND, None, None, [])
    case Some(v) =>
      if room.Some? && room.value < |v.data| then Answer(ERROR_MORE_DATA, Some(v.typ), Some(|v.data|), [])
      else Answer(ERROR_SUCCESS, Some(v.typ), Some(|v.data|), if room.Some? then v.data else [])
  }

  /** After any history in which `name` was last set to (typ, data): a size query reports its size, a query
      with that much room returns exactly the bytes and type set, and with less room nothing is written. */
  lemma {:induction false} QueryReturnsLastSet(before: seq<ValueOp>, name: WStr, typ: U32, data: seq<Byte>,
                                               after: seq<ValueOp>, asked: WStr, room: nat)
    requires EqNoCase(name, asked)
    requires forall j :: 0 <= j < |after| ==> !EqNoCase(after[j].name, name)
    ensures var vs := ApplyList([], before + [Set(name, typ, data)] + after);
            && Query(vs, asked, None) == Answer(ERROR_SUCCESS, Some(typ), Some(|data|), [])
            && Query(vs, asked, Some(room)) ==
               if room < |data| then Answer(ERROR_MORE_DATA, Some(typ), Some(|data|), [])
               else Answer(ERROR_SUCCESS, Some(typ), Some(|data|), data)
  {
    var mid := before + [Set(name, typ, data)];
    var w := ApplyList([], mid);
    ApplySplit([], mid, after);
    ApplySplit([], before, [Set(name, typ, data)]);
    var u := ApplyList([], before);
    HistoryRefinesMap([], before);
    assert ApplyList(u, [Set(name, typ, data)]) == SetVal(u, name, typ, data);
    SetValRefines(u, name, typ, data);
    SetValUnique(u, name, typ, data);
    HistoryRefinesMap(w, after);
    UntouchedEntry(AsMap(w), after, Fold(name));
    AsMapLookup(ApplyList(w, after), asked);
  }

  /** A name deleted, and not set since, is not found. */
  lemma {:induction false} QueryAfterDelete(before: seq<ValueOp>, name: WStr, after: seq<ValueOp>, asked: WStr,
      room: Option<nat>)
    requires EqNoCase(name, asked)
    requires forall j :: 0 <= j < |after| ==> !EqNoCase(after[j].name, name)
    ensures Query(ApplyList([], before + [Delete(name)] + after), asked, room).status == ERROR_FILE_NOT_FOUND
  {
    var u, w := ApplyList([], before), ApplyList([], before + [Delete(name)]);
    ApplySplit([], before + [Delete(name)], after);
    ApplySplit([], before, [Delete(name)]);
    HistoryRefinesMap([], before);
    assert ApplyList(u, [Delete(name)]) == DropVal(u, name);
    DropValRefines(u, name);
    DropValUnique(u, name);
    HistoryRefinesMap(w, after);
    UntouchedEntry(AsMap(w), after, Fold(name));
    AsMapLookup(ApplyList(w, after), asked);
  }

  lemma {:induction false} ApplySplit(vs: seq<Val>, a: seq<ValueOp>, b: seq<ValueOp>)
    ensures ApplyList(vs, a + b) == ApplyList(ApplyList(vs, a), b)
    decreases |a|
  {
    if a == [] {
      assert a + b == b;
    } else {
      assert (a + b)[1..] == a[1..] + b;
      match a[0]
      case Set(n, t, d) => ApplySplit(SetVal(vs, n, t, d), a[1..], b);
      case Delete(n) => ApplySplit(DropVal(vs, n), a[1..], b);
    }
  }

  /** The place in the list: a value set again keeps its place and the spelling of its name, a new one goes in front; a
      deletion closes the gap. */
  lemma {:induction false} ListsAfter(vs: seq<Val>, name: WStr, typ: U32, data: seq<Byte>)
    ensures (forall v :: v in vs ==> !EqNoCase(v.name, name)) ==>
              SetVal(vs, name, typ, data) == [Val(name, typ, data)] + vs && DropVal(vs, name) == vs
    ensures forall j: nat | j < |vs| && EqNoCase(vs[j].name, name)
                            && forall l :: 0 <= l < j ==> !EqNoCase(vs[l].name, name) ::
              && SetVal(vs, name, typ, data) == vs[..j] + [Val(vs[j].name, typ, data)] + vs[j + 1..]
              && DropVal(vs, name) == vs[..j] + vs[j + 1..]
  {
    hide EqNoCase, IndexOf, DropVal, SetVal;
    DropValAt(vs, name);
    SetNew(vs, name, typ, data);
    forall j: nat | j < |vs| && EqNoCase(vs[j].name, name) && forall l :: 0 <= l < j ==> !EqNoCase(vs[l].name, name)
      ensures SetVal(vs, name, typ, data) == vs[..j] + [Val(vs[j].name, typ, data)] + vs[j + 1..]
    {
      SetAt(vs, name, typ, data, j);
    }
  }

  lemma SetNew(vs: seq<Val>, name: WStr, typ: U32, data: seq<Byte>)
    ensures IndexOf(vs, name) == |vs| ==> SetVal(vs, name, typ, data) == [Val(name, typ, data)] + vs
  {
  }

  lemma SetAt(vs: seq<Val>, name: WStr, typ: U32, data: seq<Byte>, j: nat)
    requires j < |vs| && EqNoCase(vs[j].name, name) && forall l :: 0 <= l < j ==> !EqNoCase(vs[l].name, name)
    ensures SetVal(vs, name, typ, data) == vs[..j] + [Val(vs[j].name, typ, data)] + vs[j + 1..]
    ensures IndexOf(vs, name) == j
  {
    hide EqNoCase, IndexOf;
    assert IndexOf(vs, name) == j;
    var v := Val(vs[j].name, typ, data);
    assert vs[j := v] == vs[..j] + [v] + vs[j + 1..];
  }
}
