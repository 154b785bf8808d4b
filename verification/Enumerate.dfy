/** Enumerating a key's subkeys and values, and the counts and maxima a caller sizes its buffers from. */
module Enumerate {
  import opened Basics
  import opened WideStrings
  import opened KeyArena
  import opened Values

  /** Status, the units put in the name buffer, and the name length reported. */
  datatype KeyItem = KeyItem(status: int, name: WStr, cch: nat)

  /** Status, name and length as above, and what a query would answer for the value's data. */
  datatype ValueItem = ValueItem(status: int, name: WStr, cch: nat, typ: Option<U32>, size: Option<nat>,
      data: seq<Byte>)

  datatype Info = Info(subKeys: nat, maxSubKeyLen: nat, values: nat, maxValueNameLen: nat, maxValueLen: nat)

  /** QueryInfo's outcomes: a handle that is not ours, the fake service key with its two counts of zero, a key. */
  datatype InfoAnswer = NotOurs | ServiceKey(subKeys: nat, values: nat) | Reported(info: Info)

  /** `Hook_RegEnumKeyExW` with a name buffer of `room` units; a NULL name needs no room. */
  function EnumKey(names: seq<WStr>, index: nat, room: nat): KeyItem {
    if index >= |names| then KeyItem(ERROR_NO_MORE_ITEMS, [], room)
    else if names[index] != [] && room <= |names[index]| then KeyItem(ERROR_MORE_DATA, [], |names[index]| + 1)
    else KeyItem(ERROR_SUCCESS, names[index], |names[index]|)
  }

  /** `Hook_RegEnumKeyW`: no length is reported and a long name is cut without notice. */
  function EnumKeyPlain(names: seq<WStr>, index: nat, room: nat): KeyItem
    requires room > 0
  {
    if index >= |names| then KeyItem(ERROR_NO_MORE_ITEMS, [], room)
    else KeyItem(ERROR_SUCCESS, Truncate(names[index], room), room)
  }

  /** `Hook_RegEnumValueW`; `room` is what the name length pointer holds, `dataRoom` what the data length pointer
      holds, each None for a null pointer (or no data buffer). Without a name length no name is returned. */
  function EnumValue(vs: seq<Val>, index: nat, room: Option<nat>, dataRoom: Option<nat>): ValueItem {
    if index >= |vs| then ValueItem(ERROR_NO_MORE_ITEMS, [], Got(room), None, None, [])
    else ValueAnswer(vs[index], room, dataRoom)
  }

  function ValueAnswer(v: Val, room: Option<nat>, dataRoom: Option<nat>): ValueItem {
    var (name, cch) := if room.None? then ([], 0) else (v.name, |v.name|);
    if room.Some? && room.value <= |v.name| then ValueItem(ERROR_MORE_DATA, [], |v.name| + 1, None, None, [])
    else if dataRoom.Some? && dataRoom.value < |v.data| then
      ValueItem(ERROR_MORE_DATA, name, cch, Some(v.typ), Some(|v.data|), [])
    else
      ValueItem(ERROR_SUCCESS, name, cch, Some(v.typ), Some(|v.data|), if dataRoom.Some? then v.data else [])
  }

  function Got(room: Option<nat>): nat { if room.Some? then room.value else 0 }

  function Larger(x: nat, y: nat): nat { if x < y then y else x }

  function MaxOf(ns: seq<nat>): (m: nat)
    ensures forall j :: 0 <= j < |ns| ==> ns[j] <= m
    ensures ns != [] ==> m in ns
  {
    if ns == [] then 0 else Larger(MaxOf(ns[..|ns| - 1]), ns[|ns| - 1])
  }

  lemma {:induction false} MaxOfStep(ns: seq<nat>, n: nat)
    requires n < |ns|
    ensures MaxOf(ns[..n + 1]) == Larger(MaxOf(ns[..n]), ns[n])
  {
    assert ns[..n + 1][..n] == ns[..n];
  }

  function Lengths(names: seq<WStr>): (r: seq<nat>)
    ensures |r| == |names|
  {
    seq(|names|, j requires 0 <= j < |names| => |names[j]|)
  }

  function NameLengths(vs: seq<Val>): (r: seq<nat>)
    ensures |r| == |vs|
  {
    seq(|vs|, j requires 0 <= j < |vs| => |vs[j].name|)
  }

  function DataLengths(vs: seq<Val>): (r: seq<nat>)
    ensures |r| == |vs|
  {
    seq(|vs|, j requires 0 <= j < |vs| => |vs[j].data|)
  }

  lemma LengthsAt(vs: seq<Val>, j: nat)
    requires j < |vs|
    ensures NameLengths(vs)[j] == |vs[j].name| && DataLengths(vs)[j] == |vs[j].data|
  {
  }

  lemma NoLengths()
    ensures MaxOf([]) == 0
  {
  }

  /** The names of the keys listed in `ks`. */
  function KeyNames(a: Arena, ks: seq<nat>): (r: seq<WStr>)
    requires forall j :: 0 <= j < |ks| ==> ks[j] < |a|
    ensures |r| == |ks|
  {
    seq(|ks|, j requires 0 <= j < |ks| => a[ks[j]].name)
  }

  /** `Hook_RegQueryInfoKeyW`: the name maxima are reported with room for the terminator. */
  function QueryInfo(names: seq<WStr>, vs: seq<Val>): Info {
    Info(|names|, MaxOf(Lengths(names)) + 1, |vs|, MaxOf(NameLengths(vs)) + 1, MaxOf(DataLengths(vs)))
  }

  ghost predicate Differ(names: seq<WStr>) {
    forall j, l :: 0 <= j < l < |names| ==> !EqNoCase(names[j], names[l])
  }

  /** With a buffer of the reported size, the indices below the reported count yield every subkey name whole,
      each exactly once, and every other index ends the enumeration. */
  lemma {:induction false} KeysExactlyOnce(names: seq<WStr>, vs: seq<Val>, room: nat)
    requires Differ(names) && room >= QueryInfo(names, vs).maxSubKeyLen
    ensures var n := QueryInfo(names, vs).subKeys;
            && (forall i :: i >= n ==> EnumKey(names, i, room).status == 259)
            && (forall i :: 0 <= i < n ==>
                 EnumKey(names, i, room).status == 0 && EnumKey(names, i, room).name in names
                 && EnumKeyPlain(names, i, room).name == EnumKey(names, i, room).name)
            && (forall s :: s in names ==> exists i :: 0 <= i < n && EnumKey(names, i, room).name == s)
            && (forall i, j :: 0 <= i < j < n ==>
                 !EqNoCase(EnumKey(names, i, room).name, EnumKey(names, j, room).name))
  {
    hide EqNoCase;
    assert forall i :: 0 <= i < |names| ==> Lengths(names)[i] == |names[i]|;
    forall s | s in names ensures exists i :: 0 <= i < |names| && EnumKey(names, i, room).name == s {
      var i :| 0 <= i < |names| && names[i] == s;
      assert EnumKey(names, i, room).name == s;
    }
  }

  /** The same for values: name, type and data come back whole and every value is met exactly once. */
  lemma {:induction false} ValuesExactlyOnce(names: seq<WStr>, vs: seq<Val>, room: nat, dataRoom: nat)
    requires Unique(vs)
    requires room >= QueryInfo(names, vs).maxValueNameLen && dataRoom >= QueryInfo(names, vs).maxValueLen
    ensures var n := QueryInfo(names, vs).values;
            && (forall i :: i >= n ==> EnumValue(vs, i, Some(room), Some(dataRoom)).status == 259)
            && (forall i :: 0 <= i < n ==>
                 EnumValue(vs, i, Some(room), Some(dataRoom))
                 == ValueItem(0, vs[i].name, |vs[i].name|, Some(vs[i].typ), Some(|vs[i].data|), vs[i].data))
            && (forall v :: v in vs ==> exists i :: 0 <= i < n && vs[i] == v)
            && (forall i, j :: 0 <= i < j < n ==>
                 !EqNoCase(EnumValue(vs, i, Some(room), Some(dataRoom)).name,
                     EnumValue(vs, j, Some(room), Some(dataRoom)).name))
  {
    hide EqNoCase;
    assert forall i :: 0 <= i < |vs| ==> NameLengths(vs)[i] == |vs[i].name|;
    assert forall i :: 0 <= i < |vs| ==> DataLengths(vs)[i] == |vs[i].data|;
  }

  /** The reported sizes are the least that never fail: one unit or byte less, and some item needs more. */
  lemma {:induction false} ReportedSizesAreLeast(names: seq<WStr>, vs: seq<Val>, room: nat, dataRoom: nat)
    requires forall j :: 0 <= j < |names| ==> names[j] != []
    ensures names != [] && room < QueryInfo(names, vs).maxSubKeyLen ==>
              exists i :: 0 <= i < |names| && EnumKey(names, i, room).status == 234
    ensures vs != [] && room < QueryInfo(names, vs).maxValueNameLen ==>
              exists i :: 0 <= i < |vs| && EnumValue(vs, i, Some(room), None).status == 234
    ensures vs != [] && dataRoom < QueryInfo(names, vs).maxValueLen ==>
              exists i :: 0 <= i < |vs| && EnumValue(vs, i, None, Some(dataRoom)).status == 234
  {
    if names != [] && room < QueryInfo(names, vs).maxSubKeyLen {
      var j :| 0 <= j < |names| && Lengths(names)[j] == MaxOf(Lengths(names));
      assert EnumKey(names, j, room).status == 234;
    }
    if vs != [] && room < QueryInfo(names, vs).maxValueNameLen {
      var j :| 0 <= j < |vs| && NameLengths(vs)[j] == MaxOf(NameLengths(vs));
      assert EnumValue(vs, j, Some(room), None).status == 234;
    }
    if vs != [] && dataRoom < QueryInfo(names, vs).maxValueLen {
      var j :| 0 <= j < |vs| && DataLengths(vs)[j] == MaxOf(DataLengths(vs));
      assert EnumValue(vs, j, None, Some(dataRoom)).status == 234;
    }
  }

  /** The names of a key's subkeys are non-empty and differ without regard to case. */
  lemma {:induction false} SubkeyNamesDiffer(a: Arena, i: nat)
    requires Wf(a) && Has(a, i)
    ensures forall j :: 0 <= j < |a[i].kids| ==> a[i].kids[j] < |a|
    ensures Differ(KeyNames(a, a[i].kids)) && forall j :: 0 <= j < |a[i].kids| ==> KeyNames(a, a[i].kids)[j] != []
  {
    hide EqNoCase;
    assert KidsOk(a, i, a[i].kids);
  }

  /** The item an enumeration with ample room gives for the index-th value. */
  function WholeValue(v: Val): ValueItem {
    ValueItem(0, v.name, |v.name|, Some(v.typ), Some(|v.data|), v.data)
  }

  lemma {:induction false} KeysWholeIff(names: seq<WStr>, vs: seq<Val>, room: nat)
    requires Differ(names) && forall j :: 0 <= j < |names| ==> names[j] != []
    ensures (forall j :: 0 <= j < |names| ==> EnumKey(names, j, room) == KeyItem(0, names[j], |names[j]|))
       <==> names == [] || room >= QueryInfo(names, vs).maxSubKeyLen
  {
    hide EqNoCase, EnumValue;
    ReportedSizesAreLeast(names, vs, room, 0);
    assert forall j :: 0 <= j < |names| ==> Lengths(names)[j] == |names[j]|;
  }

  lemma {:induction false} ValuesWholeIff(names: seq<WStr>, vs: seq<Val>, room: nat, dataRoom: nat)
    ensures (forall j :: 0 <= j < |vs| ==> EnumValue(vs, j, Some(room), Some(dataRoom)) == WholeValue(vs[j]))
       <==> vs == [] || (room >= QueryInfo(names, vs).maxValueNameLen && dataRoom >= QueryInfo(names, vs).maxValueLen)
  {
    hide EnumKey, EnumValue, MaxOf;
    forall j | 0 <= j < |vs|
      ensures NameLengths(vs)[j] == |vs[j].name| && DataLengths(vs)[j] == |vs[j].data|
      ensures EnumValue(vs, j, Some(room), Some(dataRoom)) == WholeValue(vs[j])
         <==> |vs[j].name| < room && |vs[j].data| <= dataRoom
    {
      LengthsAt(vs, j);
      WholeIff(vs, j, room, dataRoom);
    }
    if vs != [] {
      var l :| 0 <= l < |vs| && NameLengths(vs)[l] == MaxOf(NameLengths(vs));
      var m :| 0 <= m < |vs| && DataLengths(vs)[m] == MaxOf(DataLengths(vs));
    }
  }

  lemma {:induction false} WholeIff(vs: seq<Val>, j: nat, room: nat, dataRoom: nat)
    requires j < |vs|
    ensures EnumValue(vs, j, Some(room), Some(dataRoom)) == WholeValue(vs[j])
       <==> |vs[j].name| < room && |vs[j].data| <= dataRoom
  {
  }

  /** On any key of the tree, the enumerations yield every subkey and every value, each exactly once and whole,
      and then end, exactly when the buffers are as large as QueryInfo reports. */
  lemma {:induction false} EnumerationExact(a: Arena, i: nat, room: nat, dataRoom: nat)
    requires Wf(a) && Has(a, i) && Unique(a[i].vals)
    requires forall j :: 0 <= j < |a[i].kids| ==> a[i].kids[j] < |a|
    ensures var (names, vs) := (KeyNames(a, a[i].kids), a[i].vals);
            var info := QueryInfo(names, vs);
            && Differ(names) && info.subKeys == |names| && info.values == |vs|
            && (forall j :: j >= info.subKeys ==> EnumKey(names, j, room).status == 259)
            && (forall j :: j >= info.values ==>
                EnumValue(vs, j, Some(room), Some(dataRoom)).status == 259)
            && ((forall j :: 0 <= j < |names| ==>
                EnumKey(names, j, room) == KeyItem(0, names[j], |names[j]|))
                <==> names == [] || room >= info.maxSubKeyLen)
            && ((forall j :: 0 <= j < |vs| ==> EnumValue(vs, j, Some(room), Some(dataRoom)) == WholeValue(vs[j]))
                <==> vs == [] || (room >= info.maxValueNameLen && dataRoom >= info.maxValueLen))
  {
    hide EqNoCase, ValueAnswer, Differ, Unique, Wf, MaxOf;
    var names, vs := KeyNames(a, a[i].kids), a[i].vals;
    SubkeyNamesDiffer(a, i);
    KeysWholeIff(names, vs, room);
    ValuesWholeIff(names, vs, room, dataRoom);
  }

  /** A buffer too small is told how large to be, and that is enough; nothing is put in it meanwhile. */
  lemma {:induction false} RetryKey(names: seq<WStr>, index: nat, room: nat)
    requires index < |names|
    ensures var item := EnumKey(names, index, room);
            || item == KeyItem(0, names[index], |names[index]|)
            || (item.status == 234 && item.name == [] && room < item.cch == |names[index]| + 1
                && EnumKey(names, index, item.cch) == KeyItem(0, names[index], |names[index]|))
    ensures EnumKey(names, index, room).status == 0 <==> names[index] == [] || |names[index]| < room
  {
  }

  /** The plain variant cuts a long name without notice, to what fits with its terminator. */
  lemma {:induction false} PlainKeyIs(names: seq<WStr>, index: nat, room: nat)
    requires index < |names| && room > 0
    ensures var item := EnumKeyPlain(names, index, room);
            && item.status == 0 && item.name <= names[index]
            && |item.name| == if |names[index]| < room then |names[index]| else room - 1
  {
  }

  /** The same of a value: first the name, then the data, is told its size; with both sizes the value comes whole. */
  lemma {:induction false} RetryValue(vs: seq<Val>, index: nat, room: nat, dataRoom: nat)
    requires index < |vs|
    ensures var (v, item) := (vs[index], EnumValue(vs, index, Some(room), Some(dataRoom)));
            && (room <= |v.name| ==> item == ValueItem(234, [], |v.name| + 1, None, None, []))
            && (room > |v.name| && dataRoom < |v.data| ==>
                  item == ValueItem(234, v.name, |v.name|, Some(v.typ), Some(|v.data|), []))
            && EnumValue(vs, index, Some(|v.name| + 1), Some(|v.data|))
               == ValueItem(0, v.name, |v.name|, Some(v.typ), Some(|v.data|), v.data)
  {
  }
}
