/** register.reg: the image the saver writes, what the loader makes of any file, and the mirror between them. */
module RegFile {
  import opened Basics
  import opened WideStrings
  import opened KeyArena
  import opened Values

  /** A key with its values and subkeys in list order. */
  datatype Key = Key(name: WStr, vals: seq<Val>, kids: seq<Key>)

  const REGFILE_MAGIC: Bytes := [0x52, 0x47, 0x42, 0x46]

  // ---------- Writing ----------

  /** A DWORD, least significant byte first. */
  function Dword(n: int): (bs: Bytes)
    requires 0 <= n < 0x1_0000_0000
    ensures |bs| == 4
  {
    var n1 := n / 256;
    var n2 := n1 / 256;
    [n % 256, n1 % 256, n2 % 256, n2 / 256]
  }

  function Units(s: WStr): (bs: Bytes)
    ensures |bs| == 2 * |s|
  {
    if s == [] then []
    else
      var u: int := s[0];
      [u % 256, u / 256] + Units(s[1..])
  }

  predicate Fits32(n: nat) { n < 0x1_0000_0000 }

  /** `WriteWideString`: length with the terminator, the units, the terminator. */
  function WideString(s: WStr): Bytes
    requires Fits32(|s| + 1)
  {
    Dword(|s| + 1) + Units(s) + [0, 0]
  }

  predicate ValFits(v: Val) { Fits32(|v.name| + 1) && Fits32(|v.data|) }

  function ValueImage(v: Val): Bytes
    requires ValFits(v)
  {
    WideString(v.name) + Dword(v.typ) + Dword(|v.data|) + v.data
  }

  function ValuesImage(vs: seq<Val>): Bytes
    requires forall j :: 0 <= j < |vs| ==> ValFits(vs[j])
  {
    if vs == [] then [] else ValueImage(vs[0]) + ValuesImage(vs[1..])
  }

  /** Every count and length in the tree fits the DWORD the format gives it. */
  predicate KeyFits(k: Key) {
    && Fits32(|k.name| + 1) && Fits32(|k.vals|) && Fits32(|k.kids|)
    && (forall j :: 0 <= j < |k.vals| ==> ValFits(k.vals[j]))
    && (forall j :: 0 <= j < |k.kids| ==> KeyFits(k.kids[j]))
  }

  function KeyImage(k: Key): (bs: Bytes)
    requires KeyFits(k)
    decreases k, 0
  {
    WideString(k.name) + Dword(|k.vals|) + ValuesImage(k.vals) + Dword(|k.kids|) + KeysImage(k.kids)
  }

  function KeysImage(ks: seq<Key>): Bytes
    requires forall j :: 0 <= j < |ks| ==> KeyFits(ks[j])
    decreases ks, 1
  {
    if ks == [] then [] else KeyImage(ks[0]) + KeysImage(ks[1..])
  }

  function FileImage(root: Key): Bytes
    requires KeyFits(root)
  {
    REGFILE_MAGIC + KeyImage(root)
  }

  // ---------- Reading ----------

  /** A read: what it yields and the bytes left, or nothing if it would run past the end of the file or of
      a string, where the source goes on with memory it never initialised. */
  type Read<T> = Option<(T, Bytes)>

  function Number(low: int, high: int): int {
    low + 256 * high
  }

  function Places(k: nat): nat {
    if k == 0 then 1 else 256 * Places(k - 1)
  }

  /** The number these bytes spell, least significant byte first. */
  function LittleEndian(bs: Bytes): (n: nat)
    ensures n < Places(|bs|)
  {
    if bs == [] then 0 else bs[0] + 256 * LittleEndian(bs[1..])
  }

  function ReadDword(bs: Bytes): (r: Read<U32>)
    ensures r.Some? ==> |r.value.1| + 4 == |bs|
  {
    if |bs| < 4 then None else Some((LittleEndian(bs[..4]), bs[4..]))
  }

  /** The C string at the start of a buffer of n units. */
  function ReadUnits(n: nat, bs: Bytes): (r: Option<WStr>)
    requires |bs| == 2 * n
  {
    if n == 0 then None
    else
      var u := Number(bs[0], bs[1]);
      if u == 0 then Some([])
      else
        match ReadUnits(n - 1, bs[2..])
        case None => None
        case Some(s) => Some([u] + s)
  }

  /** `ReadWideString`: a zero length yields NULL, here None. */
  function ReadWideString(bs: Bytes): (r: Read<Option<WStr>>)
    ensures r.Some? ==> |r.value.1| < |bs|
  {
    match ReadDword(bs)
    case None => None
    case Some((n, rest)) =>
      if n == 0 then Some((None, rest))
      else if |rest| < 2 * n then None
      else
        match ReadUnits(n, rest[..2 * n])
        case None => None
        case Some(s) => Some((Some(s), rest[2 * n..]))
  }

  function ReadValue(bs: Bytes): (r: Read<Val>)
    ensures r.Some? ==> |r.value.1| < |bs|
  {
    match ReadWideString(bs)
    case Some((Some(name), b1)) =>
      (match ReadDword(b1)
       case None => None
       case Some((typ, b2)) =>
         match ReadDword(b2)
         case None => None
         case Some((size, b3)) =>
           if |b3| < size then None else Some((Val(name, typ, b3[..size]), b3[size..])))
    case _ => None
  }

  /** The loader's value loop, over the values the key already has. */
  function ReadValues(n: nat, bs: Bytes, acc: seq<Val>): (r: Read<seq<Val>>)
    ensures r.Some? ==> |r.value.1| <= |bs|
  {
    if n == 0 then Some((acc, bs))
    else
      match ReadValue(bs)
      case None => None
      case Some((v, rest)) => ReadValues(n - 1, rest, SetVal(acc, v.name, v.typ, v.data))
  }

  /** `LoadKeyFromFile`: None for the key when its name is NULL. */
  function ReadKey(bs: Bytes): (r: Read<Option<Key>>)
    ensures r.Some? ==> |r.value.1| < |bs|
    decreases |bs|, 0
  {
    match ReadWideString(bs)
    case None => None
    case Some((None, rest)) => Some((None, rest))
    case Some((Some(name), b1)) =>
      match ReadBody(name, b1)
      case None => None
      case Some((k, rest)) => Some((Some(k), rest))
  }

  function ReadBody(name: WStr, bs: Bytes): (r: Read<Key>)
    ensures r.Some? ==> |r.value.1| < |bs|
    decreases |bs|, 2
  {
    match ReadDword(bs)
    case None => None
    case Some((nv, b1)) =>
      match ReadValues(nv, b1, [])
      case None => None
      case Some((vals, b2)) =>
        match ReadDword(b2)
        case None => None
        case Some((nk, b3)) =>
          match ReadKeys(nk, b3, [])
          case None => None
          case Some((kids, rest)) => Some((Key(name, vals, kids), rest))
  }

  /** The loader's subkey loop: each key read becomes the first subkey. */
  function ReadKeys(n: nat, bs: Bytes, acc: seq<Key>): (r: Read<seq<Key>>)
    ensures r.Some? ==> |r.value.1| <= |bs|
    decreases |bs|, 1
  {
    if n == 0 then Some((acc, bs))
    else
      match ReadKey(bs)
      case None => None
      case Some((None, rest)) => ReadKeys(n - 1, rest, acc)
      case Some((Some(k), rest)) => ReadKeys(n - 1, rest, [k] + acc)
  }

  /** `LoadRegistryFromFile` after the file was opened: the subkeys the fresh root ends up with. Under an
      empty root name the value count is skipped as if it were zero; under any other the whole tree is read as
      the first real key. */
  function LoadFile(file: Bytes): Option<seq<Key>> {
    if |file| < 4 then None
    else if file[..4] != REGFILE_MAGIC then Some([])
    else
      match ReadWideString(file[4..])
      case None => None
      case Some((None, rest)) => Some([])
      case Some((Some(name), b1)) =>
        if name != [] then
          match ReadBody(name, b1)
          case None => None
          case Some((k, rest)) => Some([k])
        else
          match ReadDword(b1)
          case None => None
          case Some((skipped, b2)) =>
            match ReadDword(b2)
            case None => None
            case Some((nk, b3)) =>
              match ReadKeys(nk, b3, [])
              case None => None
              case Some((kids, rest)) => Some(kids)
  }

  /** The registry after a load: a root without a name and without values. */
  function Loaded(file: Bytes): Option<Key> {
    match LoadFile(file)
    case None => None
    case Some(kids) => Some(Key([], [], kids))
  }

  // ---------- The mirror ----------

  function Rev<T>(s: seq<T>): (r: seq<T>)
    ensures |r| == |s|
    ensures forall j :: 0 <= j < |s| ==> r[j] == s[|s| - 1 - j]
  {
    if s == [] then [] else Rev(s[1..]) + [s[0]]
  }

  /** Values and subkeys reversed at every level. */
  function Mirror(k: Key): Key
    decreases k, 0
  {
    Key(k.name, Rev(k.vals), Rev(MirrorAll(k.kids)))
  }

  function MirrorAll(ks: seq<Key>): (r: seq<Key>)
    ensures |r| == |ks|
    decreases ks, 1
  {
    if ks == [] then [] else [Mirror(ks[0])] + MirrorAll(ks[1..])
  }

  /** Value names unique in every key of the tree. */
  ghost predicate UniqueValues(k: Key) {
    Unique(k.vals) && forall j :: 0 <= j < |k.kids| ==> UniqueValues(k.kids[j])
  }

  lemma {:induction false} DwordRound(n: int, rest: Bytes)
    requires 0 <= n < 0x1_0000_0000
    ensures ReadDword(Dword(n) + rest) == Some((n, rest))
  {
    var bs := Dword(n) + rest;
    assert bs[..4] == Dword(n) && bs[4..] == rest;
    var n1 := n / 256;
    var n2 := n1 / 256;
    FourBytes(n % 256, n1 % 256, n2 % 256, n2 / 256);
  }

  lemma FourBytes(a: Byte, b: Byte, c: Byte, d: Byte)
    ensures LittleEndian([a, b, c, d]) == a + 256 * (b + 256 * (c + 256 * d))
  {
    assert [a, b, c, d][1..] == [b, c, d] && [b, c, d][1..] == [c, d] && [c, d][1..] == [d] && [d][1..] == [];
    assert LittleEndian([d]) == d;
    assert LittleEndian([c, d]) == c + 256 * d;
    assert LittleEndian([b, c, d]) == b + 256 * (c + 256 * d);
  }

  lemma {:induction false} UnitsRound(s: WStr)
    ensures |Units(s) + [0, 0]| == 2 * (|s| + 1)
    ensures ReadUnits(|s| + 1, Units(s) + [0, 0]) == Some(s)
    decreases |s|
  {
    if s != [] {
      var bs := Units(s) + [0, 0];
      assert bs[2..] == Units(s[1..]) + [0, 0];
      assert Number(bs[0], bs[1]) == s[0];
      UnitsRound(s[1..]);
      assert [s[0]] + s[1..] == s;
    } else {
      assert Units(s) + [0, 0] == [0, 0];
    }
  }

  lemma {:induction false} WideStringRound(s: WStr, rest: Bytes)
    requires Fits32(|s| + 1)
    ensures ReadWideString(WideString(s) + rest) == Some((Some(s), rest))
  {
    var body := Units(s) + [0, 0];
    assert WideString(s) + rest == Dword(|s| + 1) + (body + rest);
    DwordRound(|s| + 1, body + rest);
    UnitsRound(s);
    assert (body + rest)[..|body|] == body && (body + rest)[|body|..] == rest;
  }

  lemma {:induction false} ValueRound(v: Val, rest: Bytes)
    requires ValFits(v)
    ensures ReadValue(ValueImage(v) + rest) == Some((v, rest))
  {
    var b3 := v.data + rest;
    var b2 := Dword(|v.data|) + b3;
    var b1 := Dword(v.typ) + b2;
    assert ValueImage(v) + rest == WideString(v.name) + b1;
    WideStringRound(v.name, b1);
    DwordRound(v.typ, b2);
    DwordRound(|v.data|, b3);
    assert b3[..|v.data|] == v.data && b3[|v.data|..] == rest;
  }

  /** The names in `vs` differ from each other and from those in `acc`. */
  ghost predicate Apart(vs: seq<Val>, acc: seq<Val>) {
    && Unique(vs)
    && forall j, l :: 0 <= j < |vs| && 0 <= l < |acc| ==> !EqNoCase(vs[j].name, acc[l].name)
  }

  lemma ApartStep(vs: seq<Val>, acc: seq<Val>)
    requires vs != [] && Apart(vs, acc)
    ensures Apart(vs[1..], [vs[0]] + acc)
    ensures SetVal(acc, vs[0].name, vs[0].typ, vs[0].data) == [vs[0]] + acc
  {
    var acc' := [vs[0]] + acc;
    forall j, l | 0 <= j < |vs[1..]| && 0 <= l < |acc'| ensures !EqNoCase(vs[1..][j].name, acc'[l].name) {
      assert !EqNoCase(vs[0].name, vs[j + 1].name);
      if l > 0 { assert !EqNoCase(vs[j + 1].name, acc[l - 1].name); }
    }
  }

  lemma {:induction false} ValuesRound(vs: seq<Val>, rest: Bytes, acc: seq<Val>)
    requires forall j :: 0 <= j < |vs| ==> ValFits(vs[j])
    requires Apart(vs, acc)
    ensures ReadValues(|vs|, ValuesImage(vs) + rest, acc) == Some((Rev(vs) + acc, rest))
    decreases |vs|
  {
    if vs == [] {
      assert ValuesImage(vs) + rest == rest && Rev(vs) + acc == acc;
    } else {
      ValuesStep(vs, rest, acc);
      RevCons(vs, acc);
      ApartStep(vs, acc);
      ValuesRound(vs[1..], rest, [vs[0]] + acc);
    }
  }

  lemma {:induction false} ValuesStep(vs: seq<Val>, rest: Bytes, acc: seq<Val>)
    requires vs != [] && forall j :: 0 <= j < |vs| ==> ValFits(vs[j])
    requires Apart(vs, acc)
    ensures ReadValues(|vs|, ValuesImage(vs) + rest, acc)
         == ReadValues(|vs| - 1, ValuesImage(vs[1..]) + rest, [vs[0]] + acc)
  {
    var tail := ValuesImage(vs[1..]) + rest;
    assert ValuesImage(vs) + rest == ValueImage(vs[0]) + tail;
    ValueRound(vs[0], tail);
    ApartStep(vs, acc);
    ReadValuesStep(|vs|, ValuesImage(vs) + rest, acc, vs[0], tail);
  }

  lemma ReadValuesStep(n: nat, bs: Bytes, acc: seq<Val>, v: Val, rest: Bytes)
    requires n > 0 && ReadValue(bs) == Some((v, rest))
    ensures ReadValues(n, bs, acc) == ReadValues(n - 1, rest, SetVal(acc, v.name, v.typ, v.data))
  {
  }

  lemma RevCons<T>(s: seq<T>, acc: seq<T>)
    requires s != []
    ensures Rev(s) + acc == Rev(s[1..]) + ([s[0]] + acc)
  {
  }

  lemma {:induction false} RevUnique(vs: seq<Val>)
    requires Unique(vs)
    ensures Unique(Rev(vs))
  {
  }

  /** Reading back what was written consumes exactly those bytes and yields the mirror image. */
  lemma {:induction false} KeyRound(k: Key, rest: Bytes)
    requires KeyFits(k) && UniqueValues(k)
    ensures ReadKey(KeyImage(k) + rest) == Some((Some(Mirror(k)), rest))
    decreases k, 0
  {
    hide LittleEndian, Units, ReadUnits, ReadValues;
    var body := Body(k) + rest;
    assert KeyImage(k) + rest == WideString(k.name) + body;
    WideStringRound(k.name, body);
    ReadKeyStep(KeyImage(k) + rest, k.name, body);
    KeysRound(k.kids, rest, []);
    BodyRound(k, rest);
  }

  /** What follows the name in a key's image. */
  function Body(k: Key): Bytes
    requires KeyFits(k)
  {
    Dword(|k.vals|) + ValuesImage(k.vals) + Dword(|k.kids|) + KeysImage(k.kids)
  }

  lemma ReadKeyStep(bs: Bytes, name: WStr, b1: Bytes)
    requires ReadWideString(bs) == Some((Some(name), b1))
    ensures var r := ReadBody(name, b1);
            ReadKey(bs) == if r.None? then None else Some((Some(r.value.0), r.value.1))
  {
  }

  lemma ReadBodyStep(name: WStr, b1: Bytes, nv: U32, b2: Bytes, vals: seq<Val>, b3: Bytes, nk: U32, b4: Bytes)
    requires ReadDword(b1) == Some((nv, b2)) && ReadValues(nv, b2, []) == Some((vals, b3))
    requires ReadDword(b3) == Some((nk, b4))
    ensures var r := ReadKeys(nk, b4, []);
            ReadBody(name, b1) == if r.None? then None else Some((Key(name, vals, r.value.0), r.value.1))
  {
  }

  lemma BodyParts(k: Key, rest: Bytes)
    requires KeyFits(k)
    ensures Body(k) + rest == Dword(|k.vals|) + (ValuesImage(k.vals) + (Dword(|k.kids|) + (KeysImage(k.kids) + rest)))
  {
    hide Dword, ValuesImage, KeysImage;
  }

  lemma {:induction false} BodyRound(k: Key, rest: Bytes)
    requires KeyFits(k) && UniqueValues(k)
    requires ReadKeys(|k.kids|, KeysImage(k.kids) + rest, []) == Some((Rev(MirrorAll(k.kids)) + [], rest))
    ensures ReadBody(k.name, Body(k) + rest) == Some((Mirror(k), rest))
  {
    var b4 := KeysImage(k.kids) + rest;
    var b3 := Dword(|k.kids|) + b4;
    var b2 := ValuesImage(k.vals) + b3;
    assert Body(k) + rest == Dword(|k.vals|) + b2 by { BodyParts(k, rest); }
    DwordRound(|k.vals|, b2);
    ValuesRoundAll(k.vals, b3);
    DwordRound(|k.kids|, b4);
    ReadBodyStep(k.name, Body(k) + rest, |k.vals|, b2, Rev(k.vals), b3, |k.kids|, b4);
    assert Rev(MirrorAll(k.kids)) + [] == Rev(MirrorAll(k.kids));
  }

  lemma {:induction false} ValuesRoundAll(vs: seq<Val>, rest: Bytes)
    requires Unique(vs) && forall j :: 0 <= j < |vs| ==> ValFits(vs[j])
    ensures ReadValues(|vs|, ValuesImage(vs) + rest, []) == Some((Rev(vs), rest))
  {
    assert Rev(vs) + [] == Rev(vs);
    ValuesRound(vs, rest, []);
  }

  lemma {:induction false} KeysRound(ks: seq<Key>, rest: Bytes, acc: seq<Key>)
    requires forall j :: 0 <= j < |ks| ==> KeyFits(ks[j]) && UniqueValues(ks[j])
    ensures ReadKeys(|ks|, KeysImage(ks) + rest, acc) == Some((Rev(MirrorAll(ks)) + acc, rest))
    decreases ks, 1
  {
    if ks == [] {
      assert KeysImage(ks) + rest == rest && Rev(MirrorAll(ks)) + acc == acc;
    } else {
      var k, more := ks[0], ks[1..];
      var tail := KeysImage(more) + rest;
      assert KeysImage(ks) + rest == KeyImage(k) + tail;
      KeyRound(k, tail);
      KeysRound(more, rest, [Mirror(k)] + acc);
      ReadKeysStep(|ks|, KeysImage(ks) + rest, acc, Mirror(k), tail);
      RevCons(MirrorAll(ks), acc);
    }
  }

  lemma ReadKeysStep(n: nat, bs: Bytes, acc: seq<Key>, k: Key, rest: Bytes)
    requires n > 0 && ReadKey(bs) == Some((Some(k), rest))
    ensures ReadKeys(n, bs, acc) == ReadKeys(n - 1, rest, [k] + acc)
  {
  }

  lemma LoadStep(file: Bytes, b1: Bytes, skipped: U32, b2: Bytes, nk: U32, b3: Bytes)
    requires |file| >= 4 && file[..4] == REGFILE_MAGIC && ReadWideString(file[4..]) == Some((Some([]), b1))
    requires ReadDword(b1) == Some((skipped, b2)) && ReadDword(b2) == Some((nk, b3))
    ensures var r := ReadKeys(nk, b3, []);
            LoadFile(file) == if r.None? then None else Some(r.value.0)
  {
  }

  lemma EmptyRootImage(root: Key)
    requires KeyFits(root) && root.name == [] && root.vals == []
    ensures KeyImage(root) == WideString([]) + (Dword(0) + (Dword(|root.kids|) + KeysImage(root.kids)))
  {
    var w, d, ks := WideString(root.name), Dword(|root.kids|), KeysImage(root.kids);
    assert KeyImage(root) == w + Dword(0) + [] + d + ks;
    assert w + Dword(0) + [] == w + Dword(0);
    assert w + Dword(0) + d + ks == w + (Dword(0) + (d + ks));
  }

  lemma {:induction false} LoadSaved(root: Key)
    requires KeyFits(root) && UniqueValues(root) && root.name == [] && root.vals == []
    ensures LoadFile(FileImage(root)) == Some(Rev(MirrorAll(root.kids)))
  {
    var b3 := KeysImage(root.kids);
    var b2 := Dword(|root.kids|) + b3;
    var b1 := Dword(0) + b2;
    var file := FileImage(root);
    EmptyRootImage(root);
    assert file[..4] == REGFILE_MAGIC && file[4..] == KeyImage(root);
    WideStringRound([], b1);
    DwordRound(0, b2);
    DwordRound(|root.kids|, b3);
    LoadStep(file, b1, 0, b2, |root.kids|, b3);
    KeysRound(root.kids, [], []);
    assert b3 + [] == b3;
    assert Rev(MirrorAll(root.kids)) + [] == Rev(MirrorAll(root.kids));
  }

  /** Loading what was saved yields the mirror image exactly when the root holds no values. */
  lemma {:induction false} LoadSavedIff(root: Key)
    requires KeyFits(root) && UniqueValues(root) && root.name == []
    ensures Loaded(FileImage(root)) == Some(Mirror(root)) <==> root.vals == []
  {
    if root.vals == [] {
      LoadSaved(root);
      assert Rev(root.vals) == [];
    } else {
      assert |Mirror(root).vals| == |root.vals|;
    }
  }

  lemma {:induction false} RevRev<T>(s: seq<T>)
    ensures Rev(Rev(s)) == s
  {
  }

  lemma {:induction false} MirrorAllAt(ks: seq<Key>, j: nat)
    requires j < |ks|
    ensures MirrorAll(ks)[j] == Mirror(ks[j])
    decreases |ks|
  {
    if j > 0 { MirrorAllAt(ks[1..], j - 1); }
  }

  /** The mirror of the mirror is the tree itself. */
  lemma {:induction false} MirrorTwice(k: Key)
    ensures Mirror(Mirror(k)) == k
    decreases k
  {
    hide Rev;
    var once := Rev(MirrorAll(k.kids));
    var twice := Rev(MirrorAll(once));
    RevRev(k.vals);
    forall j | 0 <= j < |k.kids| ensures twice[j] == k.kids[j] {
      var l := |k.kids| - 1 - j;
      MirrorAllAt(once, l);
      MirrorAllAt(k.kids, j);
      assert once[l] == Mirror(k.kids[j]);
      MirrorTwice(k.kids[j]);
    }
    assert twice == k.kids;
  }

  lemma {:induction false} MirrorFits(k: Key)
    requires KeyFits(k) && UniqueValues(k)
    ensures KeyFits(Mirror(k)) && UniqueValues(Mirror(k))
    decreases k
  {
    var m := Mirror(k);
    RevUnique(k.vals);
    forall j | 0 <= j < |m.kids| ensures KeyFits(m.kids[j]) && UniqueValues(m.kids[j]) {
      var l := |m.kids| - 1 - j;
      MirrorAllAt(k.kids, l);
      MirrorFits(k.kids[l]);
    }
  }

  /** Two save and load cycles restore the very tree, list orders included. */
  lemma {:induction false} TwoCyclesRestore(root: Key)
    requires KeyFits(root) && UniqueValues(root) && root.name == [] && root.vals == []
    ensures KeyFits(Mirror(root))
    ensures Loaded(FileImage(root)) == Some(Mirror(root))
    ensures Loaded(FileImage(Mirror(root))) == Some(root)
  {
    MirrorFits(root);
    MirrorTwice(root);
    LoadSavedIff(root);
    LoadSavedIff(Mirror(root));
  }

  // ---------- Steps the saver's and loader's loops take ----------

  lemma {:induction false} ValuesImageStep(vs: seq<Val>, j: nat)
    requires j < |vs| && forall l :: 0 <= l < |vs| ==> ValFits(vs[l])
    ensures ValuesImage(vs[..j + 1]) == ValuesImage(vs[..j]) + ValueImage(vs[j])
    decreases j
  {
    hide ValueImage;
    var w := vs[..j + 1];
    if j == 0 {
      assert w[1..] == [] && vs[..0] == [];
      assert ValueImage(vs[0]) + [] == ValueImage(vs[0]);
    } else {
      var rest := vs[1..];
      ValuesImageStep(rest, j - 1);
      assert w[1..] == rest[..j] && vs[..j][1..] == rest[..j - 1];
    }
  }

  lemma {:induction false} KeysImageStep(ks: seq<Key>, j: nat)
    requires j < |ks| && forall l :: 0 <= l < |ks| ==> KeyFits(ks[l])
    ensures KeysImage(ks[..j + 1]) == KeysImage(ks[..j]) + KeyImage(ks[j])
    decreases j
  {
    hide KeyImage, KeyFits;
    var w := ks[..j + 1];
    if j == 0 {
      assert w[1..] == [] && ks[..0] == [];
      assert KeyImage(ks[0]) + [] == KeyImage(ks[0]);
    } else {
      var rest := ks[1..];
      KeysImageStep(rest, j - 1);
      assert w[1..] == rest[..j] && ks[..j][1..] == rest[..j - 1];
    }
  }

  /** What the loader can put in the tree: named keys whose siblings and values differ without regard to case. */
  ghost predicate Loadable(k: Key) {
    && k.name != [] && Unique(k.vals) && LoadableAll(k.kids)
  }

  ghost predicate LoadableAll(ks: seq<Key>) {
    && (forall j, l :: 0 <= j < l < |ks| ==> !EqNoCase(ks[j].name, ks[l].name))
    && (forall j :: 0 <= j < |ks| ==> Loadable(ks[j]))
  }

  /** The keys read so far stay at the end of the list. */
  lemma {:induction false} ReadKeysSuffix(n: nat, bs: Bytes, acc: seq<Key>)
    requires ReadKeys(n, bs, acc).Some?
    ensures var r := ReadKeys(n, bs, acc).value.0; |r| >= |acc| && r[|r| - |acc|..] == acc
    decreases n
  {
    hide ReadKey;
    if n > 0 {
      var r := ReadKey(bs).value;
      if r.0.None? {
        ReadKeysSuffix(n - 1, r.1, acc);
      } else {
        var acc' := [r.0.value] + acc;
        ReadKeysSuffix(n - 1, r.1, acc');
        var all := ReadKeys(n, bs, acc).value.0;
        assert all[|all| - |acc|..] == all[|all| - |acc'|..][1..];
      }
    }
  }

  // ---------- Lookups cannot tell a tree from its mirror ----------

  function KidNamed(ks: seq<Key>, name: WStr): (j: nat)
    ensures j <= |ks|
    ensures j < |ks| ==> EqNoCase(ks[j].name, name)
    ensures forall l :: 0 <= l < j ==> !EqNoCase(ks[l].name, name)
  {
    if ks == [] || EqNoCase(ks[0].name, name) then 0 else 1 + KidNamed(ks[1..], name)
  }

  function Find(k: Key, ts: seq<WStr>): Option<Key>
    decreases |ts|
  {
    if ts == [] then Some(k)
    else
      var j := KidNamed(k.kids, ts[0]);
      if j < |k.kids| then Find(k.kids[j], ts[1..]) else None
  }

  /** Sibling and value names unique, without regard to case, at every level. */
  ghost predicate Named(k: Key) {
    && Unique(k.vals)
    && (forall j, l :: 0 <= j < l < |k.kids| ==> !EqNoCase(k.kids[j].name, k.kids[l].name))
    && (forall j :: 0 <= j < |k.kids| ==> Named(k.kids[j]))
  }

  lemma {:induction false} FindMirror(k: Key, ts: seq<WStr>)
    requires Named(k)
    ensures Find(k, ts).None? <==> Find(Mirror(k), ts).None?
    ensures Find(k, ts).Some? ==> Find(Mirror(k), ts) == Some(Mirror(Find(k, ts).value)) && Named(Find(k, ts).value)
    decreases |ts|
  {
    if ts != [] {
      var m := Mirror(k);
      var n := |k.kids|;
      forall j | 0 <= j < n ensures m.kids[n - 1 - j] == Mirror(k.kids[j]) {
        MirrorAllAt(k.kids, j);
      }
      var j, l := KidNamed(k.kids, ts[0]), KidNamed(m.kids, ts[0]);
      if j < n {
        assert m.kids[n - 1 - j].name == k.kids[j].name;
        assert l < n;
        assert m.kids[l] == Mirror(k.kids[n - 1 - l]);
        assert EqNoCase(k.kids[j].name, k.kids[n - 1 - l].name);
        assert j == n - 1 - l;
        FindMirror(k.kids[j], ts[1..]);
      }
    }
  }

  lemma {:induction false} LookupRev(vs: seq<Val>, name: WStr)
    requires Unique(vs)
    ensures Lookup(Rev(vs), name) == Lookup(vs, name)
  {
    var j, l := IndexOf(vs, name), IndexOf(Rev(vs), name);
    if j < |vs| {
      assert Rev(vs)[|vs| - 1 - j] == vs[j];
      assert EqNoCase(vs[j].name, vs[|vs| - 1 - l].name);
    }
  }

  /** Every value of every path answers the same after a save and a load as before. */
  lemma {:induction false} LookupsSurviveReload(root: Key, ts: seq<WStr>, name: WStr)
    requires KeyFits(root) && Named(root) && UniqueValues(root) && root.name == [] && root.vals == []
    ensures Loaded(FileImage(root)).Some?
    ensures var before, after := Find(root, ts), Find(Loaded(FileImage(root)).value, ts);
            && (before.Some? <==> after.Some?)
            && (before.Some? ==> Lookup(before.value.vals, name) == Lookup(after.value.vals, name))
  {
    LoadSavedIff(root);
    FindMirror(root, ts);
    if Find(root, ts).Some? { LookupRev(Find(root, ts).value.vals, name); }
  }

  lemma CannotRead(n: nat, bs: Bytes, acc: seq<Key>)
    requires n > 0 && ReadWideString(bs) == None
    ensures ReadKeys(n, bs, acc) == None
  {
  }

  /** The image of a root with one unnamed value and no subkeys, from the value count on. */
  lemma RootImageParts(root: Key, v: Val, b3: Bytes)
    requires root.name == [] && root.vals == [v] && root.kids == [] && v.name == [] && ValFits(v)
    requires b3 == [0, 0] + (Dword(v.typ) + Dword(|v.data|) + v.data + Dword(0))
    ensures KeyFits(root) && KeyImage(root) == WideString([]) + (Dword(1) + (Dword(1) + b3))
  {
    var w := WideString(v.name);
    assert w == Dword(1) + [0, 0] by { assert Units(v.name) == []; }
    SingleImage(root.vals, v);
    assert KeysImage(root.kids) == [];
    assert ValueImage(v) + Dword(0) == w + (Dword(v.typ) + Dword(|v.data|) + v.data + Dword(0));
    assert Dword(1) + b3 == ValueImage(v) + Dword(0);
  }

  /** A root value does worse than get lost: with a REG_SZ default value there, one byte of data and no
      subkeys, the loader runs past the end of the file. */
  lemma {:induction false} RootValueDerailsLoader(root: Key, v: Val)
    requires root.name == [] && root.vals == [v] && root.kids == []
    requires v.name == [] && v.typ == 1 && |v.data| == 1
    ensures KeyFits(root) && Loaded(FileImage(root)) == None
  {
    var b3 := [0, 0] + (Dword(v.typ) + Dword(|v.data|) + v.data + Dword(0));
    RootImageParts(root, v, b3);
    DerailedLoad(FileImage(root), b3);
  }

  lemma {:induction false} DerailedLoad(file: Bytes, b3: Bytes)
    requires file == REGFILE_MAGIC + (WideString([]) + (Dword(1) + (Dword(1) + b3)))
    requires |b3| < 100 && |b3| >= 4 && b3[0] == 0 && b3[1] == 0 && b3[2] == 1 && b3[3] == 0
    ensures LoadFile(file) == None
  {
    hide LittleEndian, Dword, ReadWideString;
    var b2 := Dword(1) + b3;
    var b1 := Dword(1) + b2;
    assert file[..4] == REGFILE_MAGIC && file[4..] == WideString([]) + b1;
    WideStringRound([], b1);
    DwordRound(1, b2);
    DwordRound(1, b3);
    LoadStep(file, b1, 1, b2, 1, b3);
    HugeString(b3);
    CannotRead(1, b3, []);
  }

  /** The third byte makes the length 65536 units. */
  lemma {:induction false} HugeString(bs: Bytes)
    requires 4 <= |bs| < 100 && bs[0] == 0 && bs[1] == 0 && bs[2] == 1 && bs[3] == 0
    ensures ReadWideString(bs) == None
  {
    hide LittleEndian;
    assert bs[..4] == [0, 0, 1, 0];
    FourBytes(0, 0, 1, 0);
  }

  lemma SingleImage(vs: seq<Val>, v: Val)
    requires ValFits(v) && vs == [v]
    ensures ValuesImage(vs) == ValueImage(v)
  {
    assert vs[1..] == [];
    assert ValueImage(v) + [] == ValueImage(v);
  }

  // ---------- The file, byte by byte ----------

  /** A number takes four bytes, least significant first; a string its length with the terminator, its units, each with
      the low byte first, and two zero bytes. */
  lemma {:induction false} StringBytes(n: int, s: WStr)
    requires 0 <= n < 0x1_0000_0000 && |s| + 1 < 0x1_0000_0000
    ensures Dword(n) == [n % 256, n / 256 % 256, n / 65536 % 256, n / 16777216]
    ensures var b := WideString(s);
            && |b| == 2 * |s| + 6
            && b[..4] == Dword(|s| + 1)
            && (forall i :: 0 <= i < |s| ==> var lo: int, hi: int := b[4 + 2 * i], b[5 + 2 * i]; s[i] == lo + 256 * hi)
            && b[2 * |s| + 4] == 0 && b[2 * |s| + 5] == 0
  {
    UnitBytes(s);
  }

  lemma {:induction false} UnitBytes(s: WStr)
    ensures forall i :: 0 <= i < |s| ==>
              var lo: int, hi: int := Units(s)[2 * i], Units(s)[2 * i + 1]; s[i] == lo + 256 * hi
    decreases |s|
  {
    if s != [] {
      UnitBytes(s[1..]);
      forall i | 1 <= i < |s|
        ensures Units(s)[2 * i] == Units(s[1..])[2 * (i - 1)] && Units(s)[2 * i + 1] == Units(s[1..])[2 * (i - 1) + 1]
      {
      }
      assert forall i :: 1 <= i < |s| ==> s[i] == s[1..][i - 1];
    }
  }

  /** A value is its name, its type, its size and its data, in this order. */
  lemma {:induction false} ValueBytes(v: Val)
    requires ValFits(v)
    ensures var (b, n) := (ValueImage(v), 2 * |v.name| + 6);
            && |b| == n + 8 + |v.data|
            && b[..n] == WideString(v.name) && b[n..n + 4] == Dword(v.typ)
            && b[n + 4..n + 8] == Dword(|v.data|) && b[n + 8..] == v.data
  {
    hide Dword, Units;
  }

  /** Two keys, the first with a value and a subkey. */
  const FIRST := Key(Wide("A"), [Val(Wide("xy"), 4, [7, 8])], [Key(Wide("b"), [], [])])
  const EXAMPLE := Key([], [], [FIRST, Key(Wide("C"), [], [])])

  /** The whole file of a small tree. */
  lemma {:induction false} ExampleBytes()
    ensures KeyFits(EXAMPLE)
    ensures FileImage(EXAMPLE)
         == [0x52, 0x47, 0x42, 0x46]
            + ([1, 0, 0, 0, 0, 0] + [0, 0, 0, 0] + [] + [2, 0, 0, 0]
               + ([2, 0, 0, 0, 0x41, 0, 0, 0] + [1, 0, 0, 0]
                  + ([3, 0, 0, 0, 0x78, 0, 0x79, 0, 0, 0] + [4, 0, 0, 0] + [2, 0, 0, 0] + [7, 8])
                  + [1, 0, 0, 0]
                  + ([2, 0, 0, 0, 0x62, 0, 0, 0] + [0, 0, 0, 0] + [0, 0, 0, 0])
                  + ([2, 0, 0, 0, 0x43, 0, 0, 0] + [0, 0, 0, 0] + [0, 0, 0, 0])))
  {
    hide Dword, Units, KeysImage, ValuesImage, KeyImage;
    FirstBytes();
    var ks := EXAMPLE.kids;
    assert Wide("C") == [67];
    LeafImage(67);
    PairImage(ks);
    ImageParts(EXAMPLE);
    assert WideString([]) == [1, 0, 0, 0, 0, 0] by { SmallDword(1); NoUnits(); }
    assert ValuesImage([]) == [] by { NoUnits(); }
    SmallDword(0);
    SmallDword(2);
    var first := KeyImage(FIRST);
    assert KeysImage(ks) == first + KeyImage(Key([67], [], []));
  }

  lemma {:induction false} FirstBytes()
    ensures KeyFits(FIRST)
    ensures KeyImage(FIRST)
         == [2, 0, 0, 0, 0x41, 0, 0, 0] + [1, 0, 0, 0]
            + ([3, 0, 0, 0, 0x78, 0, 0x79, 0, 0, 0] + [4, 0, 0, 0] + [2, 0, 0, 0] + [7, 8])
            + [1, 0, 0, 0]
            + ([2, 0, 0, 0, 0x62, 0, 0, 0] + [0, 0, 0, 0] + [0, 0, 0, 0])
  {
    hide Dword, Units, KeysImage, ValueImage, ValuesImage, KeyImage;
    assert Wide("b") == [98] && Wide("A") == [65] && Wide("xy") == [120, 121];
    LeafImage(98);
    ExampleValue();
    PairImage(FIRST.kids);
    SingleImage(FIRST.vals, FIRST.vals[0]);
    ImageParts(FIRST);
    assert WideString([65]) == [2, 0, 0, 0, 0x41, 0, 0, 0] by { SmallDword(2); OneUnit(65); }
    SmallDword(1);
  }

  lemma NoUnits()
    ensures Units([]) == [] && ValuesImage([]) == []
  {
  }

  lemma SmallDword(n: nat)
    requires n < 256
    ensures Dword(n) == [n, 0, 0, 0]
  {
  }

  lemma OneUnit(u: int)
    requires 0 < u < 256
    ensures Units([u]) == [u, 0]
  {
    assert [u][1..] == [];
  }

  lemma ExampleValue()
    ensures ValueImage(Val([120, 121], 4, [7, 8]))
         == [3, 0, 0, 0, 0x78, 0, 0x79, 0, 0, 0] + [4, 0, 0, 0] + [2, 0, 0, 0] + [7, 8]
  {
    OneUnit(121);
    assert [120, 121][1..] == [121];
  }

  lemma LeafImage(u: int)
    requires 0 < u < 256
    ensures KeyFits(Key([u], [], []))
    ensures KeyImage(Key([u], [], [])) == [2, 0, 0, 0, u, 0, 0, 0] + [0, 0, 0, 0] + [0, 0, 0, 0]
  {
    OneUnit(u);
  }

  lemma ImageParts(k: Key)
    requires KeyFits(k)
    ensures KeyImage(k)
         == WideString(k.name) + Dword(|k.vals|) + ValuesImage(k.vals) + Dword(|k.kids|) + KeysImage(k.kids)
  {
  }

  lemma PairImage(ks: seq<Key>)
    requires 1 <= |ks| <= 2 && forall j :: 0 <= j < |ks| ==> KeyFits(ks[j])
    ensures KeysImage(ks) == if |ks| == 1 then KeyImage(ks[0]) else KeyImage(ks[0]) + KeyImage(ks[1])
  {
    hide KeyImage, KeyFits;
    var more := ks[1..];
    if |ks| == 2 {
      assert more[1..] == [] && KeyImage(ks[1]) + [] == KeyImage(ks[1]);
      assert KeysImage(more) == KeyImage(ks[1]);
    } else {
      assert KeyImage(ks[0]) + [] == KeyImage(ks[0]);
    }
  }

  /** The mirror, key by key: the lists run the other way. */
  lemma {:induction false} MirrorIs(k: Key)
    ensures var m := Mirror(k);
            && m.name == k.name && |m.vals| == |k.vals| && |m.kids| == |k.kids|
            && (forall j :: 0 <= j < |k.vals| ==> m.vals[j] == k.vals[|k.vals| - 1 - j])
            && (forall j :: 0 <= j < |k.kids| ==> m.kids[j] == Mirror(k.kids[|k.kids| - 1 - j]))
  {
    forall j | 0 <= j < |k.kids| ensures Mirror(k).kids[j] == Mirror(k.kids[|k.kids| - 1 - j]) {
      MirrorAllAt(k.kids, |k.kids| - 1 - j);
    }
  }

  /** A file without the magic number, or without a root name, leaves the registry empty; under a root with a name
      the whole tree becomes its only subkey. */
  lemma {:induction false} OtherFiles(file: Bytes, k: Key, rest: Bytes)
    ensures |file| >= 4 && file[..4] != [0x52, 0x47, 0x42, 0x46] ==> Loaded(file) == Some(Key([], [], []))
    ensures Loaded([0x52, 0x47, 0x42, 0x46] + [0, 0, 0, 0] + rest) == Some(Key([], [], []))
    ensures KeyFits(k) && UniqueValues(k) && k.name != [] ==>
              Loaded(FileImage(k)) == Some(Key([], [], [Mirror(k)]))
  {
    hide LittleEndian, Units, ReadUnits, ReadValues, Dword;
    var empty := [0x52, 0x47, 0x42, 0x46] + [0, 0, 0, 0] + rest;
    assert empty[..4] == REGFILE_MAGIC && empty[4..] == [0, 0, 0, 0] + rest;
    assert ReadDword([0, 0, 0, 0] + rest) == Some((0, rest)) by {
      FourBytes(0, 0, 0, 0);
      assert ([0, 0, 0, 0] + rest)[..4] == [0, 0, 0, 0] && ([0, 0, 0, 0] + rest)[4..] == rest;
    }
    if KeyFits(k) && UniqueValues(k) && k.name != [] {
      NamedRoot(k);
    }
  }

  lemma {:induction false} NamedRoot(k: Key)
    requires KeyFits(k) && UniqueValues(k) && k.name != []
    ensures LoadFile(FileImage(k)) == Some([Mirror(k)])
  {
    hide LittleEndian, Units, ReadUnits, ReadValues, ReadKeys, Mirror, ReadDword, Dword;
    var f := FileImage(k);
    assert f[..4] == REGFILE_MAGIC && f[4..] == KeyImage(k);
    assert KeyImage(k) == WideString(k.name) + Body(k);
    WideStringRound(k.name, Body(k));
    KeysRound(k.kids, [], []);
    BodyRound(k, []);
    assert Body(k) + [] == Body(k);
  }
}
