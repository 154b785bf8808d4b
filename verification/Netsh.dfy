/** The netsh command line: how fields are cut out of it, and what of it reaches the interface behind the bridge. */
module Netsh {
  import opened Basics
  import opened WideStrings
  import opened Wire
  import opened Netmask

  const QUOTE: WChar := 34
  const SPACE: WChar := 32
  const COLON: WChar := 58

  /** The length of config.address and its like, without the terminator. */
  const FIELD_LIMIT := 63

  // ---------- Cutting out a field ----------

  /** Where `key` first occurs, or |cmd| + 1. */
  function Find(cmd: WStr, key: WStr): (i: nat)
    ensures i <= |cmd| + 1
    ensures i <= |cmd| ==> i + |key| <= |cmd| && cmd[i..i + |key|] == key
  {
    if key <= cmd then (assert cmd[0..|key|] == key; 0)
    else if cmd == [] then 1
    else
      var n := Find(cmd[1..], key);
      assert n < |cmd| ==> cmd[1 + n..1 + n + |key|] == key by { if n < |cmd| { Behind(cmd, n, |key|); } }
      1 + n
  }

  lemma Behind(s: WStr, i: nat, n: nat)
    requires 1 + i + n <= |s|
    ensures s[1..][i..i + n] == s[1 + i..1 + i + n]
  {
  }

  predicate Occurs(cmd: WStr, key: WStr) { Find(cmd, key) <= |cmd| }

  predicate Stops(c: WChar, spaces: bool) { c == QUOTE || (c == SPACE && !spaces) }

  /** How many characters the copying loop takes: up to a quote, or a space unless those are allowed, or the limit. */
  function Extent(s: WStr, spaces: bool, limit: nat): (n: nat)
    ensures n <= |s| && n <= limit
    ensures forall i :: 0 <= i < n ==> !Stops(s[i], spaces)
    ensures n < |s| && n < limit ==> Stops(s[n], spaces)
  {
    if s == [] || limit == 0 || Stops(s[0], spaces) then 0 else 1 + Extent(s[1..], spaces, limit - 1)
  }

  /** The text after `key`, without an opening quote. */
  function After(cmd: WStr, key: WStr): WStr
    requires Occurs(cmd, key)
  {
    var rest := cmd[Find(cmd, key) + |key|..];
    if rest != [] && rest[0] == QUOTE then rest[1..] else rest
  }

  function Field(cmd: WStr, key: WStr, limit: nat): Option<WStr> {
    if Occurs(cmd, key) then Some(After(cmd, key)[..Extent(After(cmd, key), false, limit)]) else None
  }

  /** The loop that fills a field of the configuration, with its terminator. */
  method CopyField(src: WStr, spaces: bool, dst: array<int>, limit: nat) returns (n: nat)
    requires limit < dst.Length
    modifies dst
    ensures n == Extent(src, spaces, limit) && dst[n] == 0
    ensures dst[..n] == src[..n]
    ensures dst[n + 1..] == old(dst[n + 1..])
  {
    hide Extent, Stops;
    n := 0;
    while n < |src| && !Stops(src[n], spaces) && n < limit
      invariant n <= |src| && n <= limit
      invariant forall i :: 0 <= i < n ==> !Stops(src[i], spaces)
      invariant forall i :: 0 <= i < n ==> dst[i] == src[i]
      invariant forall i :: n <= i < dst.Length ==> dst[i] == old(dst[i])
    {
      dst[n] := src[n];
      n := n + 1;
    }
    dst[n] := 0;
    ExtentIs(src, n, spaces, limit);
  }

  /** The extent is the one place where the loop can end. */
  lemma {:induction false} ExtentIs(s: WStr, n: nat, spaces: bool, limit: nat)
    requires n <= |s| && n <= limit && forall i :: 0 <= i < n ==> !Stops(s[i], spaces)
    requires n == |s| || n == limit || Stops(s[n], spaces)
    ensures Extent(s, spaces, limit) == n
  {
    ExtentEnds(s, spaces, limit);
  }

  lemma ExtentEnds(s: WStr, spaces: bool, limit: nat)
    ensures var m := Extent(s, spaces, limit); m == |s| || m == limit || Stops(s[m], spaces)
  {
  }

  lemma {:induction false} ExtentOfQuoted(v: WStr, tail: WStr, spaces: bool, limit: nat)
    requires QUOTE !in v
    ensures (v + [QUOTE] + tail)[..Extent(v + [QUOTE] + tail, spaces, limit)] == v
        <==> (spaces || SPACE !in v) && |v| <= limit
  {
    var s := v + [QUOTE] + tail;
    var n := Extent(s, spaces, limit);
    assert s[|v|] == QUOTE && forall i :: 0 <= i < |v| ==> s[i] == v[i];
    if s[..n] == v {
      assert forall i :: 0 <= i < |v| ==> s[i] == v[i] && !Stops(s[i], spaces);
    }
    if (spaces || SPACE !in v) && |v| <= limit {
      assert forall i :: 0 <= i < |v| ==> v[i] in v;
      assert s[..|v|] == v;
    }
  }

  /** A quoted value of key= is recovered exactly when it has no space and fits; one with a space, which is what
      the quotes are for, is cut at it. */
  lemma {:induction false} QuotedField(cmd: WStr, key: WStr, v: WStr, tail: WStr, limit: nat)
    requires Occurs(cmd, key) && QUOTE !in v
    requires cmd[Find(cmd, key) + |key|..] == [QUOTE] + v + [QUOTE] + tail
    ensures Field(cmd, key, limit) == Some(v) <==> SPACE !in v && |v| <= limit
  {
    hide Find, Extent;
    var rest := [QUOTE] + v + [QUOTE] + tail;
    assert rest[0] == QUOTE && rest[1..] == v + [QUOTE] + tail;
    assert After(cmd, key) == v + [QUOTE] + tail;
    ExtentOfQuoted(v, tail, false, limit);
  }

  // ---------- What is forwarded ----------

  /** The Windows functions that read addresses: inet_pton for IPv4, swscanf for a dotted mask, and an IPv6
      address with its prefix. */
  datatype Readers = Readers(v4: WStr -> Option<Bytes>, dotted: WStr -> Option<seq<U32>>,
      v6: WStr -> Option<(Bytes, Byte)>)

  ghost predicate SizedReaders(rd: Readers) {
    && (forall s :: rd.v4(s).Some? ==> |rd.v4(s).value| == 4)
    && (forall s :: rd.dotted(s).Some? ==> |rd.dotted(s).value| == 4)
    && (forall s :: rd.v6(s).Some? ==> |rd.v6(s).value.0| == 16)
  }

  /** The words ParseNetshCommand looks for. */
  datatype Word = AddrKey | AddressKey | MaskKey | SetInterface | Enable | Disable

  function Text(w: Word): WStr {
    match w
    case AddrKey => Wide("addr=")
    case AddressKey => Wide("address=")
    case MaskKey => Wide("mask=")
    case SetInterface => Wide("interface set interface")
    case Enable => Wide("ENABLE")
    case Disable => Wide("DISABLE")
  }

  predicate Says(cmd: WStr, w: Word) { Occurs(cmd, Text(w)) }

  function Address(cmd: WStr): Option<WStr> {
    if Says(cmd, AddrKey) then Field(cmd, Text(AddrKey), FIELD_LIMIT) else Field(cmd, Text(AddressKey), FIELD_LIMIT)
  }

  predicate Enables(cmd: WStr) {
    Says(cmd, SetInterface) && Says(cmd, Enable) && !Says(cmd, Disable)
  }

  predicate Disables(cmd: WStr) {
    Says(cmd, SetInterface) && Says(cmd, Disable)
  }

  /** The IPv4 address and the mask word the command line sets, if it does. */
  ghost function Sets4(cmd: WStr, rd: Readers): Option<(Bytes, U32)>
    requires SizedReaders(rd)
  {
    match (Address(cmd), Field(cmd, Text(MaskKey), FIELD_LIMIT))
    case (Some(a), Some(m)) =>
      if COLON !in a && rd.v4(a).Some? && rd.dotted(m).Some? then Some((rd.v4(a).value, TypedMask(rd.dotted(m).value)))
          else None
    case _ => None
  }

  function Sets6(cmd: WStr, rd: Readers): Option<(Bytes, Byte)> {
    match Address(cmd)
    case Some(a) => if COLON in a then rd.v6(a) else None
    case None => None
  }

  function Commands4(s: Option<(Bytes, U32)>): seq<Command> {
    if s.None? then []
    else
      Pow2At32();
      [SetIPv4(s.value.0, LeadingOnes(s.value.1, 32))]
  }

  function Commands6(s: Option<(Bytes, Byte)>): seq<Command> {
    if s.None? then [] else [SetIPv6(s.value.0, s.value.1), LinkUp]
  }

  function LinkCommands(on: bool, off: bool): seq<Command> {
    (if on then [LinkUp] else []) + (if off then [LinkDown] else [])
  }

  /** The client functions called, in order. */
  ghost function Forwarded(cmd: WStr, rd: Readers): seq<Command>
    requires SizedReaders(rd)
  {
    Commands4(Sets4(cmd, rd)) + Commands6(Sets6(cmd, rd)) + LinkCommands(Enables(cmd), Disables(cmd))
  }

  // ---------- What the interface ends up with ----------

  datatype Interface = Interface(ip: Option<Bytes>, mask: Option<Bytes>, gw: Option<Bytes>, ip6: Option<(Bytes, Byte)>,
      mac: Option<Bytes>, up: bool)

  /** The bridge's handlers, on an interface every ioctl of which succeeds. */
  function Applied(i: Interface, c: Command): Interface {
    match c
    case SetIPv4(ip, p) =>
      i.(ip := Some(ip), mask := if BridgeMask(p).Some? then Some(ToOctets(BridgeMask(p).value)) else None)
    case SetIPv4Gateway(gw) => i.(gw := Some(gw))
    case SetIPv6(ip, p) => i.(ip6 := Some((ip, p)))
    case SetMAC(mac) => i.(mac := Some(mac))
    case LinkUp => i.(up := true)
    case LinkDown => i.(up := false)
  }

  /** The interface after the bridge has received these datagrams, its buffer going along. */
  function Bridged(i: Interface, buf: Bytes, ds: seq<Bytes>): Interface
    requires |buf| == BUFFER_SIZE
    decreases |ds|
  {
    if ds == [] then i
    else
      var i' := match Act(buf, ds[0]) case Apply(c) => Applied(i, c) case _ => i;
      Bridged(i', Received(buf, ds[0]), ds[1..])
  }

  function Encoded(cs: seq<Command>): seq<Bytes> {
    if cs == [] then [] else [Encode(cs[0])] + Encoded(cs[1..])
  }

  function AppliedAll(i: Interface, cs: seq<Command>): Interface
    decreases |cs|
  {
    if cs == [] then i else AppliedAll(Applied(i, cs[0]), cs[1..])
  }

  lemma {:induction false} BridgedEncoded(i: Interface, buf: Bytes, cs: seq<Command>)
    requires |buf| == BUFFER_SIZE && forall k :: 0 <= k < |cs| ==> Sized(cs[k])
    ensures Bridged(i, buf, Encoded(cs)) == AppliedAll(i, cs)
    decreases |cs|
  {
    if cs != [] {
      SettersRoundTrip(cs[0], buf);
      assert Encoded(cs)[1..] == Encoded(cs[1..]);
      BridgedEncoded(Applied(i, cs[0]), Received(buf, Encode(cs[0])), cs[1..]);
    }
  }

  lemma {:induction false} AppliedAppend(i: Interface, cs: seq<Command>, ds: seq<Command>)
    ensures AppliedAll(i, cs + ds) == AppliedAll(AppliedAll(i, cs), ds)
    decreases |cs|
  {
    if cs == [] {
      assert cs + ds == ds;
    } else {
      assert (cs + ds)[0] == cs[0] && (cs + ds)[1..] == cs[1..] + ds;
      AppliedAppend(Applied(i, cs[0]), cs[1..], ds);
    }
  }

  lemma One(i: Interface, c: Command)
    ensures AppliedAll(i, [c]) == Applied(i, c)
  {
    var one := [c];
    assert one[1..] == [];
    assert AppliedAll(Applied(i, c), []) == Applied(i, c);
  }

  lemma {:induction false} Applied4(i: Interface, s: Option<(Bytes, U32)>)
    ensures var i' := AppliedAll(i, Commands4(s));
            && i' == i.(ip := i'.ip, mask := i'.mask)
            && (s.None? ==> i' == i)
            && (s.Some? ==> i'.ip == Some(s.value.0)
                            && (i'.mask == Some(ToOctets(s.value.1))
                                <==> exists q: nat :: q <= 32 && s.value.1 == Contiguous(q, 32)))
  {
    hide Contiguous, LeadingOnes, ToOctets;
    if s.Some? {
      Pow2At32();
      One(i, SetIPv4(s.value.0, LeadingOnes(s.value.1, 32)));
      NetshMaskReachesInterface([0, 0, 0, 0], s.value.1, seq(BUFFER_SIZE, _ => 0));
    }
  }

  lemma {:induction false} Applied6(i: Interface, s: Option<(Bytes, Byte)>)
    ensures AppliedAll(i, Commands6(s)) == if s.Some? then i.(ip6 := s, up := true) else i
  {
    if s.Some? {
      var c := SetIPv6(s.value.0, s.value.1);
      AppliedAppend(i, [c], [LinkUp]);
      assert [c] + [LinkUp] == Commands6(s);
      One(i, c);
      One(Applied(i, c), LinkUp);
    }
  }

  lemma {:induction false} AppliedLink(i: Interface, on: bool, off: bool)
    ensures AppliedAll(i, LinkCommands(on, off)) == i.(up := !off && (on || i.up))
  {
    AppliedAppend(i, if on then [LinkUp] else [], if off then [LinkDown] else []);
    One(i, LinkUp);
    One(i, LinkDown);
    One(Applied(i, LinkUp), LinkDown);
  }

  /** From the netsh command line through the client's datagrams and the bridge to the interface: an IPv4 address
      with a mask sets the address and the leading ones of the mask, exactly the mask if it is contiguous; an
      IPv6 address sets itself and brings the link up; disabling wins over everything that brings the link up;
      gateway and MAC are never touched. */
  lemma {:induction false} NetshReachesInterface(cmd: WStr, rd: Readers, i: Interface, buf: Bytes)
    requires SizedReaders(rd) && |buf| == BUFFER_SIZE
    ensures var i' := Bridged(i, buf, Encoded(Forwarded(cmd, rd)));
            var (s4, s6) := (Sets4(cmd, rd), Sets6(cmd, rd));
            && i'.gw == i.gw && i'.mac == i.mac
            && (s4.None? ==> i'.ip == i.ip && i'.mask == i.mask)
            && (s4.Some? ==> i'.ip == Some(s4.value.0)
                             && (i'.mask == Some(ToOctets(s4.value.1))
                                 <==> exists q: nat :: q <= 32 && s4.value.1 == Contiguous(q, 32)))
            && i'.ip6 == (if s6.Some? then s6 else i.ip6)
            && i'.up == (!Disables(cmd) && (Enables(cmd) || s6.Some? || i.up))
  {
    hide Address, Field, Text, Enables, Disables, Commands4, Commands6, LinkCommands, Encoded, Bridged, AppliedAll,
        ToOctets, TypedMask, Contiguous;
    var (s4, s6) := (Sets4(cmd, rd), Sets6(cmd, rd));
    ForwardedSized(cmd, rd);
    BridgedEncoded(i, buf, Forwarded(cmd, rd));
    var (c4, c6) := (Commands4(s4), Commands6(s6));
    AppliedAppend(i, c4 + c6, LinkCommands(Enables(cmd), Disables(cmd)));
    AppliedAppend(i, c4, c6);
    var i4 := AppliedAll(i, c4);
    Applied4(i, s4);
    Applied6(i4, s6);
    AppliedLink(AppliedAll(i4, c6), Enables(cmd), Disables(cmd));
  }

  lemma {:induction false} ForwardedSized(cmd: WStr, rd: Readers)
    requires SizedReaders(rd)
    ensures forall k :: 0 <= k < |Forwarded(cmd, rd)| ==> Sized(Forwarded(cmd, rd)[k])
  {
    hide Address, Field, Text, Enables, Disables, LeadingOnes;
    var c4, c6, l := Commands4(Sets4(cmd, rd)), Commands6(Sets6(cmd, rd)), LinkCommands(Enables(cmd), Disables(cmd));
    AllSized(c4, c6, l);
  }

  lemma AllSized(a: seq<Command>, b: seq<Command>, c: seq<Command>)
    requires (forall x :: x in a ==> Sized(x)) && (forall x :: x in b ==> Sized(x)) && (forall x :: x in c ==> Sized(x))
    ensures forall k :: 0 <= k < |a + b + c| ==> Sized((a + b + c)[k])
  {
  }

  // ---------- From the text itself ----------

  /** t stands at place i of s and at none before. */
  ghost predicate FirstAt(s: WStr, t: WStr, i: int) {
    OccursAt(s, t, i) && forall j :: 0 <= j < i ==> !OccursAt(s, t, j)
  }

  lemma {:induction false} SliceOccurs(s: WStr, t: WStr, i: nat)
    requires i + |t| <= |s|
    ensures OccursAt(s, t, i) <==> s[i..i + |t|] == t
  {
  }

  /** The search finds a word exactly if it is there, and then its first place. */
  lemma {:induction false} FindFirst(cmd: WStr, key: WStr)
    ensures Find(cmd, key) <= |cmd| <==> Mentions(cmd, key)
    ensures Find(cmd, key) <= |cmd| ==> FirstAt(cmd, key, Find(cmd, key))
    decreases |cmd|
  {
    hide OccursAt;
    AtStart(cmd, key);
    FindStep(cmd, key);
    forall i: int ensures OccursAt(cmd, key, i) ==> 0 <= i && i + |key| <= |cmd| {
      if OccursAt(cmd, key, i) { Inside(cmd, key, i); }
    }
    if cmd != [] && !OccursAt(cmd, key, 0) {
      FindFirst(cmd[1..], key);
      forall i: int ensures 1 <= i ==> (OccursAt(cmd, key, i) <==> OccursAt(cmd[1..], key, i - 1)) {
        if 1 <= i { Shifted(cmd, key, i); }
      }
      if i :| OccursAt(cmd, key, i) { assert OccursAt(cmd[1..], key, i - 1); }
      var n := Find(cmd[1..], key);
      if n < |cmd| { assert OccursAt(cmd, key, 1 + n); }
    }
  }

  lemma Inside(cmd: WStr, key: WStr, i: int)
    requires OccursAt(cmd, key, i)
    ensures 0 <= i && i + |key| <= |cmd|
  {
  }

  lemma FindStep(cmd: WStr, key: WStr)
    ensures Find(cmd, key) == if key <= cmd then 0 else if cmd == [] then 1 else 1 + Find(cmd[1..], key)
  {
  }

  lemma Shifted(cmd: WStr, key: WStr, i: int)
    requires cmd != [] && 1 <= i
    ensures OccursAt(cmd, key, i) <==> OccursAt(cmd[1..], key, i - 1)
  {
  }

  lemma {:induction false} AtStart(cmd: WStr, key: WStr)
    ensures OccursAt(cmd, key, 0) <==> key <= cmd
  {
    if |key| <= |cmd| { SliceOccurs(cmd, key, 0); }
  }

  lemma {:induction false} FoundAt(cmd: WStr, key: WStr, i: int)
    requires FirstAt(cmd, key, i)
    ensures Find(cmd, key) == i && Mentions(cmd, key)
  {
    hide Find, OccursAt;
    FindFirst(cmd, key);
    FoundInside(cmd, key, i);
  }

  lemma FoundInside(cmd: WStr, key: WStr, i: int)
    requires FirstAt(cmd, key, i)
    ensures 0 <= i && i + |key| <= |cmd|
  {
  }

  /** The field is the text after the first place of its key, without an opening quote, up to a quote, a space, the
      end, or `limit` characters. Without the key there is no field. */
  lemma {:induction false} FieldIs(cmd: WStr, key: WStr, i: nat, t: WStr, limit: nat, f: WStr)
    requires FirstAt(cmd, key, i) && i + |key| <= |cmd|
    requires cmd[i + |key|..] == [34] + t || (cmd[i + |key|..] == t && (t == [] || t[0] != 34))
    ensures Field(cmd, key, limit) == Some(f)
       <==> && f <= t && |f| <= limit && 34 !in f && 32 !in f
            && (|f| == limit || |f| == |t| || t[|f|] == 34 || t[|f|] == 32)
  {
    hide Field, Find, Extent, OccursAt;
    FieldText(cmd, key, i, t, limit);
    ExtentText(t, limit, f);
  }

  lemma {:induction false} FieldText(cmd: WStr, key: WStr, i: nat, t: WStr, limit: nat)
    requires FirstAt(cmd, key, i) && i + |key| <= |cmd|
    requires cmd[i + |key|..] == [34] + t || (cmd[i + |key|..] == t && (t == [] || t[0] != 34))
    ensures Field(cmd, key, limit) == Some(t[..Extent(t, false, limit)])
  {
    hide Find, Extent, FirstAt;
    FoundAt(cmd, key, i);
    var rest := cmd[i + |key|..];
    if rest == [34] + t { assert rest[0] == 34 && rest[1..] == t; }
  }

  lemma {:induction false} ExtentText(t: WStr, limit: nat, f: WStr)
    ensures t[..Extent(t, false, limit)] == f
       <==> && f <= t && |f| <= limit && 34 !in f && 32 !in f
            && (|f| == limit || |f| == |t| || t[|f|] == 34 || t[|f|] == 32)
  {
    hide Extent;
    var n := Extent(t, false, limit);
    assert forall c :: c in t[..n] ==> c != 34 && c != 32;
    ExtentEnds(t, false, limit);
    if && f <= t && |f| <= limit && 34 !in f && 32 !in f
       && (|f| == limit || |f| == |t| || t[|f|] == 34 || t[|f|] == 32) {
      forall k | 0 <= k < |f| ensures !Stops(t[k], false) { assert t[k] == f[k] && f[k] in f; }
      ExtentIs(t, |f|, false, limit);
      assert t[..|f|] == f;
    }
  }

  lemma NoField(cmd: WStr, key: WStr, limit: nat)
    ensures Field(cmd, key, limit) == None <==> !Mentions(cmd, key)
  {
    FindFirst(cmd, key);
  }

  /** A value without quotes around it, of which nothing is lost. */
  lemma {:induction false} UnquotedField(cmd: WStr, key: WStr, i: nat, v: WStr, tail: WStr, limit: nat)
    requires FirstAt(cmd, key, i) && i + |key| <= |cmd| && v != [] && 34 !in v && 32 !in v
    requires cmd[i + |key|..] == v || cmd[i + |key|..] == v + [32] + tail
    ensures Field(cmd, key, limit) == Some(v) <==> |v| <= limit
  {
    var t := cmd[i + |key|..];
    assert t[0] == v[0] && v[0] in v;
    if t != v { assert t[|v|] == 32; }
    FieldIs(cmd, key, i, t, limit, v);
  }

  /** The value of `key` is v: at most 63 characters, none a quote or a space, in quotes or followed by a space or
      nothing. */
  ghost predicate Gives(cmd: WStr, key: WStr, v: WStr) {
    && 0 < |v| <= 63 && 34 !in v && 32 !in v
    && exists i :: FirstAt(cmd, key, i) && Follows(cmd, i + |key|, v)
  }

  ghost predicate Follows(cmd: WStr, k: int, v: WStr) {
    || (OccursAt(cmd, v, k) && (k + |v| == |cmd| || cmd[k + |v|] == 32))
    || OccursAt(cmd, [34] + v + [34], k)
  }

  lemma {:induction false} GivenField(cmd: WStr, key: WStr, v: WStr)
    requires Gives(cmd, key, v)
    ensures Field(cmd, key, FIELD_LIMIT) == Some(v)
  {
    hide Find, Extent, Field;
    var i :| FirstAt(cmd, key, i) && Follows(cmd, i + |key|, v);
    var k := i + |key|;
    FoundInside(cmd, key, i);
    var rest := cmd[k..];
    if OccursAt(cmd, v, k) && (k + |v| == |cmd| || cmd[k + |v|] == 32) {
      assert rest[..|v|] == v && rest[0] == v[0] && v[0] in v;
      FieldIs(cmd, key, i, rest, FIELD_LIMIT, v);
    } else {
      var q := [34] + v + [34];
      assert forall j :: 0 <= j < |q| ==> cmd[k + j] == q[j];
      assert rest[0] == q[0] && rest == [34] + rest[1..];
      assert forall j :: 0 <= j < |v| ==> rest[1..][j] == cmd[k + (1 + j)] == q[1 + j] == v[j];
      assert rest[1..][..|v|] == v && rest[1..][|v|] == cmd[k + (1 + |v|)] == q[1 + |v|];
      FieldIs(cmd, key, i, rest[1..], FIELD_LIMIT, v);
    }
  }

  /** The address is looked for after `addr=`, and after `address=` if there is no `addr=`. */
  ghost predicate GivesAddress(cmd: WStr, v: WStr) {
    Gives(cmd, Wide("addr="), v) || (!Mentions(cmd, Wide("addr=")) && Gives(cmd, Wide("address="), v))
  }

  lemma {:induction false} GivenAddress(cmd: WStr, v: WStr)
    requires GivesAddress(cmd, v)
    ensures Address(cmd) == Some(v)
  {
    hide Find, Field, Wide, Gives;
    FindFirst(cmd, Wide("addr="));
    if Gives(cmd, Wide("addr="), v) {
      GivenField(cmd, Wide("addr="), v);
      NoField(cmd, Wide("addr="), FIELD_LIMIT);
    } else {
      GivenField(cmd, Wide("address="), v);
    }
  }

  /** The command line brings the link up, or down, by its words alone. */
  ghost predicate SaysUp(cmd: WStr) {
    Mentions(cmd, Wide("interface set interface")) && Mentions(cmd, Wide("ENABLE"))
  }

  ghost predicate SaysDown(cmd: WStr) {
    Mentions(cmd, Wide("interface set interface")) && Mentions(cmd, Wide("DISABLE"))
  }

  lemma {:induction false} SaysIs(cmd: WStr)
    ensures Disables(cmd) <==> SaysDown(cmd)
    ensures Enables(cmd) <==> SaysUp(cmd) && !SaysDown(cmd)
  {
    hide Find, Wide, Mentions;
    FindFirst(cmd, Wide("interface set interface"));
    FindFirst(cmd, Wide("ENABLE"));
    FindFirst(cmd, Wide("DISABLE"));
  }

  /** `addr=` v `mask=` m, in any order and with or without quotes: the interface gets the address read from v, and
      the mask read from m exactly if its octets are ones and then zeros. Only the words turn the link on or off. */
  lemma {:induction false} AddressAndMaskArrive(cmd: WStr, v: WStr, m: WStr, o: Bytes, rd: Readers, i: Interface,
                                                buf: Bytes)
    requires SizedReaders(rd) && |buf| == 2048 && |o| == 4
    requires GivesAddress(cmd, v) && 58 !in v && Gives(cmd, Wide("mask="), m)
    requires rd.v4(v).Some? && rd.dotted(m) == Some(o)
    ensures var i' := Bridged(i, buf, Encoded(Forwarded(cmd, rd)));
            && i'.ip == rd.v4(v)
            && (i'.mask == Some(o) <==> exists p: nat :: p <= 32 && o == MaskOf(p))
            && i'.ip6 == i.ip6 && i'.gw == i.gw && i'.mac == i.mac
            && i'.up == (!SaysDown(cmd) && (SaysUp(cmd) || i.up))
  {
    hide Address, Field, Enables, Disables, GivesAddress, Gives, Contiguous, Mask, ToOctets, TypedMask, MaskOf, Wide;
    hide Bridged, Encoded, Forwarded, SaysUp, SaysDown;
    GivenAddress(cmd, v);
    GivenField(cmd, Wide("mask="), m);
    SaysIs(cmd);
    TypedOctets(o);
    ContiguousIff(o);
    NetshReachesInterface(cmd, rd, i, buf);
  }

  /** An IPv6 address sets itself alone and brings the link up, whatever masks are around. */
  lemma {:induction false} Address6Arrives(cmd: WStr, v: WStr, rd: Readers, i: Interface, buf: Bytes)
    requires SizedReaders(rd) && |buf| == 2048
    requires GivesAddress(cmd, v) && 58 in v && rd.v6(v).Some?
    ensures Bridged(i, buf, Encoded(Forwarded(cmd, rd))) == i.(ip6 := rd.v6(v), up := !SaysDown(cmd))
  {
    hide Address, Field, Enables, Disables, GivesAddress, Contiguous, ToOctets, TypedMask, Wide;
    hide Bridged, Encoded, Forwarded, SaysUp, SaysDown;
    GivenAddress(cmd, v);
    SaysIs(cmd);
    NetshReachesInterface(cmd, rd, i, buf);
  }

  /** Without an address, or with an IPv4 address and no mask, only the words count. */
  lemma {:induction false} WordsAlone(cmd: WStr, rd: Readers, i: Interface, buf: Bytes)
    requires SizedReaders(rd) && |buf| == 2048
    requires || (!Mentions(cmd, Wide("addr=")) && !Mentions(cmd, Wide("address=")))
             || (!Mentions(cmd, Wide("mask=")) && exists v :: GivesAddress(cmd, v) && 58 !in v)
    ensures Bridged(i, buf, Encoded(Forwarded(cmd, rd))) == i.(up := !SaysDown(cmd) && (SaysUp(cmd) || i.up))
  {
    hide Field, Find, Enables, Disables, GivesAddress, Contiguous, ToOctets, TypedMask, Wide, Mentions;
    hide Bridged, Encoded, Forwarded, SaysUp, SaysDown;
    FindFirst(cmd, Wide("addr="));
    NoField(cmd, Wide("address="), FIELD_LIMIT);
    NoField(cmd, Wide("mask="), FIELD_LIMIT);
    if v :| GivesAddress(cmd, v) && 58 !in v { GivenAddress(cmd, v); }
    SaysIs(cmd);
    NetshReachesInterface(cmd, rd, i, buf);
  }

  /** What each datagram of a setter does to the interface. */
  lemma {:induction false} DatagramArrives(i: Interface, buf: Bytes, x: Bytes, p: Byte)
    requires |buf| == 2048
    ensures |x| == 4 ==>
              Bridged(i, buf, [[1, 1] + x + [p]]) == i.(ip := Some(x), mask := if p > 32 then None else Some(MaskOf(p)))
    ensures |x| == 4 ==> Bridged(i, buf, [[1, 2] + x]) == i.(gw := Some(x))
    ensures |x| == 16 ==> Bridged(i, buf, [[1, 3] + x + [p]]) == i.(ip6 := Some((x, p)))
    ensures |x| == 6 ==> Bridged(i, buf, [[1, 4] + x]) == i.(mac := Some(x))
    ensures Bridged(i, buf, [[1, 16]]) == i.(up := true) && Bridged(i, buf, [[1, 17]]) == i.(up := false)
  {
    hide Bridged, BridgeMask, MaskOf, ToOctets, Encode;
    PacketsAre([], x, p);
    BridgeMaskOctets(p);
    if |x| == 4 { OneDatagram(i, buf, SetIPv4(x, p)); OneDatagram(i, buf, SetIPv4Gateway(x)); }
    if |x| == 16 { OneDatagram(i, buf, SetIPv6(x, p)); }
    if |x| == 6 { OneDatagram(i, buf, SetMAC(x)); }
    OneDatagram(i, buf, LinkUp);
    OneDatagram(i, buf, LinkDown);
  }

  lemma {:induction false} OneDatagram(i: Interface, buf: Bytes, c: Command)
    requires |buf| == BUFFER_SIZE && Sized(c)
    ensures Bridged(i, buf, [Encode(c)]) == Applied(i, c)
  {
    hide Encode, Applied, Act;
    SettersRoundTrip(c, buf);
    var ds := [Encode(c)];
    assert ds[1..] == [];
    assert Bridged(Applied(i, c), Received(buf, ds[0]), []) == Applied(i, c);
  }
}
