/** Bytes on the wire: the 8-byte block header of the driver, the datagrams of the bridge protocol, and what the
    bridge makes of them. */
module Wire {
  import opened Basics

  // ---------- The block header ----------

  const HEADER_SIZE := 8

  /** Four zero bytes, then the length, least significant byte first. */
  function Header(n: U32): (h: Bytes)
    ensures |h| == HEADER_SIZE && h[..4] == [0, 0, 0, 0]
  {
    [0, 0, 0, 0, n % 0x100, n / 0x100 % 0x100, n / 0x1_0000 % 0x100, n / 0x100_0000]
  }

  /** The first four bytes are ignored. */
  function HeaderLength(h: Bytes): U32
    requires |h| >= HEADER_SIZE
  {
    var h4: int, h5: int, h6: int, h7: int := h[4], h[5], h[6], h[7];
    h4 + 0x100 * h5 + 0x1_0000 * h6 + 0x100_0000 * h7
  }

  /** `radmin_header_write`. */
  method WriteHeader(hdr: array<Byte>, n: U32)
    requires hdr.Length >= HEADER_SIZE
    modifies hdr
    ensures hdr[..] == Header(n) + old(hdr[HEADER_SIZE..])
  {
    for i := 0 to 4
      invariant forall k :: 0 <= k < i ==> hdr[k] == 0
      invariant hdr[4..] == old(hdr[4..])
    {
      hdr[i] := 0;
    }
    hdr[4], hdr[5], hdr[6], hdr[7] := n % 0x100, n / 0x100 % 0x100, n / 0x1_0000 % 0x100, n / 0x100_0000;
  }

  lemma {:induction false} HeaderRound(n: U32, rest: Bytes)
    ensures HeaderLength(Header(n) + rest) == n
  {
    var n1, n2 := n / 0x100, n / 0x1_0000;
    assert n == n % 0x100 + 0x100 * n1;
    assert n2 == n1 / 0x100 && n1 == n1 % 0x100 + 0x100 * n2;
    assert n / 0x100_0000 == n2 / 0x100 && n2 == n2 % 0x100 + 0x100 * (n2 / 0x100);
  }

  /** Writing what was read gives the header back exactly when its first four bytes are zero. */
  lemma {:induction false} HeaderUnround(h: Bytes)
    requires |h| == HEADER_SIZE
    ensures Header(HeaderLength(h)) == h <==> h[..4] == [0, 0, 0, 0]
  {
    hide Header;
    var n := HeaderLength(h);
    HeaderBytes(h[4], h[5], h[6], h[7]);
    assert Header(n)[4..] == h[4..];
    assert h == h[..4] + h[4..] && Header(n) == Header(n)[..4] + Header(n)[4..];
  }

  lemma {:induction false} HeaderBytes(h4: Byte, h5: Byte, h6: Byte, h7: Byte)
    ensures var n: int := h4 + 0x100 * h5 + 0x1_0000 * h6 + 0x100_0000 * h7;
            n < 0x1_0000_0000 && Header(n) == [0, 0, 0, 0, h4, h5, h6, h7]
  {
    Div8(h5 + 0x100 * h6 + 0x1_0000 * h7, h4);
    Div16(h6 + 0x100 * h7, h4 + 0x100 * h5);
    Div24(h7, h4 + 0x100 * h5 + 0x1_0000 * h6);
    Div8(h6 + 0x100 * h7, h5);
    Div8(h7, h6);
  }

  lemma Div8(q: nat, r: int)
    requires 0 <= r < 0x100
    ensures (r + 0x100 * q) / 0x100 == q && (r + 0x100 * q) % 0x100 == r
  {
  }

  lemma Div16(q: nat, r: int)
    requires 0 <= r < 0x1_0000
    ensures (r + 0x1_0000 * q) / 0x1_0000 == q
  {
  }

  lemma Div24(q: nat, r: int)
    requires 0 <= r < 0x100_0000
    ensures (r + 0x100_0000 * q) / 0x100_0000 == q
  {
  }

  // ---------- Blocks: what ReadFile completes with and WriteFile is given ----------

  function Cut(bs: Bytes, n: nat): Bytes {
    if n < |bs| then bs[..n] else bs
  }

  /** What a read of `buflen` bytes completes with for the frame f. */
  function Block(f: Bytes, buflen: nat): Bytes
    requires |f| < 0x1_0000_0000
  {
    Cut(Header(|f|) + f, buflen)
  }

  /** Ignored: too short, or the length does not fit. Overrun: the copy runs past the caller's buffer. */
  datatype WriteOutcome = Ignored | Framed(frame: Bytes) | Overrun

  /** The part of `Hook_WriteFile` that finds the frame; the guard adds in 32 bits. */
  function Extract(buf: Bytes): WriteOutcome
    requires |buf| < 0x1_0000_0000
  {
    if |buf| < HEADER_SIZE then Ignored
    else
      var n := HeaderLength(buf);
      if (n + HEADER_SIZE) % 0x1_0000_0000 > |buf| then Ignored
      else if n + HEADER_SIZE <= |buf| then Framed(buf[HEADER_SIZE..HEADER_SIZE + n])
      else Overrun
  }

  /** The guard lets an overrun through exactly when the length field is within 8 of 2^32. */
  lemma {:induction false} OverrunIff(buf: Bytes)
    requires |buf| < 0x1_0000_0000
    ensures Extract(buf) == Overrun <==> |buf| >= HEADER_SIZE && HeaderLength(buf) >= 0x1_0000_0000 - HEADER_SIZE
  {
    if |buf| >= HEADER_SIZE {
      var n: int := HeaderLength(buf);
      if n >= 0x1_0000_0000 - HEADER_SIZE {
        assert (n + HEADER_SIZE) % 0x1_0000_0000 == n + HEADER_SIZE - 0x1_0000_0000;
      }
    }
  }

  /** Writing back what a read completed with sends the same frame, exactly when the read's buffer held all of
      it; otherwise nothing is sent. */
  lemma {:induction false} ReadThenWrite(f: Bytes, buflen: nat)
    requires |f| + HEADER_SIZE < 0x1_0000_0000
    ensures Extract(Block(f, buflen)) == if |f| + HEADER_SIZE <= buflen then Framed(f) else Ignored
  {
    HeaderRound(|f|, f);
    var whole := Header(|f|) + f;
    assert whole[HEADER_SIZE..HEADER_SIZE + |f|] == f;
    if HEADER_SIZE <= buflen < |whole| {
      assert whole[..buflen] == Header(|f|) + f[..buflen - HEADER_SIZE];
      HeaderRound(|f|, f[..buflen - HEADER_SIZE]);
    }
  }

  // ---------- The same, byte by byte ----------

  /** A read of `buflen` bytes gets as much as it has room for of: four zero bytes, the frame's length with the least
      significant byte first, and the frame. */
  lemma {:induction false} BlockIs(f: Bytes, buflen: nat)
    requires |f| < 0x1_0000_0000
    ensures var (b, n) := (Block(f, buflen), |f|);
            && |b| == (if buflen < 8 + n then buflen else 8 + n)
            && forall k :: 0 <= k < |b| ==>
                 b[k] == (if k < 4 then 0 else if k == 4 then n % 256 else if k == 5 then n / 256 % 256
                          else if k == 6 then n / 65536 % 256 else if k == 7 then n / 16777216 else f[k - 8])
  {
  }

  /** A block written is ignored if it is shorter than its header or than its length says; otherwise the frame is the
      bytes its length says after the header. With a length of 2^32 - 8 or more the copy runs past the block. */
  lemma {:induction false} ExtractIs(b: Bytes)
    requires |b| < 0x1_0000_0000
    ensures |b| < 8 ==> Extract(b) == Ignored
    ensures |b| >= 8 ==>
              var (b4: int, b5: int, b6: int, b7: int) := (b[4], b[5], b[6], b[7]);
              var n := b4 + 256 * b5 + 65536 * b6 + 16777216 * b7;
              && (8 + n <= |b| ==> Extract(b) == Framed(b[8..8 + n]))
              && (|b| < 8 + n < 0x1_0000_0000 ==> Extract(b) == Ignored)
              && (8 + n >= 0x1_0000_0000 ==> Extract(b) == Overrun)
  {
    OverrunIff(b);
  }

  // ---------- Datagrams to the bridge ----------

  const DATA: Byte := 0
  const CONTROL: Byte := 1

  const SET_IPV4: Byte := 0x01
  const SET_IPV4_GW: Byte := 0x02
  const SET_IPV6: Byte := 0x03
  const SET_MAC: Byte := 0x04
  const LINK_UP: Byte := 0x10
  const LINK_DOWN: Byte := 0x11

  /** The packet every read socket registers with. */
  const REGISTRATION: Bytes := [CONTROL, 0xFF]

  datatype Command =
    | SetIPv4(ip: Bytes, prefix: Byte)
    | SetIPv4Gateway(gw: Bytes)
    | SetIPv6(ip6: Bytes, prefix6: Byte)
    | SetMAC(mac: Bytes)
    | LinkUp
    | LinkDown

  /** The array sizes in the setters' signatures. */
  predicate Sized(c: Command) {
    match c
    case SetIPv4(ip, _) => |ip| == 4
    case SetIPv4Gateway(gw) => |gw| == 4
    case SetIPv6(ip, _) => |ip| == 16
    case SetMAC(mac) => |mac| == 6
    case _ => true
  }

  function DataPacket(f: Bytes): Bytes { [DATA] + f }

  function ControlPacket(cmd: Byte, data: Bytes): Bytes { [CONTROL, cmd] + data }

  /** The six setters. */
  function Encode(c: Command): Bytes {
    match c
    case SetIPv4(ip, prefix) => ControlPacket(SET_IPV4, ip + [prefix])
    case SetIPv4Gateway(gw) => ControlPacket(SET_IPV4_GW, gw)
    case SetIPv6(ip, prefix) => ControlPacket(SET_IPV6, ip + [prefix])
    case SetMAC(mac) => ControlPacket(SET_MAC, mac)
    case LinkUp => ControlPacket(LINK_UP, [])
    case LinkDown => ControlPacket(LINK_DOWN, [])
  }

  /** `send_control`, up to the sending. */
  method BuildControl(cmd: Byte, data: Bytes) returns (buf: array<Byte>)
    ensures fresh(buf) && buf[..] == ControlPacket(cmd, data)
  {
    buf := new Byte[2 + |data|];
    buf[0], buf[1] := CONTROL, cmd;
    CopyInto(buf, 2, data);
  }

  // ---------- The bridge's buffer ----------

  const BUFFER_SIZE := 2048

  /** The shared buffer after `recvfrom`: the datagram, cut to the buffer, over what was there before. */
  function Received(before: Bytes, d: Bytes): (buf: Bytes)
    requires |before| == BUFFER_SIZE
    ensures |buf| == BUFFER_SIZE
  {
    if |d| < BUFFER_SIZE then d + before[|d|..] else d[..BUFFER_SIZE]
  }

  /** What the bridge does with a datagram: an interface command, a frame written to TAP, or nothing. */
  datatype Action = Apply(command: Command) | WriteTap(frame: Bytes) | Nothing

  /** How many bytes after the command byte the handler reads. */
  function Need(cmd: Byte): nat {
    if cmd == SET_IPV4 then 5
    else if cmd == SET_IPV4_GW then 4
    else if cmd == SET_IPV6 then 17
    else if cmd == SET_MAC then 6
    else 0
  }

  /** The handlers read the buffer without looking at how much of it was received. */
  function Handle(cmd: Byte, data: Bytes): Action
    requires |data| >= 17
  {
    if cmd == SET_IPV4 then Apply(SetIPv4(data[..4], data[4]))
    else if cmd == SET_IPV4_GW then Apply(SetIPv4Gateway(data[..4]))
    else if cmd == SET_IPV6 then Apply(SetIPv6(data[..16], data[16]))
    else if cmd == SET_MAC then Apply(SetMAC(data[..6]))
    else if cmd == LINK_UP then Apply(LinkUp)
    else if cmd == LINK_DOWN then Apply(LinkDown)
    else Nothing
  }

  /** The dispatch on the n bytes just received. */
  function Dispatch(buf: Bytes, n: nat): Action
    requires |buf| == BUFFER_SIZE && n <= BUFFER_SIZE
  {
    if n < 1 then Nothing
    else if buf[0] == CONTROL then (if n < 2 then Nothing else Handle(buf[1], buf[2..]))
    else if buf[0] == DATA then WriteTap(buf[1..n])
    else Nothing
  }

  /** What the bridge does with the datagram d when its buffer held `before`. */
  function Act(before: Bytes, d: Bytes): Action
    requires |before| == BUFFER_SIZE
  {
    Dispatch(Received(before, d), if |d| < BUFFER_SIZE then |d| else BUFFER_SIZE)
  }

  /** The bridge recovers the command and every field of each of the six setters, whatever its buffer held. */
  lemma {:induction false} SettersRoundTrip(c: Command, before: Bytes)
    requires Sized(c) && |before| == BUFFER_SIZE
    ensures Act(before, Encode(c)) == Apply(c)
  {
    var d := Encode(c);
    var buf := Received(before, d);
    assert buf[0] == CONTROL && buf[1] == d[1];
    assert forall k :: 0 <= k < |d| - 2 ==> buf[2..][k] == d[2 + k];
    match c
    case SetIPv4(ip, prefix) => assert d[2..] == ip + [prefix]; assert buf[2..][..4] == ip;
    case SetIPv4Gateway(gw) => assert d[2..] == gw; assert buf[2..][..4] == gw;
    case SetIPv6(ip, prefix) => assert d[2..] == ip + [prefix]; assert buf[2..][..16] == ip;
    case SetMAC(mac) => assert d[2..] == mac; assert buf[2..][..6] == mac;
    case LinkUp =>
    case LinkDown =>
  }

  /** The datagrams, byte by byte. */
  lemma {:induction false} PacketsAre(f: Bytes, x: Bytes, p: Byte)
    ensures DataPacket(f) == [0] + f
    ensures REGISTRATION == [1, 255]
    ensures Encode(SetIPv4(x, p)) == [1, 1] + x + [p] && Encode(SetIPv4Gateway(x)) == [1, 2] + x
    ensures Encode(SetIPv6(x, p)) == [1, 3] + x + [p] && Encode(SetMAC(x)) == [1, 4] + x
    ensures Encode(LinkUp) == [1, 16] && Encode(LinkDown) == [1, 17]
  {
  }

  /** What the bridge makes of a datagram of at most 2048 bytes, whatever it received before. */
  lemma {:induction false} ActIs(before: Bytes, d: Bytes)
    requires |before| == 2048 && |d| <= 2048
    ensures d != [] && d[0] == 0 ==> Act(before, d) == WriteTap(d[1..])
    ensures d == [] || d[0] > 1 || d == [1] ==> Act(before, d) == Nothing
    ensures |d| >= 2 && d[0] == 1 && d[1] !in {1, 2, 3, 4, 16, 17} ==> Act(before, d) == Nothing
    ensures |d| >= 7 && d[..2] == [1, 1] ==> Act(before, d) == Apply(SetIPv4(d[2..6], d[6]))
    ensures |d| >= 6 && d[..2] == [1, 2] ==> Act(before, d) == Apply(SetIPv4Gateway(d[2..6]))
    ensures |d| >= 19 && d[..2] == [1, 3] ==> Act(before, d) == Apply(SetIPv6(d[2..18], d[18]))
    ensures |d| >= 8 && d[..2] == [1, 4] ==> Act(before, d) == Apply(SetMAC(d[2..8]))
    ensures |d| >= 2 && d[..2] == [1, 16] ==> Act(before, d) == Apply(LinkUp)
    ensures |d| >= 2 && d[..2] == [1, 17] ==> Act(before, d) == Apply(LinkDown)
  {
    var buf := Received(before, d);
    assert buf[..|d|] == d;
    assert forall k :: 0 <= k < |d| ==> buf[k] == d[k];
    if |d| >= 2 && d[0] == 1 {
      assert d[..2][1] == d[1];
      var x := buf[2..];
      if |d| >= 6 { assert x[..4] == d[2..6]; }
      if |d| >= 8 { assert x[..6] == d[2..8]; }
      if |d| >= 19 { assert x[..16] == d[2..18]; }
    }
  }

  /** The registration of a read socket makes the bridge do nothing beyond learning the sender. */
  lemma {:induction false} RegistrationOnly(before: Bytes)
    requires |before| == BUFFER_SIZE
    ensures Act(before, REGISTRATION) == Nothing
  {
    assert Received(before, REGISTRATION)[1] == 0xFF;
  }

  /** A submitted frame reaches TAP whole exactly when it leaves room for the type byte. */
  lemma {:induction false} FrameToTap(before: Bytes, f: Bytes)
    requires |before| == BUFFER_SIZE
    ensures Act(before, DataPacket(f)) == WriteTap(Cut(f, BUFFER_SIZE - 1))
    ensures Act(before, DataPacket(f)) == WriteTap(f) <==> |f| < BUFFER_SIZE
  {
    var buf := Received(before, DataPacket(f));
    var n := if |f| + 1 < BUFFER_SIZE then |f| + 1 else BUFFER_SIZE;
    assert buf[0] == DATA;
    assert buf[1..n] == Cut(f, BUFFER_SIZE - 1) by {
      assert forall k :: 1 <= k < n ==> buf[k] == f[k - 1];
    }
  }

  ghost predicate OwnBytesOnly(d: Bytes) {
    forall o1: Bytes, o2: Bytes :: |o1| == BUFFER_SIZE && |o2| == BUFFER_SIZE ==> Act(o1, d) == Act(o2, d)
  }

  /** What the bridge does with a control datagram depends on that datagram alone exactly when it is as long as
      its command's handler reads; a shorter one is completed with bytes of earlier datagrams. */
  lemma {:induction false} OwnBytesIff(d: Bytes)
    requires 2 <= |d| && d[0] == CONTROL
    ensures OwnBytesOnly(d) <==> |d| >= 2 + Need(d[1])
  {
    if |d| >= 2 + Need(d[1]) {
      forall o1: Bytes, o2: Bytes | |o1| == BUFFER_SIZE && |o2| == BUFFER_SIZE ensures Act(o1, d) == Act(o2, d) {
        SameBytes(o1, o2, d);
      }
    } else {
      StaleBytes(d);
    }
  }

  lemma {:induction false} SameBytes(o1: Bytes, o2: Bytes, d: Bytes)
    requires |o1| == BUFFER_SIZE && |o2| == BUFFER_SIZE && 2 <= |d| && d[0] == CONTROL && |d| >= 2 + Need(d[1])
    ensures Act(o1, d) == Act(o2, d)
  {
    var b1, b2 := Received(o1, d), Received(o2, d);
    var n := Need(d[1]);
    assert forall k :: 0 <= k < 2 + n ==> b1[k] == d[k] && b2[k] == d[k];
    assert b1[2..][..n] == b2[2..][..n];
    SameHandled(d[1], b1[2..], b2[2..]);
  }

  /** A handler goes by the bytes it needs. */
  lemma {:induction false} SameHandled(cmd: Byte, x: Bytes, y: Bytes)
    requires |x| >= 17 && |y| >= 17 && x[..Need(cmd)] == y[..Need(cmd)]
    ensures Handle(cmd, x) == Handle(cmd, y)
  {
    var n := Need(cmd);
    if n > 0 {
      Shorter(x, y, n, 4);
      if n >= 6 { Shorter(x, y, n, 6); }
      if n == 17 { Shorter(x, y, n, 16); }
      assert x[n - 1] == x[..n][n - 1] == y[n - 1];
    }
  }

  lemma Shorter(x: Bytes, y: Bytes, n: nat, m: nat)
    requires m <= n <= |x| && n <= |y| && x[..n] == y[..n]
    ensures x[..m] == y[..m]
  {
    assert x[..m] == x[..n][..m] && y[..m] == y[..n][..m];
  }

  /** The last byte the handler reads ends up in a field. */
  lemma {:induction false} LastByteTells(cmd: Byte, x: Bytes, y: Bytes)
    requires |x| >= 17 && |y| >= 17 && Need(cmd) > 0 && x[Need(cmd) - 1] != y[Need(cmd) - 1]
    ensures Handle(cmd, x) != Handle(cmd, y)
  {
    var n := Need(cmd);
    if n == 4 { assert x[..4][3] != y[..4][3]; } else if n == 6 { assert x[..6][5] != y[..6][5]; }
  }

  /** Two buffers that differ in the last byte the handler reads, and the field that byte ends up in. */
  lemma {:induction false} StaleBytes(d: Bytes)
    requires 2 <= |d| && d[0] == CONTROL && |d| < 2 + Need(d[1])
    ensures !OwnBytesOnly(d)
  {
    var last := 1 + Need(d[1]);
    var o1: Bytes := seq(BUFFER_SIZE, _ => 0);
    var o2: Bytes := seq(BUFFER_SIZE, _ => 1);
    var b1, b2 := Received(o1, d), Received(o2, d);
    assert b1[0] == CONTROL == b2[0] && b1[1] == d[1] == b2[1];
    assert b1[last] == 0 && b2[last] == 1;
    LastByteTells(d[1], b1[2..], b2[2..]);
    assert |d| < BUFFER_SIZE && Act(o1, d) == Handle(d[1], b1[2..]) && Act(o2, d) == Handle(d[1], b2[2..]);
  }
}
