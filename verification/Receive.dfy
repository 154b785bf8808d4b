/** The receive loop of GetOverlappedResult: it takes datagrams off a read's own socket until one passes the
    handle's MAC filter, the socket is empty, or a datagram is too short. */
module Receive {
  import opened Basics
  import opened Wire

  const MAC_SIZE := 6
  const SHORTEST := 14

  /** `is_mac_match`: without a filter nothing passes; otherwise the handle's own address and every group
      address do. */
  predicate MacMatches(mac: Option<Bytes>, dest: Bytes)
    requires |dest| >= MAC_SIZE
  {
    mac.Some? && (dest[..MAC_SIZE] == mac.value || dest[0] % 2 == 1)
  }

  /** recv hands the datagram over and it is long enough to look at. */
  predicate Readable(d: Bytes) { SHORTEST <= |d| <= BUFFER_SIZE }

  predicate Passes(mac: Option<Bytes>, d: Bytes) {
    Readable(d) && MacMatches(mac, d[1..])
  }

  /** How many datagrams the loop takes. */
  function Taken(mac: Option<Bytes>, mail: seq<Bytes>): (n: nat)
    ensures n <= |mail|
  {
    if mail == [] then 0
    else if !Readable(mail[0]) || MacMatches(mac, mail[0][1..]) then 1
    else 1 + Taken(mac, mail[1..])
  }

  /** The frame it ends with, if any. */
  function Found(mac: Option<Bytes>, mail: seq<Bytes>): (f: Option<Bytes>)
    ensures f.Some? ==> |f.value| < BUFFER_SIZE
  {
    if mail == [] || !Readable(mail[0]) then None
    else if MacMatches(mac, mail[0][1..]) then Some(mail[0][1..])
    else Found(mac, mail[1..])
  }

  lemma NothingFound(mac: Option<Bytes>)
    ensures Found(mac, []) == None
  {
  }

  /** The frame is that of the first datagram that passes, reached over readable ones only; the datagrams
      before it all fail the filter and are gone, and those after it stay. */
  lemma {:induction false} FirstPassing(mac: Option<Bytes>, mail: seq<Bytes>, i: nat)
    ensures Found(mac, mail).Some? && Taken(mac, mail) == i + 1
       <==> i < |mail| && Passes(mac, mail[i]) && forall l :: 0 <= l < i ==> Readable(mail[l]) && !Passes(mac, mail[l])
    ensures Found(mac, mail).Some? && Taken(mac, mail) == i + 1 ==> Found(mac, mail) == Some(mail[i][1..])
    decreases |mail|
  {
    if mail != [] && Readable(mail[0]) && !Passes(mac, mail[0]) && i > 0 {
      FirstPassing(mac, mail[1..], i - 1);
      assert i < |mail| ==> mail[1..][i - 1] == mail[i];
      if forall l :: 0 <= l < i - 1 && l < |mail[1..]| ==> Readable(mail[1..][l]) && !Passes(mac, mail[1..][l]) {
        forall l | 0 <= l < i && l < |mail| ensures Readable(mail[l]) && !Passes(mac, mail[l]) {
          if l > 0 { assert mail[l] == mail[1..][l - 1]; }
        }
      }
    }
  }

  /** A poll completes exactly when some datagram passes with only readable ones ahead of it. */
  lemma {:induction false} PassingIff(mac: Option<Bytes>, mail: seq<Bytes>)
    ensures Found(mac, mail).Some?
       <==> exists i :: 0 <= i < |mail| && Passes(mac, mail[i]) && forall l :: 0 <= l < i ==> Readable(mail[l])
    decreases |mail|
  {
    if mail != [] && Readable(mail[0]) && !Passes(mac, mail[0]) {
      PassingIff(mac, mail[1..]);
      if Found(mac, mail).Some? {
        var j :| 0 <= j < |mail[1..]| && Passes(mac, mail[1..][j]) && forall l :: 0 <= l < j ==> Readable(mail[1..][l]);
        forall l | 0 <= l < j + 1 ensures Readable(mail[l]) {
          if l > 0 { assert mail[l] == mail[1..][l - 1]; }
        }
        assert Passes(mac, mail[j + 1]);
      }
      if i :| 0 <= i < |mail| && Passes(mac, mail[i]) && forall l :: 0 <= l < i ==> Readable(mail[l]) {
        assert Passes(mac, mail[1..][i - 1]);
      }
    }
  }

  /** When a poll completes nothing it has emptied the socket, or taken everything up to and including the
      first unreadable datagram; all it dropped besides failed the filter. */
  lemma {:induction false} DroppedFailed(mac: Option<Bytes>, mail: seq<Bytes>)
    requires Found(mac, mail).None?
    ensures forall l :: 0 <= l < Taken(mac, mail) - 1 ==> Readable(mail[l]) && !Passes(mac, mail[l])
    ensures Taken(mac, mail) < |mail| ==> Taken(mac, mail) > 0 && !Readable(mail[Taken(mac, mail) - 1])
    ensures Taken(mac, mail) == |mail| > 0 ==> !Passes(mac, mail[|mail| - 1])
    decreases |mail|
  {
    if mail != [] && Readable(mail[0]) {
      DroppedFailed(mac, mail[1..]);
      forall l | 0 <= l < Taken(mac, mail) - 1 ensures Readable(mail[l]) && !Passes(mac, mail[l]) {
        if l > 0 { assert mail[l] == mail[1..][l - 1]; }
      }
    }
  }

  // ---------- The same, on the frame itself ----------

  /** A frame of at least 13 bytes, to a group address (the lowest bit of the first octet is set) or to the address the
      handle was given; without one no frame is. */
  predicate Wanted(mac: Option<Bytes>, f: Bytes) {
    |f| >= 13 && mac.Some? && (f[0] % 2 == 1 || f[..6] == mac.value)
  }

  lemma {:induction false} PassesIs(mac: Option<Bytes>, d: Bytes)
    ensures Passes(mac, d) <==> 14 <= |d| <= 2048 && Wanted(mac, d[1..])
    ensures Readable(d) <==> 14 <= |d| <= 2048
  {
  }

  /** The loop returns the first datagram with a frame the handle wants, reached over datagrams of 14 to 2048 bytes
      only, and has taken it and those before it. */
  lemma {:induction false} FirstMatch(mac: Option<Bytes>, mail: seq<Bytes>, i: nat)
    ensures Found(mac, mail).Some? && Taken(mac, mail) == i + 1
       <==> && i < |mail| && 14 <= |mail[i]| <= 2048 && Wanted(mac, mail[i][1..])
            && forall l :: 0 <= l < i ==> 14 <= |mail[l]| <= 2048 && !Wanted(mac, mail[l][1..])
    ensures Found(mac, mail).Some? && Taken(mac, mail) == i + 1 ==> Found(mac, mail) == Some(mail[i][1..])
  {
    hide Passes, Readable, Found, Taken, Wanted;
    FirstPassing(mac, mail, i);
    forall l | 0 <= l < |mail| ensures Passes(mac, mail[l]) <==> 14 <= |mail[l]| <= 2048 && Wanted(mac, mail[l][1..])
                               ensures Readable(mail[l]) <==> 14 <= |mail[l]| <= 2048
    {
      PassesIs(mac, mail[l]);
    }
  }

  /** A poll completes exactly when some datagram on the socket carries a frame the handle wants, with only datagrams
      of 14 to 2048 bytes ahead of it. */
  lemma {:induction false} CompletesIff(mac: Option<Bytes>, mail: seq<Bytes>)
    ensures Found(mac, mail).Some?
       <==> exists i :: && 0 <= i < |mail| && 14 <= |mail[i]| <= 2048 && Wanted(mac, mail[i][1..])
                        && forall l :: 0 <= l < i ==> 14 <= |mail[l]| <= 2048
  {
    hide Passes, Readable, Found, Wanted;
    PassingIff(mac, mail);
    forall l | 0 <= l < |mail| ensures Passes(mac, mail[l]) <==> 14 <= |mail[l]| <= 2048 && Wanted(mac, mail[l][1..])
                               ensures Readable(mail[l]) <==> 14 <= |mail[l]| <= 2048
    {
      PassesIs(mac, mail[l]);
    }
  }

  /** One readable frame on the socket: to a group address it completes the poll of every handle that was given an
      address; to any other it completes just the polls of handles given its destination. */
  lemma {:induction false} OneFrame(mac: Option<Bytes>, f: Bytes)
    requires 13 <= |f| < 2048
    ensures f[0] % 2 == 1 ==> (Found(mac, [[0] + f]).Some? <==> mac.Some?)
    ensures f[0] % 2 == 0 ==> (Found(mac, [[0] + f]).Some? <==> mac == Some(f[..6]))
    ensures Found(mac, [[0] + f]).Some? ==> Found(mac, [[0] + f]) == Some(f)
  {
    var d: Bytes := [0] + f;
    var mail := [d];
    assert d[1..] == f;
    CompletesIff(mac, mail);
    FirstMatch(mac, mail, 0);
    if Found(mac, mail).Some? { assert Taken(mac, mail) == 1; }
    if Wanted(mac, f) { assert 14 <= |mail[0]| <= 2048 && Wanted(mac, mail[0][1..]); }
  }

  /** When a poll completes nothing it has emptied the socket, or taken everything up to and including the first
      datagram not of 14 to 2048 bytes; no frame it dropped was wanted. */
  lemma {:induction false} WhatIsDropped(mac: Option<Bytes>, mail: seq<Bytes>)
    requires Found(mac, mail).None?
    ensures forall l :: 0 <= l < Taken(mac, mail) - 1 ==> 14 <= |mail[l]| <= 2048 && !Wanted(mac, mail[l][1..])
    ensures var n := Taken(mac, mail);
            && (n < |mail| ==> n > 0 && !(14 <= |mail[n - 1]| <= 2048))
            && (n == |mail| > 0 ==> !(14 <= |mail[n - 1]| <= 2048 && Wanted(mac, mail[n - 1][1..])))
  {
    hide Passes, Readable, Found, Taken, Wanted;
    DroppedFailed(mac, mail);
    forall l | 0 <= l < |mail| ensures Passes(mac, mail[l]) <==> 14 <= |mail[l]| <= 2048 && Wanted(mac, mail[l][1..])
                               ensures Readable(mail[l]) <==> 14 <= |mail[l]| <= 2048
    {
      PassesIs(mac, mail[l]);
    }
  }

  /** A handle whose MAC was never set completes no read. */
  lemma {:induction false} NoFilterNoFrame(mail: seq<Bytes>)
    ensures Found(None, mail) == None
  {
    if mail != [] { NoFilterNoFrame(mail[1..]); }
  }

  /** The length test counts the type byte, so it lets through frames one byte shorter than an Ethernet header. */
  lemma {:induction false} LengthTest(f: Bytes)
    ensures Readable(DataPacket(f)) <==> 13 <= |f| < BUFFER_SIZE
  {
  }

  /** A read's own socket: the datagrams waiting on it, oldest first. */
  class Socket {
    var mail: seq<Bytes>

    constructor ()
      ensures mail == []
    {
      mail := [];
    }

    /** A non-blocking recv; None is an error, which an empty socket and an over-long datagram both are. */
    method Recv() returns (d: Option<Bytes>)
      modifies this
      ensures if old(mail) == [] then d == None && mail == []
              else mail == old(mail)[1..] && d == (if |old(mail)[0]| <= BUFFER_SIZE then Some(old(mail)[0]) else None)
    {
      if mail == [] { return None; }
      d := if |mail[0]| <= BUFFER_SIZE then Some(mail[0]) else None;
      mail := mail[1..];
    }
  }

  /** Header and frame are put together in a local buffer, and as much as the caller has room for is copied. */
  method CopyBlock(frame: Bytes, buffer: array<Byte>, buflen: nat) returns (copyLen: nat)
    requires |frame| < BUFFER_SIZE && buflen <= buffer.Length
    modifies buffer
    ensures copyLen == |Block(frame, buflen)| && buffer[..] == Block(frame, buflen) + old(buffer[copyLen..])
  {
    var outbuf := new Byte[BUFFER_SIZE + HEADER_SIZE];
    WriteHeader(outbuf, |frame|);
    assert outbuf[..HEADER_SIZE] == Header(|frame|);
    CopyInto(outbuf, HEADER_SIZE, frame);
    var total := HEADER_SIZE + |frame|;
    assert outbuf[..total] == Header(|frame|) + frame;
    copyLen := if total < buflen then total else buflen;
    assert Block(frame, buflen) == outbuf[..copyLen];
    CopyInto(buffer, 0, outbuf[..copyLen]);
    assert old(buffer[..0]) == [];
  }

  /** The loop; it ends because every turn takes a datagram off the socket. */
  method ReceiveMatching(sock: Socket, mac: Option<Bytes>, buffer: array<Byte>, buflen: nat)
    returns (completed: bool, copyLen: nat)
    requires buflen <= buffer.Length
    modifies sock, buffer
    ensures sock.mail == old(sock.mail)[Taken(mac, old(sock.mail))..]
    ensures completed <==> Found(mac, old(sock.mail)).Some?
    ensures completed ==>
              var block := Block(Found(mac, old(sock.mail)).value, buflen);
              copyLen == |block| && buffer[..] == block + old(buffer[|block|..])
    ensures !completed ==> copyLen == 0 && buffer[..] == old(buffer[..])
  {
    completed, copyLen := false, 0;
    ghost var n := 0;
    ghost var mail := sock.mail;
    while true
      invariant n <= |mail| && sock.mail == mail[n..] && buffer[..] == old(buffer[..])
      invariant n + Taken(mac, mail[n..]) == Taken(mac, mail) && Found(mac, mail[n..]) == Found(mac, mail)
      decreases |mail| - n
    {
      var d := sock.Recv();
      assert n < |mail| ==> mail[n..][0] == mail[n] && mail[n..][1..] == mail[n + 1..];
      if d.Some? && |d.value| >= SHORTEST {
        var frame := d.value[1..];
        if MacMatches(mac, frame) {
          copyLen := CopyBlock(frame, buffer, buflen);
          completed := true;
          break;
        }
        n := n + 1;
      } else {
        break;
      }
    }
  }
}
