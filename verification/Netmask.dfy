/** Masks and prefix lengths: the count of leading ones on one side of the bridge, the mask builder on the other,
    and the count the adapter emulation makes on the byte-swapped value. */
module Netmask {
  import opened Basics
  import opened Wire

  function Pow2(n: nat): (p: int)
    ensures p >= 1
  {
    if n == 0 then 1 else 2 * Pow2(n - 1)
  }

  lemma MulLe(a: int, b: int, c: int)
    requires a <= b && 0 <= c
    ensures a * c <= b * c
  {
    assert (b - a) * c >= 0;
  }

  lemma {:induction false} Pow2Add(m: nat, n: nat)
    ensures Pow2(m + n) == Pow2(m) * Pow2(n)
  {
    if m > 0 {
      Pow2Add(m - 1, n);
      assert Pow2(m + n) == 2 * (Pow2(m - 1) * Pow2(n)) == (2 * Pow2(m - 1)) * Pow2(n);
    }
  }

  lemma Pow2Double(n: nat)
    ensures Pow2(n + 1) == 2 * Pow2(n)
  {
  }

  lemma {:induction false} Pow2Mono(m: nat, n: nat)
    requires m <= n
    ensures Pow2(m) <= Pow2(n)
    decreases n
  {
    if m < n { Pow2Mono(m, n - 1); }
  }

  lemma Pow2At32()
    ensures Pow2(8) == 0x100 && Pow2(16) == 0x1_0000 && Pow2(24) == 0x100_0000 && Pow2(32) == 0x1_0000_0000
  {
    assert Pow2(8) == 0x100;
    assert Pow2(16) == 0x1_0000;
    assert Pow2(24) == 0x100_0000;
  }

  /** The number of one bits at the top of a w-bit number. */
  function LeadingOnes(m: int, w: nat): (p: nat)
    requires 0 <= m < Pow2(w)
    ensures p <= w
  {
    if w == 0 || m < Pow2(w - 1) then 0 else 1 + LeadingOnes(m - Pow2(w - 1), w - 1)
  }

  /** p ones and then zeros, in w bits. */
  function Contiguous(p: nat, w: nat): (m: int)
    requires p <= w
    ensures 0 <= m < Pow2(w)
  {
    Pow2Mono(w - p, w);
    Pow2(w) - Pow2(w - p)
  }

  lemma {:induction false} LeadingOnesOfContiguous(p: nat, w: nat)
    requires p <= w
    ensures LeadingOnes(Contiguous(p, w), w) == p
    decreases w
  {
    if p > 0 {
      Pow2Mono(w - p, w - 1);
      assert Contiguous(p, w) == Pow2(w - 1) + Contiguous(p - 1, w - 1);
      LeadingOnesOfContiguous(p - 1, w - 1);
    }
  }

  /** Rebuilding from the count gives the ones at the top of the number and nothing else: no mask with one
      more leading one fits under it. */
  lemma {:induction false} LeadingPart(m: int, w: nat)
    requires 0 <= m < Pow2(w)
    ensures var p := LeadingOnes(m, w); Contiguous(p, w) <= m && (p < w ==> m < Contiguous(p + 1, w))
    decreases w
  {
    if w > 0 && m >= Pow2(w - 1) {
      LeadingPart(m - Pow2(w - 1), w - 1);
    }
  }

  // ---------- MaskToPrefix ----------

  predicate Octets(o: Bytes) { |o| == 4 }

  function Word(hi: Byte, a: Byte, b: Byte, lo: Byte): U32 {
    var h: int, x: int, y: int, l: int := hi, a, b, lo;
    h * 0x100_0000 + x * 0x1_0000 + y * 0x100 + l
  }

  /** The four numbers of a dotted mask as one word. */
  function Mask(o: Bytes): U32
    requires Octets(o)
  {
    Word(o[0], o[1], o[2], o[3])
  }

  /** Bitwise or of the k low bits. */
  function OrBits(a: nat, b: nat, k: nat): (c: nat)
    ensures c < Pow2(k)
  {
    if k == 0 then 0 else 2 * OrBits(a / 2, b / 2, k - 1) + if a % 2 == 1 || b % 2 == 1 then 1 else 0
  }

  /** Bitwise or of two bytes. */
  function Or(a: Byte, b: Byte): Byte {
    Pow2At32();
    OrBits(a, b, 8)
  }

  /** What the shifts make of the four numbers as they are read, which nothing keeps below 256: bits beyond the top
      of the word are lost, and what spills into a higher octet is or-ed to it. */
  function TypedMask(ns: seq<U32>): U32
    requires |ns| == 4
  {
    Word(
      Or(Or(Or(ns[0] % 0x100, ns[1] / 0x100 % 0x100), ns[2] / 0x1_0000 % 0x100), ns[3] / 0x100_0000),
      Or(Or(ns[1] % 0x100, ns[2] / 0x100 % 0x100), ns[3] / 0x1_0000 % 0x100),
      Or(ns[2] % 0x100, ns[3] / 0x100 % 0x100),
      ns[3] % 0x100)
  }

  predicate Bit(m: int, k: nat) {
    m / Pow2(k) % 2 == 1
  }

  lemma {:induction false} DivideBack(m: int, d: int, p: int, r: int)
    requires p > 0 && 0 <= r < p && m == d * p + r
    ensures m / p == d
  {
    var q, s := m / p, m % p;
    assert m == q * p + s && 0 <= s < p;
    Apart(d, q, p);
    Apart(q, d, p);
  }

  lemma Apart(a: int, b: int, p: int)
    requires p > 0
    ensures a < b ==> a * p + p <= b * p
  {
    if a < b {
      assert (a + 1) * p == a * p + p;
      MulLe(a + 1, b, p);
    }
  }

  /** What bit k of the mask is: of each number, the bit that the shift brings there. */
  lemma {:induction false} TypedBits(ns: seq<U32>, k: nat)
    requires |ns| == 4 && k < 32
    ensures Bit(TypedMask(ns), k)
       <==> || (k >= 24 && Bit(ns[0], k - 24)) || (k >= 16 && Bit(ns[1], k - 16)) || (k >= 8 && Bit(ns[2], k - 8))
            || Bit(ns[3], k)
  {
    hide Or, Bit, Word, Pow2;
    var i, t := k / 8, k % 8;
    var (a, b, c, d) := (ns[0], ns[1], ns[2], ns[3]);
    var top := Or(Or(Or(a % 0x100, b / 0x100 % 0x100), c / 0x1_0000 % 0x100), d / 0x100_0000);
    var upper := Or(Or(b % 0x100, c / 0x100 % 0x100), d / 0x1_0000 % 0x100);
    var lower := Or(c % 0x100, d / 0x100 % 0x100);
    WordBit(top, upper, lower, d % 0x100, i, t);
    OctetBit(a, 0, t);
    OctetBit(b, 0, t);
    OctetBit(b, 1, t);
    OctetBit(c, 0, t);
    OctetBit(c, 1, t);
    OctetBit(c, 2, t);
    OctetBit(d, 0, t);
    OctetBit(d, 1, t);
    OctetBit(d, 2, t);
    OctetBit(d, 3, t);
    OrBit(a % 0x100, b / 0x100 % 0x100, t);
    OrBit(Or(a % 0x100, b / 0x100 % 0x100), c / 0x1_0000 % 0x100, t);
    OrBit(Or(Or(a % 0x100, b / 0x100 % 0x100), c / 0x1_0000 % 0x100), d / 0x100_0000, t);
    OrBit(b % 0x100, c / 0x100 % 0x100, t);
    OrBit(Or(b % 0x100, c / 0x100 % 0x100), d / 0x1_0000 % 0x100, t);
    OrBit(c % 0x100, d / 0x100 % 0x100, t);
  }

  function Octet(m: U32, i: nat): Byte
    requires i < 4
  {
    if i == 0 then m % 0x100 else if i == 1 then m / 0x100 % 0x100 else if i == 2 then m / 0x1_0000 % 0x100
        else m / 0x100_0000
  }

  lemma {:induction false} WordBit(hi: Byte, a: Byte, b: Byte, lo: Byte, i: nat, t: nat)
    requires i < 4 && t < 8
    ensures Bit(Word(hi, a, b, lo), 8 * i + t) <==> Bit([lo, b, a, hi][i], t)
  {
    hide Bit;
    var w := Word(hi, a, b, lo);
    OctetBit(w, i, t);
    WordOctets(hi, a, b, lo);
  }

  lemma WordOctets(hi: Byte, a: Byte, b: Byte, lo: Byte)
    ensures var w := Word(hi, a, b, lo);
            Octet(w, 0) == lo && Octet(w, 1) == b && Octet(w, 2) == a && Octet(w, 3) == hi
  {
    var h: int, x: int, y: int, l: int := hi, a, b, lo;
    Div8(y + 0x100 * x + 0x1_0000 * h, l);
    Div8(x + 0x100 * h, y);
    Div8(h, x);
    Div16(x + 0x100 * h, l + 0x100 * y);
    Div24(h, l + 0x100 * y + 0x1_0000 * x);
  }

  lemma {:induction false} OctetBit(m: U32, i: nat, t: nat)
    requires i < 4 && t < 8
    ensures Bit(Octet(m, i), t) <==> Bit(m, 8 * i + t)
  {
    hide Bit, Pow2;
    Pow2At32();
    Pow2Zero();
    ShiftBit(m, 8 * i, t);
    var q := m / Pow2(8 * i);
    ModBit(q, 8, t);
    assert Octet(m, i) == q % 0x100;
  }

  lemma Pow2Zero()
    ensures Pow2(0) == 1
  {
  }

  lemma OrBit(a: Byte, b: Byte, t: nat)
    requires t < 8
    ensures Bit(Or(a, b), t) <==> Bit(a, t) || Bit(b, t)
  {
    OrBitsBit(a, b, 8, t);
  }

  lemma {:induction false} OrBitsBit(a: nat, b: nat, w: nat, k: nat)
    requires k < w
    ensures Bit(OrBits(a, b, w), k) <==> Bit(a, k) || Bit(b, k)
    decreases w
  {
    var c := OrBits(a, b, w);
    if k == 0 {
      LowBit(a);
      LowBit(b);
      LowBit(c);
    } else {
      hide Bit;
      assert c / 2 == OrBits(a / 2, b / 2, w - 1);
      HalfBit(a, k);
      HalfBit(b, k);
      HalfBit(c, k);
      OrBitsBit(a / 2, b / 2, w - 1, k - 1);
    }
  }

  lemma LowBit(m: nat)
    ensures Bit(m, 0) <==> m % 2 == 1
  {
    assert Pow2(0) == 1;
  }

  lemma {:induction false} HalfBit(m: nat, k: nat)
    requires k > 0
    ensures Bit(m, k) <==> Bit(m / 2, k - 1)
  {
    DivideHalf(m, k);
  }

  lemma {:induction false} DivideHalf(m: nat, k: nat)
    requires k > 0
    ensures m / Pow2(k) == m / 2 / Pow2(k - 1)
    ensures m % Pow2(k) == 2 * (m / 2 % Pow2(k - 1)) + m % 2
  {
    hide Pow2;
    Pow2Double(k - 1);
    var p := Pow2(k - 1);
    var q, r := m / 2 / p, m / 2 % p;
    assert m / 2 == q * p + r && m == 2 * (m / 2) + m % 2;
    assert q * (2 * p) == 2 * (q * p);
    DivideBack(m, q, 2 * p, 2 * r + m % 2);
    assert m == (m / Pow2(k)) * Pow2(k) + m % Pow2(k);
  }

  lemma {:induction false} ShiftBit(m: nat, j: nat, k: nat)
    ensures Bit(m / Pow2(j), k) <==> Bit(m, k + j)
    decreases j
  {
    hide Bit;
    if j == 0 {
      assert m / Pow2(j) == m;
    } else {
      DivideHalf(m, j);
      ShiftBit(m / 2, j - 1, k);
      HalfBit(m, k + j);
    }
  }

  lemma {:induction false} ModBit(m: nat, j: nat, k: nat)
    requires k < j
    ensures Bit(m % Pow2(j), k) <==> Bit(m, k)
    decreases j
  {
    hide Bit;
    DivideHalf(m, j);
    var x := m % Pow2(j);
    assert x / 2 == m / 2 % Pow2(j - 1) && x % 2 == m % 2;
    if k == 0 {
      LowBit(x);
      LowBit(m);
    } else {
      HalfBit(x, k);
      HalfBit(m, k);
      ModBit(m / 2, j - 1, k - 1);
    }
  }

  lemma {:induction false} OrZeroBits(a: nat, k: nat)
    requires a < Pow2(k)
    ensures OrBits(a, 0, k) == a
  {
    if k > 0 { OrZeroBits(a / 2, k - 1); }
  }

  lemma OrZero(a: Byte)
    ensures Or(a, 0) == a
  {
    Pow2At32();
    OrZeroBits(a, 8);
  }

  /** On octets, that is the mask they spell. */
  lemma {:induction false} TypedOctets(o: Bytes)
    requires Octets(o)
    ensures TypedMask(o) == Mask(o)
  {
    hide Or;
    OrZero(o[0]);
    OrZero(o[1]);
    OrZero(o[2]);
  }

  /** `inet_addr` of the same text on a little-endian machine. */
  function Swapped(o: Bytes): U32
    requires Octets(o)
  {
    Word(o[3], o[2], o[1], o[0])
  }

  lemma Halved(q: int, p: int)
    ensures q * (2 * p) == (2 * q) * p && (2 * q + 1) * p == (2 * q) * p + p
  {
  }

  lemma {:induction false} TopBit(m: int, q: int, r: int, k: nat)
    requires 0 <= r < Pow2(k + 1) && m == q * Pow2(k + 1) + r
    ensures Bit(m, k) <==> r >= Pow2(k)
    ensures r >= Pow2(k) ==> m == (2 * q + 1) * Pow2(k) + (r - Pow2(k))
  {
    hide Pow2;
    var p := Pow2(k);
    Pow2Double(k);
    Halved(q, p);
    if r >= p {
      DivideBack(m, 2 * q + 1, p, r - p);
    } else {
      DivideBack(m, 2 * q, p, r);
    }
  }

  /** The loop both counts share: it tests one bit after the other from the top. */
  method CountLeadingOnes(mask: U32) returns (prefix: nat)
    ensures mask < Pow2(32) && prefix == LeadingOnes(mask, 32)
  {
    hide Pow2, Bit;
    Pow2At32();
    prefix := 0;
    ghost var q, r := 0, mask;
    while prefix < 32 && Bit(mask, 31 - prefix)
      invariant prefix <= 32
      invariant 0 <= r < Pow2(32 - prefix) && mask == q * Pow2(32 - prefix) + r
      invariant prefix + LeadingOnes(r, 32 - prefix) == LeadingOnes(mask, 32)
    {
      Pow2Double(31 - prefix);
      TopBit(mask, q, r, 31 - prefix);
      q, r := 2 * q + 1, r - Pow2(31 - prefix);
      prefix := prefix + 1;
    }
    if prefix < 32 { Pow2Double(31 - prefix); TopBit(mask, q, r, 31 - prefix); }
  }

  /** `MaskToPrefix`, on the four numbers the text gives, if it gives four. */
  method MaskToPrefix(ns: Option<seq<U32>>) returns (prefix: int)
    requires ns.Some? ==> |ns.value| == 4
    ensures ns.None? ==> prefix == -1
    ensures ns.Some? ==> TypedMask(ns.value) < Pow2(32) && prefix == LeadingOnes(TypedMask(ns.value), 32)
  {
    if ns.None? { return -1; }
    prefix := CountLeadingOnes(TypedMask(ns.value));
  }

  /** What inet_addr answers for a text that is no address. */
  const INADDR_NONE: U32 := 0xFFFF_FFFF

  /** The prefix length reported for the adapter's address; a text inet_addr rejects counts as a full mask. */
  method OnLinkPrefixLength(o: Option<Bytes>) returns (prefix: nat)
    requires o.Some? ==> Octets(o.value)
    ensures o.None? ==> prefix == 32
    ensures o.Some? ==> Swapped(o.value) < Pow2(32) && prefix == LeadingOnes(Swapped(o.value), 32)
  {
    if o.None? {
      Pow2At32();
      LeadingOnesOfContiguous(32, 32);
      prefix := CountLeadingOnes(INADDR_NONE);
    } else {
      prefix := CountLeadingOnes(Swapped(o.value));
    }
  }

  // ---------- The bridge's mask ----------

  /** `htonl(~((1ULL << (32 - prefix)) - 1))` cut to 32 bits, or 0 for prefix 0; a shift by a negative amount
      has no defined result. */
  function BridgeMask(prefix: Byte): (m: Option<U32>)
    ensures m.Some? <==> prefix <= 32
  {
    Pow2At32();
    if prefix > 32 then None
    else if prefix == 0 then Some(0)
    else
      Pow2Mono(32 - prefix, 32);
      Some((0x1_0000_0000_0000_0000 - 1 - (Pow2(32 - prefix) - 1)) % 0x1_0000_0000)
  }

  function ToOctets(m: U32): (o: Bytes)
    ensures |o| == 4
  {
    [m / 0x100_0000, m / 0x1_0000 % 0x100, m / 0x100 % 0x100, m % 0x100]
  }

  lemma {:induction false} OctetsRound(m: U32)
    ensures Mask(ToOctets(m)) == m
  {
    var n1, n2 := m / 0x100, m / 0x1_0000;
    assert m == m % 0x100 + 0x100 * n1;
    assert n2 == n1 / 0x100 && n1 == n1 % 0x100 + 0x100 * n2;
    assert m / 0x100_0000 == n2 / 0x100 && n2 == n2 % 0x100 + 0x100 * (n2 / 0x100);
  }

  lemma {:induction false} BridgeMaskIsContiguous(p: Byte)
    requires p <= 32
    ensures Pow2(32) == 0x1_0000_0000 && BridgeMask(p) == Some(Contiguous(p, 32))
  {
    hide Pow2;
    Pow2At32();
    if p > 0 {
      Pow2Mono(32 - p, 32);
      LowWord(Pow2(32 - p));
    } else {
      assert Contiguous(0, 32) == 0;
    }
  }

  lemma LowWord(q: int)
    requires 1 <= q <= 0x1_0000_0000
    ensures (0x1_0000_0000_0000_0000 - 1 - (q - 1)) % 0x1_0000_0000 == (0x1_0000_0000 - q) % 0x1_0000_0000
  {
  }

  /** The two sides agree on every prefix length: counting the bridge's mask gives it back. */
  lemma {:induction false} PrefixMaskPrefix(p: Byte)
    requires p <= 32
    ensures BridgeMask(p).value < Pow2(32) && LeadingOnes(BridgeMask(p).value, 32) == p
  {
    BridgeMaskIsContiguous(p);
    LeadingOnesOfContiguous(p, 32);
  }

  /** Sending a mask through the prefix keeps its leading ones, and is the identity exactly on masks that are
      ones followed by zeros. */
  lemma {:induction false} MaskPrefixMask(m: U32)
    ensures m < Pow2(32)
    ensures var p := LeadingOnes(m, 32);
            var back := BridgeMask(p).value;
            && back == Contiguous(p, 32) <= m && (p < 32 ==> m < Contiguous(p + 1, 32))
            && (back == m <==> exists q: nat :: q <= 32 && m == Contiguous(q, 32))
  {
    Pow2At32();
    var p := LeadingOnes(m, 32);
    BridgeMaskIsContiguous(p);
    LeadingPart(m, 32);
    forall q: nat | q <= 32 && m == Contiguous(q, 32) ensures q == p {
      LeadingOnesOfContiguous(q, 32);
    }
  }

  // ---------- The swapped count ----------

  function Clamp(n: int): (c: nat)
    ensures c <= 8
  {
    if n < 0 then 0 else if n > 8 then 8 else n
  }

  lemma {:induction false} Below(hi: int, lo: int, w: nat, v: nat)
    requires 0 <= hi < Pow2(w) && 0 <= lo < Pow2(v)
    ensures 0 <= hi * Pow2(v) + lo < Pow2(w + v)
  {
    Pow2Add(w, v);
    MulLe(0, hi, Pow2(v));
    MulLe(hi + 1, Pow2(w), Pow2(v));
    assert (hi + 1) * Pow2(v) == hi * Pow2(v) + Pow2(v);
  }

  /** A number whose top w bits are not all ones has as many leading ones as those w bits. */
  lemma {:induction false} LeadingOctet(hi: int, lo: int, w: nat, v: nat)
    requires 0 <= hi < Pow2(w) && 0 <= lo < Pow2(v)
    ensures 0 <= hi * Pow2(v) + lo < Pow2(w + v)
    ensures LeadingOnes(hi, w) < w ==> LeadingOnes(hi * Pow2(v) + lo, w + v) == LeadingOnes(hi, w)
    decreases w
  {
    hide Pow2;
    Below(hi, lo, w, v);
    if w > 0 {
      Pow2Double(w - 1);
      Pow2Double(w - 1 + v);
      Pow2Add(w - 1, v);
      if hi >= Pow2(w - 1) {
        LeadingOctet(hi - Pow2(w - 1), lo, w - 1, v);
        assert hi * Pow2(v) == (hi - Pow2(w - 1)) * Pow2(v) + Pow2(w - 1) * Pow2(v);
      } else {
        Below(hi, lo, w - 1, v);
      }
    }
  }


  /** A mask splits into its first octet and a mask of the rest. */
  lemma {:induction false} ContiguousSplit(p: nat, w: nat)
    requires p <= 8 + w
    ensures Contiguous(p, 8 + w) == Contiguous(Clamp(p), 8) * Pow2(w) + Contiguous(if p < 8 then 0 else p - 8, w)
  {
    hide Pow2;
    Pow2Add(8, w);
    SmallPowers();
    if p < 8 {
      Pow2Add(8 - p, w);
      TimesDifference(Pow2(8), Pow2(8 - p), Pow2(w));
      assert Contiguous(0, w) == 0 && 8 + w - p == 8 - p + w;
    } else {
      TimesDifference(Pow2(8), Pow2(0), Pow2(w));
      assert 8 + w - p == w - (p - 8);
    }
  }

  lemma SmallPowers()
    ensures Pow2(8) == 256 && Pow2(0) == 1
  {
    Pow2At32();
  }

  lemma TimesDifference(a: int, b: int, c: int)
    ensures (a - b) * c == a * c - b * c
  {
  }

  function Beyond(p: nat, n: nat): nat { if p < n then 0 else p - n }

  lemma {:induction false} OctetsOf(m: U32, a: Byte, b: Byte, c: Byte, d: Byte)
    requires m == Word(a, b, c, d)
    ensures ToOctets(m) == [a, b, c, d]
  {
    OctetsRound(m);
    MaskInjective(ToOctets(m), [a, b, c, d]);
  }

  /** The octets of the mask for p are the masks of its share of each octet. */
  lemma {:induction false} ContiguousOctets(p: nat)
    requires p <= 32
    ensures Pow2(32) == 0x1_0000_0000 && Pow2(8) == 0x100
    ensures ToOctets(Contiguous(p, 32))
         == [Contiguous(Clamp(p), 8), Contiguous(Clamp(p - 8), 8), Contiguous(Clamp(p - 16), 8),
             Contiguous(Clamp(p - 24), 8)]
  {
    hide Pow2;
    Pow2At32();
    ContiguousSplit(p, 24);
    ContiguousSplit(Beyond(p, 8), 16);
    ContiguousSplit(Beyond(p, 16), 8);
    OctetsOf(Contiguous(p, 32), Contiguous(Clamp(p), 8), Contiguous(Clamp(p - 8), 8), Contiguous(Clamp(p - 16), 8),
        Contiguous(Clamp(p - 24), 8));
  }

  /** The adapter emulation counts the mask's bytes in the wrong order, and so reports the prefix length only
      when it is 0 or 32. */
  lemma {:induction false} SwappedCountDisagrees(p: Byte)
    requires p <= 32
    ensures var o := ToOctets(BridgeMask(p).value);
            && Swapped(o) < Pow2(32)
            && LeadingOnes(Swapped(o), 32) == (if p == 32 then 32 else if p <= 24 then 0 else p - 24)
            && (LeadingOnes(Swapped(o), 32) == p <==> p == 0 || p == 32)
  {
    hide Pow2, LeadingOnes;
    Pow2At32();
    BridgeMaskIsContiguous(p);
    ContiguousOctets(p);
    var o := ToOctets(Contiguous(p, 32));
    var hi: int := o[3];
    LeadingOctet(hi, Swapped(o) - hi * 0x100_0000, 8, 24);
    LeadingOnesOfContiguous(Clamp(p - 24), 8);
    if p == 32 { LeadingOnesOfContiguous(32, 32); }
  }

  // ---------- Masks as four octets ----------

  /** n ones and then zeros in an octet. */
  function Ones(n: int): Byte {
    [0, 128, 192, 224, 240, 248, 252, 254, 255][if n < 0 then 0 else if n > 8 then 8 else n]
  }

  /** The mask for prefix length p. */
  function MaskOf(p: int): (o: Bytes)
    ensures |o| == 4
  {
    [Ones(p), Ones(p - 8), Ones(p - 16), Ones(p - 24)]
  }

  lemma {:induction false} OnesAre(n: int)
    ensures Ones(n) == Contiguous(Clamp(n), 8)
  {
    var c := Clamp(n);
    assert Pow2(2) == 4 && Pow2(4) == 16 && Pow2(6) == 64 && Pow2(8) == 256;
    match c {
      case 0 => case 1 => case 2 => case 3 => case 4 => case 5 => case 6 => case 7 => case 8 =>
    }
  }

  /** The bridge gives the interface the mask of the prefix length it is sent, octet by octet. */
  lemma {:induction false} BridgeMaskOctets(p: Byte)
    ensures p <= 32 ==> BridgeMask(p).Some? && ToOctets(BridgeMask(p).value) == MaskOf(p)
    ensures p > 32 ==> BridgeMask(p) == None
  {
    hide Contiguous, ToOctets, Ones;
    if p <= 32 {
      BridgeMaskIsContiguous(p);
      ContiguousOctets(p);
      OnesAre(p);
      OnesAre(p - 8);
      OnesAre(p - 16);
      OnesAre(p - 24);
    }
  }

  /** Four octets are ones and then zeros exactly if they are the mask of some prefix length. */
  lemma {:induction false} ContiguousIff(o: Bytes)
    requires Octets(o)
    ensures (exists q: nat :: q <= 32 && Mask(o) == Contiguous(q, 32)) <==> exists p: nat :: p <= 32 && o == MaskOf(p)
    ensures ToOctets(Mask(o)) == o
  {
    hide Contiguous, ToOctets, Mask, MaskOf, BridgeMask;
    OctetsRound(Mask(o));
    MaskInjective(ToOctets(Mask(o)), o);
    forall p: nat | p <= 32
      ensures Mask(o) == Contiguous(p, 32) <==> o == MaskOf(p)
    {
      BridgeMaskIsContiguous(p);
      BridgeMaskOctets(p);
      OctetsRound(BridgeMask(p).value);
    }
  }

  // ---------- Across the three files ----------

  /** A netsh mask's journey: its prefix length in a datagram, decoded by the bridge, made a mask again. The
      interface gets the mask netsh asked for exactly when that mask is ones followed by zeros. */
  lemma {:induction false} NetshMaskReachesInterface(ip: Bytes, m: U32, buf: Bytes)
    requires Octets(ip) && |buf| == BUFFER_SIZE
    ensures m < Pow2(32)
    ensures var p := LeadingOnes(m, 32);
            && Act(buf, Encode(SetIPv4(ip, p))) == Apply(SetIPv4(ip, p))
            && (ToOctets(BridgeMask(p).value) == ToOctets(m) <==> exists q: nat :: q <= 32 && m == Contiguous(q, 32))
  {
    hide Contiguous, LeadingOnes, Act, Encode, ToOctets;
    Pow2At32();
    var p := LeadingOnes(m, 32);
    SettersRoundTrip(SetIPv4(ip, p), buf);
    MaskPrefixMask(m);
    OctetsRound(BridgeMask(p).value);
    OctetsRound(m);
  }

  lemma {:induction false} MaskInjective(a: Bytes, b: Bytes)
    requires Octets(a) && Octets(b)
    ensures Mask(a) == Mask(b) <==> a == b
  {
    if Mask(a) == Mask(b) {
      assert a[0] == b[0] && a[1] == b[1] && a[2] == b[2] && a[3] == b[3];
      assert a == [a[0], a[1], a[2], a[3]] && b == [b[0], b[1], b[2], b[3]];
    }
  }
}
