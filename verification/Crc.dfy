/** The bitwise, reflected CRC loops: `crc32c` of crfs.c and `firmware_crc32` of firmware.c, which differ
    only in the polynomial.  CRC32C is the one of section 12.1 of RFC 3720. */
module Crc {
  /** A 32-bit register. */
  datatype Reg = Reg(bits: bv32)

  type Byte = bv8

  const CRC32C_POLY := Reg(0x82F6_3B78)
  const CRC32_POLY := Reg(0xEDB8_8320)
  const ZERO := Reg(0)
  const ONES := Reg(0xFFFF_FFFF)

  function Xor(a: Reg, b: Reg): (r: Reg) {
    Reg(a.bits ^ b.bits)
  }

  function OfByte(b: Byte): (r: Reg) {
    Reg(b as bv32)
  }

  predicate TopBitSet(a: Reg) {
    a.bits & 0x8000_0000 != 0
  }

  /** One round of the inner loop: shift right, and add the polynomial when a one is shifted out. */
  function Shift(poly: Reg, c: Reg): (r: Reg) {
    Reg((c.bits >> 1) ^ (poly.bits & (0 - (c.bits & 1))))
  }

  function Shifts(poly: Reg, c: Reg, n: nat): (r: Reg)
    decreases n
  {
    if n == 0 then c else Shifts(poly, Shift(poly, c), n - 1)
  }

  /** One round of the outer loop. */
  function Feed(poly: Reg, c: Reg, b: Byte): (r: Reg) {
    Shifts(poly, Xor(c, OfByte(b)), 8)
  }

  function FeedAll(poly: Reg, c: Reg, s: seq<Byte>): (r: Reg)
    decreases |s|
  {
    if s == [] then c else FeedAll(poly, Feed(poly, c, s[0]), s[1..])
  }

  function Checksum(poly: Reg, s: seq<Byte>): (r: Reg) {
    Xor(FeedAll(poly, ONES, s), ONES)
  }

  /** The loops as written. */
  method Compute(poly: Reg, data: array<Byte>) returns (sum: Reg)
    ensures sum == Checksum(poly, data[..])
  {
    hide Shift, Xor, OfByte;
    var crc := ONES;
    assert data[0..] == data[..];
    for i := 0 to data.Length
      invariant FeedAll(poly, crc, data[i..]) == FeedAll(poly, ONES, data[..])
    {
      assert data[i..][0] == data[i] && data[i..][1..] == data[i + 1..];
      ghost var fed := Feed(poly, crc, data[i]);
      crc := Xor(crc, OfByte(data[i]));
      for j := 0 to 8
        invariant Shifts(poly, crc, 8 - j) == fed
      {
        crc := Shift(poly, crc);
      }
    }
    assert data[data.Length..] == [];
    return Xor(crc, ONES);
  }

  // ---- the shift step is linear, and injective when the polynomial has its top bit

  function Half(v: Reg): (r: Reg) {
    Reg(v.bits >> 1)
  }

  predicate Odd(v: Reg) {
    v.bits & 1 == 1
  }

  lemma {:induction false} ShiftLinear(poly: Reg, a: Reg, b: Reg)
    ensures Shift(poly, Xor(a, b)) == Xor(Shift(poly, a), Shift(poly, b))
  {
  }

  lemma {:induction false} ShiftInjective(poly: Reg, a: Reg, b: Reg)
    requires TopBitSet(poly) && Shift(poly, a) == Shift(poly, b)
    ensures a == b
  {
  }

  lemma {:induction false} ShiftsInjective(poly: Reg, a: Reg, b: Reg, n: nat)
    requires TopBitSet(poly) && Shifts(poly, a, n) == Shifts(poly, b, n)
    ensures a == b
    decreases n
  {
    hide Shift, TopBitSet;
    if n > 0 {
      ShiftsInjective(poly, Shift(poly, a), Shift(poly, b), n - 1);
      ShiftInjective(poly, a, b);
    }
  }

  lemma {:induction false} XorLaws(a: Reg, b: Reg, c: Reg)
    ensures Xor(a, Xor(b, c)) == Xor(Xor(a, b), c)
    ensures Xor(a, b) == Xor(b, a)
    ensures Xor(a, ZERO) == a
  {
  }

  lemma {:induction false} XorCancel(c: Reg, v: Reg, w: Reg)
    requires Xor(c, v) == Xor(c, w)
    ensures v == w
  {
    assert c.bits ^ (c.bits ^ v.bits) == v.bits;
    assert c.bits ^ (c.bits ^ w.bits) == w.bits;
  }

  // ---- a message as bits, the low bit of each byte first

  function OfBit(b: bool): (r: Reg) {
    Reg(if b then 1 else 0)
  }

  function Double(v: Reg): (r: Reg) {
    Reg(v.bits << 1)
  }

  /** The `n` low bits of a register. */
  function LowBits(v: Reg, n: nat): (w: seq<bool>)
    ensures |w| == n
    decreases n
  {
    if n == 0 then [] else [Odd(v)] + LowBits(Half(v), n - 1)
  }

  function BitsOf(s: seq<Byte>): (w: seq<bool>)
    ensures |w| == 8 * |s|
    decreases |s|
  {
    if s == [] then [] else LowBits(OfByte(s[0]), 8) + BitsOf(s[1..])
  }

  function FeedBit(poly: Reg, c: Reg, b: bool): (r: Reg) {
    Shift(poly, Xor(c, OfBit(b)))
  }

  function FeedBits(poly: Reg, c: Reg, w: seq<bool>): (r: Reg)
    decreases |w|
  {
    if w == [] then c else FeedBits(poly, FeedBit(poly, c, w[0]), w[1..])
  }

  // ---- up to 32 bits are one register

  /** The bits packed low bit first. */
  function Pack(w: seq<bool>): (r: Reg)
    decreases |w|
  {
    if w == [] then ZERO else Xor(OfBit(w[0]), Double(Pack(w[1..])))
  }

  /** 2^n in 32 bits. */
  function Limit(n: nat): (r: Reg)
    requires n <= 31
    decreases 31 - n
  {
    if n == 31 then Reg(0x8000_0000) else Half(Limit(n + 1))
  }

  predicate Less(a: Reg, b: Reg) {
    a.bits < b.bits
  }

  predicate AtMostTop(a: Reg) {
    a.bits <= 0x8000_0000
  }

  lemma {:induction false} Limit0()
    ensures Less(ZERO, Limit(0))
  {
    assert Limit(24) == Reg(0x100_0000);
    assert Limit(16) == Reg(0x1_0000);
    assert Limit(8) == Reg(0x100);
  }

  lemma {:induction false} HalfBound(a: Reg)
    ensures AtMostTop(Half(a)) && AtMostTop(Reg(0x8000_0000))
  {
  }

  lemma {:induction false} LimitBound(n: nat)
    requires n <= 31
    ensures AtMostTop(Limit(n)) && (n > 0 ==> Limit(n - 1) == Half(Limit(n)))
  {
    hide Half, AtMostTop;
    HalfBound(if n < 31 then Limit(n + 1) else ZERO);
  }

  lemma {:induction false} BelowLimit(v: Reg, l: Reg)
    requires Less(v, l) && AtMostTop(l)
    ensures !TopBitSet(v)
  {
  }

  lemma {:induction false} BelowBits(b: bv32, v: bv32, l: bv32)
    ensures b <= 1 && v < (l >> 1) ==> (b ^ (v << 1)) < l
  {
  }

  lemma {:induction false} PackedBelow(b: bool, v: Reg, l: Reg)
    requires Less(v, Half(l))
    ensures Less(Xor(OfBit(b), Double(v)), l)
  {
    BelowBits(OfBit(b).bits, v.bits, l.bits);
  }

  lemma {:induction false} PackFits(w: seq<bool>)
    requires |w| <= 31
    ensures Less(Pack(w), Limit(|w|)) && !TopBitSet(Pack(w))
    decreases |w|
  {
    hide Xor, OfBit, Double, TopBitSet, Limit, Less, AtMostTop, Half;
    if w == [] {
      Limit0();
    } else {
      PackFits(w[1..]);
      LimitBound(|w|);
      PackedBelow(w[0], Pack(w[1..]), Limit(|w|));
    }
    LimitBound(|w|);
    BelowLimit(Pack(w), Limit(|w|));
  }

  lemma {:induction false} PackedBits(b: bool, c: bool, v: Reg, w: Reg)
    requires !TopBitSet(v) && !TopBitSet(w) && Xor(OfBit(b), Double(v)) == Xor(OfBit(c), Double(w))
    ensures b == c && v == w
  {
  }

  lemma {:induction false} PackInjective(v: seq<bool>, w: seq<bool>)
    requires |v| == |w| <= 32 && Pack(v) == Pack(w)
    ensures v == w
    decreases |v|
  {
    hide Xor, OfBit, Double, TopBitSet;
    if v != [] {
      PackFits(v[1..]);
      PackFits(w[1..]);
      PackedBits(v[0], w[0], Pack(v[1..]), Pack(w[1..]));
      PackInjective(v[1..], w[1..]);
      assert v == [v[0]] + v[1..] && w == [w[0]] + w[1..];
    }
  }

  lemma {:induction false} ShiftOfDoubleBits(p: bv32, v: bv32)
    requires v & 0x8000_0000 == 0
    ensures ((v << 1) >> 1) ^ (p & (0 - ((v << 1) & 1))) == v
  {
  }

  /** A clear low bit is shifted out without touching the polynomial. */
  lemma {:induction false} ShiftOfDouble(poly: Reg, v: Reg)
    requires !TopBitSet(v)
    ensures Shift(poly, Double(v)) == v
  {
    ShiftOfDoubleBits(poly.bits, v.bits);
  }

  /** Feeding up to 32 bits is one long shift of the packed register. */
  lemma {:induction false} FeedIsShifts(poly: Reg, c: Reg, w: seq<bool>)
    requires |w| <= 32
    ensures FeedBits(poly, c, w) == Shifts(poly, Xor(c, Pack(w)), |w|)
    decreases |w|
  {
    hide Shift, Xor, OfBit, Double, TopBitSet;
    if w == [] {
      XorLaws(c, c, c);
    } else {
      var b, p := OfBit(w[0]), Pack(w[1..]);
      PackFits(w[1..]);
      XorLaws(c, b, Double(p));
      ShiftLinear(poly, Xor(c, b), Double(p));
      ShiftOfDouble(poly, p);
      FeedIsShifts(poly, FeedBit(poly, c, w[0]), w[1..]);
    }
  }

  // ---- feeding a byte is feeding its eight bits

  /** Nothing is left of the register after its `n` low bits. */
  predicate Within(v: Reg, n: nat)
    decreases n
  {
    if n == 0 then v == ZERO else Within(Half(v), n - 1)
  }

  lemma {:induction false} LowBitBits(v: bv32)
    ensures (if v & 1 == 1 then 1 else 0) ^ ((v >> 1) << 1) == v
  {
  }

  lemma {:induction false} LowBitAndRest(v: Reg)
    ensures Xor(OfBit(Odd(v)), Double(Half(v))) == v
  {
    LowBitBits(v.bits);
  }

  lemma {:induction false} PackOfLowBits(v: Reg, n: nat)
    requires Within(v, n)
    ensures Pack(LowBits(v, n)) == v
    decreases n
  {
    hide Xor, OfBit, Double, Half, Odd;
    if n > 0 {
      assert LowBits(v, n)[1..] == LowBits(Half(v), n - 1);
      PackOfLowBits(Half(v), n - 1);
      LowBitAndRest(v);
    }
  }

  lemma {:induction false} EightHalves(v: bv32)
    requires v & 0xFFFF_FF00 == 0
    ensures (((((((v >> 1) >> 1) >> 1) >> 1) >> 1) >> 1) >> 1) >> 1 == 0
  {
  }

  lemma {:induction false} ByteWithin(b: Byte)
    ensures Within(OfByte(b), 8) && Pack(LowBits(OfByte(b), 8)) == OfByte(b)
  {
    var v := OfByte(b);
    assert v.bits & 0xFFFF_FF00 == 0;
    EightHalves(v.bits);
    var v4 := Half(Half(Half(Half(v))));
    var v8 := Half(Half(Half(Half(v4))));
    assert v8 == ZERO && Within(v8, 0);
    assert Within(Half(Half(v4)), 2);
    assert Within(v4, 4);
    assert Within(Half(Half(v)), 6);
    PackOfLowBits(v, 8);
  }

  lemma {:induction false} FeedBitsConcat(poly: Reg, c: Reg, v: seq<bool>, w: seq<bool>)
    ensures FeedBits(poly, c, v + w) == FeedBits(poly, FeedBits(poly, c, v), w)
    decreases |v|
  {
    hide FeedBit;
    if v == [] {
      assert v + w == w;
    } else {
      assert (v + w)[1..] == v[1..] + w;
      FeedBitsConcat(poly, FeedBit(poly, c, v[0]), v[1..], w);
    }
  }

  /** The byte loop feeds the bits of the message. */
  lemma {:induction false} FeedAllIsBits(poly: Reg, c: Reg, s: seq<Byte>)
    ensures FeedAll(poly, c, s) == FeedBits(poly, c, BitsOf(s))
    decreases |s|
  {
    hide Shifts, Xor, OfByte, Pack, FeedBits, LowBits;
    if s == [] {
      FeedNoBits(poly, c);
    } else {
      var w := LowBits(OfByte(s[0]), 8);
      ByteWithin(s[0]);
      FeedIsShifts(poly, c, w);
      FeedBitsConcat(poly, c, w, BitsOf(s[1..]));
      FeedAllIsBits(poly, Feed(poly, c, s[0]), s[1..]);
    }
  }

  lemma {:induction false} FeedNoBits(poly: Reg, c: Reg)
    ensures FeedBits(poly, c, []) == c
  {
  }

  lemma {:induction false} OfByteInjective(b: Byte, c: Byte)
    requires OfByte(b) == OfByte(c)
    ensures b == c
  {
  }

  lemma {:induction false} BitsOfInjective(s: seq<Byte>, t: seq<Byte>)
    requires |s| == |t| && BitsOf(s) == BitsOf(t)
    ensures s == t
    decreases |s|
  {
    hide OfByte, LowBits, Pack;
    if s != [] {
      var a, b := LowBits(OfByte(s[0]), 8), LowBits(OfByte(t[0]), 8);
      assert a == BitsOf(s)[..8] && b == BitsOf(t)[..8];
      assert BitsOf(s[1..]) == BitsOf(s)[8..] && BitsOf(t[1..]) == BitsOf(t)[8..];
      ByteWithin(s[0]);
      ByteWithin(t[0]);
      OfByteInjective(s[0], t[0]);
      BitsOfInjective(s[1..], t[1..]);
      assert s == [s[0]] + s[1..] && t == [t[0]] + t[1..];
    }
  }

  // ---- a message followed by its checksum

  /** The register after `n` shifts to the right. */
  function Halves(v: Reg, n: nat): (r: Reg)
    decreases n
  {
    if n == 0 then v else Halves(Half(v), n - 1)
  }

  lemma {:induction false} LowBitsSplit(v: Reg, m: nat, n: nat)
    ensures LowBits(v, m + n) == LowBits(v, m) + LowBits(Halves(v, m), n)
    decreases m
  {
    hide Half, Odd;
    if m > 0 {
      LowBitsSplit(Half(v), m - 1, n);
    }
  }

  function Half2(v: Reg): (r: Reg) {
    Reg(v.bits >> 2)
  }

  function Half4(v: Reg): (r: Reg) {
    Reg(v.bits >> 4)
  }

  function Half8(v: Reg): (r: Reg) {
    Reg(v.bits >> 8)
  }

  lemma {:induction false} TwoHalves(v: Reg)
    ensures Half(Half(v)) == Half2(v)
  {
  }

  lemma {:induction false} FourHalves(v: Reg)
    ensures Half2(Half2(v)) == Half4(v)
  {
  }

  lemma {:induction false} EightHalvesOf(v: Reg)
    ensures Half4(Half4(v)) == Half8(v)
  {
  }

  lemma {:induction false} AllHalves(v: Reg)
    ensures Half8(Half8(Half8(Half8(v)))) == ZERO
  {
  }

  lemma {:induction false} ByteOff(v: Reg)
    ensures Halves(v, 8) == Half8(v)
  {
    hide Half, Half2, Half4, Half8;
    var v2, v4 := Half2(v), Half4(v);
    var v6 := Half2(v4);
    TwoHalves(v);
    TwoHalves(v2);
    TwoHalves(v4);
    TwoHalves(v6);
    FourHalves(v);
    FourHalves(v4);
    EightHalvesOf(v);
    assert Halves(v, 8) == Halves(Half(Half(v)), 6);
    assert Halves(v2, 6) == Halves(Half(Half(v2)), 4);
    assert Halves(v4, 4) == Halves(Half(Half(v4)), 2);
  }

  function LowByte(v: Reg): (b: Byte) {
    (v.bits & 0xFF) as Byte
  }

  /** The bytes of a register as they are stored, low byte first. */
  function Stored(v: Reg): (s: seq<Byte>)
    ensures |s| == 4
  {
    [LowByte(v), LowByte(Half8(v)), LowByte(Half8(Half8(v))), LowByte(Half8(Half8(Half8(v))))]
  }

  lemma {:induction false} WithinAfter(v: Reg, m: nat, n: nat)
    requires Within(Halves(v, m), n)
    ensures Within(v, m + n)
    decreases m
  {
    hide Half;
    if m > 0 {
      WithinAfter(Half(v), m - 1, n);
    }
  }

  /** `mask` has the `n` lowest bits set. */
  predicate LowOnes(mask: Reg, n: nat) {
    mask.bits == match n
                 case 0 => 0 case 1 => 1 case 2 => 3 case 3 => 7 case 4 => 15
                 case 5 => 31 case 6 => 63 case 7 => 127 case _ => 255
  }

  predicate Agree(v: Reg, w: Reg, mask: Reg) {
    v.bits & mask.bits == w.bits & mask.bits
  }

  lemma {:induction false} NextOnes(mask: Reg, n: nat)
    requires 0 < n <= 8 && LowOnes(mask, n)
    ensures Odd(mask) && LowOnes(Half(mask), n - 1)
  {
  }

  lemma {:induction false} NextAgree(v: Reg, w: Reg, mask: Reg)
    requires Odd(mask) && Agree(v, w, mask)
    ensures Odd(v) == Odd(w) && Agree(Half(v), Half(w), Half(mask))
  {
  }

  /** Registers that agree under a mask of low ones have the same low bits. */
  lemma {:induction false} SameLowBits(v: Reg, w: Reg, n: nat, mask: Reg)
    requires n <= 8 && LowOnes(mask, n) && Agree(v, w, mask)
    ensures LowBits(v, n) == LowBits(w, n)
    decreases n
  {
    hide LowOnes, Agree, Odd, Half;
    if n > 0 {
      NextOnes(mask, n);
      NextAgree(v, w, mask);
      SameLowBits(Half(v), Half(w), n - 1, Half(mask));
    }
  }

  lemma {:induction false} LowByteMask(v: Reg)
    ensures Agree(OfByte(LowByte(v)), v, Reg(0xFF)) && LowOnes(Reg(0xFF), 8)
  {
  }

  /** The low byte and what is above it. */
  lemma {:induction false} ByteAndRest(v: Reg, n: nat)
    ensures LowBits(v, 8 + n) == LowBits(OfByte(LowByte(v)), 8) + LowBits(Half8(v), n)
    ensures Within(Half8(v), n) ==> Within(v, 8 + n)
  {
    hide LowBits, OfByte, LowByte, Halves, Half, Half8, Within, Agree, LowOnes;
    ByteOff(v);
    LowBitsSplit(v, 8, n);
    LowByteMask(v);
    SameLowBits(OfByte(LowByte(v)), v, 8, Reg(0xFF));
    if Within(Half8(v), n) {
      WithinAfter(v, 8, n);
    }
  }

  lemma {:induction false} FourBytes(s: seq<Byte>)
    requires |s| == 4
    ensures BitsOf(s) == LowBits(OfByte(s[0]), 8) + (LowBits(OfByte(s[1]), 8) +
                           (LowBits(OfByte(s[2]), 8) + LowBits(OfByte(s[3]), 8)))
  {
    hide LowBits, OfByte;
    assert s[1..][1..] == s[2..] && s[2..][1..] == s[3..] && s[3..][1..] == [];
    assert BitsOf(s[3..]) == LowBits(OfByte(s[3]), 8) + BitsOf([]);
    assert BitsOf(s[2..]) == LowBits(OfByte(s[2]), 8) + BitsOf(s[3..]);
    assert BitsOf(s[1..]) == LowBits(OfByte(s[1]), 8) + BitsOf(s[2..]);
  }

  /** The stored bytes carry the bits of the register in order. */
  lemma {:induction false} StoredBits(v: Reg)
    ensures BitsOf(Stored(v)) == LowBits(v, 32) && Pack(LowBits(v, 32)) == v
  {
    hide LowBits, OfByte, LowByte, Half, Half8, Within, Pack, BitsOf;
    var v1, v2, v3 := Half8(v), Half8(Half8(v)), Half8(Half8(Half8(v)));
    FourBytes(Stored(v));
    ByteAndRest(v, 24);
    ByteAndRest(v1, 16);
    ByteAndRest(v2, 8);
    ByteAndRest(v3, 0);
    AllHalves(v);
    NothingLeft();
    PackOfLowBits(v, 32);
  }

  lemma {:induction false} NothingLeft()
    ensures Within(ZERO, 0) && LowBits(ZERO, 0) == []
  {
  }

  lemma {:induction false} FeedAllConcat(poly: Reg, c: Reg, s: seq<Byte>, t: seq<Byte>)
    ensures FeedAll(poly, c, s + t) == FeedAll(poly, FeedAll(poly, c, s), t)
    decreases |s|
  {
    hide Feed;
    if s == [] {
      assert s + t == t;
    } else {
      assert (s + t)[1..] == s[1..] + t;
      FeedAllConcat(poly, Feed(poly, c, s[0]), s[1..], t);
    }
  }

  /** Whatever the message, feeding the complement of the register leaves the same register. */
  lemma {:induction false} FeedComplement(poly: Reg, c: Reg)
    ensures FeedAll(poly, c, Stored(Xor(c, ONES))) == Shifts(poly, ONES, 32)
  {
    hide Shifts, Xor, FeedBits, FeedAll, LowBits, Pack, Stored, BitsOf;
    var v := Xor(c, ONES);
    FeedAllIsBits(poly, c, Stored(v));
    StoredBits(v);
    FeedIsShifts(poly, c, LowBits(v, 32));
    XorBoth(c);
  }

  lemma {:induction false} XorBoth(c: Reg)
    ensures Xor(c, Xor(c, ONES)) == ONES
  {
  }

  lemma {:induction false} ShiftsAdd(poly: Reg, c: Reg, m: nat, n: nat)
    ensures Shifts(poly, c, m + n) == Shifts(poly, Shifts(poly, c, m), n)
    decreases m
  {
    hide Shift;
    if m > 0 {
      ShiftsAdd(poly, Shift(poly, c), m - 1, n);
    }
  }

  /** Eight shifts, on numbers. */
  lemma {:induction false} EightShifts(poly: Reg, c: Reg)
    ensures Shifts(poly, c, 8) ==
              Shift(poly, Shift(poly, Shift(poly, Shift(poly, Shift(poly, Shift(poly, Shift(poly, Shift(poly, c))))))))
  {
    hide Shift;
    var d := Shift(poly, Shift(poly, Shift(poly, Shift(poly, c))));
    assert Shifts(poly, c, 8) == Shifts(poly, d, 4);
  }

  lemma {:induction false} CastagnoliResidue()
    ensures Shifts(CRC32C_POLY, ONES, 32) == Reg(0xB798_B438)
  {
    hide Shifts;
    EightShifts(CRC32C_POLY, Reg(0xFFFF_FFFF));
    EightShifts(CRC32C_POLY, Reg(0xAD82_ACAE));
    EightShifts(CRC32C_POLY, Reg(0xE9E_882D));
    EightShifts(CRC32C_POLY, Reg(0x9F9B_5C85));
    assert Shifts(CRC32C_POLY, Reg(0xFFFF_FFFF), 8) == Reg(0xAD82_ACAE);
    assert Shifts(CRC32C_POLY, Reg(0xAD82_ACAE), 8) == Reg(0xE9E_882D);
    assert Shifts(CRC32C_POLY, Reg(0xE9E_882D), 8) == Reg(0x9F9B_5C85);
    assert Shifts(CRC32C_POLY, Reg(0x9F9B_5C85), 8) == Reg(0xB798_B438);
    ShiftsAdd(CRC32C_POLY, ONES, 8, 24);
    ShiftsAdd(CRC32C_POLY, Reg(0xAD82_ACAE), 8, 16);
    ShiftsAdd(CRC32C_POLY, Reg(0xE9E_882D), 8, 8);
  }

  lemma {:induction false} EthernetResidue()
    ensures Shifts(CRC32_POLY, ONES, 32) == Reg(0xDEBB_20E3)
  {
    hide Shifts;
    EightShifts(CRC32_POLY, Reg(0xFFFF_FFFF));
    EightShifts(CRC32_POLY, Reg(0x2DFD_1072));
    EightShifts(CRC32_POLY, Reg(0xBE26_ED00));
    EightShifts(CRC32_POLY, Reg(0xBE_26ED));
    assert Shifts(CRC32_POLY, Reg(0xFFFF_FFFF), 8) == Reg(0x2DFD_1072);
    assert Shifts(CRC32_POLY, Reg(0x2DFD_1072), 8) == Reg(0xBE26_ED00);
    assert Shifts(CRC32_POLY, Reg(0xBE26_ED00), 8) == Reg(0xBE_26ED);
    assert Shifts(CRC32_POLY, Reg(0xBE_26ED), 8) == Reg(0xDEBB_20E3);
    ShiftsAdd(CRC32_POLY, ONES, 8, 24);
    ShiftsAdd(CRC32_POLY, Reg(0x2DFD_1072), 8, 16);
    ShiftsAdd(CRC32_POLY, Reg(0xBE26_ED00), 8, 8);
  }

  /** The checksum of a message with its own checksum stored behind it, low byte first, is the same for every
      message: a fixed number for each of the two polynomials. */
  lemma {:induction false} SumOfStored(s: seq<Byte>)
    ensures Checksum(CRC32C_POLY, s + Stored(Checksum(CRC32C_POLY, s))) == Reg(0x4867_4BC7)
    ensures Checksum(CRC32_POLY, s + Stored(Checksum(CRC32_POLY, s))) == Reg(0x2144_DF1C)
  {
    hide Shifts, FeedAll, Stored;
    FeedAllConcat(CRC32C_POLY, ONES, s, Stored(Checksum(CRC32C_POLY, s)));
    FeedAllConcat(CRC32_POLY, ONES, s, Stored(Checksum(CRC32_POLY, s)));
    FeedComplement(CRC32C_POLY, FeedAll(CRC32C_POLY, ONES, s));
    FeedComplement(CRC32_POLY, FeedAll(CRC32_POLY, ONES, s));
    CastagnoliResidue();
    EthernetResidue();
  }

  /** Two values that fix the start and the end: the checksum of no byte, and that of one zero byte. */
  lemma {:induction false} SmallSums(poly: Reg)
    ensures Checksum(poly, []) == Reg(0)
    ensures Checksum(CRC32C_POLY, [0]) == Reg(0x527D_5351) && Checksum(CRC32_POLY, [0]) == Reg(0xD202_EF8D)
  {
    hide Shifts;
    assert Checksum(poly, []) == Xor(ONES, ONES);
    FeedOne(CRC32C_POLY);
    FeedOne(CRC32_POLY);
    EightShifts(CRC32C_POLY, ONES);
    EightShifts(CRC32_POLY, ONES);
    assert Shifts(CRC32C_POLY, ONES, 8) == Reg(0xAD82_ACAE);
    assert Shifts(CRC32_POLY, ONES, 8) == Reg(0x2DFD_1072);
  }

  lemma {:induction false} FeedOne(poly: Reg)
    ensures FeedAll(poly, ONES, [0]) == Shifts(poly, ONES, 8)
  {
    hide Shifts;
    var s: seq<Byte> := [0];
    assert s[1..] == [] && Xor(ONES, OfByte(0)) == ONES;
    assert FeedAll(poly, ONES, s) == FeedAll(poly, Feed(poly, ONES, 0), []);
  }

  // ---- burst detection

  /** Different registers stay different while the same bits are fed. */
  lemma {:induction false} FeedInjective(poly: Reg, c: Reg, d: Reg, w: seq<bool>)
    requires TopBitSet(poly) && FeedBits(poly, c, w) == FeedBits(poly, d, w)
    ensures c == d
    decreases |w|
  {
    hide Shift, Xor, OfBit, TopBitSet;
    if w != [] {
      var b := OfBit(w[0]);
      FeedInjective(poly, FeedBit(poly, c, w[0]), FeedBit(poly, d, w[0]), w[1..]);
      ShiftInjective(poly, Xor(c, b), Xor(d, b));
      XorLaws(c, b, b);
      XorLaws(d, b, b);
      XorCancel(b, c, d);
    }
  }

  /** Different windows of up to 32 bits lead to different registers, whatever stands before and after. */
  lemma {:induction false} WindowSeen(poly: Reg, c: Reg, before: seq<bool>, w: seq<bool>, v: seq<bool>,
                                      after: seq<bool>)
    requires TopBitSet(poly) && |w| == |v| <= 32
    requires FeedBits(poly, c, before + w + after) == FeedBits(poly, c, before + v + after)
    ensures w == v
  {
    hide FeedBits, Shifts, Pack, Xor, TopBitSet;
    var d := FeedBits(poly, c, before);
    FeedBitsConcat(poly, c, before + w, after);
    FeedBitsConcat(poly, c, before + v, after);
    FeedBitsConcat(poly, c, before, w);
    FeedBitsConcat(poly, c, before, v);
    FeedInjective(poly, FeedBits(poly, d, w), FeedBits(poly, d, v), after);
    FeedIsShifts(poly, d, w);
    FeedIsShifts(poly, d, v);
    ShiftsInjective(poly, Xor(d, Pack(w)), Xor(d, Pack(v)), |w|);
    XorCancel(d, Pack(w), Pack(v));
    PackInjective(w, v);
  }

  lemma {:induction false} SplitAt(s: seq<bool>, i: nat, j: nat)
    requires i <= j <= |s|
    ensures s == s[..i] + s[i..j] + s[j..]
  {
  }

  lemma {:induction false} SameSum(poly: Reg, s: seq<Byte>, t: seq<Byte>)
    requires Checksum(poly, s) == Checksum(poly, t)
    ensures FeedBits(poly, ONES, BitsOf(s)) == FeedBits(poly, ONES, BitsOf(t))
  {
    hide FeedAll, FeedBits, Xor;
    var x, y := FeedAll(poly, ONES, s), FeedAll(poly, ONES, t);
    XorLaws(x, ONES, ONES);
    XorLaws(y, ONES, ONES);
    XorCancel(ONES, x, y);
    FeedAllIsBits(poly, ONES, s);
    FeedAllIsBits(poly, ONES, t);
  }

  /** Burst detection: two messages that differ, but whose bits agree outside 32 consecutive positions, have
      different checksums.  The burst may start at any bit, and so reach over five bytes. */
  lemma {:induction false} BurstOfBits(poly: Reg, s: seq<Byte>, t: seq<Byte>, i: nat)
    requires TopBitSet(poly)
    requires |s| == |t| && s != t && i <= 8 * |s|
    requires forall k :: 0 <= k < 8 * |s| && !(i <= k < i + 32) ==> BitsOf(s)[k] == BitsOf(t)[k]
    ensures Checksum(poly, s) != Checksum(poly, t)
  {
    hide Checksum, TopBitSet, BitsOf, FeedBits;
    if Checksum(poly, s) == Checksum(poly, t) {
      var v, w := BitsOf(s), BitsOf(t);
      var j: nat := if i + 32 <= |v| then i + 32 else |v|;
      assert v[..i] == w[..i] && v[j..] == w[j..];
      SplitAt(v, i, j);
      SplitAt(w, i, j);
      SameSum(poly, s, t);
      WindowSeen(poly, ONES, v[..i], v[i..j], w[i..j], v[j..]);
      BitsOfInjective(s, t);
    }
  }

  lemma {:induction false} BitsOfAt(s: seq<Byte>, k: nat)
    requires k < 8 * |s|
    ensures BitsOf(s)[k] == LowBits(OfByte(s[k / 8]), 8)[k % 8]
    decreases |s|
  {
    hide LowBits, OfByte;
    if k >= 8 {
      BitsOfAt(s[1..], k - 8);
    }
  }

  /** In particular when the bytes agree outside positions `i` to `i + 3`. */
  lemma {:induction false} BurstInMessage(poly: Reg, s: seq<Byte>, t: seq<Byte>, i: nat)
    requires TopBitSet(poly)
    requires |s| == |t| && i <= |s| && s != t
    requires forall k :: 0 <= k < |s| && !(i <= k < i + 4) ==> s[k] == t[k]
    ensures Checksum(poly, s) != Checksum(poly, t)
  {
    hide Checksum, TopBitSet, BitsOf, LowBits, OfByte;
    forall k | 0 <= k < 8 * |s| && !(8 * i <= k < 8 * i + 32) ensures BitsOf(s)[k] == BitsOf(t)[k] {
      BitsOfAt(s, k);
      BitsOfAt(t, k);
    }
    BurstOfBits(poly, s, t, 8 * i);
  }

  /** Both polynomials of the kernel have their top bit set. */
  lemma {:induction false} KernelPolynomials()
    ensures TopBitSet(CRC32C_POLY) && TopBitSet(CRC32_POLY)
  {
  }

  /** The converse: with the top bit clear the shift step merges two registers. */
  lemma {:induction false} TopBitNeeded(poly: Reg)
    requires !TopBitSet(poly)
    ensures exists a, b :: a != b && Shift(poly, a) == Shift(poly, b)
  {
    var a := Reg((poly.bits << 1) | 1);
    assert Shift(poly, a) == Shift(poly, ZERO) && a != ZERO;
  }
}
