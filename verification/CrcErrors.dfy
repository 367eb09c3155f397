/** What CRC_16 detects: an exact characterisation of undetected errors, and from it bursts,
    odd numbers of flips, splitting and appended check bytes, for messages of any length. */
module CrcErrors {
  import opened Division
  import opened Crc16

  /** The bits in which two messages of equal length differ. */
  function Difference(m1: seq<bv8>, m2: seq<bv8>): (d: Bitstring)
    requires |m1| == |m2|
    ensures |d| == 8 * |m1|
  {
    Xor(Bits(m1), Bits(m2))
  }

  lemma SwapInjective(a: bv16, b: bv16)
    requires Swap(a) == Swap(b)
    ensures a == b
  {
    SwapTwice(a);
    SwapTwice(b);
  }

  /** From any start register, equal registers after two messages mean that the difference,
      fed into the zero register, vanishes. */
  lemma DifferenceDecides(reg: Bitstring, s: Bitstring, t: Bitstring)
    requires |reg| == 16 && |s| == |t|
    ensures Feed(reg, s) == Feed(reg, t) <==> Feed(Zeros(16), Xor(s, t)) == Zeros(16)
  {
    FeedIsLinear(reg, reg, s, t);
    XorIsZero(reg, reg);
    XorIsZero(Feed(reg, s), Feed(reg, t));
  }

  lemma CrcsAgree(crc: bv16, m1: seq<bv8>, m2: seq<bv8>)
    requires |m1| == |m2|
    ensures Crc(crc, m1) == Crc(crc, m2) <==> Feed(Zeros(16), Difference(m1, m2)) == Zeros(16)
  {
    LoopIsBitSerial(crc, m1);
    LoopIsBitSerial(crc, m2);
    DifferenceDecides(RegBits(crc), Bits(m1), Bits(m2));
    if Crc(crc, m1) == Crc(crc, m2) {
      SwapInjective(CrcLoop(crc, m1), CrcLoop(crc, m2));
    }
    if RegBits(CrcLoop(crc, m1)) == RegBits(CrcLoop(crc, m2)) {
      RegBitsInjective(CrcLoop(crc, m1), CrcLoop(crc, m2));
    }
  }

  lemma PlainDividend(d: Bitstring)
    ensures Dividend(Zeros(16), d) == d + Zeros(16)
  {
  }

  /** An error is undetected exactly when the polynomial divides it, whatever the start value. */
  lemma UndetectedIffDivisible(crc: bv16, m1: seq<bv8>, m2: seq<bv8>)
    requires |m1| == |m2|
    ensures Crc(crc, m1) == Crc(crc, m2) <==> Remainder(Difference(m1, m2) + Zeros(16)) == Zeros(16)
  {
    var d := Difference(m1, m2);
    CrcsAgree(crc, m1, m2);
    FeedIsRemainder(Zeros(16), d);
    PlainDividend(d);
  }

  // ----- Bursts -----

  lemma {:induction false} BitsInjective(m1: seq<bv8>, m2: seq<bv8>)
    requires |m1| == |m2| && Bits(m1) == Bits(m2)
    ensures m1 == m2
    decreases |m1|
  {
    if m1 != [] {
      assert Bits(m1)[..8] == ByteBits(m1[0]) && Bits(m2)[..8] == ByteBits(m2[0]);
      assert Bits(m1)[8..] == Bits(m1[1..]) && Bits(m2)[8..] == Bits(m2[1..]);
      ByteBitsInjective(m1[0], m2[0]);
      BitsInjective(m1[1..], m2[1..]);
    }
  }

  lemma ByteBitsInjective(a: bv8, b: bv8)
    requires ByteBits(a) == ByteBits(b)
    ensures a == b
  {
    HighByteBits(a);
    HighByteBits(b);
    RegBitsInjective((a as bv16) << 8, (b as bv16) << 8);
    HighByteInjective(a, b);
  }

  lemma HighByteInjective(a: bv8, b: bv8)
    requires (a as bv16) << 8 == (b as bv16) << 8
    ensures a == b
  {
  }

  /** Zeros around some bits do not change whether the zero register ends at zero. */
  lemma SurroundedBits(before: nat, middle: Bitstring, after: nat)
    ensures Feed(Zeros(16), Zeros(before) + middle + Zeros(after)) == Zeros(16) <==>
      Feed(Zeros(16), middle) == Zeros(16)
  {
    FeedZeros(before);
    FeedSplit(Zeros(16), Zeros(before), middle);
    FeedSplit(Zeros(16), Zeros(before) + middle, Zeros(after));
    ZeroStaysZeroOnly(Feed(Zeros(16), middle), after);
  }

  /** A difference confined to `burst` leaves the zero register non-zero. */
  lemma BurstLeavesMark(before: nat, burst: Bitstring, after: nat)
    requires |burst| <= 16 && !IsZero(burst)
    ensures Feed(Zeros(16), Zeros(before) + burst + Zeros(after)) != Zeros(16)
  {
    ShortBurstIsSeen(burst);
    SurroundedBits(before, burst, after);
  }

  lemma WindowSplit(d: Bitstring, at: nat) returns (before: nat, burst: Bitstring, after: nat)
    requires forall i :: 0 <= i < |d| && !(at <= i < at + 16) ==> !d[i]
    ensures d == Zeros(before) + burst + Zeros(after) && |burst| <= 16
  {
    before := if at < |d| then at else |d|;
    var hi := if at + 16 < |d| then at + 16 else |d|;
    burst := d[before..hi];
    after := |d| - hi;
  }

  lemma ZeroInside(before: nat, burst: Bitstring, after: nat)
    requires IsZero(burst)
    ensures IsZero(Zeros(before) + burst + Zeros(after))
  {
  }

  lemma BurstInWindow(d: Bitstring, at: nat)
    requires !IsZero(d)
    requires forall i :: 0 <= i < |d| && !(at <= i < at + 16) ==> !d[i]
    ensures Feed(Zeros(16), d) != Zeros(16)
  {
    var before, burst, after := WindowSplit(d, at);
    if IsZero(burst) {
      ZeroInside(before, burst, after);
      assert false;
    }
    BurstLeavesMark(before, burst, after);
  }

  /** Two different messages of equal length that differ only inside some window of sixteen
      consecutive bits, byte-aligned or not, never share a CRC. */
  lemma BurstDetected(crc: bv16, m1: seq<bv8>, m2: seq<bv8>, at: nat)
    requires |m1| == |m2| && m1 != m2
    requires forall i :: 0 <= i < 8 * |m1| && !(at <= i < at + 16) ==> Bits(m1)[i] == Bits(m2)[i]
    ensures Crc(crc, m1) != Crc(crc, m2)
  {
    var d := Difference(m1, m2);
    if IsZero(d) {
      forall i | 0 <= i < |d|
        ensures Bits(m1)[i] == Bits(m2)[i]
      {
        assert !d[i];
      }
      assert Bits(m1) == Bits(m2);
      BitsInjective(m1, m2);
    }
    BurstInWindow(d, at);
    CrcsAgree(crc, m1, m2);
  }

  /** Sixteen is the limit: a seventeen-bit burst in the shape of the divisor goes unseen,
      at every position of every message. */
  lemma SeventeenBitBurstUndetected(crc: bv16, m1: seq<bv8>, m2: seq<bv8>, at: nat)
    requires |m1| == |m2| && at + 17 <= 8 * |m1|
    requires Difference(m1, m2) == Zeros(at) + [true] + Poly() + Zeros(8 * |m1| - at - 17)
    ensures m1 != m2 && Crc(crc, m1) == Crc(crc, m2)
  {
    var divisor := [true] + Poly();
    assert Difference(m1, m2) == Zeros(at) + divisor + Zeros(8 * |m1| - at - 17);
    assert Difference(m1, m2)[at];
    SurroundedBits(at, divisor, 8 * |m1| - at - 17);
    DivisorVanishes();
    CrcsAgree(crc, m1, m2);
  }

  lemma DivisorVanishes()
    ensures Feed(Zeros(16), [true] + Poly()) == Zeros(16)
  {
    assert ([true] + Poly())[1..] == Poly();
    assert Shift(Zeros(16), true) == Poly();
    FeedIsXorThenStep(Poly(), Poly());
    assert Xor(Poly(), Poly() + Zeros(0)) == Zeros(16);
    FeedZeros(16);
  }

  // ----- Odd numbers of flipped bits -----

  function Flips(s: Bitstring, t: Bitstring): nat
    requires |s| == |t|
    decreases |s|
  {
    if s == [] then 0 else (if s[0] != t[0] then 1 else 0) + Flips(s[1..], t[1..])
  }

  lemma {:induction false} FlipsParity(s: Bitstring, t: Bitstring)
    requires |s| == |t|
    ensures Parity(Xor(s, t)) == (Flips(s, t) % 2 == 1)
    decreases |s|
  {
    if s != [] {
      assert Xor(s, t)[1..] == Xor(s[1..], t[1..]);
      FlipsParity(s[1..], t[1..]);
    }
  }

  /** The parity of the register is the parity of the start value and of all message bits. */
  lemma RegisterParity(crc: bv16, message: seq<bv8>)
    ensures Parity(RegBits(CrcLoop(crc, message))) == (Parity(RegBits(crc)) != Parity(Bits(message)))
  {
    LoopIsBitSerial(crc, message);
    FeedParity(RegBits(crc), Bits(message));
  }

  /** Any odd number of flipped bits changes the CRC. */
  lemma OddErrorsDetected(crc: bv16, m1: seq<bv8>, m2: seq<bv8>)
    requires |m1| == |m2|
    requires Flips(Bits(m1), Bits(m2)) % 2 == 1
    ensures Crc(crc, m1) != Crc(crc, m2)
  {
    RegisterParity(crc, m1);
    RegisterParity(crc, m2);
    FlipsParity(Bits(m1), Bits(m2));
    ParityOfXor(Bits(m1), Bits(m2));
    if Crc(crc, m1) == Crc(crc, m2) {
      SwapInjective(CrcLoop(crc, m1), CrcLoop(crc, m2));
    }
  }

  // ----- Splitting and check bytes -----

  lemma {:induction false} LoopSplit(crc: bv16, a: seq<bv8>, b: seq<bv8>)
    ensures CrcLoop(crc, a + b) == CrcLoop(CrcLoop(crc, a), b)
    decreases |a|
  {
    if a == [] {
      assert a + b == b;
    } else {
      assert (a + b)[1..] == a[1..] + b;
      LoopSplit(CrcByte(crc, a[0]), a[1..], b);
    }
  }

  /** The CRC of a message in two pieces: the first result, swapped back, starts the second. */
  lemma CrcSplit(crc: bv16, a: seq<bv8>, b: seq<bv8>)
    ensures Crc(crc, a + b) == Crc(Swap(Crc(crc, a)), b)
  {
    LoopSplit(crc, a, b);
    SwapTwice(CrcLoop(crc, a));
  }

  // A 16-bit value as it lies in the memory of a little-endian host.
  function FirstByte(v: bv16): bv8 { (v & 0xff) as bv8 }

  function SecondByte(v: bv16): bv8 { (v >> 8) as bv8 }

  /** Sixteen bits take a register to zero only when they are the register. */
  lemma OnlyItselfCancels(reg: Bitstring, bits: Bitstring)
    requires |reg| == |bits| == 16
    ensures Feed(reg, bits) == Zeros(16) <==> bits == reg
  {
    FeedIsXorThenStep(reg, bits);
    assert bits + Zeros(0) == bits;
    ZeroStaysZeroOnly(Xor(reg, bits), 16);
    XorIsZero(reg, bits);
  }

  lemma BytesOfRegister(c: bv16, hi: bv8, lo: bv8)
    requires c == ((hi as bv16) << 8) ^ (lo as bv16)
    ensures RegBits(c) == Bits([hi, lo])
  {
    TwoByteBits(hi, lo);
    HighByteBits(hi);
    LowByteBits(lo);
    RegBitsXor((hi as bv16) << 8, lo as bv16, c);
    HighAndLow(ByteBits(hi), ByteBits(lo));
  }

  lemma TwoByteBits(hi: bv8, lo: bv8)
    ensures Bits([hi, lo]) == ByteBits(hi) + ByteBits(lo)
  {
    assert [hi, lo][1..] == [lo];
    assert [lo][1..] == [];
  }

  lemma HighAndLow(hi: Bitstring, lo: Bitstring)
    requires |hi| == |lo| == 8
    ensures Xor(hi + Zeros(8), Zeros(8) + lo) == hi + lo
  {
  }

  lemma SwapBytes(c: bv16, hi: bv8, lo: bv8)
    requires hi == FirstByte(Swap(c)) && lo == SecondByte(Swap(c))
    ensures c == ((hi as bv16) << 8) ^ (lo as bv16)
  {
  }

  lemma LowByteBits(lo: bv8)
    ensures RegBits(lo as bv16) == Zeros(8) + ByteBits(lo)
  {
    var c := lo as bv16;
    TopBitsSplit(c, 8, 8);
    EightShifts(c);
    FourTopBits(c, 8);
    FourTopBits(c << 4, 4);
    LowByteIsLow(lo);
    assert TopBits(c, 8) == Zeros(8);
  }

  lemma LowByteIsLow(lo: bv8)
    ensures var c := lo as bv16;
      c & 0x8000 == 0 && c & 0x4000 == 0 && c & 0x2000 == 0 && c & 0x1000 == 0 &&
      (c << 4) & 0x8000 == 0 && (c << 4) & 0x4000 == 0 && (c << 4) & 0x2000 == 0 && (c << 4) & 0x1000 == 0
  {
  }

  lemma ZeroRegister(c: bv16)
    ensures c == 0 <==> RegBits(c) == Zeros(16)
  {
    TopBitsZero(16);
    if RegBits(c) == Zeros(16) {
      RegBitsInjective(c, 0);
    }
  }

  /** A message followed by two bytes leaves the loop at zero exactly when those bytes are the
      returned CRC as it lies in memory. */
  lemma CheckBytes(crc: bv16, message: seq<bv8>, p: bv8, q: bv8)
    ensures CrcLoop(crc, message + [p, q]) == 0 <==>
      p == FirstByte(Crc(crc, message)) && q == SecondByte(Crc(crc, message))
  {
    var c := CrcLoop(crc, message);
    var hi, lo := FirstByte(Swap(c)), SecondByte(Swap(c));
    LoopSplit(crc, message, [p, q]);
    LoopIsBitSerial(c, [p, q]);
    OnlyItselfCancels(RegBits(c), Bits([p, q]));
    SwapBytes(c, hi, lo);
    BytesOfRegister(c, hi, lo);
    ZeroRegister(CrcLoop(c, [p, q]));
    SameTwoBytes(p, q, hi, lo);
  }

  lemma SameTwoBytes(p: bv8, q: bv8, hi: bv8, lo: bv8)
    ensures Bits([p, q]) == Bits([hi, lo]) <==> p == hi && q == lo
  {
    if Bits([p, q]) == Bits([hi, lo]) {
      BitsInjective([p, q], [hi, lo]);
      assert [p, q][0] == [hi, lo][0] && [p, q][1] == [hi, lo][1];
    }
  }
}
