// CRC-16 over x^16 + x^15 + x^2 + 1: the table-driven loop of src/commons/CRC_16.cpp and the
// bit-serial register it is a fast form of.
module Crc16 {
  import opened Division

  // ----- The 256-entry table, sixteen entries a row -----

  const ROW_0: seq<bv16> := [
    0x0000, 0x8005, 0x800f, 0x000a, 0x801b, 0x001e, 0x0014, 0x8011,
    0x8033, 0x0036, 0x003c, 0x8039, 0x0028, 0x802d, 0x8027, 0x0022]
  const ROW_1: seq<bv16> := [
    0x8063, 0x0066, 0x006c, 0x8069, 0x0078, 0x807d, 0x8077, 0x0072,
    0x0050, 0x8055, 0x805f, 0x005a, 0x804b, 0x004e, 0x0044, 0x8041]
  const ROW_2: seq<bv16> := [
    0x80c3, 0x00c6, 0x00cc, 0x80c9, 0x00d8, 0x80dd, 0x80d7, 0x00d2,
    0x00f0, 0x80f5, 0x80ff, 0x00fa, 0x80eb, 0x00ee, 0x00e4, 0x80e1]
  const ROW_3: seq<bv16> := [
    0x00a0, 0x80a5, 0x80af, 0x00aa, 0x80bb, 0x00be, 0x00b4, 0x80b1,
    0x8093, 0x0096, 0x009c, 0x8099, 0x0088, 0x808d, 0x8087, 0x0082]
  const ROW_4: seq<bv16> := [
    0x8183, 0x0186, 0x018c, 0x8189, 0x0198, 0x819d, 0x8197, 0x0192,
    0x01b0, 0x81b5, 0x81bf, 0x01ba, 0x81ab, 0x01ae, 0x01a4, 0x81a1]
  const ROW_5: seq<bv16> := [
    0x01e0, 0x81e5, 0x81ef, 0x01ea, 0x81fb, 0x01fe, 0x01f4, 0x81f1,
    0x81d3, 0x01d6, 0x01dc, 0x81d9, 0x01c8, 0x81cd, 0x81c7, 0x01c2]
  const ROW_6: seq<bv16> := [
    0x0140, 0x8145, 0x814f, 0x014a, 0x815b, 0x015e, 0x0154, 0x8151,
    0x8173, 0x0176, 0x017c, 0x8179, 0x0168, 0x816d, 0x8167, 0x0162]
  const ROW_7: seq<bv16> := [
    0x8123, 0x0126, 0x012c, 0x8129, 0x0138, 0x813d, 0x8137, 0x0132,
    0x0110, 0x8115, 0x811f, 0x011a, 0x810b, 0x010e, 0x0104, 0x8101]
  const ROW_8: seq<bv16> := [
    0x8303, 0x0306, 0x030c, 0x8309, 0x0318, 0x831d, 0x8317, 0x0312,
    0x0330, 0x8335, 0x833f, 0x033a, 0x832b, 0x032e, 0x0324, 0x8321]
  const ROW_9: seq<bv16> := [
    0x0360, 0x8365, 0x836f, 0x036a, 0x837b, 0x037e, 0x0374, 0x8371,
    0x8353, 0x0356, 0x035c, 0x8359, 0x0348, 0x834d, 0x8347, 0x0342]
  const ROW_A: seq<bv16> := [
    0x03c0, 0x83c5, 0x83cf, 0x03ca, 0x83db, 0x03de, 0x03d4, 0x83d1,
    0x83f3, 0x03f6, 0x03fc, 0x83f9, 0x03e8, 0x83ed, 0x83e7, 0x03e2]
  const ROW_B: seq<bv16> := [
    0x83a3, 0x03a6, 0x03ac, 0x83a9, 0x03b8, 0x83bd, 0x83b7, 0x03b2,
    0x0390, 0x8395, 0x839f, 0x039a, 0x838b, 0x038e, 0x0384, 0x8381]
  const ROW_C: seq<bv16> := [
    0x0280, 0x8285, 0x828f, 0x028a, 0x829b, 0x029e, 0x0294, 0x8291,
    0x82b3, 0x02b6, 0x02bc, 0x82b9, 0x02a8, 0x82ad, 0x82a7, 0x02a2]
  const ROW_D: seq<bv16> := [
    0x82e3, 0x02e6, 0x02ec, 0x82e9, 0x02f8, 0x82fd, 0x82f7, 0x02f2,
    0x02d0, 0x82d5, 0x82df, 0x02da, 0x82cb, 0x02ce, 0x02c4, 0x82c1]
  const ROW_E: seq<bv16> := [
    0x8243, 0x0246, 0x024c, 0x8249, 0x0258, 0x825d, 0x8257, 0x0252,
    0x0270, 0x8275, 0x827f, 0x027a, 0x826b, 0x026e, 0x0264, 0x8261]
  const ROW_F: seq<bv16> := [
    0x0220, 0x8225, 0x822f, 0x022a, 0x823b, 0x023e, 0x0234, 0x8231,
    0x8213, 0x0216, 0x021c, 0x8219, 0x0208, 0x820d, 0x8207, 0x0202]

  // The rows are joined as a balanced tree, so that looking one entry up stays cheap.
  const TABLE: seq<bv16> :=
    (((ROW_0 + ROW_1) + (ROW_2 + ROW_3)) + ((ROW_4 + ROW_5) + (ROW_6 + ROW_7)))
    + (((ROW_8 + ROW_9) + (ROW_A + ROW_B)) + ((ROW_C + ROW_D) + (ROW_E + ROW_F)))

  /** One byte of the loop: the old register shifted up, mixed with a table entry. */
  function CrcByte(crc: bv16, data: bv8): bv16 {
    (crc << 8) ^ TABLE[(((crc >> 8) ^ (data as bv16)) & 0xff) as int]
  }

  /** The register after the loop, before the final swap. */
  function CrcLoop(crc: bv16, message: seq<bv8>): bv16
    decreases |message|
  {
    if message == [] then crc else CrcLoop(CrcByte(crc, message[0]), message[1..])
  }

  /** `htons` on a little-endian host. */
  function Swap(crc: bv16): bv16 {
    (crc << 8) | (crc >> 8)
  }

  /** What a caller of CRC_16 sees. */
  function Crc(crc: bv16, message: seq<bv8>): bv16 {
    Swap(CrcLoop(crc, message))
  }

  // ----- Registers and messages as bit strings, most significant bit first -----

  function TopBits(c: bv16, n: nat): (bits: Bitstring)
    ensures |bits| == n
    decreases n
  {
    if n == 0 then [] else [c & 0x8000 != 0] + TopBits(c << 1, n - 1)
  }

  function RegBits(crc: bv16): (bits: Bitstring)
    ensures |bits| == 16
  {
    TopBits(crc, 16)
  }

  function ByteBits(b: bv8): (bits: Bitstring)
    ensures |bits| == 8
  {
    TopBits((b as bv16) << 8, 8)
  }

  function Bits(message: seq<bv8>): (bits: Bitstring)
    ensures |bits| == 8 * |message|
  {
    if message == [] then [] else ByteBits(message[0]) + Bits(message[1..])
  }

  // ----- The loop of the source -----

  method CRC_16(crc: bv16, buffer: array<bv8>, len: nat) returns (r: bv16)
    requires len <= buffer.Length
    ensures r == Crc(crc, buffer[..len])
    ensures RegBits(Swap(r)) == Remainder(Dividend(RegBits(crc), Bits(buffer[..len])))
  {
    var c := crc;
    var pos := 0;
    var left := len;
    while left != 0
      invariant pos + left == len
      invariant CrcLoop(crc, buffer[..len]) == CrcLoop(c, buffer[pos..len])
    {
      assert buffer[pos..len][1..] == buffer[pos + 1..len];
      c := CrcByte(c, buffer[pos]);
      pos := pos + 1;
      left := left - 1;
    }
    r := Swap(c);
    SwapTwice(c);
    LoopIsLongDivision(crc, buffer[..len]);
  }

  lemma SwapTwice(c: bv16)
    ensures Swap(Swap(c)) == c
  {
  }

  // ----- Every table entry is eight bit steps of its index -----

  /** Shift up by one; the divisor is subtracted when a 1 falls out at the top. */
  function BitStep(crc: bv16): bv16 {
    (crc << 1) ^ ((crc >> 15) * 0x8005)
  }

  function EightSteps(c: bv16): bv16 {
    BitStep(BitStep(BitStep(BitStep(BitStep(BitStep(BitStep(BitStep(c))))))))
  }

  lemma TableRow0(i: bv8)
    requires 0 <= i as int < 16
    ensures TABLE[i as int] == EightSteps((i as bv16) << 8)
  {
  }

  lemma TableRow1(i: bv8)
    requires 16 <= i as int < 32
    ensures TABLE[i as int] == EightSteps((i as bv16) << 8)
  {
  }

  lemma TableRow2(i: bv8)
    requires 32 <= i as int < 48
    ensures TABLE[i as int] == EightSteps((i as bv16) << 8)
  {
  }

  lemma TableRow3(i: bv8)
    requires 48 <= i as int < 64
    ensures TABLE[i as int] == EightSteps((i as bv16) << 8)
  {
  }

  lemma TableRow4(i: bv8)
    requires 64 <= i as int < 80
    ensures TABLE[i as int] == EightSteps((i as bv16) << 8)
  {
  }

  lemma TableRow5(i: bv8)
    requires 80 <= i as int < 96
    ensures TABLE[i as int] == EightSteps((i as bv16) << 8)
  {
  }

  lemma TableRow6(i: bv8)
    requires 96 <= i as int < 112
    ensures TABLE[i as int] == EightSteps((i as bv16) << 8)
  {
  }

  lemma TableRow7(i: bv8)
    requires 112 <= i as int < 128
    ensures TABLE[i as int] == EightSteps((i as bv16) << 8)
  {
  }

  lemma TableRow8(i: bv8)
    requires 128 <= i as int < 144
    ensures TABLE[i as int] == EightSteps((i as bv16) << 8)
  {
  }

  lemma TableRow9(i: bv8)
    requires 144 <= i as int < 160
    ensures TABLE[i as int] == EightSteps((i as bv16) << 8)
  {
  }

  lemma TableRowA(i: bv8)
    requires 160 <= i as int < 176
    ensures TABLE[i as int] == EightSteps((i as bv16) << 8)
  {
  }

  lemma TableRowB(i: bv8)
    requires 176 <= i as int < 192
    ensures TABLE[i as int] == EightSteps((i as bv16) << 8)
  {
  }

  lemma TableRowC(i: bv8)
    requires 192 <= i as int < 208
    ensures TABLE[i as int] == EightSteps((i as bv16) << 8)
  {
  }

  lemma TableRowD(i: bv8)
    requires 208 <= i as int < 224
    ensures TABLE[i as int] == EightSteps((i as bv16) << 8)
  {
  }

  lemma TableRowE(i: bv8)
    requires 224 <= i as int < 240
    ensures TABLE[i as int] == EightSteps((i as bv16) << 8)
  {
  }

  lemma TableRowF(i: bv8)
    requires 240 <= i as int < 256
    ensures TABLE[i as int] == EightSteps((i as bv16) << 8)
  {
  }

  /** Every table entry is eight bit steps of its index in the top byte. */
  lemma TableEntry(i: bv8)
    ensures TABLE[i as int] == EightSteps((i as bv16) << 8)
  {
    if i as int < 16 { TableRow0(i); }
    else if i as int < 32 { TableRow1(i); }
    else if i as int < 48 { TableRow2(i); }
    else if i as int < 64 { TableRow3(i); }
    else if i as int < 80 { TableRow4(i); }
    else if i as int < 96 { TableRow5(i); }
    else if i as int < 112 { TableRow6(i); }
    else if i as int < 128 { TableRow7(i); }
    else if i as int < 144 { TableRow8(i); }
    else if i as int < 160 { TableRow9(i); }
    else if i as int < 176 { TableRowA(i); }
    else if i as int < 192 { TableRowB(i); }
    else if i as int < 208 { TableRowC(i); }
    else if i as int < 224 { TableRowD(i); }
    else if i as int < 240 { TableRowE(i); }
    else { TableRowF(i); }
  }

  /** The high byte of the register meets the message byte; the low byte is only shifted. */
  lemma HighByteCarries(crc: bv16, data: bv8, i: bv8)
    requires i == (((crc >> 8) ^ (data as bv16)) & 0xff) as bv8
    ensures (crc << 8) ^ EightSteps((i as bv16) << 8) == EightSteps(crc ^ ((data as bv16) << 8))
  {
  }

  lemma ByteIsEightSteps(crc: bv16, data: bv8)
    ensures CrcByte(crc, data) == EightSteps(crc ^ ((data as bv16) << 8))
  {
    var i := (((crc >> 8) ^ (data as bv16)) & 0xff) as bv8;
    TableEntry(i);
    HighByteCarries(crc, data, i);
  }

  // ----- Bit strings of registers -----

  function ShiftUp(c: bv16, n: nat): bv16
    decreases n
  {
    if n == 0 then c else ShiftUp(c << 1, n - 1)
  }

  lemma {:induction false} TopBitsSplit(c: bv16, m: nat, n: nat)
    ensures TopBits(c, m + n) == TopBits(c, m) + TopBits(ShiftUp(c, m), n)
    decreases m
  {
    if m != 0 {
      TopBitsSplit(c << 1, m - 1, n);
    }
  }

  lemma XorDistributes(a: bv16, b: bv16)
    ensures (a ^ b) << 1 == (a << 1) ^ (b << 1)
    ensures ((a ^ b) & 0x8000 != 0) == ((a & 0x8000 != 0) != (b & 0x8000 != 0))
  {
  }

  /** `x` is the xor of `a` and `b` in its `n` highest bits, one bit at a time. */
  predicate XorsTo(a: bv16, b: bv16, x: bv16, n: nat)
    decreases n
  {
    n == 0 ||
    ((x & 0x8000 != 0) == ((a & 0x8000 != 0) != (b & 0x8000 != 0)) && XorsTo(a << 1, b << 1, x << 1, n - 1))
  }

  lemma XorsToStep(a: bv16, b: bv16, x: bv16, n: nat)
    requires n > 0 && x == a ^ b
    requires XorsTo(a << 1, b << 1, x << 1, n - 1)
    ensures XorsTo(a, b, x, n)
  {
    XorDistributes(a, b);
  }

  lemma {:induction false} XorXors(a: bv16, b: bv16, x: bv16, n: nat)
    requires x == a ^ b
    ensures XorsTo(a, b, x, n)
    decreases n
  {
    if n == 0 {
    } else {
      XorDistributes(a, b);
      XorXors(a << 1, b << 1, x << 1, n - 1);
      XorsToStep(a, b, x, n);
    }
  }

  lemma TopBitsStep(c: bv16, n: nat)
    requires n > 0
    ensures TopBits(c, n) == [c & 0x8000 != 0] + TopBits(c << 1, n - 1)
  {
  }

  lemma XorCons(p: bool, s: Bitstring, q: bool, t: Bitstring)
    requires |s| == |t|
    ensures Xor([p] + s, [q] + t) == [p != q] + Xor(s, t)
  {
  }

  lemma TopBitsXorStep(a: bv16, b: bv16, x: bv16, n: nat)
    requires n > 0 && XorsTo(a, b, x, n)
    requires TopBits(x << 1, n - 1) == Xor(TopBits(a << 1, n - 1), TopBits(b << 1, n - 1))
    ensures TopBits(x, n) == Xor(TopBits(a, n), TopBits(b, n))
  {
    XorCons(a & 0x8000 != 0, TopBits(a << 1, n - 1), b & 0x8000 != 0, TopBits(b << 1, n - 1));
    TopBitsStep(a, n);
    TopBitsStep(b, n);
    TopBitsStep(x, n);
  }

  lemma {:induction false} TopBitsXorsTo(a: bv16, b: bv16, x: bv16, n: nat)
    requires XorsTo(a, b, x, n)
    ensures TopBits(x, n) == Xor(TopBits(a, n), TopBits(b, n))
    decreases n
  {
    if n == 0 {
    } else {
      TopBitsXorsTo(a << 1, b << 1, x << 1, n - 1);
      TopBitsXorStep(a, b, x, n);
    }
  }

  lemma RegBitsXor(a: bv16, b: bv16, x: bv16)
    requires x == a ^ b
    ensures RegBits(x) == Xor(RegBits(a), RegBits(b))
  {
    XorXors(a, b, x, 16);
    TopBitsXorsTo(a, b, x, 16);
  }

  lemma {:induction false} TopBitsZero(n: nat)
    ensures TopBits(0, n) == Zeros(n)
    decreases n
  {
    if n != 0 {
      TopBitsZero(n - 1);
    }
  }

  lemma {:induction false} TopBitsInjective(c: bv16, n: nat)
    requires TopBits(c, n) == Zeros(n) && ShiftUp(c, n) == 0
    ensures c == 0
    decreases n
  {
    if n != 0 {
      assert TopBits(c, n)[0] == Zeros(n)[0];
      assert TopBits(c << 1, n - 1) == TopBits(c, n)[1..] == Zeros(n - 1);
      TopBitsInjective(c << 1, n - 1);
    }
  }

  lemma SixteenShiftsClear(c: bv16)
    ensures ShiftUp(c, 16) == 0
  {
    ShiftUpAdds(c, 8, 8);
    EightShifts(c);
    EightShifts(c << 8);
    assert (c << 8) << 8 == 0;
  }

  lemma {:induction false} ShiftUpAdds(c: bv16, m: nat, n: nat)
    ensures ShiftUp(c, m + n) == ShiftUp(ShiftUp(c, m), n)
    decreases m
  {
    if m != 0 {
      ShiftUpAdds(c << 1, m - 1, n);
    }
  }

  lemma EightShifts(c: bv16)
    ensures ShiftUp(c, 8) == c << 8
  {
    assert ShiftUp(c, 8) == ShiftUp(((c << 1) << 1) << 1, 5);
    assert ((c << 1) << 1) << 1 == c << 3;
    assert ShiftUp(c << 3, 5) == ShiftUp((((c << 3) << 1) << 1) << 1, 2);
    assert (((c << 3) << 1) << 1) << 1 == c << 6;
    assert ShiftUp(c << 6, 2) == ((c << 6) << 1) << 1;
  }

  lemma RegBitsInjective(a: bv16, b: bv16)
    requires RegBits(a) == RegBits(b)
    ensures a == b
  {
    RegBitsXor(a, b, a ^ b);
    assert TopBits(a ^ b, 16) == Zeros(16);
    SixteenShiftsClear(a ^ b);
    TopBitsInjective(a ^ b, 16);
  }

  // ----- The table form is the bit-serial register -----

  lemma ShiftByOne(c: bv16)
    ensures ((c << 1) & 0x8000 != 0) == (c & 0x4000 != 0) && (c << 1) << 1 == c << 2
  {
  }

  lemma ShiftByTwo(c: bv16)
    ensures ((c << 2) & 0x8000 != 0) == (c & 0x2000 != 0) && ((c << 2) & 0x4000 != 0) == (c & 0x1000 != 0)
    ensures (c << 2) << 2 == c << 4
  {
  }

  lemma TwoTopBits(c: bv16, n: nat)
    requires n >= 2
    ensures TopBits(c, n) == [c & 0x8000 != 0, c & 0x4000 != 0] + TopBits(c << 2, n - 2)
  {
    TopBitsStep(c, n);
    TopBitsStep(c << 1, n - 1);
    ShiftByOne(c);
  }

  lemma TwoAndTwo(p: bool, q: bool, r: bool, s: bool, rest: Bitstring)
    ensures [p, q] + ([r, s] + rest) == [p, q, r, s] + rest
  {
  }

  lemma NextTwoBits(c: bv16, n: nat)
    requires n >= 2
    ensures TopBits(c << 2, n) == [c & 0x2000 != 0, c & 0x1000 != 0] + TopBits(c << 4, n - 2)
  {
    ShiftByTwo(c);
    TwoTopBits(c << 2, n);
  }

  lemma FourTopBits(c: bv16, n: nat)
    requires n >= 4
    ensures TopBits(c, n) ==
      [c & 0x8000 != 0, c & 0x4000 != 0, c & 0x2000 != 0, c & 0x1000 != 0] + TopBits(c << 4, n - 4)
  {
    TwoTopBits(c, n);
    NextTwoBits(c, n - 2);
    TwoAndTwo(c & 0x8000 != 0, c & 0x4000 != 0, c & 0x2000 != 0, c & 0x1000 != 0, TopBits(c << 4, n - 4));
  }

  lemma PolyBits()
    ensures RegBits(0x8005) == Poly()
  {
    FourTopBits(0x8005, 16);
    FourTopBits(0x0050, 12);
    FourTopBits(0x0500, 8);
    FourTopBits(0x5000, 4);
    assert RegBits(0x8005) == [true, false, false, false] + ([false, false, false, false]
      + ([false, false, false, false] + [false, true, false, true]));
  }

  lemma MovedRegister(c: bv16)
    ensures RegBits(c << 1) == Moved(RegBits(c))
  {
    TopBitsSplit(c << 1, 15, 1);
    SixteenShiftsClear(c);
    assert ShiftUp(c << 1, 15) == 0;
    assert TopBits(0, 1) == [false];
  }

  lemma BitStepCases(c: bv16)
    ensures BitStep(c) == if c & 0x8000 != 0 then (c << 1) ^ 0x8005 else c << 1
  {
    if c & 0x8000 != 0 {
      TopIsSet(c);
    } else {
      TopIsClear(c);
    }
  }

  lemma TopIsSet(c: bv16)
    requires c & 0x8000 != 0
    ensures c >> 15 == 1
  {
  }

  lemma TopIsClear(c: bv16)
    requires c & 0x8000 == 0
    ensures c >> 15 == 0
  {
  }

  lemma BitStepIsShift(c: bv16)
    ensures RegBits(BitStep(c)) == Shift(RegBits(c), false)
  {
    var up := c << 1;
    MovedRegister(c);
    ShiftIsMoveAndSubtract(RegBits(c), false);
    BitStepCases(c);
    if c & 0x8000 != 0 {
      RegBitsXor(up, 0x8005, BitStep(c));
      PolyBits();
    }
  }

  lemma FeedOneZero(r0: Bitstring, n: nat)
    requires |r0| == 16 && n > 0
    ensures Feed(r0, Zeros(n)) == Feed(Shift(r0, false), Zeros(n - 1))
  {
    assert Zeros(n)[1..] == Zeros(n - 1);
  }

  lemma FourStepsAreFed(c: bv16, n: nat)
    requires n >= 4
    ensures Feed(RegBits(c), Zeros(n)) == Feed(RegBits(BitStep(BitStep(BitStep(BitStep(c))))), Zeros(n - 4))
  {
    BitStepIsShift(c);
    FeedOneZero(RegBits(c), n);
    var c1 := BitStep(c);
    BitStepIsShift(c1);
    FeedOneZero(RegBits(c1), n - 1);
    var c2 := BitStep(c1);
    BitStepIsShift(c2);
    FeedOneZero(RegBits(c2), n - 2);
    var c3 := BitStep(c2);
    BitStepIsShift(c3);
    FeedOneZero(RegBits(c3), n - 3);
  }

  lemma EightStepsAreFed(c: bv16)
    ensures RegBits(EightSteps(c)) == Feed(RegBits(c), Zeros(8))
  {
    var c4 := BitStep(BitStep(BitStep(BitStep(c))));
    FourStepsAreFed(c, 8);
    FourStepsAreFed(c4, 4);
  }

  lemma HighByteBits(data: bv8)
    ensures RegBits((data as bv16) << 8) == ByteBits(data) + Zeros(8)
  {
    var d := (data as bv16) << 8;
    TopBitsSplit(d, 8, 8);
    EightShifts(d);
    assert d << 8 == 0;
    TopBitsZero(8);
  }

  lemma ByteXorsIntoTheTop(crc: bv16, data: bv8)
    ensures RegBits(crc ^ ((data as bv16) << 8)) == Xor(RegBits(crc), ByteBits(data) + Zeros(8))
  {
    RegBitsXor(crc, (data as bv16) << 8, crc ^ ((data as bv16) << 8));
    HighByteBits(data);
  }

  lemma ByteIsFed(crc: bv16, data: bv8)
    ensures RegBits(CrcByte(crc, data)) == Feed(RegBits(crc), ByteBits(data))
  {
    var mixed := crc ^ ((data as bv16) << 8);
    ByteIsEightSteps(crc, data);
    EightStepsAreFed(mixed);
    ByteXorsIntoTheTop(crc, data);
    FeedIsXorThenStep(RegBits(crc), ByteBits(data));
  }

  /** The table loop is the bit-serial register, for every start value and message. */
  lemma {:induction false} LoopIsBitSerial(crc: bv16, message: seq<bv8>)
    ensures RegBits(CrcLoop(crc, message)) == Feed(RegBits(crc), Bits(message))
    decreases |message|
  {
    if message != [] {
      ByteIsFed(crc, message[0]);
      FeedSplit(RegBits(crc), ByteBits(message[0]), Bits(message[1..]));
      LoopIsBitSerial(CrcByte(crc, message[0]), message[1..]);
    }
  }

  /** The table loop is long division of the message, times x^16, by the polynomial. */
  lemma LoopIsLongDivision(crc: bv16, message: seq<bv8>)
    ensures RegBits(CrcLoop(crc, message)) == Remainder(Dividend(RegBits(crc), Bits(message)))
  {
    LoopIsBitSerial(crc, message);
    FeedIsRemainder(RegBits(crc), Bits(message));
  }
}
