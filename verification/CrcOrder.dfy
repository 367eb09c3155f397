/** The order of x modulo the CRC polynomial, and the two-bit errors it decides: two flipped
    bits go unseen exactly when their distance is a multiple of 32767. */
module CrcOrder {
  import opened Division
  import opened Crc16
  import opened CrcErrors

  function Steps(c: bv16, n: nat): bv16
    decreases n
  {
    if n == 0 then c else Steps(BitStep(c), n - 1)
  }

  /** x^n modulo the polynomial. */
  function Power(n: nat): bv16 {
    Steps(1, n)
  }

  lemma {:induction false} StepsAdd(c: bv16, m: nat, n: nat)
    ensures Steps(c, m + n) == Steps(Steps(c, m), n)
    decreases m
  {
    if m != 0 {
      StepsAdd(BitStep(c), m - 1, n);
    }
  }

  lemma StepsLast(c: bv16, n: nat)
    ensures Steps(c, n + 1) == BitStep(Steps(c, n))
  {
    StepsAdd(c, n, 1);
    assert Steps(Steps(c, n), 1) == Steps(BitStep(Steps(c, n)), 0);
  }

  lemma {:induction false} StepsAreFed(c: bv16, n: nat)
    ensures RegBits(Steps(c, n)) == Feed(RegBits(c), Zeros(n))
    decreases n
  {
    if n != 0 {
      BitStepIsShift(c);
      FeedOneZero(RegBits(c), n);
      StepsAreFed(BitStep(c), n - 1);
    }
  }

  // ----- Squaring: over GF(2), (sum p_i x^i)^2 is sum p_i x^(2i) -----

  function Square(p: bv16): bv16 {
    ((p & 1) * 0x0001) ^ (((p >> 1) & 1) * 0x0004) ^ (((p >> 2) & 1) * 0x0010) ^ (((p >> 3) & 1) * 0x0040) ^
    (((p >> 4) & 1) * 0x0100) ^ (((p >> 5) & 1) * 0x0400) ^ (((p >> 6) & 1) * 0x1000) ^ (((p >> 7) & 1) * 0x4000) ^
    (((p >> 8) & 1) * 0x8005) ^ (((p >> 9) & 1) * 0x801b) ^ (((p >> 10) & 1) * 0x8063) ^ (((p >> 11) & 1) * 0x8183) ^
    (((p >> 12) & 1) * 0x8603) ^ (((p >> 13) & 1) * 0x9803) ^ (((p >> 14) & 1) * 0xe003) ^ (((p >> 15) & 1) * 0x8006)
  }

  lemma SquareStepLow(p: bv16)
    requires p & 0x8000 == 0
    ensures Square(BitStep(p)) == BitStep(BitStep(Square(p)))
  {
  }

  lemma SquareStepHigh(p: bv16)
    requires p & 0x8000 != 0
    ensures Square(BitStep(p)) == BitStep(BitStep(Square(p)))
  {
  }

  lemma SquareStep(p: bv16)
    ensures Square(BitStep(p)) == BitStep(BitStep(Square(p)))
  {
    if p & 0x8000 == 0 {
      SquareStepLow(p);
    } else {
      SquareStepHigh(p);
    }
  }

  lemma {:induction false} PowerDoubles(n: nat)
    ensures Power(2 * n) == Square(Power(n))
    decreases n
  {
    if n == 0 {
      assert Square(1) == 1;
    } else {
      PowerDoubles(n - 1);
      StepsLast(1, n - 1);
      StepsLast(1, 2 * n - 2);
      StepsLast(1, 2 * n - 1);
      SquareStep(Power(n - 1));
    }
  }

  lemma PowerOne()
    ensures Power(1) == 2
  {
    assert Steps(1, 1) == Steps(BitStep(1), 0);
  }

  lemma Double(n: nat, v: bv16, w: bv16)
    requires Power(n) == v && Square(v) == w
    ensures Power(2 * n) == w
  {
    PowerDoubles(n);
  }

  lemma DoubleAndStep(n: nat, v: bv16, w: bv16, u: bv16)
    requires Power(n) == v && Square(v) == w && BitStep(w) == u
    ensures Power(2 * n + 1) == u
  {
    PowerDoubles(n);
    StepsLast(1, 2 * n);
  }

  lemma Power217()
    ensures Power(217) == 0xaa7c
  {
    PowerOne();
    DoubleAndStep(1, 0x0002, 0x0004, 0x0008);
    Double(3, 0x0008, 0x0040);
    DoubleAndStep(6, 0x0040, 0x1000, 0x2000);
    DoubleAndStep(13, 0x2000, 0x9803, 0xb003);
    Double(27, 0xb003, 0x9e03);
    Double(54, 0x9e03, 0x87fb);
    DoubleAndStep(108, 0x87fb, 0x553e, 0xaa7c);
  }

  lemma Power1057()
    ensures Power(1057) == 0x8273
  {
    PowerOne();
    Double(1, 0x0002, 0x0004);
    Double(2, 0x0004, 0x0010);
    Double(4, 0x0010, 0x0100);
    Double(8, 0x0100, 0x8005);
    DoubleAndStep(16, 0x8005, 0x8017, 0x802b);
    Double(33, 0x802b, 0x8443);
    Double(66, 0x8443, 0x1060);
    Double(132, 0x1060, 0x9203);
    Double(264, 0x9203, 0x861b);
    DoubleAndStep(528, 0x861b, 0x813b, 0x8273);
  }

  lemma Power4681()
    ensures Power(4681) == 0x9631
  {
    PowerOne();
    Double(1, 0x0002, 0x0004);
    Double(2, 0x0004, 0x0010);
    DoubleAndStep(4, 0x0010, 0x0100, 0x0200);
    Double(9, 0x0200, 0x801b);
    Double(18, 0x801b, 0x8143);
    DoubleAndStep(36, 0x8143, 0x1006, 0x200c);
    Double(73, 0x200c, 0x9853);
    Double(146, 0x9853, 0x9683);
    DoubleAndStep(292, 0x9683, 0x4678, 0x8cf0);
    Double(585, 0x8cf0, 0xd4e6);
    Double(1170, 0xd4e6, 0x3271);
    DoubleAndStep(2340, 0x3271, 0x8b1a, 0x9631);
  }

  lemma Power32767()
    ensures Power(32767) == 0x0001
  {
    PowerOne();
    DoubleAndStep(1, 0x0002, 0x0004, 0x0008);
    DoubleAndStep(3, 0x0008, 0x0040, 0x0080);
    DoubleAndStep(7, 0x0080, 0x4000, 0x8000);
    DoubleAndStep(15, 0x8000, 0x8006, 0x8009);
    DoubleAndStep(31, 0x8009, 0x8047, 0x808b);
    DoubleAndStep(63, 0x808b, 0xc043, 0x0083);
    DoubleAndStep(127, 0x0083, 0x4005, 0x800a);
    DoubleAndStep(255, 0x800a, 0x8042, 0x8081);
    DoubleAndStep(511, 0x8081, 0xc007, 0x000b);
    DoubleAndStep(1023, 0x000b, 0x0045, 0x008a);
    DoubleAndStep(2047, 0x008a, 0x4044, 0x8088);
    DoubleAndStep(4095, 0x8088, 0xc046, 0x0089);
    DoubleAndStep(8191, 0x0089, 0x4041, 0x8082);
    DoubleAndStep(16383, 0x8082, 0xc002, 0x0001);
  }

  // ----- The order of x -----

  predicate Period(n: nat) {
    Power(n) == 1
  }

  lemma PeriodAdd(m: nat, n: nat)
    requires Period(m)
    ensures Period(m + n) <==> Period(n)
  {
    StepsAdd(1, m, n);
  }

  lemma {:induction false} PeriodMultiple(m: nat, k: nat)
    requires Period(m)
    ensures Period(k * m)
    decreases k
  {
    if k == 0 {
      assert Period(0);
    } else {
      PeriodMultiple(m, k - 1);
      PeriodAdd(m, (k - 1) * m);
      assert m + (k - 1) * m == k * m;
    }
  }

  ghost predicate Prime(p: nat) {
    p > 1 && forall s :: 1 < s < p ==> p % s != 0
  }

  /** Euclid's algorithm on a prime `p` and `s`, in steps of `unit`: if `s * unit` is a period
      and `p` does not divide `s`, then `unit` is a period already. */
  lemma {:induction false} PeriodOfUnit(unit: nat, p: nat, s: nat)
    requires unit > 0 && Prime(p)
    requires Period(p * unit) && Period(s * unit) && 0 < s < p
    ensures Period(unit)
    decreases s
  {
    if s == 1 {
      assert s * unit == unit;
    } else {
      var r := p % s;
      ScaledRemainder(p, s, unit);
      PeriodMultiple(s * unit, p / s);
      PeriodAdd((p / s) * (s * unit), r * unit);
      PeriodOfUnit(unit, p, r);
    }
  }

  lemma ScaledRemainder(p: nat, s: nat, unit: nat)
    requires s > 0
    ensures p * unit == (p / s) * (s * unit) + (p % s) * unit
  {
    assert p == (p / s) * s + p % s;
    assert ((p / s) * s) * unit == (p / s) * (s * unit);
  }

  /** Every period is a multiple of each prime factor `p` of p * unit, if `unit` is no period. */
  lemma PrimeDividesPeriod(unit: nat, p: nat, r: nat)
    requires unit > 0 && Prime(p)
    requires Period(p * unit) && !Period(unit) && Period(r)
    ensures r % p == 0
  {
    if r % p != 0 {
      PeriodMultiple(r, unit);
      PeriodMultiple(p * unit, r / p);
      ScaledRemainder(r, p, unit);
      var whole, part := (r / p) * (p * unit), (r % p) * unit;
      assert Period(whole + part) by { assert unit * r == r * unit; }
      PeriodAdd(whole, part);
      PeriodOfUnit(unit, p, r % p);
    }
  }

  lemma NoFactor(p: nat, s: nat, t: nat)
    requires p == 7 || p == 31 || p == 151
    requires 1 < s <= 12 && s < p
    ensures s * t != p
  {
    assert s == 2 || s == 3 || s == 4 || s == 5 || s == 6 || s == 7
      || s == 8 || s == 9 || s == 10 || s == 11 || s == 12;
  }

  lemma SmallPrime(p: nat)
    requires p == 7 || p == 31 || p == 151
    ensures Prime(p)
  {
    forall s | 1 < s < p
      ensures p % s != 0
    {
      var t := p / s;
      if p % s == 0 {
        assert s * t == p;
        if s <= 12 {
          NoFactor(p, s, t);
        } else {
          SmallCofactor(p, s, t);
          NoFactor(p, t, s);
        }
      }
    }
  }

  lemma ProductGrows(s: nat, t: nat)
    requires s >= 13
    ensures s * t >= 13 * t
  {
  }

  lemma SmallCofactor(p: nat, s: nat, t: nat)
    requires p <= 151 && 12 < s < p && s * t == p
    ensures 1 < t <= 12
  {
    ProductGrows(s, t);
    assert t != 0 && t != 1;
  }

  // 9 * 7 - 2 * 31 == 1 and 23 * 151 - 16 * 217 == 1.
  lemma Multiple217(r: nat, a: nat, b: nat)
    requires r == 7 * a && r == 31 * b
    ensures r == 217 * (9 * b - 2 * a)
  {
  }

  lemma Multiple32767(r: nat, c: nat, d: int)
    requires r == 151 * c && r == 217 * d
    ensures r == 32767 * (23 * d - 16 * c)
  {
  }

  lemma MultipleHasNoRemainder(r: nat, m: nat, k: int)
    requires m > 0 && r == m * k
    ensures r % m == 0
  {
    RemainderIsUnique(r, m, k);
  }

  lemma RemainderIsUnique(r: nat, m: nat, k: int)
    requires m > 0 && r == m * k
    ensures r - m * (r / m) == 0
  {
    var q := r / m;
    assert 0 <= r - m * q < m;
    assert m * (k - q) == m * k - m * q;
    if k - q >= 1 {
      ScaleUp(m, k - q);
      assert false;
    }
    if k - q <= -1 {
      ScaleUp(m, q - k);
      assert false;
    }
  }

  lemma ScaleUp(m: nat, k: int)
    requires k >= 1
    ensures m * k >= m && m * (-k) == -(m * k)
  {
  }

  lemma CommonMultiple(r: nat, a: nat, b: nat, c: nat)
    requires r == 7 * a && r == 31 * b && r == 151 * c
    ensures r % 32767 == 0
  {
    Multiple217(r, a, b);
    Multiple32767(r, c, 9 * b - 2 * a);
    MultipleHasNoRemainder(r, 32767, 23 * (9 * b - 2 * a) - 16 * c);
  }

  /** x has order exactly 32767 modulo the polynomial. */
  lemma OrderOfX(n: nat)
    ensures Power(n) == 1 <==> n % 32767 == 0
  {
    Power32767();
    if Period(n) {
      SmallPrime(7);
      SmallPrime(31);
      SmallPrime(151);
      Power4681();
      Power1057();
      Power217();
      PrimeDividesPeriod(4681, 7, n);
      PrimeDividesPeriod(1057, 31, n);
      PrimeDividesPeriod(217, 151, n);
      CommonMultiple(n, n / 7, n / 31, n / 151);
    }
    if n % 32767 == 0 {
      PeriodMultiple(32767, n / 32767);
    }
  }

  // ----- Two flipped bits -----

  lemma StepsInjective(a: bv16, b: bv16, n: nat)
    requires Steps(a, n) == Steps(b, n)
    ensures a == b
  {
    StepsAreFed(a, n);
    StepsAreFed(b, n);
    FeedIsInjective(RegBits(a), RegBits(b), Zeros(n));
    RegBitsInjective(a, b);
  }

  lemma PolyIsAPower()
    ensures Power(16) == 0x8005
  {
    PowerOne();
    Double(1, 0x0002, 0x0004);
    Double(2, 0x0004, 0x0010);
    Double(4, 0x0010, 0x0100);
    Double(8, 0x0100, 0x8005);
  }

  lemma PolyReturns(k: nat)
    ensures Feed(Poly(), Zeros(k)) == Poly() <==> k % 32767 == 0
  {
    PolyIsAPower();
    PolyBits();
    StepsAreFed(0x8005, k);
    OrderOfX(k);
    StepsAdd(1, 16, k);
    StepsAdd(1, k, 16);
    if RegBits(Steps(0x8005, k)) == RegBits(0x8005) {
      RegBitsInjective(Steps(0x8005, k), 0x8005);
      StepsInjective(Steps(1, k), 1, 16);
    }
  }

  /** Two ones at distance k. */
  function Pair(k: nat): Bitstring
    requires k > 0
  {
    [true] + Zeros(k - 1) + [true]
  }

  /** Fed into the zero register. */
  lemma PairFed(k: nat)
    requires k > 0
    ensures Feed(Zeros(16), Pair(k)) == Zeros(16) <==> k % 32767 == 0
  {
    var first := [true] + Zeros(k - 1);
    var reg := Feed(Poly(), Zeros(k - 1));
    assert Shift(Zeros(16), true) == Poly();
    assert first[1..] == Zeros(k - 1);
    FeedSplit(Zeros(16), first, [true]);
    assert Feed(reg, [true]) == Shift(reg, true) by { assert [true][1..] == []; }
    assert Zeros(k) == Zeros(k - 1) + [false];
    FeedSplit(Poly(), Zeros(k - 1), [false]);
    assert Feed(reg, [false]) == Shift(reg, false) by { assert [false][1..] == []; }
    ShiftIsLinear(reg, Zeros(16), false, true);
    assert Xor(reg, Zeros(16)) == reg;
    XorIsZero(Shift(reg, false), Poly());
    PolyReturns(k);
  }

  lemma PairSplit(d: Bitstring, i: nat, j: nat)
    requires i < j < |d|
    requires forall k :: 0 <= k < |d| ==> (d[k] <==> k == i || k == j)
    ensures d == Zeros(i) + Pair(j - i) + Zeros(|d| - j - 1)
  {
  }

  lemma PairAmongZeros(before: nat, k: nat, after: nat)
    requires k > 0
    ensures Feed(Zeros(16), Zeros(before) + Pair(k) + Zeros(after)) == Zeros(16) <==> k % 32767 == 0
  {
    SurroundedBits(before, Pair(k), after);
    PairFed(k);
  }

  lemma PairVanishes(d: Bitstring, i: nat, j: nat)
    requires i < j < |d|
    requires forall k :: 0 <= k < |d| ==> (d[k] <==> k == i || k == j)
    ensures Feed(Zeros(16), d) == Zeros(16) <==> (j - i) % 32767 == 0
  {
    PairSplit(d, i, j);
    PairAmongZeros(i, j - i, |d| - j - 1);
  }

  /** Two flipped bits go unseen exactly when their distance is a multiple of 32767. */
  lemma TwoFlips(crc: bv16, m1: seq<bv8>, m2: seq<bv8>, i: nat, j: nat)
    requires |m1| == |m2| && i < j < 8 * |m1|
    requires forall k :: 0 <= k < 8 * |m1| ==> (Difference(m1, m2)[k] <==> k == i || k == j)
    ensures Crc(crc, m1) == Crc(crc, m2) <==> (j - i) % 32767 == 0
  {
    PairVanishes(Difference(m1, m2), i, j);
    CrcsAgree(crc, m1, m2);
  }
}
