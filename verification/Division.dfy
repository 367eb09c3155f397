/** Division of bit strings by x^16 + x^15 + x^2 + 1 over GF(2), most significant bit first.
    The sixteen-bit register form is proved to be schoolbook long division, and its algebra
    (linearity, invertibility, parity) is proved on bit strings of any length. */
module Division {

  type Bitstring = seq<bool>

  /** The sixteen bits of the divisor below its leading 1: x^15 + x^2 + 1, that is 0x8005. */
  predicate Term(i: nat) {
    i == 0 || i == 13 || i == 15
  }

  function Poly(): (r: Bitstring)
    ensures |r| == 16
  {
    seq(16, i requires 0 <= i < 16 => Term(i))
  }

  function Xor(a: Bitstring, b: Bitstring): (r: Bitstring)
    requires |a| == |b|
    ensures |r| == |a|
  {
    seq(|a|, i requires 0 <= i < |a| => a[i] != b[i])
  }

  function Zeros(n: nat): (r: Bitstring)
    ensures |r| == n
  {
    seq(n, _ => false)
  }

  predicate IsZero(a: Bitstring) {
    forall i :: 0 <= i < |a| ==> !a[i]
  }

  lemma XorIsZero(a: Bitstring, b: Bitstring)
    requires |a| == |b|
    ensures Xor(a, b) == Zeros(|a|) <==> a == b
  {
    if Xor(a, b) == Zeros(|a|) {
      forall i | 0 <= i < |a|
        ensures a[i] == b[i]
      {
        assert !Xor(a, b)[i];
      }
    }
  }

  // ----- The register -----

  /** One message bit enters the register: what falls out at the top, xored with the bit,
      decides whether the divisor is subtracted. */
  function Shift(reg: Bitstring, bit: bool): (r: Bitstring)
    requires |reg| == 16
    ensures |r| == 16
  {
    var lead := reg[0] != bit;
    seq(16, i requires 0 <= i < 16 => (i < 15 && reg[i + 1]) != (lead && Term(i)))
  }

  function Feed(reg: Bitstring, bits: Bitstring): (r: Bitstring)
    requires |reg| == 16
    ensures |r| == 16
    decreases |bits|
  {
    if bits == [] then reg else Feed(Shift(reg, bits[0]), bits[1..])
  }

  // ----- Schoolbook long division -----

  /** Subtract the divisor under a leading 1 and drop the leading bit. */
  function Next(d: Bitstring): (r: Bitstring)
    requires |d| > 16
    ensures |r| == |d| - 1
  {
    if d[0] then Xor(d[1..17], Poly()) + d[17..] else d[1..]
  }

  /** Divide until only the sixteen remainder bits are left. */
  function Remainder(dividend: Bitstring): (r: Bitstring)
    requires |dividend| >= 16
    ensures |r| == 16
    decreases |dividend|
  {
    if |dividend| == 16 then dividend else Remainder(Next(dividend))
  }

  /** The message times x^16, with the start register added into its first sixteen places. */
  function Dividend(reg: Bitstring, bits: Bitstring): (r: Bitstring)
    requires |reg| == 16
    ensures |r| == |bits| + 16
  {
    Xor(bits + Zeros(16), reg + Zeros(|bits|))
  }

  /** One register step is one long-division step. */
  lemma DividendStep(reg: Bitstring, bits: Bitstring)
    requires |reg| == 16 && bits != []
    ensures Dividend(Shift(reg, bits[0]), bits[1..]) == Next(Dividend(reg, bits))
  {
    var d := Dividend(reg, bits);
    var next := Dividend(Shift(reg, bits[0]), bits[1..]);
    var long := Next(d);
    assert d[0] == (reg[0] != bits[0]);
    forall i | 0 <= i < |next|
      ensures next[i] == long[i]
    {
      assert (bits[1..] + Zeros(16))[i] == (bits + Zeros(16))[i + 1];
      if 15 <= i {
        assert !(reg + Zeros(|bits|))[i + 1];
      }
    }
  }

  /** The register form computes the remainder of long division. */
  lemma {:induction false} FeedIsRemainder(reg: Bitstring, bits: Bitstring)
    requires |reg| == 16
    ensures Feed(reg, bits) == Remainder(Dividend(reg, bits))
    decreases |bits|
  {
    if bits == [] {
      assert Dividend(reg, bits) == reg;
    } else {
      FeedIsRemainder(Shift(reg, bits[0]), bits[1..]);
      DividendStep(reg, bits);
    }
  }

  // ----- Dividend = quotient * divisor + remainder -----

  /** The quotient times the seventeen-bit divisor, by shift and add. */
  function TimesDivisor(quotient: Bitstring): (r: Bitstring)
    ensures |r| == |quotient| + 16
    decreases |quotient|
  {
    if quotient == [] then Zeros(16)
    else
      var rest := [false] + TimesDivisor(quotient[1..]);
      if quotient[0] then Xor([true] + Poly() + Zeros(|quotient| - 1), rest) else rest
  }

  /** Undoing one long-division step. */
  lemma NextUndone(d: Bitstring, product: Bitstring, rest: Bitstring)
    requires |d| > 16 && |product| == |rest| == |d| - 1
    requires Next(d) == Xor(product, rest)
    ensures d == Xor(if d[0] then Xor([true] + Poly() + Zeros(|d| - 17), [false] + product) else [false] + product,
                     [false] + rest)
  {
    var first := [true] + Poly() + Zeros(|d| - 17);
    forall i | 1 <= i < |d|
      ensures d[i] == ((d[0] && first[i]) != (product[i - 1] != rest[i - 1]))
    {
      assert Next(d)[i - 1] == (product[i - 1] != rest[i - 1]);
    }
  }

  lemma OneMoreZero(n: nat, r: Bitstring)
    ensures Zeros(n + 1) + r == [false] + (Zeros(n) + r)
  {
  }

  /** Long division with quotient: dividend = quotient * divisor + remainder. */
  lemma {:induction false} DivisionIdentity(d: Bitstring) returns (quotient: Bitstring)
    requires |d| >= 16
    ensures |quotient| == |d| - 16
    ensures d == Xor(TimesDivisor(quotient), Zeros(|d| - 16) + Remainder(d))
    decreases |d|
  {
    if |d| == 16 {
      quotient := [];
    } else {
      var q := DivisionIdentity(Next(d));
      quotient := [d[0]] + q;
      assert quotient[1..] == q;
      NextUndone(d, TimesDivisor(q), Zeros(|d| - 17) + Remainder(Next(d)));
      OneMoreZero(|d| - 17, Remainder(d));
    }
  }

  // ----- Algebra of the register -----

  lemma ShiftIsLinear(a: Bitstring, b: Bitstring, p: bool, q: bool)
    requires |a| == |b| == 16
    ensures Shift(Xor(a, b), p != q) == Xor(Shift(a, p), Shift(b, q))
  {
  }

  /** Feeding is xor-linear in the start register and the message together. */
  lemma {:induction false} FeedIsLinear(a: Bitstring, b: Bitstring, s: Bitstring, t: Bitstring)
    requires |a| == |b| == 16 && |s| == |t|
    ensures Feed(Xor(a, b), Xor(s, t)) == Xor(Feed(a, s), Feed(b, t))
    decreases |s|
  {
    if s != [] {
      ShiftIsLinear(a, b, s[0], t[0]);
      assert Xor(s, t)[1..] == Xor(s[1..], t[1..]);
      FeedIsLinear(Shift(a, s[0]), Shift(b, t[0]), s[1..], t[1..]);
    }
  }

  lemma {:induction false} FeedSplit(reg: Bitstring, s: Bitstring, t: Bitstring)
    requires |reg| == 16
    ensures Feed(reg, s + t) == Feed(Feed(reg, s), t)
    decreases |s|
  {
    if s == [] {
      assert s + t == t;
    } else {
      assert (s + t)[1..] == s[1..] + t;
      FeedSplit(Shift(reg, s[0]), s[1..], t);
    }
  }

  lemma ShiftIsInjective(a: Bitstring, b: Bitstring, bit: bool)
    requires |a| == |b| == 16
    requires Shift(a, bit) == Shift(b, bit)
    ensures a == b
  {
    assert Shift(a, bit)[15] == Shift(b, bit)[15];
    assert a[0] == b[0];
    forall i | 1 <= i < 16
      ensures a[i] == b[i]
    {
      assert Shift(a, bit)[i - 1] == Shift(b, bit)[i - 1];
    }
  }

  /** The bit step is invertible, so no sequence of steps forgets the register. */
  lemma {:induction false} FeedIsInjective(a: Bitstring, b: Bitstring, bits: Bitstring)
    requires |a| == |b| == 16
    requires Feed(a, bits) == Feed(b, bits)
    ensures a == b
    decreases |bits|
  {
    if bits != [] {
      FeedIsInjective(Shift(a, bits[0]), Shift(b, bits[0]), bits[1..]);
      ShiftIsInjective(a, b, bits[0]);
    }
  }

  lemma {:induction false} FeedZeros(n: nat)
    ensures Feed(Zeros(16), Zeros(n)) == Zeros(16)
    decreases n
  {
    if n != 0 {
      assert Shift(Zeros(16), false) == Zeros(16);
      assert Zeros(n)[1..] == Zeros(n - 1);
      FeedZeros(n - 1);
    }
  }

  lemma ZeroStaysZeroOnly(reg: Bitstring, n: nat)
    requires |reg| == 16
    ensures Feed(reg, Zeros(n)) == Zeros(16) <==> reg == Zeros(16)
  {
    FeedZeros(n);
    if Feed(reg, Zeros(n)) == Zeros(16) {
      FeedIsInjective(reg, Zeros(16), Zeros(n));
    }
  }

  lemma ShiftMixed(reg: Bitstring, bit: bool, rest: Bitstring)
    requires |reg| == 16 && |rest| <= 15
    ensures Shift(Xor(reg, [bit] + rest + Zeros(15 - |rest|)), false) ==
      Xor(Shift(reg, bit), rest + Zeros(16 - |rest|))
  {
  }

  /** Feeding up to sixteen bits is xoring them into the top of the register and stepping. */
  lemma {:induction false} FeedIsXorThenStep(reg: Bitstring, bits: Bitstring)
    requires |reg| == 16 && |bits| <= 16
    ensures Feed(reg, bits) == Feed(Xor(reg, bits + Zeros(16 - |bits|)), Zeros(|bits|))
    decreases |bits|
  {
    var k := |bits|;
    if k == 0 {
      assert Xor(reg, bits + Zeros(16)) == reg;
    } else {
      var next := Shift(reg, bits[0]);
      FeedIsXorThenStep(next, bits[1..]);
      ShiftMixed(reg, bits[0], bits[1..]);
      assert bits == [bits[0]] + bits[1..];
      assert Zeros(k)[1..] == Zeros(k - 1);
    }
  }

  /** A non-zero run of at most sixteen bits never leaves a zero register zero. */
  lemma ShortBurstIsSeen(burst: Bitstring)
    requires |burst| <= 16 && !IsZero(burst)
    ensures Feed(Zeros(16), burst) != Zeros(16)
  {
    var mixed := Xor(Zeros(16), burst + Zeros(16 - |burst|));
    FeedIsXorThenStep(Zeros(16), burst);
    ZeroStaysZeroOnly(mixed, |burst|);
    var k :| 0 <= k < |burst| && burst[k];
    assert mixed[k];
  }

  // ----- Parity -----

  function Parity(bits: Bitstring): bool
    decreases |bits|
  {
    bits != [] && (bits[0] != Parity(bits[1..]))
  }

  lemma {:induction false} ParitySplit(s: Bitstring, t: Bitstring)
    ensures Parity(s + t) == (Parity(s) != Parity(t))
    decreases |s|
  {
    if s == [] {
      assert s + t == t;
    } else {
      assert (s + t)[1..] == s[1..] + t;
      ParitySplit(s[1..], t);
    }
  }

  lemma {:induction false} ParityOfXor(s: Bitstring, t: Bitstring)
    requires |s| == |t|
    ensures Parity(Xor(s, t)) == (Parity(s) != Parity(t))
    decreases |s|
  {
    if s != [] {
      assert Xor(s, t)[1..] == Xor(s[1..], t[1..]);
      ParityOfXor(s[1..], t[1..]);
    }
  }

  lemma {:induction false} ParityOfZeros(n: nat)
    ensures !Parity(Zeros(n))
    decreases n
  {
    if n != 0 {
      assert Zeros(n)[1..] == Zeros(n - 1);
      ParityOfZeros(n - 1);
    }
  }

  function Moved(reg: Bitstring): (r: Bitstring)
    requires |reg| == 16
    ensures |r| == 16
  {
    reg[1..] + [false]
  }

  lemma ShiftIsMoveAndSubtract(reg: Bitstring, bit: bool)
    requires |reg| == 16
    ensures Shift(reg, bit) == if reg[0] != bit then Xor(Moved(reg), Poly()) else Moved(reg)
  {
  }

  lemma MovedParity(reg: Bitstring)
    requires |reg| == 16
    ensures Parity(Moved(reg)) == (Parity(reg) != reg[0])
  {
    ParitySplit(reg[1..], [false]);
  }

  /** The divisor has an even number of terms, so a step moves parity only by the message bit. */
  lemma ShiftParity(reg: Bitstring, bit: bool)
    requires |reg| == 16
    ensures Parity(Shift(reg, bit)) == (Parity(reg) != bit)
  {
    ShiftIsMoveAndSubtract(reg, bit);
    MovedParity(reg);
    ParityOfXor(Moved(reg), Poly());
    ParityOfPoly();
  }

  lemma ParityOfPoly()
    ensures Parity(Poly())
  {
    assert Poly() == ([true] + Zeros(12)) + [true, false, true];
    ParityOfZeros(12);
    ParitySplit([true], Zeros(12));
    ParitySplit([true] + Zeros(12), [true, false, true]);
    assert [true, false, true][1..] == [false, true];
    assert [false, true][1..] == [true];
  }

  /** Register parity is start parity plus message parity. */
  lemma {:induction false} FeedParity(reg: Bitstring, bits: Bitstring)
    requires |reg| == 16
    ensures Parity(Feed(reg, bits)) == (Parity(reg) != Parity(bits))
    decreases |bits|
  {
    if bits != [] {
      ShiftParity(reg, bits[0]);
      FeedParity(Shift(reg, bits[0]), bits[1..]);
    }
  }
}
