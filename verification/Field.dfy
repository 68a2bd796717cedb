/** The two multiplications of GF(2^128) that AEZ uses (crates/aez/src/block.rs): doubling
    modulo x^128 + x^7 + x^2 + x + 1, and the action of an integer read as a polynomial. */
module Field {
  import opened Blocks

  const REDUCTION: Block := 0x87

  /** The reduction polynomial, masked by the broadcast of the leading bit of `x`. */
  function Reduction(x: Block): Block {
    (0 - (x >> 127)) & REDUCTION
  }

  /** 2.x. */
  function Double(x: Block): Block {
    Xor(x << 1, Reduction(x))
  }

  /** 2^exponent.x, by doubling. */
  function TimesPowerOfTwo(x: Block, exponent: nat): Block
    decreases exponent
  {
    if exponent == 0 then x else TimesPowerOfTwo(Double(x), exponent - 1)
  }

  /** `scalar` shifted right by `count` bits. */
  function ShiftRightNat(scalar: nat, count: nat): nat {
    if count == 0 then scalar else ShiftRightNat(scalar / 2, count - 1)
  }

  predicate BitSet(scalar: nat, bit: nat) {
    ShiftRightNat(scalar, bit) % 2 == 1
  }

  /** The number of bits of `scalar` without leading zeros. */
  function BitLength(scalar: nat): nat {
    if scalar == 0 then 0 else 1 + BitLength(scalar / 2)
  }

  /** `x` if `isSet`, zero otherwise: `x` under the broadcast of the selecting bit. */
  function Select(isSet: bool, x: Block): Block {
    x & (0 - (if isSet then 1 else 0))
  }

  /** The double-and-add fold over bits `width - 1` down to 0 of `scalar`. */
  function TimesFold(x: Block, scalar: nat, width: nat, sum: Block): Block
    decreases width
  {
    if width == 0 then sum
    else TimesFold(x, scalar, width - 1, Xor(Double(sum), Select(BitSet(scalar, width - 1), x)))
  }

  /** scalar.x, by double-and-add from the most significant bit. */
  function Times(x: Block, scalar: nat): Block {
    TimesFold(x, scalar, BitLength(scalar), 0)
  }

  // -------------------------------------------------------------------------
  // Doubling
  // -------------------------------------------------------------------------

  lemma DoubleIsLinear(x: Block, y: Block)
    ensures Double(Xor(x, y)) == Xor(Double(x), Double(y))
  {
    ShiftIsLinear(x, y);
    ReductionIsLinear(x, y);
    hide Xor, Reduction;
    XorMedial(x << 1, y << 1, Reduction(x), Reduction(y));
  }

  lemma ShiftIsLinear(x: Block, y: Block)
    ensures Xor(x, y) << 1 == Xor(x << 1, y << 1)
  {
    calc {
      Xor(x, y) << 1;
      (x ^ y) << 1;
      (x << 1) ^ (y << 1);
      Xor(x << 1, y << 1);
    }
  }

  lemma ReductionIsLinear(x: Block, y: Block)
    ensures Reduction(Xor(x, y)) == Xor(Reduction(x), Reduction(y))
  {
    calc {
      Reduction(Xor(x, y));
      Reduction(x ^ y);
      (0 - ((x ^ y) >> 127)) & REDUCTION;
      ((0 - (x >> 127)) & REDUCTION) ^ ((0 - (y >> 127)) & REDUCTION);
      Xor(Reduction(x), Reduction(y));
    }
  }

  // A left shift, reduced by 0x87 when the leading bit falls off.
  lemma DoubleReduces(x: Block)
    ensures Double(x) == if And(x, TOP_BIT) == 0 then x << 1 else Xor(x << 1, 0x87)
  {}

  lemma DoubleOfZero()
    ensures Double(0) == 0
  {}

  lemma DoubleNonzero(x: Block)
    requires Double(x) == 0
    ensures x == 0
  {}

  lemma DoubleIsInjective(x: Block, y: Block)
    requires Double(x) == Double(y)
    ensures x == y
  {
    hide Double, Xor;
    DoubleIsLinear(x, y);
    XorUnit(Double(x));
    DoubleNonzero(Xor(x, y));
    XorZero(x, y);
  }

  lemma TripleNonzero(x: Block)
    requires Xor(Double(x), x) == 0
    ensures x == 0
  {}

  lemma QuintupleNonzero(x: Block)
    requires Xor(Double(Double(x)), x) == 0
    ensures x == 0
  {}

  lemma SeptupleNonzero(x: Block)
    requires Xor(Double(Xor(Double(x), x)), x) == 0
    ensures x == 0
  {}

  // -------------------------------------------------------------------------
  // Powers of two
  // -------------------------------------------------------------------------

  lemma {:induction false} PowerStep(x: Block, exponent: nat)
    ensures TimesPowerOfTwo(x, exponent + 1) == Double(TimesPowerOfTwo(x, exponent))
    decreases exponent
  {
    hide Double;
    if exponent > 0 {
      PowerStep(Double(x), exponent - 1);
    }
  }

  lemma {:induction false} PowerIsLinear(x: Block, y: Block, exponent: nat)
    ensures TimesPowerOfTwo(Xor(x, y), exponent) == Xor(TimesPowerOfTwo(x, exponent), TimesPowerOfTwo(y, exponent))
    decreases exponent
  {
    hide Double, Xor;
    if exponent > 0 {
      DoubleIsLinear(x, y);
      PowerIsLinear(Double(x), Double(y), exponent - 1);
    }
  }

  lemma {:induction false} PowerOfZero(exponent: nat)
    ensures TimesPowerOfTwo(0, exponent) == 0
  {
    DoubleOfZero();
    hide Double;
    if exponent > 0 {
      PowerOfZero(exponent - 1);
    }
  }

  lemma {:induction false} PowerNonzero(x: Block, exponent: nat)
    requires x != 0
    ensures TimesPowerOfTwo(x, exponent) != 0
    decreases exponent
  {
    hide Double;
    if exponent > 0 {
      if Double(x) == 0 {
        DoubleNonzero(x);
      }
      PowerNonzero(Double(x), exponent - 1);
    }
  }

  // -------------------------------------------------------------------------
  // The scalar action
  // -------------------------------------------------------------------------

  lemma SelectIs(isSet: bool, x: Block)
    ensures Select(isSet, x) == if isSet then x else 0
  {
    if isSet {
      assert Select(isSet, x) == x & (0 - 1);
    } else {
      assert Select(isSet, x) == x & (0 - 0);
    }
  }

  lemma SelectIsLinear(isSet: bool, x: Block, y: Block)
    ensures Select(isSet, Xor(x, y)) == Xor(Select(isSet, x), Select(isSet, y))
  {
    hide Select, Xor;
    SelectIs(isSet, Xor(x, y));
    SelectIs(isSet, x);
    SelectIs(isSet, y);
    XorUnit(0);
  }

  /** The xor of 2^b.x over the set bits b < width of `scalar`. */
  function SetBitSum(x: Block, scalar: nat, width: nat): Block {
    if width == 0 then 0
    else
      var rest := SetBitSum(x, scalar, width - 1);
      if BitSet(scalar, width - 1) then Xor(rest, TimesPowerOfTwo(x, width - 1)) else rest
  }

  lemma {:induction false} FoldIsSum(x: Block, scalar: nat, width: nat, sum: Block)
    ensures TimesFold(x, scalar, width, sum)
         == Xor(TimesPowerOfTwo(sum, width), SetBitSum(x, scalar, width))
    decreases width
  {
    hide Double, BitSet, Xor, Select;
    if width == 0 {
      XorUnit(sum);
    } else {
      var term := Select(BitSet(scalar, width - 1), x);
      var power, rest := TimesPowerOfTwo(Double(sum), width - 1), SetBitSum(x, scalar, width - 1);
      FoldIsSum(x, scalar, width - 1, Xor(Double(sum), term));
      PowerIsLinear(Double(sum), term, width - 1);
      SelectIs(BitSet(scalar, width - 1), x);
      PowerOfZero(width - 1);
      XorUnit(power);
      XorAssociates(power, TimesPowerOfTwo(term, width - 1), rest);
      XorCommutes(TimesPowerOfTwo(term, width - 1), rest);
    }
  }

  lemma {:induction false} NoBitBeyondLength(scalar: nat, bit: nat)
    requires BitLength(scalar) <= bit
    ensures !BitSet(scalar, bit)
  {
    if bit > 0 {
      NoBitBeyondLength(scalar / 2, bit - 1);
    }
  }

  // k.x is the xor of 2^b.x over the set bits b of k, up to any width that covers k.
  lemma {:induction false} TimesIsSetBitSum(x: Block, scalar: nat, width: nat)
    requires BitLength(scalar) <= width
    ensures Times(x, scalar) == SetBitSum(x, scalar, width)
    decreases width
  {
    hide Double, BitSet, Xor;
    if BitLength(scalar) == width {
      FoldIsSum(x, scalar, width, 0);
      PowerOfZero(width);
      XorUnit(SetBitSum(x, scalar, width));
    } else {
      TimesIsSetBitSum(x, scalar, width - 1);
      NoBitBeyondLength(scalar, width - 1);
    }
  }

  lemma {:induction false} SumStep(x: Block, scalar: nat, width: nat)
    ensures SetBitSum(x, scalar, width + 1)
         == Xor(Double(SetBitSum(x, scalar / 2, width)), Select(scalar % 2 == 1, x))
  {
    hide Double, Xor, Select;
    DoubleOfZero();
    SelectIs(scalar % 2 == 1, x);
    if width == 0 {
      assert SetBitSum(x, scalar, 0) == 0;
      XorUnit(x);
      XorUnit(0);
    } else {
      var half, power := SetBitSum(x, scalar / 2, width - 1), TimesPowerOfTwo(x, width - 1);
      assert BitSet(scalar, width) == BitSet(scalar / 2, width - 1);
      hide BitSet;
      SumStep(x, scalar, width - 1);
      PowerStep(x, width - 1);
      DoubleIsLinear(half, power);
      XorSwap(Double(half), Select(scalar % 2 == 1, x), Double(power));
    }
  }

  // The recursion that characterises the action: 0.x = 0, (2k).x = 2.(k.x), (2k+1).x = (2k).x + x.
  lemma TimesStep(x: Block, scalar: nat)
    ensures scalar == 0 ==> Times(x, scalar) == 0
    ensures Times(x, scalar) == Xor(Double(Times(x, scalar / 2)), Select(scalar % 2 == 1, x))
  {
    hide Double, Xor, Select;
    if scalar == 0 {
      DoubleOfZero();
      SelectIs(false, x);
      XorUnit(0);
    } else {
      var width := BitLength(scalar / 2);
      TimesIsSetBitSum(x, scalar, width + 1);
      TimesIsSetBitSum(x, scalar / 2, width);
      hide Times;
      SumStep(x, scalar, width);
    }
  }

  lemma {:induction false} TimesIsLinear(x: Block, y: Block, scalar: nat)
    ensures Times(Xor(x, y), scalar) == Xor(Times(x, scalar), Times(y, scalar))
  {
    hide Double, Times, Xor, Select;
    TimesStep(Xor(x, y), scalar);
    TimesStep(x, scalar);
    TimesStep(y, scalar);
    if scalar == 0 {
      XorUnit(0);
    } else {
      var odd := scalar % 2 == 1;
      TimesIsLinear(x, y, scalar / 2);
      DoubleIsLinear(Times(x, scalar / 2), Times(y, scalar / 2));
      SelectIsLinear(odd, x, y);
      XorMedial(Double(Times(x, scalar / 2)), Double(Times(y, scalar / 2)), Select(odd, x), Select(odd, y));
    }
  }

  /** Bitwise exclusive or of two integers. */
  function XorNat(a: nat, b: nat): nat {
    if a == 0 && b == 0 then 0 else (a % 2 + b % 2) % 2 + 2 * XorNat(a / 2, b / 2)
  }

  lemma SelectXor(p: bool, q: bool, x: Block)
    ensures Select(p != q, x) == Xor(Select(p, x), Select(q, x))
  {
    hide Select, Xor;
    SelectIs(p != q, x);
    SelectIs(p, x);
    SelectIs(q, x);
    XorUnit(x);
    XorUnit(0);
  }

  lemma {:induction false} TimesIsLinearInTheScalar(x: Block, a: nat, b: nat)
    ensures Times(x, XorNat(a, b)) == Xor(Times(x, a), Times(x, b))
    decreases a + b
  {
    hide Double, Times, Xor, Select;
    if a == 0 && b == 0 {
      TimesStep(x, 0);
      XorUnit(0);
    } else {
      var c := XorNat(a, b);
      assert c / 2 == XorNat(a / 2, b / 2) && (c % 2 == 1) == ((a % 2 == 1) != (b % 2 == 1));
      hide XorNat;
      TimesStep(x, a);
      TimesStep(x, b);
      TimesStep(x, c);
      TimesIsLinearInTheScalar(x, a / 2, b / 2);
      DoubleIsLinear(Times(x, a / 2), Times(x, b / 2));
      SelectXor(a % 2 == 1, b % 2 == 1, x);
      XorMedial(Double(Times(x, a / 2)), Double(Times(x, b / 2)), Select(a % 2 == 1, x), Select(b % 2 == 1, x));
    }
  }

  lemma {:induction false} TimesOfDouble(x: Block, scalar: nat)
    ensures Times(Double(x), scalar) == Double(Times(x, scalar))
  {
    hide Double, Times, Xor, Select;
    TimesStep(Double(x), scalar);
    TimesStep(x, scalar);
    DoubleOfZero();
    if scalar > 0 {
      TimesOfDouble(x, scalar / 2);
      DoubleIsLinear(Double(Times(x, scalar / 2)), Select(scalar % 2 == 1, x));
      SelectIs(scalar % 2 == 1, x);
      SelectIs(scalar % 2 == 1, Double(x));
    }
  }

  lemma {:induction false} TimesOfZero(scalar: nat)
    ensures Times(0, scalar) == 0
  {
    hide Double, Times, Xor, Select;
    TimesStep(0, scalar);
    if scalar > 0 {
      TimesOfZero(scalar / 2);
      DoubleOfZero();
      SelectIs(scalar % 2 == 1, 0);
      XorUnit(0);
    }
  }

  lemma {:induction false} TimesCommutes(x: Block, a: nat, b: nat)
    ensures Times(Times(x, b), a) == Times(Times(x, a), b)
  {
    hide Double, Times, Xor, Select;
    TimesStep(Times(x, b), a);
    TimesStep(x, a);
    TimesOfZero(b);
    if a > 0 {
      TimesCommutes(x, a / 2, b);
      TimesOfDouble(Times(x, a / 2), b);
      TimesIsLinear(Double(Times(x, a / 2)), Select(a % 2 == 1, x), b);
      SelectIs(a % 2 == 1, x);
      SelectIs(a % 2 == 1, Times(x, b));
    }
  }

  function PowerOfTwo(exponent: nat): (power: nat)
    ensures power > 0
  {
    if exponent == 0 then 1 else 2 * PowerOfTwo(exponent - 1)
  }

  // The two ways of multiplying by a power of two agree.
  lemma {:induction false} TimesAgreesWithPower(x: Block, exponent: nat)
    ensures Times(x, PowerOfTwo(exponent)) == TimesPowerOfTwo(x, exponent)
  {
    hide Double, Times, Xor, Select;
    TimesStep(x, PowerOfTwo(exponent));
    if exponent == 0 {
      TimesStep(x, 0);
      DoubleOfZero();
      SelectIs(true, x);
      XorUnit(x);
    } else {
      assert PowerOfTwo(exponent) / 2 == PowerOfTwo(exponent - 1);
      TimesAgreesWithPower(x, exponent - 1);
      PowerStep(x, exponent - 1);
      SelectIs(false, x);
      XorUnit(Double(TimesPowerOfTwo(x, exponent - 1)));
    }
  }

  lemma SmallTimes(x: Block)
    ensures Times(x, 1) == x
    ensures Times(x, 2) == Double(x)
    ensures Times(x, 3) == Xor(Double(x), x)
  {
    hide Double, Times, Xor, Select;
    TimesStep(x, 0);
    TimesStep(x, 1);
    TimesStep(x, 2);
    TimesStep(x, 3);
    DoubleOfZero();
    SelectIs(true, x);
    SelectIs(false, x);
    XorUnit(x);
    XorUnit(Double(x));
  }

  lemma SmallMultipleNonzero(x: Block, scalar: nat)
    requires x != 0 && 1 <= scalar < 8
    ensures Times(x, scalar) != 0
  {
    hide Times, Double, Xor, Select;
    SmallTimes(x);
    TimesStep(x, scalar);
    SelectIs(true, x);
    SelectIs(false, x);
    if Times(x, scalar) == 0 {
      XorUnit(Double(Times(x, scalar / 2)));
      if scalar == 2 {
        DoubleNonzero(x);
      } else if scalar == 3 {
        TripleNonzero(x);
      } else if scalar == 4 {
        DoubleNonzero(Double(x));
        DoubleNonzero(x);
      } else if scalar == 5 {
        QuintupleNonzero(x);
      } else if scalar == 6 {
        DoubleNonzero(Xor(Double(x), x));
        TripleNonzero(x);
      } else if scalar == 7 {
        SeptupleNonzero(x);
      }
    }
  }

  // Distinct scalars below 8 send a nonzero block to distinct blocks.
  lemma SmallMultiplesDistinct(x: Block, a: nat, b: nat)
    requires x != 0 && a < 8 && b < 8 && a != b
    ensures Times(x, a) != Times(x, b)
  {
    hide Times, Xor;
    XorNatSmall(a, b);
    hide XorNat;
    TimesIsLinearInTheScalar(x, a, b);
    SmallMultipleNonzero(x, XorNat(a, b));
    XorUnit(Times(x, a));
  }

  lemma XorNatSmall(a: nat, b: nat)
    requires a < 8 && b < 8 && a != b
    ensures 1 <= XorNat(a, b) < 8
  {
    assert XorNat(a / 8, b / 8) == 0;
    assert XorNat(a / 4, b / 4) == (a / 4 % 2 + b / 4 % 2) % 2;
    assert XorNat(a / 2, b / 2) == (a / 2 % 2 + b / 2 % 2) % 2 + 2 * XorNat(a / 4, b / 4);
  }
}
