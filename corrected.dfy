/**
 * The places where BigInt.cpp does not compute what its operators mean, each
 * shown on a concrete input, next to a corrected definition with the intended
 * property proved about it. The rest of the model keeps the code as written;
 * these members stand beside it.
 */
module Corrected {
  import opened Words
  import opened Repr
  import opened Bitwise
  import opened Arith
  import opened Shifts

  // ---------------------------------------------------------------------
  // ++ on a long -1, and what it breaks: unary -, -- and <

  /** `++` as written tests for -1 only in the one-word form `[MAX]`: the two-word -1 comes out as BASE^2 - BASE^3. */
  lemma LongMinusOneCounterexample()
    ensures Value(Big([MAX, MAX], true)) == -1
    ensures Value(Incremented(Big([MAX, MAX], true))) == BASE * BASE - BASE * BASE * BASE
  {
    IncrementedValue(Big([MAX, MAX], true));
    assert Pow(2) == BASE * BASE;
    assert Pow(3) == BASE * BASE * BASE;
  }

  /** Through unary minus, the non-condensed zero that `0 & 0` yields compares as greater than 0. */
  lemma LessZeroCounterexample()
    ensures var zero := Big([0], false);
      Value(AndOf(zero, zero)) == Value(zero) && Less(zero, AndOf(zero, zero))
  {
    var zero := Big([0], false);
    var z2 := AndOf(zero, zero);
    ExtensionWords(0);
    assert AndLoop(zero, zero).bits == [0];
    assert z2 == Big([0, 0], false);
    NatAllZero(z2.bits);
    NatAllZero(zero.bits);
    var m := Complement(z2);
    assert m == Big([MAX, MAX], true);
    IncWordsRunOff(m.bits);
    var n := Negated(z2);
    assert n.isNeg;
    SignIsNeg(n);
    SumValue(zero, n);
    assert Difference(zero, z2) == SumOf(zero, n);
  }

  /** `++` with the -1 case recognised in every length: an all-MAX negative list becomes `[0]`. */
  function IncrementedFixed(x: Big): Big
  {
    if x.isNeg && AllMax(x.bits) then Big([0], false) else Incremented(x)
  }

  /** The corrected `++` adds one on every input. */
  lemma IncrementedFixedValue(x: Big)
    ensures Value(IncrementedFixed(x)) == Value(x) + 1
  {
    if x.isNeg && AllMax(x.bits) {
      NatAllMax(x.bits);
      assert Nat([0]) == 0;
    } else {
      IncrementedValue(x);
    }
  }

  /** Unary minus built on the corrected `++`. */
  function NegatedFixed(x: Big): Big
  {
    IncrementedFixed(Complement(x))
  }

  /** The corrected unary minus negates every value; `--` as `~`, corrected `++`, `~` subtracts one from every value. */
  lemma NegatedFixedValue(x: Big)
    ensures Value(NegatedFixed(x)) == -Value(x)
    ensures Value(Complement(IncrementedFixed(Complement(x)))) == Value(x) - 1
  {
    ComplementValue(x);
    IncrementedFixedValue(Complement(x));
    ComplementValue(IncrementedFixed(Complement(x)));
  }

  /** `<` with the corrected negation inside its subtraction. */
  function LessFixed(rhs: Big, lhs: Big): bool
  {
    if !rhs.isNeg && lhs.isNeg then false else SumOf(rhs, NegatedFixed(lhs)).isNeg
  }

  /** The corrected `<` orders every pair of values, condensed or not. */
  lemma LessFixedCorrect(rhs: Big, lhs: Big)
    ensures LessFixed(rhs, lhs) <==> Value(rhs) < Value(lhs)
  {
    SignIsNeg(rhs);
    SignIsNeg(lhs);
    NegatedFixedValue(lhs);
    SumValue(rhs, NegatedFixed(lhs));
  }

  // ---------------------------------------------------------------------
  // The seed word of + (and of & | ^)

  /** `+` without the seed word: the loop's words, switched and condensed. */
  function SumFixed(rhs: Big, lhs: Big): Big
    requires |rhs.bits| >= 1
  {
    AddPrefixValue(rhs, lhs, Max(|rhs.bits|, |lhs.bits|));
    Condensed(AddLoop(rhs, lhs))
  }

  /** The unseeded sum is the sum, condensed, with the sign of the sum. */
  lemma SumFixedValue(rhs: Big, lhs: Big)
    requires |rhs.bits| >= 1
    ensures Value(SumFixed(rhs, lhs)) == Value(rhs) + Value(lhs)
    ensures IsCondensed(SumFixed(rhs, lhs))
    ensures SumFixed(rhs, lhs).isNeg <==> Value(rhs) + Value(lhs) < 0
  {
    AddPrefixValue(rhs, lhs, Max(|rhs.bits|, |lhs.bits|));
    AddLoopValue(rhs, lhs);
    CondensedValue(AddLoop(rhs, lhs));
    CondensedIdempotent(AddLoop(rhs, lhs));
    SignIsNeg(SumFixed(rhs, lhs));
  }

  // ---------------------------------------------------------------------
  // Shift counts of more than one word

  /**
   * The word loop of `<<` and `>>` counts down with `lhs -= BITS_IN_ULONG`,
   * which goes through the seeded `+`: from any count above W the counter
   * grows instead of shrinking, and still passes the `lhs >= BITS_IN_ULONG`
   * test, so the loop never ends.
   */
  lemma ShiftCounterGrows(count: Big)
    requires Value(count) > W
    ensures var next := Difference(count, Big([W], false));
      Value(next) > Value(count) && GreaterEq(next, Big([W], false))
  {
    var w := Big([W], false);
    assert Nat([W]) == W;
    assert w.bits[0] != 0;
    var next := Difference(count, w);
    assert Value(next) == BASE * (Value(count) - W);
  }

  /** `x << count` for any count: the word loop counting down by W exactly, then corrected bit steps. */
  function ShiftedLeftFixed(x: Big, count: nat): Big
    decreases count
  {
    if count >= W then ShiftedLeftFixed(Seeded(x), count - W) else ShlBitsFixed(x, count)
  }

  /** k corrected bit steps. */
  function ShlBitsFixed(x: Big, k: nat): Big
  {
    if k == 0 then x else ShlBitStepFixed(ShlBitsFixed(x, k - 1))
  }

  lemma {:induction false} ShlBitsFixedValue(x: Big, k: nat)
    ensures Value(ShlBitsFixed(x, k)) == Value(x) * Pow2(k)
  {
    if k > 0 {
      var prev := ShlBitsFixed(x, k - 1);
      ShlBitsFixedValue(x, k - 1);
      ShlBitStepFixedValue(prev);
      DoubleArith(Value(x), Pow2(k - 1), Value(prev), Value(ShlBitsFixed(x, k)), Pow2(k));
    }
  }

  lemma DoubleArith(v: int, p: int, prev: int, next: int, p2: int)
    requires prev == v * p && next == 2 * prev && p2 == 2 * p
    ensures next == v * p2
  {
  }

  /** The corrected `<<` multiplies every value by 2^count. */
  lemma {:induction false} ShiftedLeftFixedValue(x: Big, count: nat)
    ensures Value(ShiftedLeftFixed(x, count)) == Value(x) * Pow2(count)
    decreases count
  {
    if count >= W {
      ShiftedLeftFixedValue(Seeded(x), count - W);
      SeededValue(x);
      Pow2W();
      Pow2Add(W, count - W);
      ShiftArith(Value(x), BASE, Pow2(count - W), Value(Seeded(x)),
        Value(ShiftedLeftFixed(x, count)), Pow2(count));
    } else {
      ShlBitsFixedValue(x, count);
    }
  }

  lemma ShiftArith(v: int, pq: int, pk: int, vy: int, r: int, pc: int)
    requires vy == pq * v && r == vy * pk && pc == pq * pk
    ensures r == v * pc
  {
    MulAssoc(v, pq, pk);
  }
}
