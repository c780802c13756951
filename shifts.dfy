/**
 * The arithmetic shifts `<<` and `>>` (BigInt.cpp:185-240) as functions on
 * the representation. The shift count, a BigInt in the source, is an `int`
 * here: a negative count gives `BigInt(0ul)`, a count of W shifts by one
 * whole word, and smaller counts run that many single-bit steps.
 */
module Shifts {
  import opened Words
  import opened Repr

  /** `BigInt(0ul)`, returned for a negative count. */
  function ZeroBig(): Big
  {
    Big([0], false)
  }

  // ---------------------------------------------------------------------
  // <<

  /**
   * Word i after one bit step of `<<`: `(*it & ALL_BUT_MSB) << 1`, with the
   * low bit set when the word below had its top bit set.
   */
  function ShlWord(s: seq<Word>, i: nat): Word
    requires i < |s|
  {
    var shifted := (WordAnd(s[i], ALL_BUT_MSB) * 2) % BASE;
    if i > 0 && WordAnd(s[i - 1], MSB) == MSB then WordOr(shifted, 1) else shifted
  }

  function ShlWords(s: seq<Word>): seq<Word>
  {
    seq(|s|, i requires 0 <= i < |s| => ShlWord(s, i))
  }

  /** `carryN` after the word loop: the top bit of the top word. */
  predicate ShlCarry(s: seq<Word>)
  {
    |s| > 0 && WordAnd(s[|s| - 1], MSB) == MSB
  }

  /**
   * One bit step of `<<`: the word loop, then a new top word when the bit
   * shifted out of the top word differs from the sign. For a negative value
   * the source appends ALL_BUT_MSB there.
   */
  function ShlBitStep(x: Big): Big
  {
    var ws := ShlWords(x.bits);
    if ShlCarry(x.bits) != x.isNeg then Big(ws + [if x.isNeg then ALL_BUT_MSB else 1], x.isNeg)
    else Big(ws, x.isNeg)
  }

  /** k bit steps of `<<`. */
  function ShlBits(x: Big, k: nat): Big
  {
    if k == 0 then x else ShlBitStep(ShlBits(x, k - 1))
  }

  /** `x << count` for a count of at most W (a larger count never leaves the word loop). */
  function ShiftedLeft(x: Big, count: int): Big
    requires count <= W
  {
    if count < 0 then ZeroBig()
    else if count >= W then ShlBits(Big([0] + x.bits, x.isNeg), count - W)
    else ShlBits(x, count)
  }

  /** The top word of the word loop: the low bits doubled, plus the carry from the word below. */
  lemma ShlTopWord(s: seq<Word>)
    requires |s| >= 1
    ensures ShlWords(s)[..|s| - 1] == ShlWords(s[..|s| - 1])
    ensures ShlWord(s, |s| - 1) == (s[|s| - 1] % MSB) * 2 + (if ShlCarry(s[..|s| - 1]) then 1 else 0)
    ensures ShlCarry(s) == TopBit(s[|s| - 1])
  {
    var n := |s|;
    var w := s[n - 1];
    AndAllButMsb(w);
    AndMsb(w);
    var shifted := (w % MSB) * 2;
    if n > 1 {
      AndMsb(s[n - 2]);
    }
    if ShlCarry(s[..n - 1]) {
      AndOne(shifted);
      OrDisjoint(shifted, 1);
    }
  }

  /** The word loop doubles the unsigned value; the bit shifted out of the top is the carry. */
  lemma {:induction false} ShlWordsValue(s: seq<Word>)
    ensures |ShlWords(s)| == |s|
    ensures Nat(ShlWords(s)) + (if ShlCarry(s) then Pow(|s|) else 0) == 2 * Nat(s)
  {
    var n := |s|;
    if n > 0 {
      var p := s[..n - 1];
      var w := s[n - 1];
      var r := ShlWords(s);
      var q := ShlWords(p);
      ShlWordsValue(p);
      ShlTopWord(s);
      var v := r[n - 1];
      NatSnoc(r);
      NatSnoc(s);
      ShlArith(Nat(q), Nat(p), Pow(n - 1), w, v, ShlCarry(p), TopBit(w), Nat(r), Nat(s), Pow(n));
    }
  }

  lemma ShlArith(np: int, p: int, pw: int, w: int, v: int, c: bool, top: bool, nr: int, ns: int, pn: int)
    requires np + (if c then pw else 0) == 2 * p
    requires top <==> w >= MSB
    requires 0 <= w < BASE
    requires v == (w % MSB) * 2 + (if c then 1 else 0)
    requires nr == np + pw * v && ns == p + pw * w && pn == BASE * pw
    ensures nr + (if top then pn else 0) == 2 * ns
  {
    var lo := w % MSB;
    assert w == lo + (if top then MSB else 0);
    assert pw * v == 2 * (pw * lo) + (if c then pw else 0);
    assert pw * w == pw * lo + (if top then MSB * pw else 0);
  }

  /** A bit step of `<<` doubles the value when x is non-negative or its top word has its top bit set. */
  lemma ShlBitStepValue(x: Big)
    ensures !x.isNeg || ShlCarry(x.bits) ==> Value(ShlBitStep(x)) == 2 * Value(x)
    ensures x.isNeg && !ShlCarry(x.bits) ==>
      Value(ShlBitStep(x)) == 2 * Value(x) - (MSB - 1) * Pow(|x.bits|)
    ensures ShlBitStep(x).isNeg == x.isNeg && |ShlBitStep(x).bits| >= |x.bits|
  {
    var n := |x.bits|;
    ShlWordsValue(x.bits);
    var ws := ShlWords(x.bits);
    if ShlCarry(x.bits) != x.isNeg {
      var top: Word := if x.isNeg then ALL_BUT_MSB else 1;
      var r := ShlBitStep(x);
      assert r == Big(ws + [top], x.isNeg);
      NatAppend(ws, [top]);
      assert Nat([top]) == top;
      ShlStepArith(Nat(ws), Nat(x.bits), Pow(n), ShlCarry(x.bits), x.isNeg, top, Nat(r.bits), Pow(|r.bits|));
    } else {
      assert ShlBitStep(x) == Big(ws, x.isNeg);
    }
  }

  /** The value of a bit step that appends `top`: double, off by `top - ALL_BUT_LSB` top words when negative. */
  lemma ShlStepArith(nws: int, nx: int, pn: int, carry: bool, isNeg: bool, top: int, nr: int, pr: int)
    requires nws + (if carry then pn else 0) == 2 * nx
    requires carry != isNeg && (!isNeg ==> top == 1)
    requires nr == nws + pn * top && pr == BASE * pn
    ensures nr - (if isNeg then pr else 0) == 2 * (nx - (if isNeg then pn else 0)) + (if isNeg then (top - ALL_BUT_LSB) * pn else 0)
  {
    if isNeg {
      assert pn * top - BASE * pn == (top - ALL_BUT_LSB) * pn - 2 * pn;
    }
  }

  /**
   * The same step with ALL_BUT_LSB appended for a negative value: this one
   * doubles every value.
   */
  function ShlBitStepFixed(x: Big): Big
  {
    var ws := ShlWords(x.bits);
    if ShlCarry(x.bits) != x.isNeg then Big(ws + [if x.isNeg then ALL_BUT_LSB else 1], x.isNeg)
    else Big(ws, x.isNeg)
  }

  lemma ShlBitStepFixedValue(x: Big)
    ensures Value(ShlBitStepFixed(x)) == 2 * Value(x)
  {
    var n := |x.bits|;
    ShlWordsValue(x.bits);
    var ws := ShlWords(x.bits);
    if ShlCarry(x.bits) != x.isNeg {
      var top: Word := if x.isNeg then ALL_BUT_LSB else 1;
      var r := ShlBitStepFixed(x);
      assert r == Big(ws + [top], x.isNeg);
      NatAppend(ws, [top]);
      assert Nat([top]) == top;
      ShlStepArith(Nat(ws), Nat(x.bits), Pow(n), ShlCarry(x.bits), x.isNeg, top, Nat(r.bits), Pow(|r.bits|));
    } else {
      assert ShlBitStepFixed(x) == Big(ws, x.isNeg);
    }
  }

  /** `-BASE << 1`: the source gives `-BASE - BASE^2/2`, not `-2 * BASE`. */
  lemma ShlNegativeCounterexample()
    ensures Value(Big([0], true)) + BASE == 0
    ensures Value(ShiftedLeft(Big([0], true), 1)) + BASE + BASE * BASE / 2 == 0
    ensures Value(ShlBitStepFixed(Big([0], true))) + 2 * BASE == 0
  {
    var x := Big([0], true);
    AndMsb(0);
    assert !ShlCarry(x.bits);
    ShlBitStepValue(x);
    ShlBitStepFixedValue(x);
    assert ShiftedLeft(x, 1) == ShlBitStep(x);
  }

  /** k bit steps of `<<` multiply a non-negative value by 2^k. */
  lemma {:induction false} ShlBitsValue(x: Big, k: nat)
    ensures ShlBits(x, k).isNeg == x.isNeg && |ShlBits(x, k).bits| >= |x.bits|
    ensures !x.isNeg ==> Value(ShlBits(x, k)) == Value(x) * Pow2(k)
  {
    if k > 0 {
      ShlBitsValue(x, k - 1);
      ShlBitStepValue(ShlBits(x, k - 1));
      MulAssoc(Value(x), Pow2(k - 1), 2);
    }
  }

  /**
   * k bit steps of `<<` multiply a negative value by 2^k as long as the
   * product still fits the stored words, x * 2^k >= -BASE^|x.bits|: then the
   * top bit of every intermediate top word is set, and no word is appended.
   */
  lemma {:induction false} ShlBitsNegative(x: Big, k: nat)
    requires x.isNeg && |x.bits| >= 1
    requires Value(x) * Pow2(k) >= 0 - (Pow(|x.bits|) as int)
    ensures ShlBits(x, k).isNeg && |ShlBits(x, k).bits| == |x.bits|
    ensures Value(ShlBits(x, k)) == Value(x) * Pow2(k)
  {
    if k > 0 {
      SignIsNeg(x);
      NegMulMonotone(Value(x), Pow2(k - 1), Pow2(k));
      ShlBitsNegative(x, k - 1);
      var y := ShlBits(x, k - 1);
      MulAssoc(Value(x), Pow2(k - 1), 2);
      NegativeTopBit(y);
      ShlBitStepValue(y);
      assert ShlBitStep(y) == Big(ShlWords(y.bits), y.isNeg);
      ShlWordsValue(y.bits);
    }
  }

  /** A larger factor makes a negative product smaller. */
  lemma NegMulMonotone(v: int, a: int, b: int)
    requires v < 0 && 0 <= a <= b
    ensures v * a >= v * b
  {
    assert v * b - v * a == v * (b - a);
    assert (-v) * (b - a) >= 0;
  }

  /** A negative value whose double still fits its words has the top bit of its top word set. */
  lemma NegativeTopBit(y: Big)
    requires y.isNeg && |y.bits| >= 1 && 2 * Value(y) >= 0 - (Pow(|y.bits|) as int)
    ensures ShlCarry(y.bits)
  {
    var n := |y.bits|;
    var w := y.bits[n - 1];
    NatSnoc(y.bits);
    NatBound(y.bits[..n - 1]);
    assert Pow(n) == BASE * Pow(n - 1);
    TopWordArith(Nat(y.bits[..n - 1]), Pow(n - 1), w, Nat(y.bits));
    AndMsb(w);
  }

  lemma TopWordArith(np: int, p: int, w: int, n: int)
    requires 0 <= np < p && 0 <= w && n == np + p * w && 2 * n >= 2 * MSB * p
    ensures w >= MSB
  {
    LowTopWord(np, p, w, n);
  }

  /** A top word below MSB keeps the unsigned value below MSB * p. */
  lemma LowTopWord(np: int, p: int, w: int, n: int)
    requires 0 <= np < p && 0 <= w && n == np + p * w
    ensures w < MSB ==> n < MSB * p
  {
    if w < MSB {
      assert p * (MSB - 1) - p * w == p * (MSB - 1 - w);
      MulNonnegative(p, MSB - 1 - w);
    }
  }

  lemma MulNonnegative(a: int, b: int)
    requires a >= 0 && b >= 0
    ensures a * b >= 0
  {
  }

  // ---------------------------------------------------------------------
  // >>

  /**
   * Word i after one bit step of `>>`: `*it >>= 1`, with the top bit taken
   * from the low bit of the next word, or from the sign for the top word.
   */
  function ShrWord(s: seq<Word>, isNeg: bool, i: nat): Word
    requires i < |s|
  {
    var shifted := s[i] / 2;
    if i + 1 == |s| then WordOr(shifted, if isNeg then MSB else 0)
    else WordOr(shifted, if WordAnd(s[i + 1], 1) == 1 then MSB else 0)
  }

  function ShrWords(s: seq<Word>, isNeg: bool): seq<Word>
  {
    seq(|s|, i requires 0 <= i < |s| => ShrWord(s, isNeg, i))
  }

  /** One bit step of `>>`. */
  function ShrBitStep(x: Big): Big
  {
    Big(ShrWords(x.bits, x.isNeg), x.isNeg)
  }

  /** k bit steps of `>>`. */
  function ShrBits(x: Big, k: nat): (r: Big)
    ensures |r.bits| == |x.bits| && r.isNeg == x.isNeg
  {
    if k == 0 then x else ShrBitStep(ShrBits(x, k - 1))
  }

  /**
   * `x >> count` for a count of at most W: a negative count gives 0, a count
   * of W drops the lowest word (which must exist), and the result is
   * condensed (which needs a word left).
   */
  function ShiftedRight(x: Big, count: int): Big
    requires count <= W
    requires count >= 0 ==> |x.bits| > (if count == W then 1 else 0)
  {
    if count < 0 then ZeroBig()
    else if count >= W then Condensed(ShrBits(Big(x.bits[1..], x.isNeg), count - W))
    else Condensed(ShrBits(x, count))
  }

  /** OR-ing in a top bit that the halved word cannot have is addition. */
  lemma OrTopBit(half: Word, top: bool)
    requires half < MSB
    ensures WordOr(half, if top then MSB else 0) == half + (if top then MSB else 0)
  {
    ExtensionWords(half);
    AndMsb(half);
    if top {
      OrDisjoint(half, MSB);
    }
  }

  /** The word loop halves the unsigned value and puts the sign bit in at the top. */
  lemma {:induction false} ShrWordsValue(s: seq<Word>, isNeg: bool)
    requires |s| >= 1
    ensures |ShrWords(s, isNeg)| == |s|
    ensures Nat(ShrWords(s, isNeg)) == Nat(s) / 2 + (if isNeg then MSB * Pow(|s| - 1) else 0)
  {
    var w := s[0];
    var ws := ShrWords(s, isNeg);
    if |s| == 1 {
      OrTopBit(w / 2, isNeg);
      assert Nat(ws) == ws[0];
    } else {
      var t := s[1..];
      ShrWordsValue(t, isNeg);
      assert ws[1..] == ShrWords(t, isNeg);
      AndOne(t[0]);
      OrTopBit(w / 2, t[0] % 2 == 1);
      assert ws[0] == w / 2 + (if t[0] % 2 == 1 then MSB else 0);
      assert Nat(t) == t[0] + BASE * Nat(t[1..]);
      ShrArith(w, t[0], Nat(t[1..]), Nat(t));
      assert Pow(|s| - 1) == BASE * Pow(|t| - 1);
    }
  }

  lemma ShrArith(w: nat, t0: nat, rest: nat, n: nat)
    requires n == t0 + BASE * rest
    ensures (w + BASE * n) / 2 == w / 2 + (if t0 % 2 == 1 then MSB else 0) + BASE * (n / 2)
  {
    DivModUnique(w + BASE * n, 2, w / 2 + MSB * n, w % 2);
    DivModUnique(n, 2, t0 / 2 + MSB * rest, t0 % 2);
  }

  /** A bit step of `>>` halves the value, rounding towards minus infinity. */
  lemma ShrBitStepValue(x: Big)
    ensures Value(ShrBitStep(x)) == Value(x) / 2
    ensures ShrBitStep(x).isNeg == x.isNeg && |ShrBitStep(x).bits| == |x.bits|
  {
    var n := |x.bits|;
    if n == 0 {
      assert ShrBitStep(x).bits == [];
    } else {
      ShrWordsValue(x.bits, x.isNeg);
      assert Pow(n) == BASE * Pow(n - 1);
      var neg := if x.isNeg then MSB * Pow(n - 1) else 0;
      DivModUnique(Value(x), 2, Nat(x.bits) / 2 - neg, Nat(x.bits) % 2);
    }
  }

  /** Dropping the lowest word divides the value by BASE, rounding towards minus infinity. */
  lemma ShrWordStepValue(x: Big)
    requires |x.bits| >= 1
    ensures Value(Big(x.bits[1..], x.isNeg)) == Value(x) / BASE
  {
    var y := Big(x.bits[1..], x.isNeg);
    assert Pow(|x.bits|) == BASE * Pow(|y.bits|);
    DivModUnique(Value(x), BASE, Value(y), x.bits[0]);
  }

  lemma DivTwice(a: int, m: int)
    requires m >= 1
    ensures (a / m) / 2 == a / (2 * m)
  {
    var q := a / m;
    var r := a % m;
    var q2 := q / 2;
    var r2 := q % 2;
    assert a == m * q + r;
    assert q == 2 * q2 + r2;
    assert m * q == (2 * m) * q2 + m * r2;
    DivModUnique(a, 2 * m, q2, m * r2 + r);
  }

  /** k bit steps of `>>` divide the value by 2^k, rounding towards minus infinity. */
  lemma {:induction false} ShrBitsValue(x: Big, k: nat)
    ensures Value(ShrBits(x, k)) == Value(x) / Pow2(k)
    ensures ShrBits(x, k).isNeg == x.isNeg && |ShrBits(x, k).bits| == |x.bits|
  {
    if k > 0 {
      ShrBitsValue(x, k - 1);
      ShrBitStepValue(ShrBits(x, k - 1));
      DivTwice(Value(x), Pow2(k - 1));
    }
  }

  // ---------------------------------------------------------------------
  // The shifts as a whole

  /** `x >> n` is `floor(x / 2^n)`, condensed; a negative count gives 0. */
  lemma ShiftedRightValue(x: Big, count: int)
    requires count <= W
    requires count >= 0 ==> |x.bits| > (if count == W then 1 else 0)
    ensures count < 0 ==> Value(ShiftedRight(x, count)) == 0
    ensures count >= 0 ==> Value(ShiftedRight(x, count)) == Value(x) / Pow2(count)
    ensures IsCondensed(ShiftedRight(x, count))
  {
    if count >= W {
      var y := Big(x.bits[1..], x.isNeg);
      ShrWordStepValue(x);
      ShrBitsValue(y, count - W);
      CondensedValue(ShrBits(y, count - W));
      CondensedIdempotent(ShrBits(y, count - W));
      Pow2W();
    } else if count >= 0 {
      ShrBitsValue(x, count);
      CondensedValue(ShrBits(x, count));
      CondensedIdempotent(ShrBits(x, count));
    }
  }

  /**
   * `x << n` is `x * 2^n` for non-negative x, for a count of W, and for
   * negative x whenever the product fits the stored words; a negative count
   * gives 0.
   */
  lemma ShiftedLeftValue(x: Big, count: int)
    requires count <= W
    ensures count < 0 ==> Value(ShiftedLeft(x, count)) == 0
    ensures count >= 0 && !x.isNeg ==> Value(ShiftedLeft(x, count)) == Value(x) * Pow2(count)
    ensures count == W ==> Value(ShiftedLeft(x, count)) == Value(x) * BASE
    ensures count >= 0 && x.isNeg && |x.bits| >= 1 && Value(x) * Pow2(count) >= 0 - (Pow(|x.bits|) as int) ==>
      Value(ShiftedLeft(x, count)) == Value(x) * Pow2(count)
    ensures count >= 0 ==> |ShiftedLeft(x, count).bits| >= |x.bits| + (if count == W then 1 else 0)
  {
    if count >= W {
      var y := Big([0] + x.bits, x.isNeg);
      SeededValue(x);
      assert y == Seeded(x);
      ShlBitsValue(y, count - W);
      Pow2W();
    } else if count >= 0 {
      ShlBitsValue(x, count);
      if x.isNeg && |x.bits| >= 1 && Value(x) * Pow2(count) >= 0 - (Pow(|x.bits|) as int) {
        ShlBitsNegative(x, count);
      }
    }
  }

  /**
   * `(x << n) >> n == x` in value, for x with at least one word and
   * 0 <= n <= W, when x is non-negative, n is W, or x * 2^n fits the words of x.
   */
  lemma ShiftRoundTrip(x: Big, n: nat)
    requires n <= W && |x.bits| >= 1
    requires !x.isNeg || n == W || Value(x) * Pow2(n) >= 0 - (Pow(|x.bits|) as int)
    ensures var y := ShiftedLeft(x, n);
      |y.bits| > (if n == W then 1 else 0) && Value(ShiftedRight(y, n)) == Value(x)
  {
    ShiftedLeftValue(x, n);
    Pow2W();
    var y := ShiftedLeft(x, n);
    assert Value(y) == Value(x) * Pow2(n);
    ShiftedRightValue(y, n);
    DivModUnique(Value(x) * Pow2(n), Pow2(n), Value(x), 0);
  }

  /** `BigInt(-1) << 5` is -32: the negative steps are exact while the product fits. */
  lemma MinusOneShiftedLeft()
    ensures Value(ShiftedLeft(Big([MAX], true), 5)) == -32
  {
    var x := Big([MAX], true);
    assert Nat(x.bits) == MAX;
    assert Pow(1) == BASE;
    assert Pow2(5) == 32;
    ShiftedLeftValue(x, 5);
  }
}
