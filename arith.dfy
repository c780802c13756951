/**
 * The arithmetic and comparison operators (BigInt.cpp:244-384, 434-453) as
 * functions on the representation: `++`, `--`, unary `-`, the ripple-carry
 * `+` with its hand-made overflow detection, binary `-` and `< > <= >=`.
 */
module Arith {
  import opened Words
  import opened Repr
  import opened Bitwise

  // ---------------------------------------------------------------------
  // ++

  /**
   * The carry loop of `++`: MAX words become 0 up to the first other word,
   * which is incremented. Also says whether the carry ran past the last word.
   */
  function IncWords(s: seq<Word>): (seq<Word>, bool)
  {
    if s == [] then ([], true)
    else if s[0] != MAX then ([s[0] + 1] + s[1..], false)
    else
      var (t, carry) := IncWords(s[1..]);
      ([0] + t, carry)
  }

  /** The carry loop adds one to the unsigned value; it carries out exactly when every word is MAX. */
  lemma {:induction false} IncWordsValue(s: seq<Word>)
    ensures |IncWords(s).0| == |s|
    ensures IncWords(s).1 <==> AllMax(s)
    ensures Nat(IncWords(s).0) + (if IncWords(s).1 then Pow(|s|) else 0) == Nat(s) + 1
    ensures !IncWords(s).1 ==> !AllZero(IncWords(s).0)
  {
    if s != [] && s[0] == MAX {
      IncWordsValue(s[1..]);
      var t := IncWords(s[1..]).0;
      assert IncWords(s).0 == [0] + t;
      assert ([0] + t)[1..] == t;
      if !AllMax(s[1..]) {
        var k :| 0 <= k < |s[1..]| && s[1..][k] != MAX;
        assert s[k + 1] != MAX;
      }
      if !IncWords(s).1 {
        var k :| 0 <= k < |t| && t[k] != 0;
        assert IncWords(s).0[k + 1] != 0;
      }
    } else if s != [] {
      assert IncWords(s).0[0] != 0;
      assert (IncWords(s).0)[1..] == s[1..];
    }
  }

  /** Skipping a run of MAX words: they all become 0. */
  lemma {:induction false} IncWordsSkip(s: seq<Word>, i: nat)
    requires i <= |s| && forall j :: 0 <= j < i ==> s[j] == MAX
    ensures IncWords(s) == (Zeros(i) + IncWords(s[i..]).0, IncWords(s[i..]).1)
  {
    var rest := IncWords(s[i..]);
    if i > 0 {
      var tail := s[1..];
      assert forall j :: 0 <= j < i - 1 ==> tail[j] == s[j + 1];
      assert tail[i - 1..] == s[i..];
      IncWordsSkip(tail, i - 1);
      var t := IncWords(tail);
      assert t == (Zeros(i - 1) + rest.0, rest.1);
      assert IncWords(s) == ([0] + t.0, t.1);
      ZerosCons(i - 1, rest.0);
    } else {
      assert s[0..] == s;
      assert Zeros(0) + rest.0 == rest.0;
    }
  }

  lemma ZerosCons(n: nat, r: seq<Word>)
    ensures [0] + (Zeros(n) + r) == Zeros(n + 1) + r
  {
    assert [0] + Zeros(n) == Zeros(n + 1);
  }

  /** The carry loop stops at the first word other than MAX, which it increments. */
  lemma IncWordsStop(s: seq<Word>, i: nat)
    requires i < |s| && s[i] != MAX && forall j :: 0 <= j < i ==> s[j] == MAX
    ensures IncWords(s) == ((Zeros(i) + s[i..])[i := s[i] + 1], false)
  {
    IncWordsSkip(s, i);
    var t := s[i..];
    assert t[0] == s[i] && t[1..] == s[i + 1..];
    assert IncWords(t) == ([s[i] + 1] + s[i + 1..], false);
    var u := Zeros(i) + t;
    assert |u| == |s| && u[i] == s[i];
    assert Zeros(i) + ([s[i] + 1] + s[i + 1..]) == u[i := s[i] + 1];
  }

  /** On an all-MAX list the carry runs off the end and leaves zeros. */
  lemma IncWordsRunOff(s: seq<Word>)
    requires forall j :: 0 <= j < |s| ==> s[j] == MAX
    ensures IncWords(s) == (Zeros(|s|), true)
  {
    IncWordsSkip(s, |s|);
    assert s[|s|..] == [];
    assert Zeros(|s|) + [] == Zeros(|s|);
  }

  /** One more MAX word cleared by the carry loop. */
  lemma ZerosStep(s: seq<Word>, i: nat)
    requires i < |s|
    ensures (Zeros(i) + s[i..])[i := 0] == Zeros(i + 1) + s[i + 1..]
  {
  }

  /**
   * `++x`: the single-word `[MAX]` negative value becomes `[0]`; otherwise the
   * carry loop runs and a word 1 is appended when the carry runs off the end.
   * The result is not condensed.
   */
  function Incremented(x: Big): Big
  {
    if x.isNeg && |x.bits| == 1 && x.bits[0] == MAX then Big([0], false)
    else
      var (t, carry) := IncWords(x.bits);
      Big(if carry then t + [1] else t, x.isNeg)
  }

  /** The inputs on which `++` is exact: all but a negative all-MAX list of other than one word. */
  predicate IncrementExact(x: Big)
  {
    !(x.isNeg && AllMax(x.bits) && |x.bits| != 1)
  }

  /**
   * `++` adds one, except on a negative all-MAX list of other than one word
   * (the value -1), which it turns into `BASE^n - BASE^(n+1)`.
   */
  lemma IncrementedValue(x: Big)
    ensures IncrementExact(x) ==> Value(Incremented(x)) == Value(x) + 1
    ensures !IncrementExact(x) ==> Value(x) == -1 && Value(Incremented(x)) == Pow(|x.bits|) - Pow(|x.bits| + 1)
    ensures Incremented(x).isNeg ==> x.isNeg
  {
    var n := |x.bits|;
    if x.isNeg && n == 1 && x.bits[0] == MAX {
      assert x.bits == [MAX] && Nat([MAX]) == MAX;
      assert Pow(1) == BASE;
    } else if AllMax(x.bits) {
      IncrementedCarry(x);
    } else {
      IncrementedNoCarry(x);
    }
  }

  /** `++` on an all-MAX list other than the single-word -1: the carry runs off the end. */
  lemma IncrementedCarry(x: Big)
    requires AllMax(x.bits) && !(x.isNeg && |x.bits| == 1)
    ensures Value(x) == Pow(|x.bits|) - 1 - (if x.isNeg then Pow(|x.bits|) else 0)
    ensures Value(Incremented(x)) == Pow(|x.bits|) - (if x.isNeg then Pow(|x.bits| + 1) else 0)
    ensures Incremented(x).isNeg == x.isNeg
  {
    var n := |x.bits|;
    IncWordsValue(x.bits);
    NatAllMax(x.bits);
    var (t, carry) := IncWords(x.bits);
    var r := t + [1];
    assert Incremented(x) == Big(r, x.isNeg);
    NatAppend(t, [1]);
    assert Nat([1]) == 1;
    assert Nat(r) == Pow(n) && |r| == n + 1;
  }

  /** `++` on a list with a word other than MAX: the carry loop stops inside it. */
  lemma IncrementedNoCarry(x: Big)
    requires !AllMax(x.bits)
    ensures Value(Incremented(x)) == Value(x) + 1
    ensures Incremented(x).isNeg == x.isNeg
  {
    IncWordsValue(x.bits);
    var (t, carry) := IncWords(x.bits);
    assert Incremented(x) == Big(t, x.isNeg);
  }

  /** A non-negative result of `++` is never a zero list of other than one word. */
  lemma IncrementedNotLongZero(x: Big)
    ensures !Incremented(x).isNeg ==> NegationExact(Incremented(x))
  {
    if !(x.isNeg && |x.bits| == 1 && x.bits[0] == MAX) {
      IncWordsValue(x.bits);
      var (t, carry) := IncWords(x.bits);
      if carry {
        assert (t + [1])[|t|] == 1;
      } else {
        var k :| 0 <= k < |t| && t[k] != 0;
        assert Incremented(x).bits[k] != 0;
      }
    }
  }

  // ---------------------------------------------------------------------
  // --, unary -

  /** `--x`: `*this = ~*this; ++*this; *this = ~*this;`. */
  function Decremented(x: Big): Big
  {
    Complement(Incremented(Complement(x)))
  }

  /** `-x`: `~` then `++`. */
  function Negated(x: Big): Big
  {
    Incremented(Complement(x))
  }

  /**
   * The inputs on which `-` and `--` are exact: all but a non-negative
   * all-zero list of other than one word (whose complement `++` gets wrong).
   */
  predicate NegationExact(x: Big)
  {
    !(!x.isNeg && AllZero(x.bits) && |x.bits| != 1)
  }

  /** Every condensed value, and every negative one, is negated exactly. */
  lemma CondensedNegationExact(x: Big)
    ensures IsCondensed(x) || x.isNeg ==> NegationExact(x)
  {
    if IsCondensed(x) && |x.bits| > 1 {
      assert x.bits[|x.bits| - 1] != 0 || x.isNeg;
    }
  }

  lemma ComplementIncrementExact(x: Big)
    ensures IncrementExact(Complement(x)) <==> NegationExact(x)
  {
    ComplementAllMax(x);
  }

  /** Unary minus negates the value whenever the operand is not a long zero list. */
  lemma NegatedValue(x: Big)
    ensures NegationExact(x) ==> Value(Negated(x)) == -Value(x)
    ensures x.isNeg ==> !Negated(x).isNeg && Value(Negated(x)) == -Value(x)
  {
    ComplementValue(x);
    ComplementIncrementExact(x);
    IncrementedValue(Complement(x));
  }

  /** `--` subtracts one whenever the operand is not a long zero list. */
  lemma DecrementedValue(x: Big)
    ensures NegationExact(x) ==> Value(Decremented(x)) == Value(x) - 1
  {
    ComplementValue(x);
    ComplementIncrementExact(x);
    IncrementedValue(Complement(x));
    ComplementValue(Incremented(Complement(x)));
  }

  /** `--(++x)` gives back the value of x whenever `++x` is exact. */
  lemma IncrementThenDecrement(x: Big)
    ensures IncrementExact(x) ==> Value(Decremented(Incremented(x))) == Value(x)
  {
    IncrementedValue(x);
    IncrementedNotLongZero(x);
    DecrementedValue(Incremented(x));
  }

  /** `++(--x)` gives back the value of x whenever `--x` is exact. */
  lemma DecrementThenIncrement(x: Big)
    ensures NegationExact(x) ==> Value(Incremented(Decremented(x))) == Value(x)
  {
    var c := Complement(x);
    DecrementedValue(x);
    IncrementedNotLongZero(c);
    var d := Decremented(x);
    assert d == Complement(Incremented(c));
    ComplementIncrementExact(Incremented(c));
    IncrementedValue(d);
  }

  // ---------------------------------------------------------------------
  // +

  /**
   * The three top-bit cases of one `+` step (no carry in yet): the word sum
   * and the carry out, computed as the source does without an overflow flag.
   */
  function AddWithoutCarry(rhsC: Word, lhsC: Word): (Word, bool)
  {
    if WordAnd(rhsC, MSB) != WordAnd(lhsC, MSB) then
      var sum := WordAdd(WordAnd(rhsC, ALL_BUT_MSB), WordAnd(lhsC, ALL_BUT_MSB));
      if WordAnd(sum, MSB) == MSB then (WordAnd(sum, ALL_BUT_MSB), true) else (WordOr(sum, MSB), false)
    else if WordAnd(WordAnd(rhsC, lhsC), MSB) == MSB then
      (WordAdd(WordAnd(rhsC, ALL_BUT_MSB), WordAnd(lhsC, ALL_BUT_MSB)), true)
    else
      (WordAdd(rhsC, lhsC), false)
  }

  /** One step of the `+` loop: the three cases, then the carry in from the previous word. */
  function AddStep(rhsC: Word, lhsC: Word, carryP: bool): (Word, bool)
  {
    var (sum, carryN) := AddWithoutCarry(rhsC, lhsC);
    if carryP then
      if sum == MAX then (0, true) else (sum + 1, carryN)
    else
      (sum, carryN)
  }

  /** The three top-bit cases are exact: sum and carry are the two digits of rhsC + lhsC. */
  lemma AddWithoutCarryCorrect(rhsC: Word, lhsC: Word)
    ensures AddWithoutCarry(rhsC, lhsC).0 + (if AddWithoutCarry(rhsC, lhsC).1 then BASE else 0) == rhsC + lhsC
  {
    if TopBit(rhsC) != TopBit(lhsC) {
      TopBitsDiffer(rhsC, lhsC);
    } else if TopBit(rhsC) {
      TopBitsBoth(rhsC, lhsC);
    } else {
      TopBitsNeither(rhsC, lhsC);
    }
  }

  /** The case of both top bits set: the lower bits are added and the carry is set. */
  lemma TopBitsBoth(rhsC: Word, lhsC: Word)
    requires TopBit(rhsC) && TopBit(lhsC)
    ensures AddWithoutCarry(rhsC, lhsC) == (rhsC % MSB + lhsC % MSB, true)
    ensures rhsC % MSB + lhsC % MSB + BASE == rhsC + lhsC
  {
    AndMsb(rhsC);
    AndMsb(lhsC);
    AndAndMsb(rhsC, lhsC);
    AndAllButMsb(rhsC);
    AndAllButMsb(lhsC);
  }

  /** The case of neither top bit set: the words are added without carry. */
  lemma TopBitsNeither(rhsC: Word, lhsC: Word)
    requires !TopBit(rhsC) && !TopBit(lhsC)
    ensures AddWithoutCarry(rhsC, lhsC) == (rhsC + lhsC, false)
  {
    AndMsb(rhsC);
    AndMsb(lhsC);
    AndAndMsb(rhsC, lhsC);
  }

  /** The case of one top bit set: the lower bits are added and the top bit of their sum decides. */
  lemma TopBitsDiffer(rhsC: Word, lhsC: Word)
    requires TopBit(rhsC) != TopBit(lhsC)
    ensures AddWithoutCarry(rhsC, lhsC).0 + (if AddWithoutCarry(rhsC, lhsC).1 then BASE else 0) == rhsC + lhsC
  {
    AndMsb(rhsC);
    AndMsb(lhsC);
    AndAllButMsb(rhsC);
    AndAllButMsb(lhsC);
    ModMsb(rhsC);
    ModMsb(lhsC);
    var low := rhsC % MSB + lhsC % MSB;
    WordAddSmall(rhsC % MSB, lhsC % MSB);
    LowSumTop(low);
  }

  /** Below MSB, `% MSB` clears exactly the top bit. */
  lemma ModMsb(w: Word)
    ensures w % MSB == if TopBit(w) then w - MSB else w
  {
    if TopBit(w) {
      DivModUnique(w, MSB, 1, w - MSB);
    } else {
      DivModUnique(w, MSB, 0, w);
    }
  }

  lemma WordAddSmall(a: Word, b: Word)
    requires a + b < BASE
    ensures WordAdd(a, b) == a + b
  {
    DivModUnique(a + b, BASE, 0, a + b);
  }

  /** Settling the top bit of the low sum: clear it and carry, or set it. */
  lemma LowSumTop(low: Word)
    ensures TopBit(low) ==> WordAnd(low, MSB) == MSB && WordAnd(low, ALL_BUT_MSB) + BASE == low + MSB
    ensures !TopBit(low) ==> WordAnd(low, MSB) != MSB && WordOr(low, MSB) == low + MSB
  {
    AndMsb(low);
    if TopBit(low) {
      AndAllButMsb(low);
    } else {
      OrDisjoint(low, MSB);
    }
  }


  /** The hand-made overflow detection is exact: sum and carry are the two digits of rhsC + lhsC + carryP. */
  lemma AddStepCorrect(rhsC: Word, lhsC: Word, carryP: bool)
    ensures AddStep(rhsC, lhsC, carryP).0 + (if AddStep(rhsC, lhsC, carryP).1 then BASE else 0)
         == rhsC + lhsC + (if carryP then 1 else 0)
  {
    AddWithoutCarryCorrect(rhsC, lhsC);
  }

  /** The first k sign-extended words of x. */
  function ExtWords(x: Big, k: nat): seq<Word>
  {
    seq(k, i requires 0 <= i < k => Ext(x, i))
  }

  /** The words and final carry after the first k steps of the `+` loop. */
  function AddPrefix(rhs: Big, lhs: Big, k: nat): (seq<Word>, bool)
  {
    if k == 0 then ([], false)
    else
      var (ws, carry) := AddPrefix(rhs, lhs, k - 1);
      var (sum, carryN) := AddStep(Ext(rhs, k - 1), Ext(lhs, k - 1), carry);
      (ws + [sum], carryN)
  }

  lemma ExtWordsStep(x: Big, k: nat)
    requires k >= 1
    ensures Nat(ExtWords(x, k)) == Nat(ExtWords(x, k - 1)) + Pow(k - 1) * Ext(x, k - 1)
  {
    assert ExtWords(x, k) == ExtWords(x, k - 1) + [Ext(x, k - 1)];
    NatAppend(ExtWords(x, k - 1), [Ext(x, k - 1)]);
  }

  /** All n extended words read as the value, offset by BASE^n when negative. */
  lemma ExtWordsValue(x: Big, n: nat)
    requires |x.bits| <= n
    ensures Nat(ExtWords(x, n)) == Value(x) + (if x.isNeg then Pow(n) else 0)
  {
    ValueAsExtended(x, n);
    assert ExtWords(x, n) == seq(n, i requires 0 <= i < n => Ext(x, i));
  }

  /** After k steps the pushed words and the carry are the sum of the first k extended words. */
  lemma {:induction false} AddPrefixValue(rhs: Big, lhs: Big, k: nat)
    ensures |AddPrefix(rhs, lhs, k).0| == k
    ensures Nat(AddPrefix(rhs, lhs, k).0) + (if AddPrefix(rhs, lhs, k).1 then Pow(k) else 0)
         == Nat(ExtWords(rhs, k)) + Nat(ExtWords(lhs, k))
  {
    if k > 0 {
      AddPrefixValue(rhs, lhs, k - 1);
      var (ws, carry) := AddPrefix(rhs, lhs, k - 1);
      var rc, lc := Ext(rhs, k - 1), Ext(lhs, k - 1);
      var (sum, carryN) := AddStep(rc, lc, carry);
      assert AddPrefix(rhs, lhs, k) == (ws + [sum], carryN);
      AddStepCorrect(rc, lc, carry);
      NatPush(ws, sum);
      ExtWordsStep(rhs, k);
      ExtWordsStep(lhs, k);
      PrefixArith(Nat(ws), Pow(k - 1), sum, carryN, rc, lc, carry,
                  Nat(ExtWords(rhs, k - 1)), Nat(ExtWords(lhs, k - 1)));
    }
  }

  /** The arithmetic of one step of AddPrefixValue, with the sequences out of the way. */
  lemma PrefixArith(n: int, p: int, sum: int, carryN: bool, rc: int, lc: int, carry: bool, r: int, l: int)
    requires sum + (if carryN then BASE else 0) == rc + lc + (if carry then 1 else 0)
    requires n + (if carry then p else 0) == r + l
    ensures (n + p * sum) + (if carryN then BASE * p else 0) == (r + p * rc) + (l + p * lc)
  {
    var c := if carry then 1 else 0;
    var cN := if carryN then 1 else 0;
    assert p * sum + p * (cN * BASE) == p * (rc + lc + c);
    assert p * (rc + lc + c) == p * rc + p * lc + p * c;
  }

  /**
   * The final switch on (carryN, rhs.isNeg, lhs.isNeg): the words to append
   * and the result sign.
   */
  function SignFix(carryN: bool, rhsNeg: bool, lhsNeg: bool): (seq<Word>, bool)
  {
    var state := (if carryN then 1 else 0) + (if rhsNeg then 2 else 0) + (if lhsNeg then 4 else 0);
    match state
    case 1 => ([1], false)
    case 2 | 4 | 7 => ([], true)
    case 6 => ([ALL_BUT_LSB], true)
    case _ => ([], false)
  }

  function Max(a: nat, b: nat): nat
  {
    if a >= b then a else b
  }

  /** The words the `+` loop pushes after the seed word, the final switch applied. */
  function AddLoop(rhs: Big, lhs: Big): Big
  {
    var (ws, carryN) := AddPrefix(rhs, lhs, Max(|rhs.bits|, |lhs.bits|));
    var (extra, isNeg) := SignFix(carryN, rhs.isNeg, lhs.isNeg);
    Big(ws + extra, isNeg)
  }

  /** The loop's words, read with the result sign, are exactly the sum of the operands. */
  lemma AddLoopValue(rhs: Big, lhs: Big)
    ensures Value(AddLoop(rhs, lhs)) == Value(rhs) + Value(lhs)
  {
    var n := Max(|rhs.bits|, |lhs.bits|);
    AddPrefixValue(rhs, lhs, n);
    ExtWordsValue(rhs, n);
    ExtWordsValue(lhs, n);
    var (ws, carryN) := AddPrefix(rhs, lhs, n);
    var (extra, isNeg) := SignFix(carryN, rhs.isNeg, lhs.isNeg);
    var res := Big(ws + extra, isNeg);
    assert AddLoop(rhs, lhs) == res;
    SignFixShape(carryN, rhs.isNeg, lhs.isNeg);
    AppendExtra(ws, extra);
    SwitchArith(Nat(ws), Pow(n), carryN, rhs.isNeg, lhs.isNeg, Value(rhs), Value(lhs),
      extra, isNeg, Nat(res.bits), Pow(|res.bits|));
  }

  /** The switch appends at most one word: 1 or ALL_BUT_LSB. */
  lemma SignFixShape(carryN: bool, rhsNeg: bool, lhsNeg: bool)
    ensures var extra := SignFix(carryN, rhsNeg, lhsNeg).0;
      extra == [] || extra == [1] || extra == [ALL_BUT_LSB]
  {
  }

  lemma AppendExtra(ws: seq<Word>, extra: seq<Word>)
    requires extra == [] || |extra| == 1
    ensures Nat(ws + extra) == Nat(ws) + Pow(|ws|) * (if extra == [] then 0 else extra[0])
    ensures Pow(|ws + extra|) == if extra == [] then Pow(|ws|) else BASE * Pow(|ws|)
  {
    if extra == [] {
      assert ws + extra == ws;
    } else {
      assert extra == [extra[0]];
      NatPush(ws, extra[0]);
    }
  }

  /** The arithmetic of the final switch: each of the eight cases restores the sum. */
  lemma SwitchArith(s: int, p: int, carryN: bool, rhsNeg: bool, lhsNeg: bool, r: int, l: int,
                    extra: seq<Word>, isNeg: bool, nr: int, pr: int)
    requires s + (if carryN then p else 0) == r + (if rhsNeg then p else 0) + l + (if lhsNeg then p else 0)
    requires (extra, isNeg) == SignFix(carryN, rhsNeg, lhsNeg)
    requires nr == s + p * (if extra == [] then 0 else extra[0])
    requires pr == if extra == [] then p else BASE * p
    ensures nr - (if isNeg then pr else 0) == r + l
  {
  }

  /** `rhs + lhs` as the source computes it: seed word, loop, switch, condense. */
  function SumOf(rhs: Big, lhs: Big): Big
  {
    Condensed(Seeded(AddLoop(rhs, lhs)))
  }

  /**
   * `rhs + lhs` is BASE times the sum (the seed word), its sign is the sign of
   * the sum and it is condensed. `1 + 1` comes out as 2 * BASE.
   */
  lemma SumValue(rhs: Big, lhs: Big)
    ensures Value(SumOf(rhs, lhs)) == BASE * (Value(rhs) + Value(lhs))
    ensures SumOf(rhs, lhs).isNeg <==> Value(rhs) + Value(lhs) < 0
    ensures IsCondensed(SumOf(rhs, lhs))
    ensures var one := Big([1], false); Value(SumOf(one, one)) == 2 * BASE
  {
    AddLoopValue(rhs, lhs);
    SeededValue(AddLoop(rhs, lhs));
    CondensedValue(Seeded(AddLoop(rhs, lhs)));
    CondensedIdempotent(Seeded(AddLoop(rhs, lhs)));
    SignIsNeg(SumOf(rhs, lhs));
    OnePlusOne();
  }

  lemma OnePlusOne()
    ensures var one := Big([1], false); Value(SumOf(one, one)) == 2 * BASE
  {
    var one := Big([1], false);
    assert Value(one) == 1;
    AddLoopValue(one, one);
    SeededValue(AddLoop(one, one));
    CondensedValue(Seeded(AddLoop(one, one)));
  }

  // ---------------------------------------------------------------------
  // binary -, comparisons

  /** `rhs - lhs`, computed as `rhs + -lhs`: BASE times the difference. */
  function Difference(rhs: Big, lhs: Big): (r: Big)
    ensures NegationExact(lhs) ==> Value(r) == BASE * (Value(rhs) - Value(lhs))
    ensures NegationExact(lhs) ==> (r.isNeg <==> Value(rhs) < Value(lhs))
  {
    SumValue(rhs, Negated(lhs));
    NegatedValue(lhs);
    SumOf(rhs, Negated(lhs))
  }

  /** `rhs < lhs`: false when rhs is non-negative and lhs negative, else the sign of `rhs - lhs`. */
  function Less(rhs: Big, lhs: Big): (r: bool)
    ensures NegationExact(lhs) ==> (r <==> Value(rhs) < Value(lhs))
    ensures !rhs.isNeg && lhs.isNeg ==> !r
  {
    SignIsNeg(rhs);
    SignIsNeg(lhs);
    if !rhs.isNeg && lhs.isNeg then false else Difference(rhs, lhs).isNeg
  }

  /** `rhs > lhs` is `lhs < rhs`. */
  function Greater(rhs: Big, lhs: Big): (r: bool)
    ensures NegationExact(rhs) ==> (r <==> Value(rhs) > Value(lhs))
  {
    Less(lhs, rhs)
  }

  /** `rhs >= lhs` is `!(rhs < lhs)`. */
  function GreaterEq(rhs: Big, lhs: Big): (r: bool)
    ensures NegationExact(lhs) ==> (r <==> Value(rhs) >= Value(lhs))
  {
    !Less(rhs, lhs)
  }

  /** `rhs <= lhs` is `!(lhs < rhs)`. */
  function LessEq(rhs: Big, lhs: Big): (r: bool)
    ensures NegationExact(rhs) ==> (r <==> Value(rhs) <= Value(lhs))
  {
    !Less(lhs, rhs)
  }

  /** On condensed operands exactly one of `<`, equal value, `>` holds, matching the sign of `rhs - lhs`. */
  lemma Trichotomy(rhs: Big, lhs: Big)
    requires IsCondensed(rhs) && IsCondensed(lhs)
    ensures (if Less(rhs, lhs) then 1 else 0) + (if Value(rhs) == Value(lhs) then 1 else 0) + (if Greater(rhs, lhs) then 1 else 0) == 1
    ensures Less(rhs, lhs) <==> Difference(rhs, lhs).isNeg
  {
    CondensedNegationExact(rhs);
    CondensedNegationExact(lhs);
    SignIsNeg(rhs);
    SignIsNeg(lhs);
  }
}
