/**
 * The bitwise operators `~`, `&`, `|` and `^` (BigInt.cpp:99-183) as
 * functions on the representation. `&`, `|` and `^` start from
 * `BigInt temp = 0`, a single zero word, and push their result words after
 * it; the functions `AndLoop`, `OrLoop` and `XorLoop` give what the loops
 * push, and `AndOf`, `OrOf` and `XorOf` what the operators return.
 */
module Bitwise {
  import opened Words
  import opened Repr

  function Min(a: nat, b: nat): nat
  {
    if a <= b then a else b
  }

  // ---------------------------------------------------------------------
  // ~

  /** `~x`: every stored word complemented, the sign flag flipped. */
  function Complement(x: Big): Big
  {
    Big(seq(|x.bits|, i requires 0 <= i < |x.bits| => WordNot(x.bits[i])), !x.isNeg)
  }

  /** `~x` complements every sign-extended word and keeps the length. */
  lemma ComplementAt(x: Big, i: nat)
    ensures |Complement(x).bits| == |x.bits|
    ensures Ext(Complement(x), i) == WordNot(Ext(x, i))
  {
  }

  /** `~~x == x`. */
  lemma ComplementInvolution(x: Big)
    ensures Complement(Complement(x)) == x
  {
    assert Complement(Complement(x)).bits == x.bits;
  }

  /** Word lists that complement each other add up to the all-MAX list. */
  lemma {:induction false} NatComplement(s: seq<Word>, t: seq<Word>)
    requires |s| == |t| && forall i :: 0 <= i < |s| ==> t[i] == MAX - s[i]
    ensures Nat(s) + Nat(t) == Pow(|s|) - 1
  {
    if s != [] {
      NatComplement(s[1..], t[1..]);
    }
  }

  /** The two's-complement identity: `~x == -x - 1`. */
  lemma ComplementValue(x: Big)
    ensures Value(Complement(x)) == -Value(x) - 1
  {
    NatComplement(x.bits, Complement(x).bits);
  }

  /** A list complements to all-MAX exactly when it is all zero. */
  lemma ComplementAllMax(x: Big)
    ensures AllMax(Complement(x).bits) <==> AllZero(x.bits)
  {
    var c := Complement(x).bits;
    if AllMax(c) {
      forall i | 0 <= i < |x.bits| ensures x.bits[i] == 0 {
        assert c[i] == MAX;
      }
    }
  }

  // ---------------------------------------------------------------------
  // &

  /**
   * The words the `&` loop pushes after the seed word, with the result sign:
   * word-wise AND over the common length, then the rest of the longer
   * operand only when the exhausted operand is negative (its extension MAX
   * is the identity of AND).
   */
  function AndLoop(rhs: Big, lhs: Big): Big
  {
    var m := Min(|rhs.bits|, |lhs.bits|);
    var common := seq(m, i requires 0 <= i < m => WordAnd(rhs.bits[i], lhs.bits[i]));
    var tail :=
      if rhs.isNeg && |rhs.bits| <= |lhs.bits| then lhs.bits[m..]
      else if lhs.isNeg && |lhs.bits| <= |rhs.bits| then rhs.bits[m..]
      else [];
    Big(common + tail, lhs.isNeg && rhs.isNeg)
  }

  /** `rhs & lhs` as the source computes it: the loop's words above the seed word. */
  function AndOf(rhs: Big, lhs: Big): Big
  {
    Seeded(AndLoop(rhs, lhs))
  }

  /** The loop's words are the AND of the operands' sign-extended words, at every position. */
  lemma AndLoopAt(rhs: Big, lhs: Big, i: nat)
    ensures Ext(AndLoop(rhs, lhs), i) == WordAnd(Ext(rhs, i), Ext(lhs, i))
  {
    ExtensionWords(Ext(rhs, i));
    ExtensionWords(Ext(lhs, i));
  }

  /** `rhs & lhs` holds 0 in its lowest word and the bitwise AND one word up. */
  lemma AndOfAt(rhs: Big, lhs: Big, i: nat)
    ensures Ext(AndOf(rhs, lhs), 0) == 0
    ensures Ext(AndOf(rhs, lhs), i + 1) == WordAnd(Ext(rhs, i), Ext(lhs, i))
    ensures AndOf(rhs, lhs).isNeg == (rhs.isNeg && lhs.isNeg)
  {
    SeededValue(AndLoop(rhs, lhs));
    AndLoopAt(rhs, lhs, i);
  }

  // ---------------------------------------------------------------------
  // |

  /**
   * The words the `|` loop pushes after the seed word: word-wise OR over the
   * common length, then the rest of the longer operand only when the
   * exhausted operand is non-negative (its extension 0 is the identity of OR).
   */
  function OrLoop(rhs: Big, lhs: Big): Big
  {
    var m := Min(|rhs.bits|, |lhs.bits|);
    var common := seq(m, i requires 0 <= i < m => WordOr(rhs.bits[i], lhs.bits[i]));
    var tail :=
      if !rhs.isNeg && |rhs.bits| <= |lhs.bits| then lhs.bits[m..]
      else if !lhs.isNeg && |lhs.bits| <= |rhs.bits| then rhs.bits[m..]
      else [];
    Big(common + tail, lhs.isNeg || rhs.isNeg)
  }

  /** `rhs | lhs` as the source computes it. */
  function OrOf(rhs: Big, lhs: Big): Big
  {
    Seeded(OrLoop(rhs, lhs))
  }

  /** The loop's words are the OR of the operands' sign-extended words, at every position. */
  lemma OrLoopAt(rhs: Big, lhs: Big, i: nat)
    ensures Ext(OrLoop(rhs, lhs), i) == WordOr(Ext(rhs, i), Ext(lhs, i))
  {
    ExtensionWords(Ext(rhs, i));
    ExtensionWords(Ext(lhs, i));
  }

  /** `rhs | lhs` holds 0 in its lowest word and the bitwise OR one word up. */
  lemma OrOfAt(rhs: Big, lhs: Big, i: nat)
    ensures Ext(OrOf(rhs, lhs), 0) == 0
    ensures Ext(OrOf(rhs, lhs), i + 1) == WordOr(Ext(rhs, i), Ext(lhs, i))
    ensures OrOf(rhs, lhs).isNeg == (rhs.isNeg || lhs.isNeg)
  {
    SeededValue(OrLoop(rhs, lhs));
    OrLoopAt(rhs, lhs, i);
  }

  // ---------------------------------------------------------------------
  // ^

  /**
   * The words the `^` loop pushes after the seed word, for operands of equal
   * length (for unequal lengths the loop reads past the end of the shorter list).
   */
  function XorLoop(rhs: Big, lhs: Big): Big
    requires |rhs.bits| == |lhs.bits|
  {
    var n := |rhs.bits|;
    Big(seq(n, i requires 0 <= i < n => WordXor(rhs.bits[i], lhs.bits[i])), rhs.isNeg != lhs.isNeg)
  }

  /** `rhs ^ lhs` as the source computes it. */
  function XorOf(rhs: Big, lhs: Big): Big
    requires |rhs.bits| == |lhs.bits|
  {
    Seeded(XorLoop(rhs, lhs))
  }

  /** The loop's words are the XOR of the operands' sign-extended words, at every position. */
  lemma XorLoopAt(rhs: Big, lhs: Big, i: nat)
    requires |rhs.bits| == |lhs.bits|
    ensures Ext(XorLoop(rhs, lhs), i) == WordXor(Ext(rhs, i), Ext(lhs, i))
  {
    ExtensionWords(0);
  }

  /** `rhs ^ lhs` holds 0 in its lowest word and the bitwise XOR one word up. */
  lemma XorOfAt(rhs: Big, lhs: Big, i: nat)
    requires |rhs.bits| == |lhs.bits|
    ensures Ext(XorOf(rhs, lhs), 0) == 0
    ensures Ext(XorOf(rhs, lhs), i + 1) == WordXor(Ext(rhs, i), Ext(lhs, i))
    ensures XorOf(rhs, lhs).isNeg == (rhs.isNeg != lhs.isNeg)
  {
    SeededValue(XorLoop(rhs, lhs));
    XorLoopAt(rhs, lhs, i);
  }

  // ---------------------------------------------------------------------
  // The seed word

  /**
   * The result of `&`, `|` and `^` is BASE times the value the loop's words
   * stand for: `1 & -1`, `1 | 0` and `1 ^ 0` all come out as BASE, not 1.
   */
  lemma SeedScalesBitwise(rhs: Big, lhs: Big)
    ensures Value(AndOf(rhs, lhs)) == BASE * Value(AndLoop(rhs, lhs))
    ensures Value(OrOf(rhs, lhs)) == BASE * Value(OrLoop(rhs, lhs))
    ensures |rhs.bits| == |lhs.bits| ==> Value(XorOf(rhs, lhs)) == BASE * Value(XorLoop(rhs, lhs))
    ensures var one, zero, minusOne := Big([1], false), Big([0], false), Big([MAX], true);
      Value(AndOf(one, minusOne)) == BASE && Value(AndLoop(one, minusOne)) == 1 &&
      Value(OrOf(one, zero)) == BASE && Value(OrLoop(one, zero)) == 1 &&
      Value(XorOf(one, zero)) == BASE && Value(XorLoop(one, zero)) == 1
  {
    SeededValue(AndLoop(rhs, lhs));
    SeededValue(OrLoop(rhs, lhs));
    if |rhs.bits| == |lhs.bits| {
      SeededValue(XorLoop(rhs, lhs));
    }
    var one, zero, minusOne := Big([1], false), Big([0], false), Big([MAX], true);
    ExtensionWords(1);
    assert AndLoop(one, minusOne).bits == [1];
    assert OrLoop(one, zero).bits == [1];
    assert XorLoop(one, zero).bits == [1];
    SeededValue(AndLoop(one, minusOne));
    SeededValue(OrLoop(one, zero));
    SeededValue(XorLoop(one, zero));
  }
}
