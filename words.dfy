/**
 * Machine words of the big integer: an `unsigned long` of W bits, and the
 * word-level bit operations (`&`, `|`, `^`, `~`) the implementation applies
 * to them. Bitwise operations are defined bit by bit over the low `n` bits
 * of two naturals; the lemmas below give the arithmetic facts the rest of
 * the model needs about the masks MSB, ALL_BUT_MSB, MAX and 1.
 */
module Words {

  /** sizeof(unsigned long) on an LP64 platform. */
  const BYTES_IN_ULONG: nat := 8
  const NYBBLES_IN_ULONG: nat := BYTES_IN_ULONG * 2
  /** W, the width of one word in bits (BITS_IN_ULONG). */
  const W: nat := BYTES_IN_ULONG * 8

  /** 2^W, one more than the largest word. */
  const BASE: nat := 0x1_0000_0000_0000_0000
  /** The masks of BigInt.cpp:6-10, written out for W = 64 (see MasksAsDerived). */
  const MAX: nat := 0xFFFF_FFFF_FFFF_FFFF
  const ALL_BUT_MSB: nat := 0x7FFF_FFFF_FFFF_FFFF
  const MSB: nat := 0x8000_0000_0000_0000
  const LSB: nat := 1
  const ALL_BUT_LSB: nat := 0xFFFF_FFFF_FFFF_FFFE

  /**
   * The masks are derived as in the source: MAX = ULONG_MAX, ALL_BUT_MSB =
   * MAX >> 1, MSB = ~ALL_BUT_MSB, ALL_BUT_LSB = ~LSB.
   */
  lemma MasksAsDerived()
    ensures MAX == BASE - 1
    ensures ALL_BUT_MSB == MAX / 2
    ensures MSB == MAX - ALL_BUT_MSB
    ensures ALL_BUT_LSB == MAX - LSB
    ensures BASE == 2 * MSB
  {
  }

  /** An unsigned long. */
  type Word = w: nat | w < BASE

  function Pow2(n: nat): (r: nat)
    ensures r >= 1
  {
    if n == 0 then 1 else 2 * Pow2(n - 1)
  }

  lemma {:induction false} Pow2Add(a: nat, b: nat)
    ensures Pow2(a + b) == Pow2(a) * Pow2(b)
  {
    if a > 0 {
      Pow2Add(a - 1, b);
      assert Pow2(a + b) == 2 * Pow2(a - 1 + b);
    }
  }

  /** The width constants agree with W: MSB is bit W-1, BASE is 2^W. */
  lemma Pow2W()
    ensures Pow2(W) == BASE
    ensures Pow2(W - 1) == MSB
  {
    Pow2HalfW();
    Pow2Add(32, 32);
    assert Pow2(64) == 2 * Pow2(63);
  }

  lemma Pow2HalfW()
    ensures Pow2(32) == 0x1_0000_0000
  {
    assert Pow2(1) == 2;
    Pow2Add(1, 1);
    Pow2Add(2, 2);
    Pow2Add(4, 4);
    Pow2Add(8, 8);
    Pow2Add(16, 16);
  }

  /** Bitwise AND of the low n bits of a and b. */
  function BitAnd(a: nat, b: nat, n: nat): (r: nat)
    ensures r < Pow2(n)
  {
    if n == 0 then 0
    else 2 * BitAnd(a / 2, b / 2, n - 1) + (if a % 2 == 1 && b % 2 == 1 then 1 else 0)
  }

  /** Bitwise OR of the low n bits of a and b. */
  function BitOr(a: nat, b: nat, n: nat): (r: nat)
    ensures r < Pow2(n)
  {
    if n == 0 then 0
    else 2 * BitOr(a / 2, b / 2, n - 1) + (if a % 2 == 1 || b % 2 == 1 then 1 else 0)
  }

  /** Bitwise exclusive OR of the low n bits of a and b. */
  function BitXor(a: nat, b: nat, n: nat): (r: nat)
    ensures r < Pow2(n)
  {
    if n == 0 then 0
    else 2 * BitXor(a / 2, b / 2, n - 1) + (if a % 2 != b % 2 then 1 else 0)
  }

  /** `a & b` on unsigned longs. */
  function WordAnd(a: Word, b: Word): Word
  {
    Pow2W();
    BitAnd(a, b, W)
  }

  /** `a | b` on unsigned longs. */
  function WordOr(a: Word, b: Word): Word
  {
    Pow2W();
    BitOr(a, b, W)
  }

  /** `a ^ b` on unsigned longs. */
  function WordXor(a: Word, b: Word): Word
  {
    Pow2W();
    BitXor(a, b, W)
  }

  /** `~a` on an unsigned long. */
  function WordNot(a: Word): Word
  {
    MAX - a
  }

  /** `a + b` on unsigned longs: C++ unsigned addition wraps modulo 2^W. */
  function WordAdd(a: Word, b: Word): Word
  {
    (a + b) % BASE
  }

  /** The bit `a & MSB` tests. */
  predicate TopBit(a: Word)
  {
    a >= MSB
  }

  // ---------------------------------------------------------------------
  // Generic facts about the bit-by-bit operations

  lemma {:induction false} ModDouble(a: nat, m: nat)
    requires m >= 1
    ensures a % (2 * m) == 2 * ((a / 2) % m) + a % 2
  {
    var q := (a / 2) / m;
    var r := (a / 2) % m;
    assert a / 2 == q * m + r;
    assert a == 2 * (a / 2) + a % 2;
    assert a == q * (2 * m) + (2 * r + a % 2);
    DivModUnique(a, 2 * m, q, 2 * r + a % 2);
  }

  /** Quotient and remainder are unique. */
  lemma DivModUnique(a: int, d: int, q: int, r: int)
    requires d > 0 && 0 <= r < d && a == q * d + r
    ensures a / d == q && a % d == r
  {
    var q' := a / d;
    var r' := a % d;
    assert a == q' * d + r';
    if q > q' {
      MulAtLeast(q - q', d);
    } else if q < q' {
      MulAtLeast(q' - q, d);
    }
  }

  lemma MulAtLeast(k: int, d: int)
    requires k >= 1 && d > 0
    ensures k * d >= d
  {
  }

  /** AND with the mask of the low k bits keeps a modulo 2^k. */
  lemma {:induction false} AndLowMask(a: nat, k: nat, n: nat)
    requires k <= n
    ensures BitAnd(a, Pow2(k) - 1, n) == a % Pow2(k)
    ensures BitAnd(Pow2(k) - 1, a, n) == a % Pow2(k)
  {
    AndLowMaskRight(a, k, n);
    AndCommutes(a, Pow2(k) - 1, n);
  }

  /** The low k bits of a, taken with the mask 2^k - 1 in n >= k bits. */
  predicate LowMaskKeeps(a: nat, k: nat, n: nat)
  {
    BitAnd(a, Pow2(k) - 1, n) == a % Pow2(k)
  }

  lemma {:induction false} AndLowMaskRight(a: nat, k: nat, n: nat)
    requires k <= n
    ensures LowMaskKeeps(a, k, n)
  {
    if k == 0 {
      AndLowMaskNone(a, n);
    } else {
      AndLowMaskRight(a / 2, k - 1, n - 1);
      AndLowMaskStep(a, k, n);
    }
  }

  /** The mask of no bits keeps nothing. */
  lemma AndLowMaskNone(a: nat, n: nat)
    ensures LowMaskKeeps(a, 0, n)
  {
    AndZero(a, n);
  }

  /** One bit of AndLowMaskRight: the low bit of a, then the low k-1 bits of a/2. */
  lemma AndLowMaskStep(a: nat, k: nat, n: nat)
    requires 1 <= k <= n
    requires LowMaskKeeps(a / 2, k - 1, n - 1)
    ensures LowMaskKeeps(a, k, n)
  {
    var p, m := Pow2(k - 1), Pow2(k) - 1;
    LowMaskHalf(k);
    AndOddStep(a, m, n);
    ModDouble(a, p);
    MaskArith(BitAnd(a, m, n), BitAnd(a / 2, p - 1, n - 1), a % 2, (a / 2) % p, a % (2 * p), a % Pow2(k));
  }

  /** The mask of the low k bits is odd, and halving it gives the mask of the low k-1 bits. */
  lemma LowMaskHalf(k: nat)
    requires k >= 1
    ensures Pow2(k) == 2 * Pow2(k - 1)
    ensures (Pow2(k) - 1) / 2 == Pow2(k - 1) - 1 && (Pow2(k) - 1) % 2 == 1
  {
    DivModUnique(Pow2(k) - 1, 2, Pow2(k - 1) - 1, 1);
  }

  /** AND with an odd b keeps the low bit of a. */
  lemma AndOddStep(a: nat, b: nat, n: nat)
    requires n >= 1 && b % 2 == 1
    ensures BitAnd(a, b, n) == 2 * BitAnd(a / 2, b / 2, n - 1) + a % 2
  {
  }

  lemma MaskArith(r: int, s: int, low: int, t: int, u: int, v: int)
    requires r == 2 * s + low && s == t && u == 2 * t + low && v == u
    ensures r == v
  {
  }

  lemma {:induction false} AndCommutes(a: nat, b: nat, n: nat)
    ensures BitAnd(a, b, n) == BitAnd(b, a, n)
  {
    if n > 0 {
      AndCommutes(a / 2, b / 2, n - 1);
    }
  }

  lemma {:induction false} AndZero(a: nat, n: nat)
    ensures BitAnd(a, 0, n) == 0 && BitAnd(0, a, n) == 0
  {
    if n > 0 {
      AndZero(a / 2, n - 1);
    }
  }

  /** AND with the top bit of an n-bit word isolates that bit. */
  lemma {:induction false} AndTopBit(a: nat, n: nat)
    requires n >= 1 && a < Pow2(n)
    ensures BitAnd(a, Pow2(n - 1), n) == if a >= Pow2(n - 1) then Pow2(n - 1) else 0
  {
    if n == 1 {
      assert BitAnd(a / 2, 0, 0) == 0;
    } else {
      assert Pow2(n - 1) / 2 == Pow2(n - 2) && Pow2(n - 1) % 2 == 0;
      AndTopBit(a / 2, n - 1);
    }
  }

  /** The top bit of a & b is set exactly when it is set in both. */
  lemma {:induction false} AndBothTop(a: nat, b: nat, n: nat)
    requires n >= 1 && a < Pow2(n) && b < Pow2(n)
    ensures BitAnd(a, b, n) >= Pow2(n - 1) <==> a >= Pow2(n - 1) && b >= Pow2(n - 1)
  {
    if n == 1 {
      assert BitAnd(a / 2, b / 2, 0) == 0;
    } else {
      AndBothTop(a / 2, b / 2, n - 1);
    }
  }

  /** OR and AND together account for every bit once per operand. */
  lemma {:induction false} OrPlusAnd(a: nat, b: nat, n: nat)
    ensures BitOr(a, b, n) + BitAnd(a, b, n) == a % Pow2(n) + b % Pow2(n)
  {
    if n > 0 {
      OrPlusAnd(a / 2, b / 2, n - 1);
      ModDouble(a, Pow2(n - 1));
      ModDouble(b, Pow2(n - 1));
    }
  }

  /** XOR counts the bits set in exactly one operand. */
  lemma {:induction false} XorPlusAnd(a: nat, b: nat, n: nat)
    ensures BitXor(a, b, n) + 2 * BitAnd(a, b, n) == a % Pow2(n) + b % Pow2(n)
  {
    if n > 0 {
      XorPlusAnd(a / 2, b / 2, n - 1);
      ModDouble(a, Pow2(n - 1));
      ModDouble(b, Pow2(n - 1));
    }
  }

  // ---------------------------------------------------------------------
  // The word-level facts used by the operations

  /** `w & MSB` is MSB or 0, according to the top bit of w. */
  lemma AndMsb(w: Word)
    ensures WordAnd(w, MSB) == if TopBit(w) then MSB else 0
  {
    Pow2W();
    AndTopBit(w, W);
  }

  /** `w & ALL_BUT_MSB` clears the top bit. */
  lemma AndAllButMsb(w: Word)
    ensures WordAnd(w, ALL_BUT_MSB) == w % MSB
  {
    Pow2W();
    AndLowMask(w, W - 1, W);
  }

  /** `w & 1` is the lowest bit. */
  lemma AndOne(w: Word)
    ensures WordAnd(w, 1) == w % 2
  {
    Pow2W();
    assert Pow2(1) == 2;
    AndLowMask(w, 1, W);
  }

  /** `w & 0x0f` is the lowest nybble. */
  lemma AndLowNybble(w: Word)
    ensures WordAnd(w, 15) == w % 16
  {
    Pow2W();
    assert Pow2(4) == 16;
    AndLowMask(w, 4, W);
  }

  /** `a & b & MSB` has the top bit exactly when both a and b have it. */
  lemma AndAndMsb(a: Word, b: Word)
    ensures WordAnd(WordAnd(a, b), MSB) == MSB <==> TopBit(a) && TopBit(b)
  {
    Pow2W();
    AndBothTop(a, b, W);
    AndMsb(WordAnd(a, b));
  }

  /** OR of two words without common bits is their sum. */
  lemma OrDisjoint(a: Word, b: Word)
    requires WordAnd(a, b) == 0
    ensures WordOr(a, b) == a + b
  {
    Pow2W();
    OrPlusAnd(a, b, W);
    assert a % BASE == a && b % BASE == b;
  }

  /** The sign-extension words are the identities and absorbing elements of & | ^. */
  lemma ExtensionWords(w: Word)
    ensures WordAnd(MAX, w) == w && WordAnd(w, MAX) == w
    ensures WordAnd(0, w) == 0 && WordAnd(w, 0) == 0
    ensures WordOr(0, w) == w && WordOr(w, 0) == w
    ensures WordOr(MAX, w) == MAX && WordOr(w, MAX) == MAX
    ensures WordXor(0, 0) == 0 && WordXor(MAX, MAX) == 0
    ensures WordXor(MAX, 0) == MAX && WordXor(0, MAX) == MAX
    ensures WordXor(w, 0) == w && WordXor(0, w) == w
  {
    Pow2W();
    AndLowMask(w, W, W);
    AndLowMask(0, W, W);
    AndLowMask(MAX, W, W);
    AndZero(w, W);
    OrPlusAnd(0, w, W);
    OrPlusAnd(w, 0, W);
    OrPlusAnd(MAX, w, W);
    OrPlusAnd(w, MAX, W);
    XorPlusAnd(0, 0, W);
    XorPlusAnd(MAX, MAX, W);
    XorPlusAnd(MAX, 0, W);
    XorPlusAnd(0, MAX, W);
    XorPlusAnd(w, 0, W);
    XorPlusAnd(0, w, W);
  }
}
