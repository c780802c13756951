/**
 * `toHex` (BigInt.cpp:50-65): a negative value is negated first; then every
 * word, least significant first, prepends its NYBBLES_IN_ULONG hexadecimal
 * digits to the string, and the result is prefixed with "0x" or "-0x". No
 * leading zeros are trimmed.
 */
module Hex {
  import opened Words
  import opened Repr
  import opened Bitwise
  import opened Arith

  const DIGITS: string := "0123456789ABCDEF"

  /** 16^k. */
  function Pow16(k: nat): (r: nat)
    ensures r >= 1
  {
    Pow2(4 * k)
  }

  /** `w >> k` on an unsigned long, for k below W. */
  function WordShr(w: Word, k: nat): (r: Word)
    ensures r == w / Pow2(k)
  {
    DivAtMost(w, Pow2(k));
    w / Pow2(k)
  }

  lemma DivAtMost(a: nat, d: nat)
    requires d >= 1
    ensures 0 <= a / d <= a
  {
    var q := a / d;
    assert a == d * q + a % d;
    assert d * q == q + (d - 1) * q;
  }

  /** Nybble j of a word: `*i >> 4 * j & 0x0f`. */
  function Nybble(w: Word, j: nat): (r: nat)
    ensures r == (w / Pow16(j)) % 16
  {
    AndLowNybble(WordShr(w, 4 * j));
    WordAnd(WordShr(w, 4 * j), 15)
  }

  /** The digits of nybbles k-1 down to 0 of a word, most significant first. */
  function WordHex(w: Word, k: nat): (r: string)
    ensures |r| == k
  {
    if k == 0 then "" else [DIGITS[Nybble(w, k - 1)]] + WordHex(w, k - 1)
  }

  /** The digit string the word loop builds: the top word's digits first. */
  function HexOfWords(ws: seq<Word>): (r: string)
    ensures |r| == NYBBLES_IN_ULONG * |ws|
  {
    if ws == [] then ""
    else
      var n := |ws| - 1;
      MulSucc(NYBBLES_IN_ULONG, n);
      WordHex(ws[n], NYBBLES_IN_ULONG) + HexOfWords(ws[..n])
  }

  lemma MulSucc(a: nat, n: nat)
    ensures a * (n + 1) == a + a * n
  {
  }

  /** Only characters of the digit table are printed. */
  lemma {:induction false} WordHexDigits(w: Word, k: nat)
    ensures forall c :: c in WordHex(w, k) ==> c in DIGITS
  {
    if k > 0 {
      WordHexDigits(w, k - 1);
    }
  }

  lemma {:induction false} HexOfWordsDigits(ws: seq<Word>)
    ensures forall c :: c in HexOfWords(ws) ==> c in DIGITS
  {
    if ws != [] {
      WordHexDigits(ws[|ws| - 1], NYBBLES_IN_ULONG);
      HexOfWordsDigits(ws[..|ws| - 1]);
    }
  }

  /** The word loop one word further: that word's digits go in front. */
  lemma HexOfWordsStep(ws: seq<Word>, i: nat)
    requires i < |ws|
    ensures HexOfWords(ws[..i + 1]) == WordHex(ws[i], NYBBLES_IN_ULONG) + HexOfWords(ws[..i])
  {
    assert ws[..i + 1][..i] == ws[..i];
  }

  /** The digits `toHex` prints: those of the magnitude, after negating a negative value. */
  function HexDigitsOf(x: Big): string
  {
    HexOfWords(if x.isNeg then Negated(x).bits else x.bits)
  }

  /** `x.toHex()`. */
  function HexRendering(x: Big): string
  {
    (if x.isNeg then "-0x" else "0x") + HexDigitsOf(x)
  }

  // ---------------------------------------------------------------------
  // Reading a digit string back

  /** The value of one upper-case hexadecimal digit. */
  function DigitValue(c: char): nat
  {
    if '0' <= c <= '9' then c as int - '0' as int
    else if 'A' <= c <= 'F' then c as int - 'A' as int + 10
    else 0
  }

  /** A digit string read in base 16, most significant digit first. */
  function HexValue(s: string): nat
  {
    if s == [] then 0 else 16 * HexValue(s[..|s| - 1]) + DigitValue(s[|s| - 1])
  }

  /** Every digit of the table reads back as its own index. */
  lemma DigitsRead(d: nat)
    requires d < 16
    ensures DigitValue(DIGITS[d]) == d
  {
    assert DIGITS[0] == '0' && DIGITS[1] == '1' && DIGITS[2] == '2' && DIGITS[3] == '3';
    assert DIGITS[4] == '4' && DIGITS[5] == '5' && DIGITS[6] == '6' && DIGITS[7] == '7';
    assert DIGITS[8] == '8' && DIGITS[9] == '9' && DIGITS[10] == 'A' && DIGITS[11] == 'B';
    assert DIGITS[12] == 'C' && DIGITS[13] == 'D' && DIGITS[14] == 'E' && DIGITS[15] == 'F';
  }

  lemma {:induction false} HexAppend(a: string, b: string)
    ensures HexValue(a + b) == HexValue(a) * Pow16(|b|) + HexValue(b)
  {
    if b == [] {
      assert a + b == a;
    } else {
      var p := b[..|b| - 1];
      var d := DigitValue(b[|b| - 1]);
      HexAppend(a, p);
      assert (a + b)[..|a + b| - 1] == a + p;
      assert HexValue(a + b) == 16 * HexValue(a + p) + d;
      assert HexValue(b) == 16 * HexValue(p) + d;
      Pow2Add(4 * |p|, 4);
      assert Pow16(|b|) == 16 * Pow16(|p|);
      ShiftDigitArith(HexValue(a), HexValue(p), Pow16(|p|), d);
    }
  }

  lemma ShiftDigitArith(ha: int, hp: int, pw: int, d: int)
    ensures 16 * (ha * pw + hp) + d == ha * (16 * pw) + (16 * hp + d)
  {
  }

  /** `w % (16 P)` splits into nybble `w / P % 16` and the part below it. */
  lemma ModSplit(w: nat, p: nat)
    requires p >= 1
    ensures w % (16 * p) == ((w / p) % 16) * p + w % p
  {
    var q, r := w / p, w % p;
    DivModUnique(w, p, q, r);
    var q2, r2 := q / 16, q % 16;
    DivModUnique(q, 16, q2, r2);
    ModSplitArith(w, p, q, r, q2, r2);
    DivModUnique(w, 16 * p, q2, r2 * p + r);
  }

  lemma ModSplitArith(w: int, p: int, q: int, r: int, q2: int, r2: int)
    requires w == q * p + r && 0 <= r < p
    requires q == q2 * 16 + r2 && 0 <= r2 < 16
    ensures w == q2 * (16 * p) + (r2 * p + r)
    ensures 0 <= r2 * p + r < 16 * p
  {
    assert q * p == q2 * (16 * p) + r2 * p;
    assert (15 - r2) * p >= 0;
  }

  /** The k lowest nybbles of a word read back as the word modulo 16^k. */
  lemma {:induction false} WordHexValue(w: Word, k: nat)
    ensures HexValue(WordHex(w, k)) == w % Pow16(k)
  {
    if k > 0 {
      var d := Nybble(w, k - 1);
      var rest := WordHex(w, k - 1);
      WordHexValue(w, k - 1);
      DigitsRead(d);
      assert WordHex(w, k) == [DIGITS[d]] + rest;
      HexAppend([DIGITS[d]], rest);
      assert HexValue([DIGITS[d]]) == d by {
        assert [DIGITS[d]][..0] == [];
      }
      Pow16Step(k - 1);
      ModSplit(w, Pow16(k - 1));
    }
  }

  lemma Pow16Step(k: nat)
    ensures Pow16(k + 1) == 16 * Pow16(k)
  {
    Pow2Add(4 * k, 4);
    assert Pow2(4) == 16 by {
      assert Pow2(1) == 2 && Pow2(2) == 4 && Pow2(3) == 8;
    }
  }

  /** 16^(16 m) == BASE^m: a word is exactly NYBBLES_IN_ULONG digits. */
  lemma {:induction false} Pow16Words(m: nat)
    ensures Pow16(NYBBLES_IN_ULONG * m) == Pow(m)
  {
    if m > 0 {
      Pow16Words(m - 1);
      Pow2Add(4 * NYBBLES_IN_ULONG * (m - 1), W);
      Pow2W();
    }
  }

  /** A whole word's digits read back as the word. */
  lemma WordHexFull(w: Word)
    ensures HexValue(WordHex(w, NYBBLES_IN_ULONG)) == w
  {
    WordHexValue(w, NYBBLES_IN_ULONG);
    Pow2W();
    assert Pow16(NYBBLES_IN_ULONG) == BASE;
    DivModUnique(w, BASE, 0, w);
  }

  /** The digit string of a word list reads back as the list's unsigned value. */
  lemma {:induction false} HexOfWordsValue(ws: seq<Word>)
    ensures HexValue(HexOfWords(ws)) == Nat(ws)
  {
    if ws != [] {
      var n := |ws|;
      var p, w := ws[..n - 1], ws[n - 1];
      var hw, hp := WordHex(w, NYBBLES_IN_ULONG), HexOfWords(p);
      assert HexOfWords(ws) == hw + hp;
      HexOfWordsValue(p);
      HexAppend(hw, hp);
      WordHexFull(w);
      Pow16Words(n - 1);
      assert |hp| == NYBBLES_IN_ULONG * (n - 1);
      var pw := Pow(n - 1);
      assert Pow16(|hp|) == pw;
      assert HexValue(hw + hp) == w * pw + Nat(p);
      NatSnoc(ws);
      assert pw * w == w * pw;
    }
  }

  /**
   * `toHex` prints "-0x" exactly for negative values, then digits of the
   * table only, a whole number of words of them, that read back in base 16
   * as the magnitude of the value.
   */
  lemma HexRenderingValue(x: Big)
    ensures var r := HexRendering(x); var k := if Value(x) < 0 then 3 else 2;
      |r| >= k && r[..k] == (if Value(x) < 0 then "-0x" else "0x") &&
      |r[k..]| == NYBBLES_IN_ULONG * |(if x.isNeg then Negated(x) else x).bits| &&
      |r[k..]| % NYBBLES_IN_ULONG == 0 &&
      (forall c :: c in r[k..] ==> c in DIGITS) &&
      HexValue(r[k..]) == if Value(x) < 0 then -Value(x) else Value(x)
  {
    SignIsNeg(x);
    var ws := if x.isNeg then Negated(x).bits else x.bits;
    var digits := HexOfWords(ws);
    var prefix := if x.isNeg then "-0x" else "0x";
    HexOfWordsValue(ws);
    HexOfWordsDigits(ws);
    if x.isNeg {
      NegatedValue(x);
    }
    assert HexRendering(x) == prefix + digits;
    PrefixSplit(prefix, digits);
    DivModUnique(|digits|, NYBBLES_IN_ULONG, |ws|, 0);
  }

  lemma PrefixSplit(p: string, d: string)
    ensures (p + d)[..|p|] == p && (p + d)[|p|..] == d
  {
  }

  /** n zero digits. */
  function ZeroDigits(n: nat): string
  {
    seq(n, _ => '0')
  }

  /** The nybbles of 1 above the lowest one are zero. */
  lemma {:induction false} WordHexOfOne(k: nat)
    requires k >= 1
    ensures WordHex(1, k) == ZeroDigits(k - 1) + "1"
  {
    if k == 1 {
      assert Nybble(1, 0) == 1;
    } else {
      WordHexOfOne(k - 1);
      Pow2Add(4, 4 * (k - 2));
      Pow16Step(0);
      DivModUnique(1, Pow16(k - 1), 0, 1);
      assert Nybble(1, k - 1) == 0;
      assert ZeroDigits(k - 1) == ['0'] + ZeroDigits(k - 2);
    }
  }

  /** `-1` prints as "-0x0000000000000001": the leading zeros are kept. */
  lemma MinusOneRendering()
    ensures HexRendering(Big([MAX], true)) == "-0x" + ZeroDigits(NYBBLES_IN_ULONG - 1) + "1"
  {
    var x := Big([MAX], true);
    var c: seq<Word> := [0];
    assert Complement(x).bits == c;
    var one: seq<Word> := [1];
    assert c[0] != MAX && c[1..] == [] && [c[0] + 1] + c[1..] == one;
    assert IncWords(c) == (one, false);
    assert Negated(x) == Big(one, false);
    WordHexOfOne(NYBBLES_IN_ULONG);
    assert one[..0] == [];
    assert HexOfWords(one) == WordHex(1, NYBBLES_IN_ULONG) + HexOfWords([]);
    assert HexDigitsOf(x) == HexOfWords(one);
    ConcatAssoc("-0x", ZeroDigits(NYBBLES_IN_ULONG - 1), "1");
  }
}
