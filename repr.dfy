/**
 * The two's-complement representation of a BigInt: a list of words, least
 * significant first, and the flag `isNeg` saying whether the positions above
 * the stored words are all ones (MAX) or all zeros. Also the normalisation
 * `condense`, which drops redundant top words.
 */
module Repr {
  import opened Words

  /** The state of a BigInt object: its fields `bits` and `isNeg`. */
  datatype Big = Big(bits: seq<Word>, isNeg: bool)

  /** BASE^n. */
  function Pow(n: nat): (r: nat)
    ensures r >= 1
  {
    if n == 0 then 1 else BASE * Pow(n - 1)
  }

  /** The words read as an unsigned number, least significant first. */
  function Nat(s: seq<Word>): nat
  {
    if s == [] then 0 else s[0] + BASE * Nat(s[1..])
  }

  /** The word every position above the stored words implicitly holds. */
  function ExtWord(isNeg: bool): Word
  {
    if isNeg then MAX else 0
  }

  /** The integer a BigInt stands for. */
  function Value(x: Big): int
  {
    Nat(x.bits) - (if x.isNeg then Pow(|x.bits|) else 0)
  }

  /** The sign-extended word at position i: stored, or the extension word above them. */
  function Ext(x: Big, i: nat): Word
  {
    if i < |x.bits| then x.bits[i] else ExtWord(x.isNeg)
  }

  predicate AllZero(s: seq<Word>)
  {
    forall i :: 0 <= i < |s| ==> s[i] == 0
  }

  predicate AllMax(s: seq<Word>)
  {
    forall i :: 0 <= i < |s| ==> s[i] == MAX
  }

  /** n zero words. */
  function Zeros(n: nat): (r: seq<Word>)
    ensures |r| == n && AllZero(r)
  {
    seq(n, i => 0)
  }

  lemma {:induction false} NatBound(s: seq<Word>)
    ensures Nat(s) < Pow(|s|)
  {
    if s != [] {
      NatBound(s[1..]);
    }
  }

  /** Because every word is below BASE, `isNeg` holds exactly when the value is negative. */
  lemma SignIsNeg(x: Big)
    ensures x.isNeg <==> Value(x) < 0
  {
    NatBound(x.bits);
  }

  lemma {:induction false} NatAppend(s: seq<Word>, t: seq<Word>)
    ensures Nat(s + t) == Nat(s) + Pow(|s|) * Nat(t)
  {
    if s == [] {
      assert s + t == t;
    } else {
      var u := s[1..];
      assert (s + t)[1..] == u + t;
      assert (s + t)[0] == s[0];
      NatAppend(u, t);
      var p, v := Pow(|u|), Nat(t);
      assert Nat(s + t) == s[0] + BASE * Nat(u + t);
      assert Nat(u + t) == Nat(u) + p * v;
      MulAssoc(BASE, p, v);
      assert Pow(|s|) == BASE * p;
    }
  }

  lemma MulAssoc(a: int, b: int, c: int)
    ensures a * (b * c) == (a * b) * c
  {
  }

  lemma {:induction false} NatAllZero(s: seq<Word>)
    requires AllZero(s)
    ensures Nat(s) == 0
  {
    if s != [] {
      NatAllZero(s[1..]);
    }
  }

  lemma {:induction false} NatAllMax(s: seq<Word>)
    requires AllMax(s)
    ensures Nat(s) == Pow(|s|) - 1
  {
    if s != [] {
      NatAllMax(s[1..]);
    }
  }

  /** The top word weighs BASE^(n-1). */
  lemma NatSnoc(ws: seq<Word>)
    requires |ws| >= 1
    ensures Nat(ws) == Nat(ws[..|ws| - 1]) + Pow(|ws| - 1) * ws[|ws| - 1]
  {
    var p, w := ws[..|ws| - 1], ws[|ws| - 1];
    assert p + [w] == ws;
    NatAppend(p, [w]);
    assert Nat([w]) == w;
  }

  /** A word pushed on top weighs BASE^|ws|. */
  lemma NatPush(ws: seq<Word>, w: Word)
    ensures Nat(ws + [w]) == Nat(ws) + Pow(|ws|) * w
  {
    NatAppend(ws, [w]);
    assert Nat([w]) == w;
  }

  /** Appending the extension word leaves the value unchanged. */
  lemma ValueExtend(x: Big)
    ensures Value(Big(x.bits + [ExtWord(x.isNeg)], x.isNeg)) == Value(x)
  {
    NatAppend(x.bits, [ExtWord(x.isNeg)]);
    assert Nat([ExtWord(x.isNeg)]) == ExtWord(x.isNeg);
  }

  /** Reading past the stored words with the extension word. */
  lemma {:induction false} ValueAsExtended(x: Big, n: nat)
    requires |x.bits| <= n
    ensures Nat(seq(n, i requires 0 <= i < n => Ext(x, i))) == Value(x) + (if x.isNeg then Pow(n) else 0)
    decreases n - |x.bits|
  {
    var s := seq(n, i requires 0 <= i < n => Ext(x, i));
    if n == |x.bits| {
      assert s == x.bits;
    } else {
      var y := Big(x.bits + [ExtWord(x.isNeg)], x.isNeg);
      ValueExtend(x);
      ValueAsExtended(y, n);
      assert s == seq(n, i requires 0 <= i < n => Ext(y, i));
    }
  }

  /** `BigInt temp = 0` followed by pushes: a zero word below the given words. */
  function Seeded(x: Big): Big
  {
    Big([0] + x.bits, x.isNeg)
  }

  /** The seed word shifts every word one place up, so the value is BASE times larger. */
  lemma SeededValue(x: Big)
    ensures Value(Seeded(x)) == BASE * Value(x)
    ensures Ext(Seeded(x), 0) == 0
    ensures forall i: nat :: Ext(Seeded(x), i + 1) == Ext(x, i)
  {
    assert Seeded(x).bits[1..] == x.bits;
  }

  /**
   * `condense`: pop the top word while it equals the extension word and more
   * than one word is left. The list must not be empty (`bits.back()`).
   */
  function Condensed(x: Big): (r: Big)
    requires |x.bits| >= 1
    ensures r.isNeg == x.isNeg
    ensures 1 <= |r.bits| <= |x.bits| && r.bits == x.bits[..|r.bits|]
    ensures |r.bits| == 1 || r.bits[|r.bits| - 1] != ExtWord(r.isNeg)
    ensures forall j :: |r.bits| <= j < |x.bits| ==> x.bits[j] == ExtWord(x.isNeg)
    decreases |x.bits|
  {
    var n := |x.bits|;
    if x.bits[n - 1] == ExtWord(x.isNeg) && n > 1 then
      Condensed(Big(x.bits[..n - 1], x.isNeg))
    else
      x
  }

  /** Condensed form: one word, or a top word that differs from the extension word. */
  predicate IsCondensed(x: Big)
  {
    |x.bits| == 1 || (|x.bits| > 1 && x.bits[|x.bits| - 1] != ExtWord(x.isNeg))
  }

  /** Condensing leaves the value unchanged. */
  lemma {:induction false} CondensedValue(x: Big)
    requires |x.bits| >= 1
    ensures Value(Condensed(x)) == Value(x)
    decreases |x.bits|
  {
    var n := |x.bits|;
    if x.bits[n - 1] == ExtWord(x.isNeg) && n > 1 {
      var y := Big(x.bits[..n - 1], x.isNeg);
      CondensedValue(y);
      ValueExtend(y);
      assert y.bits + [ExtWord(x.isNeg)] == x.bits;
    }
  }

  /** Condensing is idempotent and its result is condensed. */
  lemma CondensedIdempotent(x: Big)
    requires |x.bits| >= 1
    ensures IsCondensed(Condensed(x))
    ensures Condensed(Condensed(x)) == Condensed(x)
  {
  }

  /** A condensed value is left alone by condense. */
  lemma CondensedFixpoint(x: Big)
    requires IsCondensed(x)
    ensures Condensed(x) == x
  {
  }

  /** Once condense has reached a condensed list it has the value and the form of `Condensed`. */
  lemma CondensedReached(x: Big, x0: Big)
    requires |x0.bits| >= 1 && IsCondensed(x) && Condensed(x) == Condensed(x0)
    ensures x == Condensed(x0) && Value(x) == Value(x0)
  {
    CondensedFixpoint(x);
    CondensedValue(x0);
  }

  /** Sequence concatenation regroups. */
  lemma ConcatAssoc<T>(a: seq<T>, b: seq<T>, c: seq<T>)
    ensures a + (b + c) == (a + b) + c
  {
  }
}
