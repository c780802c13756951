/**
 * The BigInt class (BigInt.h) and the loops of BigInt.cpp, each method proved
 * against the function that specifies it in Repr, Bitwise, Arith, Shifts or
 * Hex. Members that change `*this` (condense, the setters, `++`, `--`, the
 * compound assignments) are methods of the class; the friend operators take
 * their operands by value and return a new value, so they are module-level
 * methods on `Big` values.
 */
module BigInts {
  import opened Words
  import opened Repr
  import opened Bitwise
  import opened Arith
  import opened Shifts
  import opened Hex

  /** The value `BigInt(i)` builds for an `int`, `unsigned int`, `long` or `unsigned long` i. */
  function MachineBig(i: int): (r: Big)
    requires -0x8000_0000_0000_0000 <= i < BASE
    ensures Value(r) == i && IsCondensed(r) && (r.isNeg <==> i < 0)
  {
    var x := Big([i % BASE], i < 0);
    assert Nat(x.bits) == i % BASE;
    assert Pow(1) == BASE;
    x
  }

  class BigInt {
    var bits: seq<Word>
    var isNeg: bool

    /** The object's state as a value. */
    function Val(): Big
      reads this
    {
      Big(bits, isNeg)
    }

    /** `BigInt(int)`: the value converted to `unsigned long` (sign-extended), and the sign flag. */
    constructor FromInt(integer: int)
      requires -0x8000_0000 <= integer < 0x8000_0000
      ensures Val() == MachineBig(integer)
    {
      isNeg := integer < 0;
      bits := [integer % BASE];
    }

    /** `BigInt(unsigned int)`. */
    constructor FromUInt(integer: int)
      requires 0 <= integer < 0x1_0000_0000
      ensures Val() == MachineBig(integer)
    {
      isNeg := false;
      bits := [integer];
    }

    /** `BigInt(long)`. */
    constructor FromLong(integer: int)
      requires -0x8000_0000_0000_0000 <= integer < MSB
      ensures Val() == MachineBig(integer)
    {
      isNeg := integer < 0;
      bits := [integer % BASE];
    }

    /** `BigInt(unsigned long)`. */
    constructor FromULong(integer: int)
      requires 0 <= integer < BASE
      ensures Val() == MachineBig(integer)
    {
      isNeg := false;
      bits := [integer];
    }

    /** The implicit copy constructor, from a value. */
    constructor Copy(x: Big)
      ensures Val() == x
    {
      bits := x.bits;
      isNeg := x.isNeg;
    }

    /** The implicit copy assignment `*this = x`. */
    method Assign(x: Big)
      modifies this
      ensures Val() == x
    {
      bits := x.bits;
      isNeg := x.isNeg;
    }

    /** `condense`: pops redundant top words, keeping at least one. */
    method Condense()
      requires |bits| >= 1
      modifies this
      ensures Val() == Condensed(old(Val()))
      ensures Value(Val()) == Value(old(Val())) && IsCondensed(Val())
    {
      ghost var x0 := Val();
      var test := if isNeg then MAX else 0;
      var size := |bits|;
      while bits[|bits| - 1] == test && size > 1
        invariant 1 <= size == |bits|
        invariant isNeg == x0.isNeg && test == ExtWord(isNeg)
        invariant Condensed(Big(bits, isNeg)) == Condensed(x0)
        decreases size
      {
        bits := bits[..size - 1];
        size := size - 1;
      }
      CondensedReached(Val(), x0);
    }

    method SetBits(b: seq<Word>)
      modifies this
      ensures bits == b && isNeg == old(isNeg)
    {
      bits := b;
    }

    method GetBits() returns (b: seq<Word>)
      ensures b == bits
    {
      b := bits;
    }

    method SetIsNeg(n: bool)
      modifies this
      ensures isNeg == n && bits == old(bits)
    {
      isNeg := n;
    }

    method GetIsNeg() returns (n: bool)
      ensures n == isNeg
    {
      n := isNeg;
    }

    /** `toHex`: the digits of the magnitude, every word in full, after "0x" or "-0x". */
    method ToHex() returns (s: string)
      ensures s == HexRendering(Val())
    {
      var temp := Val();
      var negative := false;
      if temp.isNeg {
        negative := true;
        var t := new BigInt.Copy(temp);
        temp := t.Negate();
      }
      var digits := HexPass(temp.bits);
      s := (if negative then "-0x" else "0x") + digits;
    }

    /** `~x`: a copy with every word complemented and the sign flag flipped. */
    method Not() returns (r: Big)
      ensures r == Complement(Val())
    {
      var temp := bits;
      var i := 0;
      while i < |temp|
        invariant 0 <= i <= |temp| == |bits|
        invariant forall k :: 0 <= k < i ==> temp[k] == WordNot(bits[k])
        invariant forall k :: i <= k < |temp| ==> temp[k] == bits[k]
      {
        temp := temp[i := WordNot(temp[i])];
        i := i + 1;
      }
      r := Big(temp, !isNeg);
    }

    /**
     * Prefix `++`, in place: the single-word -1 becomes 0; otherwise MAX words
     * become 0 up to the first other word, which is incremented, and a word 1
     * is appended when the carry runs off the end. No condense.
     */
    method Increment()
      modifies this
      ensures Val() == Incremented(old(Val()))
      ensures IncrementExact(old(Val())) ==> Value(Val()) == Value(old(Val())) + 1
    {
      if isNeg && |bits| == 1 && bits[0] == MAX {
        isNeg := false;
        bits := [0];
        IncrementedValue(old(Val()));
        return;
      }
      var carry;
      bits, carry := IncPass(bits);
      if carry {
        bits := bits + [1];
      }
      IncrementedValue(old(Val()));
    }

    /** Postfix `++`: increments in place and returns the old value. */
    method PostIncrement() returns (r: Big)
      modifies this
      ensures r == old(Val()) && Val() == Incremented(old(Val()))
    {
      r := Val();
      Increment();
    }

    /** Prefix `--`: complement, increment, complement, in place. */
    method Decrement()
      modifies this
      ensures Val() == Decremented(old(Val()))
      ensures NegationExact(old(Val())) ==> Value(Val()) == Value(old(Val())) - 1
    {
      DecrementedValue(Val());
      var c := Not();
      Assign(c);
      Increment();
      c := Not();
      Assign(c);
    }

    /** Postfix `--`: decrements in place and returns the old value. */
    method PostDecrement() returns (r: Big)
      modifies this
      ensures r == old(Val()) && Val() == Decremented(old(Val()))
    {
      r := Val();
      Decrement();
    }

    /** Unary `-`: `~` then `++` on a copy. */
    method Negate() returns (r: Big)
      ensures r == Negated(Val())
      ensures NegationExact(Val()) || Val().isNeg ==> Value(r) == -Value(Val())
    {
      NegatedValue(Val());
      var temp := new BigInt.Copy(Val());
      var c := temp.Not();
      temp.Assign(c);
      temp.Increment();
      r := temp.Val();
    }

    /** `&=`: `*this = *this & lhs`. */
    method AndAssign(lhs: Big)
      modifies this
      ensures Val() == AndOf(old(Val()), lhs)
    {
      var t := And(Val(), lhs);
      Assign(t);
    }

    /** `|=`. */
    method OrAssign(lhs: Big)
      modifies this
      ensures Val() == OrOf(old(Val()), lhs)
    {
      var t := Or(Val(), lhs);
      Assign(t);
    }

    /** `^=`, for operands with the same number of words. */
    method XorAssign(lhs: Big)
      requires |bits| == |lhs.bits|
      modifies this
      ensures |bits| == |lhs.bits| + 1 && Val() == XorOf(old(Val()), lhs)
    {
      var t := Xor(Val(), lhs);
      Assign(t);
    }

    /** `<<=`, for a count of at most W. */
    method ShlAssign(count: int)
      requires count <= W
      modifies this
      ensures Val() == ShiftedLeft(old(Val()), count)
    {
      var t := ShiftLeft(Val(), count);
      Assign(t);
    }

    /** `>>=`, for a count of at most W and enough words to drop and condense. */
    method ShrAssign(count: int)
      requires count <= W
      requires count >= 0 ==> |bits| > (if count == W then 1 else 0)
      modifies this
      ensures Val() == ShiftedRight(old(Val()), count)
    {
      var t := ShiftRight(Val(), count);
      Assign(t);
    }

    /** `+=`. */
    method AddAssign(lhs: Big)
      modifies this
      ensures Val() == SumOf(old(Val()), lhs)
    {
      var t := Add(Val(), lhs);
      Assign(t);
    }

    /** `-=`. */
    method SubAssign(lhs: Big)
      modifies this
      ensures Val() == Difference(old(Val()), lhs)
    {
      var t := Sub(Val(), lhs);
      Assign(t);
    }
  }

  // ---------------------------------------------------------------------
  // The friend operators

  /**
   * The carry loop of `++`: MAX words become 0 up to the first other word,
   * which is incremented; the carry is still set when it runs off the end.
   */
  method IncPass(s: seq<Word>) returns (ws: seq<Word>, carry: bool)
    ensures (ws, carry) == IncWords(s)
  {
    ws := s;
    carry := true;
    var i := 0;
    while i < |ws|
      invariant 0 <= i <= |ws| == |s|
      invariant ws == Zeros(i) + s[i..] && carry
      invariant forall j :: 0 <= j < i ==> s[j] == MAX
    {
      if ws[i] != MAX {
        assert ws[i] == s[i];
        IncWordsStop(s, i);
        ws := ws[i := ws[i] + 1];
        carry := false;
        return;
      }
      ZerosStep(s, i);
      ws := ws[i := 0];
      i := i + 1;
    }
    assert ws == Zeros(|s|) + [];
    IncWordsRunOff(s);
    assert ws == Zeros(|s|);
  }

  /** The word loop of `toHex`: each word, lowest first, prepends its digits. */
  method HexPass(ws: seq<Word>) returns (digits: string)
    ensures digits == HexOfWords(ws)
  {
    digits := "";
    var i := 0;
    while i < |ws|
      invariant 0 <= i <= |ws|
      invariant digits == HexOfWords(ws[..i])
    {
      digits := PrependWord(ws[i], digits);
      HexOfWordsStep(ws, i);
      i := i + 1;
    }
    assert ws[..i] == ws;
  }

  /** One pass of the nybble loop of `toHex`: the word's digits, low nybble last, go in front of `rest`. */
  method PrependWord(w: Word, rest: string) returns (digits: string)
    ensures digits == WordHex(w, NYBBLES_IN_ULONG) + rest
  {
    digits := rest;
    var j := 0;
    while j < NYBBLES_IN_ULONG
      invariant 0 <= j <= NYBBLES_IN_ULONG
      invariant digits == WordHex(w, j) + rest
    {
      ConcatAssoc([DIGITS[Nybble(w, j)]], WordHex(w, j), rest);
      digits := [DIGITS[Nybble(w, j)]] + digits;
      j := j + 1;
    }
  }

  /** The tail loops of `&` and `|`: push the words of `src` from position `from` on. */
  method PushRest(temp: Big, src: seq<Word>, from: nat) returns (r: Big)
    requires from <= |src|
    ensures r == temp.(bits := temp.bits + src[from..])
  {
    r := temp;
    var j := from;
    while j < |src|
      invariant from <= j <= |src|
      invariant r == temp.(bits := temp.bits + src[from..j])
    {
      assert src[from..j + 1] == src[from..j] + [src[j]];
      r := r.(bits := r.bits + [src[j]]);
      j := j + 1;
    }
  }

  /** `rhs & lhs`: the seed word, the common words AND-ed, then the tail of the longer operand when the shorter is negative. */
  method And(rhs: Big, lhs: Big) returns (r: Big)
    ensures r == AndOf(rhs, lhs)
  {
    var temp := MachineBig(0);
    var m := Min(|rhs.bits|, |lhs.bits|);
    var i := 0;
    while i < |rhs.bits| && i < |lhs.bits|
      invariant 0 <= i <= m
      invariant temp.bits == [0] + seq(i, k requires 0 <= k < i => WordAnd(rhs.bits[k], lhs.bits[k]))
    {
      temp := temp.(bits := temp.bits + [WordAnd(rhs.bits[i], lhs.bits[i])]);
      i := i + 1;
    }
    assert temp.bits == [0] + AndLoop(rhs, lhs).bits[..m];
    if rhs.isNeg && i == |rhs.bits| {
      temp := PushRest(temp, lhs.bits, i);
    } else if lhs.isNeg && i == |lhs.bits| {
      temp := PushRest(temp, rhs.bits, i);
    }
    assert temp.bits == [0] + AndLoop(rhs, lhs).bits;
    temp := temp.(isNeg := lhs.isNeg && rhs.isNeg);
    r := temp;
  }

  /** `rhs | lhs`: the seed word, the common words OR-ed, then the tail of the longer operand when the shorter is non-negative. */
  method Or(rhs: Big, lhs: Big) returns (r: Big)
    ensures r == OrOf(rhs, lhs)
  {
    var temp := MachineBig(0);
    var m := Min(|rhs.bits|, |lhs.bits|);
    var i := 0;
    while i < |rhs.bits| && i < |lhs.bits|
      invariant 0 <= i <= m
      invariant temp.bits == [0] + seq(i, k requires 0 <= k < i => WordOr(rhs.bits[k], lhs.bits[k]))
    {
      temp := temp.(bits := temp.bits + [WordOr(rhs.bits[i], lhs.bits[i])]);
      i := i + 1;
    }
    assert temp.bits == [0] + OrLoop(rhs, lhs).bits[..m];
    if !rhs.isNeg && i == |rhs.bits| {
      temp := PushRest(temp, lhs.bits, i);
    } else if !lhs.isNeg && i == |lhs.bits| {
      temp := PushRest(temp, rhs.bits, i);
    }
    assert temp.bits == [0] + OrLoop(rhs, lhs).bits;
    temp := temp.(isNeg := lhs.isNeg || rhs.isNeg);
    r := temp;
  }

  /** `rhs ^ lhs`, for operands with the same number of words: the seed word, then the words XOR-ed. */
  method Xor(rhs: Big, lhs: Big) returns (r: Big)
    requires |rhs.bits| == |lhs.bits|
    ensures r == XorOf(rhs, lhs)
  {
    var temp := MachineBig(0);
    var i := 0;
    while i < |rhs.bits| || i < |lhs.bits|
      invariant 0 <= i <= |rhs.bits|
      decreases |rhs.bits| - i
      invariant temp.bits == [0] + seq(i, k requires 0 <= k < i => WordXor(rhs.bits[k], lhs.bits[k]))
    {
      temp := temp.(bits := temp.bits + [WordXor(rhs.bits[i], lhs.bits[i])]);
      i := i + 1;
    }
    temp := temp.(isNeg := rhs.isNeg != lhs.isNeg);
    r := temp;
  }

  /** The word loop of one `<<` bit step: every word doubled, taking the top bit of the word below. */
  method ShlPass(bits: seq<Word>) returns (ws: seq<Word>, carryN: bool)
    ensures ws == ShlWords(bits) && carryN == ShlCarry(bits)
  {
    ws := bits;
    carryN := false;
    var j := 0;
    while j < |ws|
      invariant 0 <= j <= |ws| == |bits|
      invariant forall k :: 0 <= k < j ==> ws[k] == ShlWord(bits, k)
      invariant forall k :: j <= k < |ws| ==> ws[k] == bits[k]
      invariant carryN == (j > 0 && WordAnd(bits[j - 1], MSB) == MSB)
    {
      var carryP := carryN;
      carryN := WordAnd(ws[j], MSB) == MSB;
      var w := (WordAnd(ws[j], ALL_BUT_MSB) * 2) % BASE;
      if carryP {
        w := WordOr(w, 1);
      }
      ws := ws[j := w];
      j := j + 1;
    }
  }

  /** The word loop of one `>>` bit step: every word halved, taking the low bit of the word above, or the sign at the top. */
  method ShrPass(bits: seq<Word>, isNeg: bool) returns (ws: seq<Word>)
    ensures ws == ShrWords(bits, isNeg)
  {
    ws := bits;
    var j := 0;
    while j < |ws|
      invariant 0 <= j <= |ws| == |bits|
      invariant forall k :: 0 <= k < j ==> ws[k] == ShrWord(bits, isNeg, k)
      invariant forall k :: j <= k < |ws| ==> ws[k] == bits[k]
    {
      var w := ws[j] / 2;
      if j + 1 == |ws| {
        w := WordOr(w, if isNeg then MSB else 0);
      } else {
        w := WordOr(w, if WordAnd(ws[j + 1], 1) == 1 then MSB else 0);
      }
      ws := ws[j := w];
      j := j + 1;
    }
  }

  /** `rhs << count`: a negative count gives 0; a count of W pushes a zero word below; then single-bit steps. */
  method ShiftLeft(rhs: Big, count: int) returns (r: Big)
    requires count <= W
    ensures r == ShiftedLeft(rhs, count)
  {
    if count < 0 {
      r := Big([0], false);
      return;
    }
    var x := rhs;
    var c := count;
    while c >= W
      invariant (c == count && x == rhs) || (count == W && c == 0 && x == Big([0] + rhs.bits, rhs.isNeg))
      decreases c
    {
      x := x.(bits := [0] + x.bits);
      c := c - W;
    }
    ghost var x0, c0 := x, c;
    while c > 0
      invariant 0 <= c <= c0 && x == ShlBits(x0, c0 - c)
      decreases c
    {
      var ws, carryN := ShlPass(x.bits);
      if carryN != x.isNeg {
        ws := ws + [if x.isNeg then ALL_BUT_MSB else 1];
      }
      x := x.(bits := ws);
      c := c - 1;
    }
    r := x;
  }

  /** `rhs >> count`: a negative count gives 0; a count of W drops the lowest word; then single-bit steps and condense. */
  method ShiftRight(rhs: Big, count: int) returns (r: Big)
    requires count <= W
    requires count >= 0 ==> |rhs.bits| > (if count == W then 1 else 0)
    ensures r == ShiftedRight(rhs, count)
  {
    if count < 0 {
      r := Big([0], false);
      return;
    }
    var x := rhs;
    var c := count;
    while c >= W
      invariant (c == count && x == rhs) || (count == W && c == 0 && x == Big(rhs.bits[1..], rhs.isNeg))
      decreases c
    {
      x := x.(bits := x.bits[1..]);
      c := c - W;
    }
    ghost var x0, c0 := x, c;
    while c > 0
      invariant 0 <= c <= c0 && x == ShrBits(x0, c0 - c)
      decreases c
    {
      var ws := ShrPass(x.bits, x.isNeg);
      x := x.(bits := ws);
      c := c - 1;
    }
    var temp := new BigInt.Copy(x);
    temp.Condense();
    r := temp.Val();
  }

  /**
   * One pass of the `+` loop body: the three top-bit cases, then the carry in
   * from the previous word. The sum and the carry out are the two digits of
   * rhsC + lhsC + carryP.
   */
  method AddWords(rhsC: Word, lhsC: Word, carryP: bool) returns (sum: Word, carryN: bool)
    ensures (sum, carryN) == AddStep(rhsC, lhsC, carryP)
    ensures sum + (if carryN then BASE else 0) == rhsC + lhsC + (if carryP then 1 else 0)
  {
    AddStepCorrect(rhsC, lhsC, carryP);
    carryN := false;
    sum := 0;
    if WordAnd(rhsC, MSB) != WordAnd(lhsC, MSB) {
      sum := WordAdd(WordAnd(rhsC, ALL_BUT_MSB), WordAnd(lhsC, ALL_BUT_MSB));
      if WordAnd(sum, MSB) == MSB {
        sum := WordAnd(sum, ALL_BUT_MSB);
        carryN := true;
      } else {
        sum := WordOr(sum, MSB);
      }
    } else if WordAnd(WordAnd(rhsC, lhsC), MSB) == MSB {
      sum := WordAdd(WordAnd(rhsC, ALL_BUT_MSB), WordAnd(lhsC, ALL_BUT_MSB));
      carryN := true;
    } else {
      sum := WordAdd(rhsC, lhsC);
    }
    if carryP {
      if sum == MAX {
        sum := 0;
        carryN := true;
      } else {
        sum := sum + 1;
      }
    }
  }

  /**
   * The `+` loop: one step per position of the longer operand, the shorter
   * one read through its extension word, each sum pushed onto `start`.
   */
  method AddPass(start: seq<Word>, rhs: Big, lhs: Big) returns (ws: seq<Word>, carryN: bool)
    ensures ws == start + AddPrefix(rhs, lhs, Max(|rhs.bits|, |lhs.bits|)).0
    ensures carryN == AddPrefix(rhs, lhs, Max(|rhs.bits|, |lhs.bits|)).1
  {
    ws := start;
    carryN := false;
    var i := 0;
    var n := Max(|rhs.bits|, |lhs.bits|);
    while i < |rhs.bits| || i < |lhs.bits|
      invariant 0 <= i <= n
      invariant ws == start + AddPrefix(rhs, lhs, i).0 && carryN == AddPrefix(rhs, lhs, i).1
      decreases n - i
    {
      var rhsC := if i < |rhs.bits| then rhs.bits[i] else ExtWord(rhs.isNeg);
      var lhsC := if i < |lhs.bits| then lhs.bits[i] else ExtWord(lhs.isNeg);
      assert rhsC == Ext(rhs, i) && lhsC == Ext(lhs, i);
      ghost var prefix := AddPrefix(rhs, lhs, i).0;
      var sum;
      sum, carryN := AddWords(rhsC, lhsC, carryN);
      assert AddPrefix(rhs, lhs, i + 1) == (prefix + [sum], carryN);
      ConcatAssoc(start, prefix, [sum]);
      ws := ws + [sum];
      i := i + 1;
    }
  }

  /** The switch after the `+` loop: on the carry and the two signs, push a word and/or set the sign. */
  method AddSwitch(temp: Big, carryN: bool, rhsNeg: bool, lhsNeg: bool) returns (r: Big)
    requires !temp.isNeg
    ensures r == Big(temp.bits + SignFix(carryN, rhsNeg, lhsNeg).0, SignFix(carryN, rhsNeg, lhsNeg).1)
  {
    r := temp;
    var state := (if carryN then 1 else 0) + (if rhsNeg then 2 else 0) + (if lhsNeg then 4 else 0);
    if state == 1 {
      r := r.(bits := r.bits + [1]);
    } else if state == 2 || state == 4 || state == 7 {
      r := r.(isNeg := true);
    } else if state == 6 {
      r := r.(bits := r.bits + [ALL_BUT_LSB]);
      r := r.(isNeg := true);
    }
  }

  /**
   * `rhs + lhs`: the seed word, one step per position of the longer operand
   * (the shorter one read through its extension word), the final switch on
   * the carry and the signs, then condense.
   */
  method Add(rhs: Big, lhs: Big) returns (r: Big)
    ensures r == SumOf(rhs, lhs)
    ensures Value(r) == BASE * (Value(rhs) + Value(lhs)) && IsCondensed(r)
  {
    var temp := MachineBig(0);
    var n := Max(|rhs.bits|, |lhs.bits|);
    var ws, carryN := AddPass(temp.bits, rhs, lhs);
    temp := temp.(bits := ws);
    temp := AddSwitch(temp, carryN, rhs.isNeg, lhs.isNeg);
    ConcatAssoc([0], AddPrefix(rhs, lhs, n).0, SignFix(carryN, rhs.isNeg, lhs.isNeg).0);
    assert temp == Seeded(AddLoop(rhs, lhs));
    var obj := new BigInt.Copy(temp);
    obj.Condense();
    r := obj.Val();
    SumValue(rhs, lhs);
  }

  /** `rhs - lhs`, computed as `rhs + -lhs`. */
  method Sub(rhs: Big, lhs: Big) returns (r: Big)
    ensures r == Difference(rhs, lhs)
    ensures NegationExact(lhs) ==> Value(r) == BASE * (Value(rhs) - Value(lhs))
  {
    var l := new BigInt.Copy(lhs);
    var negated := l.Negate();
    r := Add(rhs, negated);
  }
}
