# BigInt: a verified model of a two's-complement big integer

This project models `BigInt`, the arbitrary-precision signed integer of
More-Math-CPP (`BigInt.h`, `BigInt.cpp`). A value is a list of
`unsigned long` words, least significant first, and a flag `isNeg`. The flag
says whether every position above the stored words is implicitly all ones
(`MAX`) or all zeros. It stands for

    Value(x) = Σ bits[i]·BASE^i − (isNeg ? BASE^|bits| : 0),   BASE = 2^W.

The model covers `condense`, the four constructors, the accessors and
`toHex`. It also covers `~ & | ^ << >>`, prefix and postfix `++` and `--`,
unary and binary `-`, `+`, the compound assignments and `< > <= >=`. It is
laid out in the program's own layers:

- `words.dfy` (`Words`): the word width W = 64, the masks `MAX`,
  `ALL_BUT_MSB`, `MSB`, `LSB`, `ALL_BUT_LSB`, and the word operations
  `& | ^ ~ +` defined bit by bit and modulo 2^W.
- `repr.dfy` (`Repr`): the datatype `Big` (the fields `bits`, `isNeg`), its
  `Value`, the sign-extended word `Ext`, `condense` as the function
  `Condensed`, and the seed word `BigInt temp = 0`.
- `bitwise.dfy`, `arith.dfy`, `shifts.dfy`, `hex.dfy`: each operator as a
  function on `Big` that does exactly what the code does, with lemmas giving
  its integer meaning.
- `bigint.dfy` (`BigInts`): the class `BigInt` with its two fields. The
  in-place members (`condense`, the setters, `++`, `--`, the compound
  assignments) are methods with `modifies this`. The friend operators take
  their operands by value, so they are module-level methods on `Big` values
  and cannot change an argument. Every loop of the source is a `while` loop
  here, proved against the function that specifies it.
- `corrected.dfy` (`Corrected`): the defects listed under Findings, each shown
  on a concrete input, with a corrected definition and its intended property
  proved beside it.

The model follows the code as written and does not fix it. `&`, `|`, `^` and
`+` push their result after a seed zero word, so their value is BASE times
the intended one. `++` and `-` are wrong on -1 and on zero when these are held in other than one word (the empty list included).
`<<` does not double a negative value whose top word has its top bit clear.
Each of these is proved about the as-written functions, and the corrections
stand beside them.

Three behaviours of the code are easy to miss:

- `condense` never removes the last word (BigInt.cpp:20-28), so a condensed
  value keeps at least one word.
- `&`, `|`, `^` and `++` do not condense their result (the `condense` call in
  `++` is commented out).
- `toHex` prints every word in full, so -1 prints as `-0x0000000000000001`.

## Model

| member | source | states |
|---|---|---|
| Words.MasksAsDerived | BigInt.cpp:6-14 | The literal masks are MAX = 2^W - 1, ALL_BUT_MSB = MAX >> 1, MSB = ~ALL_BUT_MSB and ALL_BUT_LSB = ~LSB, with BASE = 2·MSB |
| Words.Pow2W | BigInt.cpp:12-14 | 2^W is BASE and 2^(W-1) is MSB for W = 8·sizeof(unsigned long) |
| Words.AndMsb | BigInt.cpp:331 | `w & MSB` is MSB when the top bit of w is set and 0 otherwise |
| Words.AndAllButMsb | BigInt.cpp:332 | `w & ALL_BUT_MSB` is w with its top bit cleared (w mod MSB) |
| Words.AndAndMsb | BigInt.cpp:339 | `rhsC & lhsC & MSB` equals MSB exactly when both top bits are set |
| Words.OrDisjoint | BigInt.cpp:337 | OR of two words with no common bit is their sum (`sum \|= MSB` adds MSB) |
| Words.AndOne | BigInt.cpp:234 | `w & 1ul` is the lowest bit of w |
| Words.AndLowNybble | BigInt.cpp:61 | `w & 0x0f` is the lowest nybble of w |
| Words.ExtensionWords | BigInt.cpp:120-130 | MAX is the identity and 0 the absorbing word of `&`, 0 the identity and MAX the absorbing word of `\|`, and 0 the identity of `^` |
| Repr.Seeded | BigInt.cpp:113-116 | The code as written; its meaning is stated by Repr.SeededValue |
| Repr.SignIsNeg | BigInt.h:10-11 | Because every word is below BASE, `isNeg` holds exactly when the value is negative |
| Repr.ValueExtend | BigInt.h:10-11 | Appending the implicit extension word does not change the value |
| Repr.Condensed | BigInt.cpp:20-28 | condense keeps the sign and at least one word, and leaves a prefix of the list. Every word it drops is the extension word, and it stops at one word or at a top word that differs from it |
| Repr.CondensedValue | BigInt.cpp:20-28 | condense leaves the value unchanged |
| Repr.CondensedIdempotent | BigInt.cpp:20-28 | The result of condense is condensed, and condensing it again changes nothing |
| Repr.SeededValue | BigInt.cpp:113-116 | Pushing results after the single zero word of `BigInt temp = 0` multiplies the value by BASE and moves every word one place up |
| Bitwise.Complement | BigInt.cpp:100-107 | The code as written; its meaning is stated by Bitwise.ComplementAt and Bitwise.ComplementValue |
| Bitwise.AndOf | BigInt.cpp:109-133 | The code as written; its meaning is stated by Bitwise.AndOfAt and Bitwise.SeedScalesBitwise |
| Bitwise.OrOf | BigInt.cpp:136-160 | The code as written; its meaning is stated by Bitwise.OrOfAt and Bitwise.SeedScalesBitwise |
| Bitwise.XorOf | BigInt.cpp:163-183 | The code as written; its meaning is stated by Bitwise.XorOfAt and Bitwise.SeedScalesBitwise |
| Bitwise.ComplementAt | BigInt.cpp:100-107 | `~x` keeps the length and complements every sign-extended word |
| Bitwise.ComplementInvolution | BigInt.cpp:100-107 | `~~x == x` |
| Bitwise.ComplementValue | BigInt.cpp:100-107 | `Value(~x) == -Value(x) - 1` |
| Bitwise.AndLoopAt | BigInt.cpp:115-131 | The words the `&` loop pushes are, at every position, the AND of the operands' sign-extended words, tail copy included |
| Bitwise.AndOfAt | BigInt.cpp:109-133 | `rhs & lhs` holds 0 in its lowest word and the bitwise AND one word up, with sign `rhs.isNeg && lhs.isNeg` |
| Bitwise.OrLoopAt | BigInt.cpp:142-158 | The words the `\|` loop pushes are, at every position, the OR of the sign-extended words |
| Bitwise.OrOfAt | BigInt.cpp:136-160 | `rhs \| lhs` holds 0 in its lowest word and the bitwise OR one word up, with sign `rhs.isNeg \|\| lhs.isNeg` |
| Bitwise.XorLoopAt | BigInt.cpp:172-181 | For equal lengths, the words the `^` loop pushes are the XOR of the sign-extended words |
| Bitwise.XorOfAt | BigInt.cpp:163-183 | `rhs ^ lhs` holds 0 in its lowest word and the bitwise XOR one word up, with sign `rhs.isNeg != lhs.isNeg` |
| Bitwise.SeedScalesBitwise | BigInt.cpp:109-183 | `&`, `\|` and `^` return BASE times the value of the loop's words; `1 & -1`, `1 \| 0` and `1 ^ 0` are BASE |
| Arith.Incremented | BigInt.cpp:247-271 | The code as written; its meaning is stated by Arith.IncrementedValue |
| Arith.Decremented | BigInt.cpp:281-286 | The code as written; its meaning is stated by Arith.DecrementedValue |
| Arith.Negated | BigInt.cpp:299-304 | The code as written; its meaning is stated by Arith.NegatedValue |
| Arith.AddWithoutCarry | BigInt.cpp:331-344 | The code as written; its meaning is stated by Arith.AddWithoutCarryCorrect |
| Arith.AddStep | BigInt.cpp:325-353 | The code as written; its meaning is stated by Arith.AddStepCorrect |
| Arith.SignFix | BigInt.cpp:357-377 | The code as written; its meaning is stated by Arith.AddLoopValue |
| Arith.SumOf | BigInt.cpp:307-380 | The code as written; its meaning is stated by Arith.SumValue |
| Arith.IncWordsValue | BigInt.cpp:256-268 | The carry loop of `++` keeps the length and adds one to the unsigned value. It carries out exactly when every word is MAX, and when it does not, the result is not all zero |
| Arith.IncrementedValue | BigInt.cpp:247-271 | `++` adds one except on a negative all-MAX list of other than one word (the empty list included; value -1), which it turns into BASE^n - BASE^(n+1); the result is negative only if the input was |
| Arith.NegatedValue | BigInt.cpp:299-304 | Unary `-` (`~` then `++`) negates every value except a non-negative all-zero list of other than one word (the empty list included); a negative operand always gives a non-negative result of the opposite value |
| Arith.CondensedNegationExact | BigInt.cpp:299-304 | Every condensed value, and every negative one, is negated exactly |
| Arith.DecrementedValue | BigInt.cpp:281-286 | `--` (`~`, `++`, `~`) subtracts one from every value except a non-negative all-zero list of other than one word (the empty list included) |
| Arith.IncrementThenDecrement | BigInt.cpp:247-286 | `--(++x)` has the value of x whenever `++x` is exact |
| Arith.DecrementThenIncrement | BigInt.cpp:247-286 | `++(--x)` has the value of x whenever `--x` is exact |
| Arith.AddWithoutCarryCorrect | BigInt.cpp:331-344 | The three top-bit cases compute sum and carry as the two base-2^W digits of rhsC + lhsC |
| Arith.AddStepCorrect | BigInt.cpp:325-353 | One loop step, with the carry in, gives the two digits of rhsC + lhsC + carryP |
| Arith.AddPrefixValue | BigInt.cpp:321-355 | After k steps the pushed words and the carry spell the sum of the first k sign-extended words of each operand |
| Arith.AddLoopValue | BigInt.cpp:357-377 | After the switch on (carryN, rhs.isNeg, lhs.isNeg), the words after the seed, read with the result sign, are exactly Value(rhs) + Value(lhs) |
| Arith.SumValue | BigInt.cpp:307-380 | `rhs + lhs` is BASE·(Value(rhs) + Value(lhs)), negative exactly when the sum is, and condensed; `1 + 1` is 2·BASE |
| Arith.Difference | BigInt.cpp:382-384 | `rhs - lhs` is BASE·(Value(rhs) - Value(lhs)), negative exactly when rhs < lhs, whenever lhs is negated exactly |
| Arith.Less | BigInt.cpp:436-441 | `rhs < lhs` holds exactly when Value(rhs) < Value(lhs), whenever lhs is negated exactly, and is false for a non-negative rhs and a negative lhs |
| Arith.Greater | BigInt.cpp:443-445 | `rhs > lhs` is `lhs < rhs`: exactly Value(rhs) > Value(lhs) when rhs is negated exactly |
| Arith.GreaterEq | BigInt.cpp:447-449 | `rhs >= lhs` is `!(rhs < lhs)`: exactly Value(rhs) >= Value(lhs) when lhs is negated exactly |
| Arith.LessEq | BigInt.cpp:451-453 | `rhs <= lhs` is `!(lhs < rhs)`: exactly Value(rhs) <= Value(lhs) when rhs is negated exactly |
| Arith.Trichotomy | BigInt.cpp:436-453 | On condensed operands exactly one of `<`, equal value and `>` holds, and `<` is the sign of `rhs - lhs` |
| Shifts.ShlBitStep | BigInt.cpp:195-210 | The code as written; its meaning is stated by Shifts.ShlBitStepValue |
| Shifts.ShiftedLeft | BigInt.cpp:186-212 | The code as written; its meaning is stated by Shifts.ShiftedLeftValue |
| Shifts.ShrBitStep | BigInt.cpp:223-237 | The code as written; its meaning is stated by Shifts.ShrBitStepValue |
| Shifts.ShiftedRight | BigInt.cpp:214-240 | The code as written; its meaning is stated by Shifts.ShiftedRightValue |
| Shifts.ShlWordsValue | BigInt.cpp:198-205 | The word loop of a `<<` bit step doubles the unsigned value; the bit shifted out of the top word is carryN |
| Shifts.ShlBitStepValue | BigInt.cpp:195-210 | A `<<` bit step doubles the value when x is non-negative or its top word has the top bit set. Otherwise it gives 2·Value(x) - (MSB-1)·BASE^n. The sign is kept and the list does not shrink |
| Shifts.ShlBitsValue | BigInt.cpp:195-210 | k bit steps multiply a non-negative value by 2^k and keep the sign |
| Shifts.ShlBitsNegative | BigInt.cpp:195-210 | k bit steps multiply a negative value by 2^k, keeping sign and length, whenever x·2^k >= -BASE^|bits| (the product fits the stored words) |
| Shifts.ShiftedLeftValue | BigInt.cpp:186-212 | `x << n` is 0 for a negative count; it is x·2^n for non-negative x, for n = W (any x), and for negative x whose product x·2^n fits the stored words; a count of W adds a word |
| Shifts.MinusOneShiftedLeft | BigInt.cpp:186-212 | `BigInt(-1) << 5` has the value -32 |
| Shifts.ShlNegativeCounterexample | BigInt.cpp:207-209 | `-BASE << 1` gives -BASE - BASE²/2, where the step that appends ALL_BUT_LSB gives -2·BASE |
| Shifts.ShlBitStepFixedValue | BigInt.cpp:207-209 | With ALL_BUT_LSB appended for a negative value, a bit step doubles every value |
| Shifts.ShrWordsValue | BigInt.cpp:227-236 | The word loop of a `>>` bit step halves the unsigned value and puts the sign bit into the top word |
| Shifts.ShrBitStepValue | BigInt.cpp:223-237 | A `>>` bit step gives floor(Value/2) and keeps sign and length |
| Shifts.ShrWordStepValue | BigInt.cpp:219-221 | Dropping the lowest word gives floor(Value/BASE) |
| Shifts.ShrBitsValue | BigInt.cpp:223-237 | k bit steps give floor(Value/2^k) |
| Shifts.ShiftedRightValue | BigInt.cpp:214-240 | `x >> n` is 0 for a negative count, floor(Value(x)/2^n) otherwise, and condensed |
| Shifts.ShiftRoundTrip | BigInt.cpp:186-240 | `(x << n) >> n` has the value of x for 0 <= n <= W and x of at least one word that is non-negative, or shifted by W, or whose product x·2^n fits its words |
| Hex.WordHex | BigInt.cpp:60-62 | The code as written; its meaning is stated by Hex.WordHexValue |
| Hex.HexOfWords | BigInt.cpp:59-63 | The code as written; its meaning is stated by Hex.HexOfWordsValue and Hex.HexOfWordsDigits |
| Hex.HexDigitsOf | BigInt.cpp:51-63 | The code as written; its meaning is stated by Hex.HexRenderingValue |
| Hex.HexRendering | BigInt.cpp:50-65 | The code as written; its meaning is stated by Hex.HexRenderingValue |
| Hex.Nybble | BigInt.cpp:61 | `*i >> 4*j & 0x0f` is digit j of the word in base 16 |
| Hex.WordHexValue | BigInt.cpp:60-62 | The k digits the nybble loop prepends read back as the word modulo 16^k |
| Hex.HexOfWordsValue | BigInt.cpp:59-63 | The digits of all words, top word first, read back as the unsigned value of the list |
| Hex.HexOfWordsDigits | BigInt.cpp:51-63 | Only characters of the table "0123456789ABCDEF" are printed |
| Hex.HexRenderingValue | BigInt.cpp:50-65 | `toHex` starts with "-0x" exactly for a negative value and "0x" otherwise, then exactly NYBBLES_IN_ULONG digits per word of x (of -x when negative) that read back as the absolute value |
| Hex.MinusOneRendering | BigInt.cpp:50-65 | -1 prints as "-0x" followed by fifteen zeros and "1": no leading zeros are trimmed |
| BigInts.MachineBig | BigInt.cpp:69-93 | A native integer becomes one word i mod BASE with isNeg = (i < 0); its value is i and it is condensed |
| BigInts.BigInt.FromInt | BigInt.cpp:69-75 | `BigInt(int)`: one sign-extended word; the non-negative branch relies on the default `isNeg = false` |
| BigInts.BigInt.FromUInt | BigInt.cpp:77-80 | `BigInt(unsigned int)`: one word, non-negative |
| BigInts.BigInt.FromLong | BigInt.cpp:82-88 | `BigInt(long)`: one word, the value itself |
| BigInts.BigInt.FromULong | BigInt.cpp:90-93 | `BigInt(unsigned long)`: one word, non-negative |
| BigInts.BigInt.Copy | BigInt.cpp:52 | The implicit copy constructor copies both fields |
| BigInts.BigInt.Assign | BigInt.cpp:392 | `*this = x` replaces both fields |
| BigInts.BigInt.Condense | BigInt.cpp:20-28 | The `pop_back` loop leaves Condensed of the old state: same value, condensed |
| BigInts.BigInt.SetBits | BigInt.cpp:32-34 | Replaces `bits` only |
| BigInts.BigInt.GetBits | BigInt.cpp:36-38 | Returns `bits` and changes nothing |
| BigInts.BigInt.SetIsNeg | BigInt.cpp:40-42 | Replaces `isNeg` only |
| BigInts.BigInt.GetIsNeg | BigInt.cpp:44-46 | Returns `isNeg` and changes nothing |
| BigInts.BigInt.ToHex | BigInt.cpp:50-65 | Returns the rendering of HexRenderingValue and leaves the object unchanged |
| BigInts.BigInt.Not | BigInt.cpp:100-107 | The complement loop returns `~x` and leaves the object unchanged |
| BigInts.BigInt.Increment | BigInt.cpp:247-271 | Prefix `++` in place: the state becomes Incremented of the old state, one more in value whenever `++` is exact |
| BigInts.BigInt.PostIncrement | BigInt.cpp:274-278 | Returns the old value and increments in place |
| BigInts.BigInt.Decrement | BigInt.cpp:281-286 | Prefix `--` in place: one less in value whenever the old state is negated exactly |
| BigInts.BigInt.PostDecrement | BigInt.cpp:288-292 | Returns the old value and decrements in place |
| BigInts.BigInt.Negate | BigInt.cpp:299-304 | Unary `-` on a copy: the opposite value whenever negation is exact or the value is negative; the object is unchanged |
| BigInts.BigInt.AndAssign | BigInt.cpp:391-394 | `&=` replaces only the receiver, with `*this & lhs` |
| BigInts.BigInt.OrAssign | BigInt.cpp:397-400 | `\|=` replaces only the receiver, with `*this \| lhs` |
| BigInts.BigInt.XorAssign | BigInt.cpp:403-406 | `^=` replaces only the receiver, with `*this ^ lhs`, one word longer |
| BigInts.BigInt.ShlAssign | BigInt.cpp:409-412 | `<<=` replaces only the receiver, with `*this << count` |
| BigInts.BigInt.ShrAssign | BigInt.cpp:415-418 | `>>=` replaces only the receiver, with `*this >> count` |
| BigInts.BigInt.AddAssign | BigInt.cpp:421-424 | `+=` replaces only the receiver, with `*this + lhs` |
| BigInts.BigInt.SubAssign | BigInt.cpp:427-430 | `-=` replaces only the receiver, with `*this - lhs` |
| BigInts.IncPass | BigInt.cpp:256-265 | The carry loop zeroes the leading MAX words, increments the first other word and reports whether the carry ran off the end |
| BigInts.HexPass | BigInt.cpp:59-63 | The word loop of `toHex` builds the top word's digits first |
| BigInts.PrependWord | BigInt.cpp:60-62 | The nybble loop puts the word's 16 digits, low nybble last, in front of the string |
| BigInts.PushRest | BigInt.cpp:120-130 | The tail loops push the remaining words of the longer operand unchanged |
| BigInts.And | BigInt.cpp:109-133 | The `&` loops return AndOf: the seed word, the common words AND-ed, the tail when the shorter operand is negative |
| BigInts.Or | BigInt.cpp:136-160 | The `\|` loops return OrOf |
| BigInts.Xor | BigInt.cpp:163-183 | The `^` loop returns XorOf for operands of equal length |
| BigInts.ShlPass | BigInt.cpp:198-205 | The word loop of a `<<` bit step returns the doubled words and the bit out of the top word |
| BigInts.ShrPass | BigInt.cpp:227-236 | The word loop of a `>>` bit step returns the halved words with the sign bit put in at the top |
| BigInts.ShiftLeft | BigInt.cpp:186-212 | `rhs << count` as the source computes it, for a count of at most W |
| BigInts.ShiftRight | BigInt.cpp:214-240 | `rhs >> count` as the source computes it, for a count of at most W |
| BigInts.AddWords | BigInt.cpp:325-353 | One step of the `+` loop: the branches give the two digits of rhsC + lhsC + carryP |
| BigInts.AddPass | BigInt.cpp:321-355 | The `+` loop pushes the prefix sums of the sign-extended words and leaves the final carry |
| BigInts.AddSwitch | BigInt.cpp:357-377 | The switch appends 1, ALL_BUT_LSB or nothing and sets the sign as SignFix says |
| BigInts.Add | BigInt.cpp:307-380 | `rhs + lhs` is BASE·(Value(rhs) + Value(lhs)) and condensed |
| BigInts.Sub | BigInt.cpp:382-384 | `rhs - lhs` is BASE·(Value(rhs) - Value(lhs)) whenever lhs is negated exactly |
| Corrected.LongMinusOneCounterexample | BigInt.cpp:250-268 | On the two-word -1, `++` gives BASE² - BASE³ |
| Corrected.IncrementedFixedValue | BigInt.cpp:247-271 | `++` that recognises -1 in every length adds one on every input |
| Corrected.NegatedFixedValue | BigInt.cpp:281-304 | Unary `-` and `--` built on the corrected `++` negate and decrement every value |
| Corrected.LessZeroCounterexample | BigInt.cpp:436-441 | `0 < (0 & 0)` holds although both are 0 |
| Corrected.LessFixedCorrect | BigInt.cpp:436-441 | `<` with the corrected negation holds exactly when Value(rhs) < Value(lhs), for all operands |
| Corrected.SumFixedValue | BigInt.cpp:314-380 | `+` without the seed word is the sum, condensed, negative exactly when the sum is |
| Corrected.ShiftCounterGrows | BigInt.cpp:191 | For a count above W, `lhs -= BITS_IN_ULONG` makes the counter larger and it still passes `lhs >= BITS_IN_ULONG` |
| Corrected.ShiftedLeftFixedValue | BigInt.cpp:186-212 | `<<` for any count, counted down by exactly W and with corrected bit steps, multiplies every value by 2^count |

## Left out

- MoreMath.cpp: a demonstration `main` that prints two values with `cout`; it is I/O only.
- `std::list` and `std::string` are sequences; iterators, allocation and the copies made for by-value parameters are not modelled.
- W is fixed at 64 (an LP64 `unsigned long`); other widths of `sizeof(unsigned long)` are not modelled.
- Bitwise.XorOf: defined only for operands with the same number of words, because for unequal lengths the loop reads the shorter operand's `end()` iterator and pushes that undefined word into the result (for equal lengths it also reads `end()` at the last step, but discards the value). BigInts.Xor and BigInts.BigInt.XorAssign carry the same precondition.
- BigInts.ShiftLeft: the count is an `int` of at most W, not a BigInt. The source's counter loop goes through the seeded `+` and never ends for larger counts (see Findings), so the counter's own arithmetic is not modelled. Shifts.ShiftedLeft and BigInts.BigInt.ShlAssign have the same limit.
- BigInts.ShiftRight: the same count limit. The list must keep a word after a word drop, because `condense` would otherwise call `back()` on an empty list. Shifts.ShiftedRight and BigInts.BigInt.ShrAssign have the same limit.
- BigInts.BigInt.Condense: requires a non-empty list, because `bits.back()` is undefined on an empty one.
- Shifts.ShlBitsValue: the value is stated for non-negative x only, because the source's step is wrong for some negative values (Shifts.ShlBitStepValue gives the exact error); Shifts.ShlBitsNegative covers negative x whose product fits the stored words.
- Shifts.ShiftedLeftValue: for negative x and 0 <= n < W the value is stated only when x·2^n fits the stored words; otherwise the top bit is lost (Shifts.ShlNegativeCounterexample).
- Shifts.ShiftRoundTrip: for negative x and n < W it requires that x·2^n fit the stored words, for the same reason.
- Arith.Less: value-correct only when the right operand is negated exactly, because `-` is wrong on a long zero. Arith.Greater, Arith.GreaterEq, Arith.LessEq, Arith.Difference and BigInts.Sub carry the same condition. Corrected.LessFixedCorrect drops it.
- Multiplication, bit length, `==`, decimal parsing and division are not in this code.

## Findings

| source | as written | input that shows it | evidently intended | confidence | as-written member | corrected member |
|---|---|---|---|---|---|---|
| BigInt.cpp:250 | `++` tests for -1 only as the one-word list `[MAX]` | negative `[MAX, MAX]` (value -1): `++` gives BASE² - BASE³ | 0 | not executed | Corrected.LongMinusOneCounterexample | Corrected.IncrementedFixedValue |
| BigInt.cpp:440 | `<` negates lhs with `~` and `++`, which is wrong on a long zero | `0 < (0 & 0)`: true, where `0 & 0` is the zero list `[0, 0]` | false | not executed | Corrected.LessZeroCounterexample | Corrected.LessFixedCorrect |
| BigInt.cpp:314 | `+` pushes its words after the seed word of `BigInt temp = 0` | `1 + 1` gives 2·BASE | 2 | not executed | Arith.SumValue | Corrected.SumFixedValue |
| BigInt.cpp:113 | `&`, `\|`, `^` push their words after the seed word (also lines 140, 170) | `1 & -1` gives BASE | 1 | not executed | Bitwise.SeedScalesBitwise | Bitwise.AndLoopAt, Bitwise.OrLoopAt, Bitwise.XorLoopAt |
| BigInt.cpp:208 | `<<` appends ALL_BUT_MSB for a negative value whose top bit is clear | `-BASE << 1` gives -BASE - BASE²/2 | -2·BASE, by appending ALL_BUT_LSB | not executed | Shifts.ShlNegativeCounterexample | Shifts.ShlBitStepFixedValue |
| BigInt.cpp:191 | the shift counter steps down with `lhs -= BITS_IN_ULONG`, which goes through the seeded `+` | count 65: the next counter is BASE, so the loop never ends | count - 64 | not executed | Corrected.ShiftCounterGrows | Corrected.ShiftedLeftFixedValue |
