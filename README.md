# lab_bigint::bigint in Dafny

This project models `lab_bigint::bigint`, a C++ class for arbitrary-precision
non-negative integers. A bigint stores a `std::vector<int>` of digits in radix
`BASE`, least significant digit first. The class provides:

- construction from nothing (zero), from a decimal string and from an `unsigned int`;
- equality and ordering, both between bigints and against an `unsigned int` on either side;
- conversion to a string and to `unsigned int`;
- addition, and subtraction that saturates at zero;
- the compound assignments and the increment and decrement operators;
- `+` and `-` with an `int` operand.

The project has four modules:

- `Digits` (digits.dfy) is the abstract layer. It holds the number a digit
  sequence denotes (`Value`), the class invariant (`Canonical`: non-empty,
  digits in `[0, BASE)`, no most-significant zero unless the number is 0) and
  the unique canonical sequence of a number (`DigitsOf`). It also holds what
  `trim` produces (`Trimmed`), the length-first order `operator<` computes
  (`LexLess`), and the lemmas relating all of these to the numbers.
- `DecimalText` (text.dfy) covers the textual side. It defines which
  characters are digits, the number a digit string spells (`StringValue`),
  what the string constructor yields (`Parsed`) and what `to_string` yields
  (`Render`), and proves the round trips between them.
- `MachineInt` (machine.dfy) defines the 32-bit `unsigned int` and `int`
  types. It also defines the implicit `int` to `unsigned int` conversion,
  which reduces modulo 2^32.
- `Bigint` (bigint.dfy) is the class itself. `BigInt` has a mutable
  `digits: seq<int>` field and one method, constructor or function per C++
  member. Each loop of the source is kept as a loop, proved against the
  functions of `Digits` and `DecimalText`. The friend operators are
  module-level methods.

`BASE` is a constant the class takes from outside its own file, and the model
fixes it to 10. Every lemma holds for any radix in `[2, 10]`, which keeps
`'0' + digit` a decimal character.

The key fact is that `operator==` and `operator<` compare digit sequences,
not numbers. They agree with numeric equality and order only because every
bigint is canonical. `SameDigitsIffSameValue` and `LexLessIsValueLess` prove
the agreement under the invariant. `EqualityNeedsCanonical` and
`LexLessNeedsCanonical` give concrete sequences where it fails without the
invariant.

## Model

| member | source | states |
|---|---|---|
| Digits.ValueRange | labs-Kirill-maker-main/lab02-bigint/solution/bigint.inc.cpp:13 | a sequence of digits in [0, BASE) denotes a number in [0, BASE^length) |
| Digits.Trimmed | labs-Kirill-maker-main/lab02-bigint/solution/bigint.inc.cpp:15-19 | trimming keeps a prefix and at least one digit, and ends without a most-significant zero unless one digit is left; every removed position held 0 |
| Digits.TrimmedValue | labs-Kirill-maker-main/lab02-bigint/solution/bigint.inc.cpp:15-19 | trimming does not change the number denoted |
| Digits.TrimmedIsDigitsOf | labs-Kirill-maker-main/lab02-bigint/solution/bigint.inc.cpp:15-19 | trimming any non-empty digit sequence yields the canonical sequence of its number |
| Bigint.BigInt.Trim | labs-Kirill-maker-main/lab02-bigint/solution/bigint.inc.cpp:15-19 | the popping loop leaves exactly the trimmed sequence |
| Bigint.BigInt.constructor | labs-Kirill-maker-main/lab02-bigint/solution/bigint.inc.cpp:22-23 | the default bigint is the single digit 0 and satisfies the invariant |
| DecimalText.Parsed | labs-Kirill-maker-main/lab02-bigint/solution/bigint.inc.cpp:26-52 | the constructed digits are canonical; for a string of digit characters they denote the number it spells, otherwise they are zero |
| Bigint.BigInt.FromString | labs-Kirill-maker-main/lab02-bigint/solution/bigint.inc.cpp:26-52 | all four outcomes (empty, all '0', invalid character, digits) give the canonical sequence Parsed describes |
| DecimalText.ParsedAfterZeros | labs-Kirill-maker-main/lab02-bigint/solution/bigint.inc.cpp:32-51 | skipping the leading '0's, reversing the remaining digits and trimming yields the canonical digits of the number the whole string spells |
| DecimalText.LeadingZerosIgnored | labs-Kirill-maker-main/lab02-bigint/solution/bigint.inc.cpp:32-34 | prefixing '0's does not change the constructed bigint ("007" and "7" are equal) |
| Digits.Expand | labs-Kirill-maker-main/lab02-bigint/solution/bigint.inc.cpp:59-62 | repeated % BASE and / BASE produce digits in range that denote the number, with a non-zero top digit, and none for 0 |
| Digits.DigitsOf | labs-Kirill-maker-main/lab02-bigint/solution/bigint.inc.cpp:55-64 | the sequence the unsigned constructor builds is canonical and denotes its argument |
| Bigint.BigInt.FromUnsigned | labs-Kirill-maker-main/lab02-bigint/solution/bigint.inc.cpp:55-64 | the constructed digits are exactly the canonical digits of the value |
| Digits.CanonicalUnique | labs-Kirill-maker-main/lab02-bigint/solution/bigint.inc.cpp:66-68 | a canonical sequence is the only canonical sequence of its number |
| Digits.SameDigitsIffSameValue | labs-Kirill-maker-main/lab02-bigint/solution/bigint.inc.cpp:66-68 | for canonical sequences, equal digits if and only if equal numbers |
| Digits.EqualityNeedsCanonical | labs-Kirill-maker-main/lab02-bigint/solution/bigint.inc.cpp:66-68 | without the invariant, digit equality is not numeric equality: [0, 0] and [0] differ but denote the same number |
| Bigint.BigInt.Equals | labs-Kirill-maker-main/lab02-bigint/solution/bigint.inc.cpp:66-68 | operator== holds if and only if the numbers are equal |
| Bigint.BigInt.NotEquals | labs-Kirill-maker-main/lab02-bigint/solution/bigint.inc.cpp:70-72 | operator!= holds if and only if the numbers differ |
| Digits.LexLessBelowIsValueLess | labs-Kirill-maker-main/lab02-bigint/solution/bigint.inc.cpp:78-82 | at equal lengths, the first differing digit from the top decides the order of the numbers |
| Digits.LexLessIsValueLess | labs-Kirill-maker-main/lab02-bigint/solution/bigint.inc.cpp:74-84 | for canonical sequences, the length-first order holds if and only if the first number is smaller |
| Digits.LexLessNeedsCanonical | labs-Kirill-maker-main/lab02-bigint/solution/bigint.inc.cpp:74-84 | without the invariant the length-first order is wrong: [5] is before [0, 0] though it denotes more |
| Bigint.BigInt.Less | labs-Kirill-maker-main/lab02-bigint/solution/bigint.inc.cpp:74-84 | the loop computes the length-first order, which is true if and only if this number is smaller |
| Bigint.BigInt.LessOrEqual | labs-Kirill-maker-main/lab02-bigint/solution/bigint.inc.cpp:86-88 | true if and only if this number is at most the other |
| Bigint.BigInt.Greater | labs-Kirill-maker-main/lab02-bigint/solution/bigint.inc.cpp:90-92 | true if and only if this number exceeds the other |
| Bigint.BigInt.GreaterOrEqual | labs-Kirill-maker-main/lab02-bigint/solution/bigint.inc.cpp:94-96 | true if and only if this number is at least the other |
| Bigint.EqualsUnsigned | labs-Kirill-maker-main/lab02-bigint/solution/bigint.inc.cpp:98-100 | bigint == unsigned holds if and only if the numbers are equal |
| Bigint.UnsignedEquals | labs-Kirill-maker-main/lab02-bigint/solution/bigint.inc.cpp:102-104 | unsigned == bigint holds if and only if the numbers are equal |
| Bigint.NotEqualsUnsigned | labs-Kirill-maker-main/lab02-bigint/solution/bigint.inc.cpp:106-108 | bigint != unsigned holds if and only if the numbers differ |
| Bigint.UnsignedNotEquals | labs-Kirill-maker-main/lab02-bigint/solution/bigint.inc.cpp:110-112 | unsigned != bigint holds if and only if the numbers differ |
| Bigint.LessUnsigned | labs-Kirill-maker-main/lab02-bigint/solution/bigint.inc.cpp:114-116 | bigint < unsigned holds if and only if the bigint's number is smaller |
| Bigint.UnsignedLess | labs-Kirill-maker-main/lab02-bigint/solution/bigint.inc.cpp:118-120 | unsigned < bigint holds if and only if the unsigned number is smaller |
| Bigint.LessOrEqualUnsigned | labs-Kirill-maker-main/lab02-bigint/solution/bigint.inc.cpp:122-124 | bigint <= unsigned holds if and only if the bigint's number is at most the other |
| Bigint.UnsignedLessOrEqual | labs-Kirill-maker-main/lab02-bigint/solution/bigint.inc.cpp:126-128 | unsigned <= bigint holds if and only if the unsigned number is at most the other |
| Bigint.GreaterUnsigned | labs-Kirill-maker-main/lab02-bigint/solution/bigint.inc.cpp:130-132 | bigint > unsigned holds if and only if the bigint's number is larger |
| Bigint.UnsignedGreater | labs-Kirill-maker-main/lab02-bigint/solution/bigint.inc.cpp:134-136 | unsigned > bigint holds if and only if the unsigned number is larger |
| Bigint.GreaterOrEqualUnsigned | labs-Kirill-maker-main/lab02-bigint/solution/bigint.inc.cpp:138-140 | bigint >= unsigned holds if and only if the bigint's number is at least the other |
| Bigint.UnsignedGreaterOrEqual | labs-Kirill-maker-main/lab02-bigint/solution/bigint.inc.cpp:142-144 | unsigned >= bigint holds if and only if the unsigned number is at least the other |
| DecimalText.RenderValue | labs-Kirill-maker-main/lab02-bigint/solution/bigint.inc.cpp:151-153 | the characters written from the most significant digit down are digit characters that spell the number |
| DecimalText.RenderNoLeadingZero | labs-Kirill-maker-main/lab02-bigint/solution/bigint.inc.cpp:146-156 | the text of a canonical bigint is non-empty and starts with '0' only if it is "0" |
| DecimalText.ParseRender | labs-Kirill-maker-main/lab02-bigint/solution/bigint.inc.cpp:146-156 | constructing from the text to_string produces gives back the same digits |
| DecimalText.RenderParse | labs-Kirill-maker-main/lab02-bigint/solution/bigint.inc.cpp:26-52 | a digit string without leading zero comes back unchanged from construction followed by to_string |
| Bigint.BigInt.ToString | labs-Kirill-maker-main/lab02-bigint/solution/bigint.inc.cpp:146-156 | the result is the rendered digits: "0" for zero, no leading zero, digit characters only, spelling the number |
| Bigint.StringRoundTrip | labs-Kirill-maker-main/lab02-bigint/solution/bigint.inc.cpp:146-156 | a digit string without leading zero survives the string constructor and to_string |
| Bigint.FoldStep | labs-Kirill-maker-main/lab02-bigint/solution/bigint.inc.cpp:160-162 | reducing modulo 2^32 at every step of value * BASE + digit gives the same result as reducing once at the end |
| Bigint.BigInt.ToUnsigned | labs-Kirill-maker-main/lab02-bigint/solution/bigint.inc.cpp:158-164 | the conversion yields the number modulo 2^32 |
| Bigint.UnsignedRoundTrip | labs-Kirill-maker-main/lab02-bigint/solution/bigint.inc.cpp:158-164 | an unsigned int converted to a bigint and back is unchanged |
| Digits.AddStep | labs-Kirill-maker-main/lab02-bigint/solution/bigint.inc.cpp:171-184 | one column keeps the loop invariant: the digits so far, followed by the carry, denote the sum of the operands' low positions |
| Bigint.BigInt.Plus | labs-Kirill-maker-main/lab02-bigint/solution/bigint.inc.cpp:166-187 | the result is a fresh canonical bigint holding the sum, at most one digit longer than the longer operand (the loop invariant keeps the carry in [0, 1] and the column count at most max + 1) |
| Bigint.BigInt.AddAssign | labs-Kirill-maker-main/lab02-bigint/solution/bigint.inc.cpp:189-192 | the receiver becomes the canonical digits of the sum of the two old numbers |
| MachineInt.Unsigned | labs-Kirill-maker-main/lab02-bigint/solution/bigint.inc.cpp:194-196 | the implicit int to unsigned int conversion keeps non-negative values and adds 2^32 to negative ones |
| Bigint.IntPlus | labs-Kirill-maker-main/lab02-bigint/solution/bigint.inc.cpp:194-196 | int + bigint adds the int's unsigned conversion |
| Bigint.PlusInt | labs-Kirill-maker-main/lab02-bigint/solution/bigint.inc.cpp:198-200 | bigint + int adds the int's unsigned conversion |
| Digits.SubtractStep | labs-Kirill-maker-main/lab02-bigint/solution/bigint.inc.cpp:207-221 | one column keeps the loop invariant: the digits so far, followed by minus the borrow, denote the difference of the operands' low positions |
| Digits.NoFinalBorrow | labs-Kirill-maker-main/lab02-bigint/solution/bigint.inc.cpp:207-223 | when the difference is not negative, the final borrow is 0 |
| Bigint.BigInt.Minus | labs-Kirill-maker-main/lab02-bigint/solution/bigint.inc.cpp:202-224 | the result is a fresh canonical bigint holding the difference, or zero when the subtrahend is larger |
| Bigint.BigInt.SubtractAssign | labs-Kirill-maker-main/lab02-bigint/solution/bigint.inc.cpp:226-229 | the receiver becomes the saturated difference of the two old numbers |
| Bigint.IntMinus | labs-Kirill-maker-main/lab02-bigint/solution/bigint.inc.cpp:231-233 | int - bigint subtracts from the int's unsigned conversion, saturating at zero |
| Bigint.MinusInt | labs-Kirill-maker-main/lab02-bigint/solution/bigint.inc.cpp:235-237 | bigint - int subtracts the int's unsigned conversion, saturating at zero |
| Bigint.BigInt.PreIncrement | labs-Kirill-maker-main/lab02-bigint/solution/bigint.inc.cpp:239-242 | the receiver's number grows by one |
| Bigint.BigInt.PostIncrement | labs-Kirill-maker-main/lab02-bigint/solution/bigint.inc.cpp:244-248 | returns a fresh copy of the old digits and the receiver's number grows by one |
| Bigint.BigInt.PreDecrement | labs-Kirill-maker-main/lab02-bigint/solution/bigint.inc.cpp:250-253 | the receiver's number shrinks by one, and zero stays zero |
| Bigint.BigInt.PostDecrement | labs-Kirill-maker-main/lab02-bigint/solution/bigint.inc.cpp:255-259 | returns a fresh copy of the old digits; the receiver's number shrinks by one, and zero stays zero |

## Left out

- The stream operators `>>` and `<<` (bigint.inc.cpp:261-271) are I/O on `std::istream` and `std::ostream`. They are not modelled. Reading is the string constructor applied to one word, and writing is `to_string`.
- The `bigint&` returned by prefix `++`/`--`, `+=` and `-=` is not modelled. These methods return nothing, because the reference only allows chaining and does not change the value computed.
- `BASE` is fixed to 10. The source takes it from a constant defined at link time. The proofs use only the fact that it lies in [2, 10].
- `unsigned int` and `int` are assumed to be 32 bits wide (the `MachineInt` module).
- Bigint.BigInt.Less: the source converts `digits.size() - 1` to `int`. Digit sequences longer than 2^31 are not modelled, and for them that conversion would overflow.
- Bigint.BigInt.Plus: the source adds into `result.digits[i]` in place. The model runs the same push, add, divide and modulo steps on a local sequence and stores it in `result.digits` before `trim`. The branch `i == result.digits.size()` is always taken, as in the source.
- Bigint.BigInt.FromString: `std::reverse` on the member vector is modelled as assigning the reversed sequence. A C++ `char` is a byte, while a Dafny `char` is a Unicode scalar value. Both reject everything outside `['0', '0' + BASE)`, so the outcomes agree.
- Overflow of the C++ `int` temporaries (`carry`, `sub`, the digit elements) is not modelled. Under the invariant they stay within [-BASE, 2 * BASE], far from the `int` limits.
- Copying a bigint (`bigint temp = *this`, `*this = *this + other`) is modelled by copying the `digits` sequence into a fresh object or into the receiver. Vector storage, capacity and `reserve` are not modelled.
