# Big numbers, their JSON, and a ledger that survives crashes

A Dafny model of the two parts of evm-babble whose correctness is hardest to see.

**The big-number library and JSON codec of the demo server**
(`ui/demo-server/public/javascripts/json-bigint.js`). A number is a sign, an exponent
and an array of decimal digits. `Digits` and `Numbers` say what such an array denotes,
as scaled integers and without real numbers; `Rounding` says what the documentation of
the nine rounding modes means; `Arithmetic` has one function per operation, on values.
The loops over digits are in `DigitLoops`, `Alignment`, `LongDivision` and
`DigitRounding`, and `Engine` has the objects and operations of the library, which are
proved to compute the functions of `Arithmetic`. `Laws`, `Powers`, `SpecialCases` and
`Fractions` say what these come to: exact sums, differences, products and powers,
correctly rounded quotients, remainders, an order, fractions in lowest terms; the
continued fractions these come from are in `Approximations`, on integers. `Numerals`,
`NumberText`, `NumberLayout`, `Bases` and `TextLaws` are about reading and writing
numbers in decimal and in other bases. `Doubles` is the host's conversion of a decimal
to a double, `JsonCodec` the meaning of reader and printer, `JsonReader` and
`JsonPrinter` the reader with its cursor and the printer with its gap, and
`JsonRoundTrip` and `JsonLaws` show that they undo each other; `JsonGrammar` says
which texts are accepted, `JsonNumbers` what numbers are read, and `JsonLayout` how
lines are indented.

**The state of the node** (`state/state.go`, `state/was.go`). `Ledger` says what a run
of transactions and genesis allocations does to accounts, receipts, logs and gas, for
any virtual machine, and `Gas` what the receipts record of it. `Recovery` models the
database as a journal of writes, a crash as a prefix of it, and start-up as a function
of what is left. `StateMachine` has the objects, whose invariant ties them to both.

A number of the model has no digits where the source has null, and sign 0 where the
sign is null. Text is a sequence of UTF-16 code units. An exception is an empty
option, a null object or an error value. `Library` holds the private variables of the
big-number library, which all operations share. The functions of the libraries that
the node calls are the fields of an `Env`; a database write is atomic, and what is
assumed of hashes and roots is the predicate `Session`.

## What the proofs found

- `plus` throws a TypeError instead of returning an infinity when a carry takes the sum
  beyond MAX_EXP (lines 1701-1706); `Laws.PlusFailsMeaning` says exactly when.
- A zero written with a huge exponent, such as `0e2000000000`, is read as an infinity,
  since overflow is tested before zero (lines 612-621). `NumberText.ReadMeaning` says
  exactly when, and `NumberText.HugeZero` is that text.
- `mod` returns an infinity when the truncated quotient overflows, and zero when the
  remainder underflows; `Powers.ModMeaning` has both conditions, and there is an example
  of each.
- `toFraction` with a maximum compares rounded distances, so it need not return the
  nearer of the two candidates: 0.51 with the maximum 99 gives 25/49, though 26/51 is
  nearer (`Fractions.TieExample`). `Fractions.PickedExactly` says exactly when: if the
  rounded distances are equal and the farther candidate is the last convergent.
- The integer 2^53 + 1 is printed exactly and read back as 2^53
  (`JsonLaws.NextIntegerIsLost`); `JsonLaws.RoundTrip` and `JsonLaws.SettledIff` say
  exactly which values come back.
- A unicode escape with fewer than four hexadecimal digits passes over the character
  behind them, which may be the quote that ends the string (lines 167-176,
  `TextLaws.CutEscapes`).
- A block that fails leaves its first transactions pending (state/state.go, lines
  124-128). If accounts are then created, both are committed together, the receipt of
  the head names a root that was never written, and no restart finds the state
  (`StateMachine.FailedBlockThenAccounts`). `Recovery.RunCrash` says that a completed
  commit is found again iff it agrees with its last receipt, and `Recovery.AgreesIff`
  when it does.

## Model

| member | source | states |
|---|---|---|
| `Numbers.ExactMeaning` | ui/demo-server/public/javascripts/json-bigint.js:611-634 | The normal form (digits 0 to 9, no zero at either end, zero as the single digit 0) of an integer n over a power of ten is valid and denotes exactly that fraction |
| `Numbers.ExactUnique` | ui/demo-server/public/javascripts/json-bigint.js:611-634 | Normal forms are unique: two digit arrays without zeros at their ends that denote one magnitude are the same array with the same exponent |
| `Numbers.SameValue` | ui/demo-server/public/javascripts/json-bigint.js:1208-1256 | Two finite numbers denote the same value iff they are the same object, or both are zeros |
| `Rounding.RoundMeaning` | ui/demo-server/public/javascripts/json-bigint.js:394-407 | Each of the nine modes picks a multiple of the unit less than one unit away, on the documented side, ties decided as documented |
| `Rounding.RoundUnique` | ui/demo-server/public/javascripts/json-bigint.js:394-407 | The documentation of a mode leaves exactly one choice |
| `DigitLoops.Add` | ui/demo-server/public/javascripts/json-bigint.js:1684-1690 | The in-place addition with carries: array plus carry denote the sum, every digit stays below 10 |
| `DigitLoops.Borrow` | ui/demo-server/public/javascripts/json-bigint.js:1517-1520 | The borrow chain ends at a nonzero digit if the digits in front denote more than zero, and takes exactly one from them |
| `DigitLoops.Subtract` | ui/demo-server/public/javascripts/json-bigint.js:1512-1523 | The subtraction loop, position by position with its borrows, leaves the difference; no digit ever leaves 0 to 9 |
| `DigitLoops.MultiplyRow` | ui/demo-server/public/javascripts/json-bigint.js:1925-1934 | A row of the product finds `c[i]` still 0, adds digit times operand at its place, and leaves a carry of at most 9 there |
| `DigitLoops.Multiply` | ui/demo-server/public/javascripts/json-bigint.js:1919-1937 | The nested carry loops leave the exact product of two digit arrays |
| `DigitLoops.Increment` | ui/demo-server/public/javascripts/json-bigint.js:1139-1151 | The carry cascade of `rnd` adds one unit; it grows exactly when all digits were 9 |
| `Alignment.SumDigits` | ui/demo-server/public/javascripts/json-bigint.js:1669-1707 | Alignment by prepended zeros, addition, carry into a new digit and stripping leave the exact sum, with nonzero ends |
| `Alignment.DiffDigits` | ui/demo-server/public/javascripts/json-bigint.js:1473-1531 | Alignment, the search for the larger operand, swap, subtraction and stripping leave the exact difference and its sign |
| `LongDivision.NextDigit` | ui/demo-server/public/javascripts/json-bigint.js:950-989 | Repeated subtraction finds the one digit for which the remainder is smaller than the divisor, and it is below 10 |
| `LongDivision.LongDivide` | ui/demo-server/public/javascripts/json-bigint.js:948-999 | The digits found, with at most one leading zero, are the exact quotient cut off at their place, and a remainder is left over (`rem[0] != null`) iff something nonzero was cut off |
| `DigitRounding.DigitDecision` | ui/demo-server/public/javascripts/json-bigint.js:1082-1116 | The decision of `rnd` by next digit, later digits, sticky remainder, sign and parity of the previous digit is the one that rounding the exact fraction asks for, in all nine modes; for the directed modes this rests on the last digit not being 0 |
| `Engine.Library.Times` | ui/demo-server/public/javascripts/json-bigint.js:1881-1964 | `times`, updating a copy of its argument, with all its special cases, is the function `Arithmetic.Times` |
| `Engine.Library.Plus` | ui/demo-server/public/javascripts/json-bigint.js:1622-1710 | `plus` is `Arithmetic.Plus`; it runs into a TypeError exactly when `PlusFails`; `plus` and `minus` call each other at most once |
| `Engine.Library.Minus` | ui/demo-server/public/javascripts/json-bigint.js:1429-1546 | `minus` is `Arithmetic.Minus`, and fails exactly when the sum it turns into fails |
| `Engine.Library.Rnd` | ui/demo-server/public/javascripts/json-bigint.js:1082-1158 | `rnd` leaves the normal form of the exact magnitude rounded to `dp` places, carries from 99.9 to 100 included |
| `Engine.Library.SetMode` | ui/demo-server/public/javascripts/json-bigint.js:1163-1172 | `setMode` rounds a copy under another mode and restores ROUNDING_MODE |
| `Engine.Library.Divide` | ui/demo-server/public/javascripts/json-bigint.js:926-1028 | The private `divide` returns the correctly rounded quotient, brought into range |
| `Engine.Library.Div` | ui/demo-server/public/javascripts/json-bigint.js:1280-1311 | `div` with all its special cases is `Arithmetic.Div` |
| `Engine.Library.Cmp` | ui/demo-server/public/javascripts/json-bigint.js:1208-1256 | `cmp` with all its special cases is `Arithmetic.Cmp`; null iff an operand is NaN |
| `Engine.Library.Mod` | ui/demo-server/public/javascripts/json-bigint.js:1563-1588 | `mod` is `Arithmetic.Mod`; it restores the signs of its operands, DECIMAL_PLACES and ROUNDING_MODE |
| `Engine.Library.Power` | ui/demo-server/public/javascripts/json-bigint.js:1720-1765 | `pow` by squaring and multiplying is `Arithmetic.Power` for every integer exponent up to MAX_POWER either way |
| `Laws.PlusMeaning` | ui/demo-server/public/javascripts/json-bigint.js:1622-1710 | Sums are exact for all finite operands, but for a difference below 10^MIN_EXP, which is zero |
| `Laws.PlusFailsMeaning` | ui/demo-server/public/javascripts/json-bigint.js:1697-1706 | The sum that cannot be delivered: exactly when it reaches the next power of ten above both operands and that exceeds MAX_EXP |
| `Laws.PlusFailsExample` | ui/demo-server/public/javascripts/json-bigint.js:1697-1706 | Such a sum: 90 + 90 with MAX_EXP 1 |
| `Laws.MinusMeaning` | ui/demo-server/public/javascripts/json-bigint.js:1429-1546 | Differences are exact for all finite operands of any signs and exponents, with the same exception |
| `Laws.TimesMeaning` | ui/demo-server/public/javascripts/json-bigint.js:1881-1964 | Products are exact and of the right sign; infinite iff they reach 10^(MAX_EXP + 1), zero iff they lie below 10^MIN_EXP |
| `Laws.DivMeaning` | ui/demo-server/public/javascripts/json-bigint.js:1280-1311 | Division is correctly rounded: for all nonzero operands, all DECIMAL_PLACES and all modes, the result is the multiple of 10^-DECIMAL_PLACES that the mode picks for x / y; infinite iff that reaches 10^(MAX_EXP + 1), zero iff it is zero or lies below 10^MIN_EXP |
| `Laws.RoundToMeaning` | ui/demo-server/public/javascripts/json-bigint.js:1776-1799 | Rounding to decimal places is the multiple that the mode picks for the number itself |
| `Laws.CmpMeaning` | ui/demo-server/public/javascripts/json-bigint.js:1208-1256 | `cmp` is the order of the numbers denoted |
| `Laws.CmpTotalOrder` | ui/demo-server/public/javascripts/json-bigint.js:1208-1256 | So it is antisymmetric, transitive, and 0 only for identical numbers and for zeros |
| `Powers.TimesPowers` | ui/demo-server/public/javascripts/json-bigint.js:1750-1763 | Multiplying two powers that were brought into range gives the product power brought into range, whether or not a factor had already become infinite or zero |
| `Powers.PowerMeaning` | ui/demo-server/public/javascripts/json-bigint.js:1720-1765 | `pow` for n > 0 is x^n exactly; infinite or zero iff x^n itself is out of range |
| `Powers.PowerInverse` | ui/demo-server/public/javascripts/json-bigint.js:1720-1765 | `pow` for an exponent -n below zero is 1 / x^n correctly rounded to DECIMAL_PLACES in the mode set, as long as x^n itself is in range; zero where x^n is infinite, infinite where x^n is zero |
| `Powers.ModMeaning` | ui/demo-server/public/javascripts/json-bigint.js:1563-1588 | x = trunc(x/y) * y + r with r nearer to zero than y and zero or of the sign of x; the result is r unless the truncated quotient overflows or r underflows, and then it is infinite or zero |
| `Powers.ModOverflowExample` | ui/demo-server/public/javascripts/json-bigint.js:1563-1588 | A quotient that overflows: 90 mod 0.1 with MAX_EXP 1 |
| `Powers.ModUnderflowExample` | ui/demo-server/public/javascripts/json-bigint.js:1563-1588 | A remainder that underflows: 1.05 mod 1 with MIN_EXP -1 |
| `SpecialCases.PlusTable` | ui/demo-server/public/javascripts/json-bigint.js:1603-1619 | The table of sums with an infinity, a zero or NaN, with the signs |
| `SpecialCases.MinusIsPlus` | ui/demo-server/public/javascripts/json-bigint.js:1409-1446 | x - y is x + (-y) for all operands, infinities, zeros and NaN included |
| `SpecialCases.TimesTable` | ui/demo-server/public/javascripts/json-bigint.js:1861-1877 | The table of products with an infinity, a zero or NaN, with the signs; the product does not depend on the order |
| `SpecialCases.DivTable` | ui/demo-server/public/javascripts/json-bigint.js:1259-1275 | The table of quotients with an infinity, a zero or NaN, with the signs |
| `SpecialCases.ModTable` | ui/demo-server/public/javascripts/json-bigint.js:1550-1560 | The table of remainders, and what it leaves out: the remainder of an infinity is NaN, that by an infinity is the dividend |
| `SpecialCases.PowerTable` | ui/demo-server/public/javascripts/json-bigint.js:1733-1748 | Anything to the power 0 is 1; powers of zeros, infinities and NaN, for exponents of either sign |
| `SpecialCases.CmpTable` | ui/demo-server/public/javascripts/json-bigint.js:1208-1256 | The infinities are beyond all numbers |
| `Approximations.NextConvergent` | ui/demo-server/public/javascripts/json-bigint.js:2099-2114 | A step of the loop keeps x = (n1*N + n0*D) / (d1*N + d0*D) and the determinant at 1 or -1 |
| `Fractions.Expand` | ui/demo-server/public/javascripts/json-bigint.js:2099-2114 | The loop, on the library's own numbers, which become infinite at its last division by zero, computes the last two convergents whose denominators are within the limit (`Approximations.Expansion`) |
| `Fractions.NeighbourNoBetter` | ui/demo-server/public/javascripts/json-bigint.js:2122-2129 | An integer ending in zeros, rounded by the source together with its neighbour, is never farther away than that |
| `Approximations.CandidatesAround` | ui/demo-server/public/javascripts/json-bigint.js:2114-2118 | Where the loop stops, x is the last convergent or lies strictly between the two candidates, whose denominators add up to more than the limit |
| `Approximations.NoneBetween` | ui/demo-server/public/javascripts/json-bigint.js:2116-2118 | Between neighbouring fractions lie only fractions whose denominators are at least the sum of theirs |
| `Approximations.NeighboursNearest` | ui/demo-server/public/javascripts/json-bigint.js:2116-2118 | So each candidate is the nearest fraction on its side of x that the limit allows |
| `Fractions.LastChosen` | ui/demo-server/public/javascripts/json-bigint.js:2122-2129 | If the last convergent is x itself, the comparison of rounded distances chooses it |
| `Approximations.CandidatesMeaning` | ui/demo-server/public/javascripts/json-bigint.js:2099-2118 | The two candidates have denominators within the limit, are in lowest terms and neighbours; x is the last convergent, or strictly between them and then each is the nearest fraction on its side that the limit allows |
| `Approximations.NearerStays` | ui/demo-server/public/javascripts/json-bigint.js:2122-2129 | Rounding to twice the decimal places of x, in any mode, never puts the farther of two candidates ahead of the nearer one |
| `Fractions.ToFraction` | ui/demo-server/public/javascripts/json-bigint.js:2055-2132 | `toFraction` returns the text of the fraction picked (`Fractions.Picked`): the last convergent if its rounded distance from x is not greater, so also on a tie, and the other candidate otherwise. For x in the range of exponents the two texts, read back in their order, are integers N and D in lowest terms with D from 1 to the maximum, N zero or of the sign of x, no fraction within the maximum between |N| / D and |x|, and N / D = x without a maximum (`Fractions.IsFraction`). Otherwise it returns the text of an infinity or NaN; it throws iff the maximum is not an integer of at least 1; the settings are restored |
| `Fractions.FractionMeaning` | ui/demo-server/public/javascripts/json-bigint.js:2122-2129 | So it is for the text of the fraction picked, whatever the limits of plain notation |
| `Fractions.GoodMaxIff` | ui/demo-server/public/javascripts/json-bigint.js:2073-2088 | A maximum is accepted iff it is an integer of at least 1 |
| `Fractions.PickedMeaning` | ui/demo-server/public/javascripts/json-bigint.js:2055-2132 | For every x in the range of exponents and every maximum: the fraction picked has a denominator from 1 to the maximum and is in lowest terms, no fraction within the maximum lies between it and x, and it is x itself if any fraction within the maximum is, so always if no maximum is given |
| `Fractions.PickedExactly` | ui/demo-server/public/javascripts/json-bigint.js:2122-2129 | Which candidate is picked, for every x in the range of exponents and every maximum: the last convergent iff it is not the farther one or the distances come out equal (rounded to twice the decimal places of x, and zero if they underflow). So the farther candidate is picked iff the distances come out equal and it is the last convergent |
| `Fractions.TieExample` | ui/demo-server/public/javascripts/json-bigint.js:2122-2129 | An input that gets the farther one: 0.51 with the maximum 99 and the default settings gives 25/49, though 26/51 is nearer |
| `Naturals.DeterminantCoprime` | ui/demo-server/public/javascripts/json-bigint.js:2099-2118 | Numbers with determinant 1 or -1 have no common divisor |
| `Numerals.ValidIff` | ui/demo-server/public/javascripts/json-bigint.js:440 | The scanner accepts exactly the texts of the grammar `isValid` |
| `Numerals.ScanSpell` | ui/demo-server/public/javascripts/json-bigint.js:108-139 | In whatever text it stands, a literal is found with all its parts and its end |
| `Numerals.ScanSound` | ui/demo-server/public/javascripts/json-bigint.js:108-139 | What the scanner finds is spelled by the characters it passed |
| `NumberText.FromText` | ui/demo-server/public/javascripts/json-bigint.js:455-635 | The constructor on a text: trimming, a plus sign, the sign, point, exponent, leading and trailing zeros, overflow before zero, the texts Infinity and NaN; nothing iff it throws because the text is no number |
| `NumberText.ReadMeaning` | ui/demo-server/public/javascripts/json-bigint.js:566-635 | The number read from a literal has its exact value, is infinite iff that reaches 10^(MAX_EXP + 1), zero iff it is zero or lies below 10^MIN_EXP; but a zero is read as an infinity iff its exponent exceeds MAX_EXP |
| `NumberText.HugeZero` | ui/demo-server/public/javascripts/json-bigint.js:611-621 | Such a zero: 0e2000000000 with the default settings |
| `NumberText.PointMoved` | ui/demo-server/public/javascripts/json-bigint.js:576-590 | An exponent, with a small or a capital letter and with or without a plus sign, moves the point: the number is the one written with zeros instead |
| `TextLaws.Spaced` | ui/demo-server/public/javascripts/json-bigint.js:503-505 | White space around a number and a plus sign in front of it change nothing |
| `TextLaws.ReadIff` | ui/demo-server/public/javascripts/json-bigint.js:503-562 | The constructor reads exactly these texts: a literal, one without a sign behind a plus sign, or Infinity or NaN with or without a sign, each with white space around it |
| `NumberText.ToText` | ui/demo-server/public/javascripts/json-bigint.js:2171-2238 | `toString` without a base, in its exponential, leading-zero, trailing-zero and inserted-point layouts; `NumberLayout.TextLayout` says what the text looks like and `NumberText.RoundTrip` what it denotes |
| `NumberLayout.TextLayout` | ui/demo-server/public/javascripts/json-bigint.js:2171-2238 | The text of every finite number: an `e` iff the exponent is at or beyond a limit of plain notation; a minus sign iff the number is below zero; plain, a point iff there are decimal places, no zero at the end behind a point, none in front but a single one before the point; exponential, one digit in front, not 0 unless the number is, no zero at the end of the digits, always a sign behind the `e`, and the exponent without leading zeros |
| `NumberText.Exponential` | ui/demo-server/public/javascripts/json-bigint.js:1039-1077 | The exponential layout of `format` |
| `NumberText.LiteralValue` | ui/demo-server/public/javascripts/json-bigint.js:2171-2238 | Every layout has the digits and the scale of the number it shows |
| `NumberText.RoundTrip` | ui/demo-server/public/javascripts/json-bigint.js:455-635 | `new BigNumber(x.toString())` is x, for every finite number in range, every layout and all limits of plain notation; only the sign of a zero is lost |
| `NumberText.SpecialRoundTrip` | ui/demo-server/public/javascripts/json-bigint.js:586-607 | And for the infinities and NaN |
| `Bases.PassCarries` | ui/demo-server/public/javascripts/json-bigint.js:823-836 | The carries of the growing array keep the number, end with all digits in the base, and leave no leading zero |
| `Bases.TakeDigit` | ui/demo-server/public/javascripts/json-bigint.js:819-836 | One digit taken in: the number is multiplied by the old base and the digit added |
| `Bases.ToArray` | ui/demo-server/public/javascripts/json-bigint.js:812-839 | `strToArr` returns the digits in the new base of the number read, without leading zeros |
| `Bases.Convert` | ui/demo-server/public/javascripts/json-bigint.js:806-919 | `convert` of an integer is the text of that integer in the other base |
| `Bases.ToTextBase` | ui/demo-server/public/javascripts/json-bigint.js:2171-2238 | `toString(b)` of an integer is its text in base b, with a sign unless it is zero |
| `Bases.FromTextBase` | ui/demo-server/public/javascripts/json-bigint.js:507-544 | The constructor with a base: base 10 is rounded to DECIMAL_PLACES, whole numbers of other bases are converted, Infinity and NaN are kept; nothing for any other text |
| `Bases.BaseRoundTrip` | ui/demo-server/public/javascripts/json-bigint.js:2217-2226 | `new BigNumber(x.toString(b), b)` is x for every integer x in range and every base from 2 to 36, but for the sign of zero |
| `TextLaws.BaseTextMeaning` | ui/demo-server/public/javascripts/json-bigint.js:437 | The digits of the text in base b are those of the string DIGITS, most significant first, without leading zeros, and have the value of the number |
| `TextLaws.AnyCase` | ui/demo-server/public/javascripts/json-bigint.js:510-537 | Digits of a base other than 10 are read in either case, with or without a minus sign, as the number they denote brought into range |
| `TextLaws.TenRounds` | ui/demo-server/public/javascripts/json-bigint.js:497-501 | In base 10 what is read is rounded to DECIMAL_PLACES in the mode set |
| `Doubles.DoubleMeaning` | ui/demo-server/public/javascripts/json-bigint.js:140 | The conversion `+string` of a decimal gives a multiple of a power of two with at most 53 bits, nearest to it and even on a tie |
| `Doubles.AsNumberMeaning` | ui/demo-server/public/javascripts/json-bigint.js:140 | A double as a number has exactly the value q * 2^e of the double, an integer or not |
| `Doubles.AboveIff` | ui/demo-server/public/javascripts/json-bigint.js:144-145 | The double of a decimal exceeds 2^53 iff the decimal exceeds 2^53 + 1 |
| `Doubles.OverflowIff` | ui/demo-server/public/javascripts/json-bigint.js:141-142 | The double of a decimal is infinite iff the decimal is 2^1024 - 2^970 or more |
| `Doubles.IntegerIsDouble` | ui/demo-server/public/javascripts/json-bigint.js:140 | Every integer up to 2^53 is its own double |
| `JsonReader.Reader.ReadNumber` | ui/demo-server/public/javascripts/json-bigint.js:108-148 | `number`: the characters of a literal, and the plain number, big number or error that its double decides; `JsonNumbers.NumberMeaning` says which that is, and what it is worth |
| `JsonNumbers.NumberMeaning` | ui/demo-server/public/javascripts/json-bigint.js:108-148 | By the exact value of the literal: an error iff it is 2^1024 - 2^970 or more, a big number iff it is below that and beyond 2^53 + 1, and otherwise the double that IEEE 754 rounds the exact value to, nearest with ties to even, as a number of exactly that value |
| `JsonReader.Reader.ReadString` | ui/demo-server/public/javascripts/json-bigint.js:150-190 | `string` with its escapes, its loop over hexadecimal digits that stops early, and its error |
| `TextLaws.ShortEscapes` | ui/demo-server/public/javascripts/json-bigint.js:68-77 | Each of the eight short escapes of RFC 8259 is read as its character |
| `TextLaws.LongEscapes` | ui/demo-server/public/javascripts/json-bigint.js:167-176 | Four hexadecimal digits in either case are read as the character with that number |
| `TextLaws.CutEscapes` | ui/demo-server/public/javascripts/json-bigint.js:167-176 | With fewer than four, the number so far is taken and the character behind it is passed over |
| `TextLaws.RawCharacters` | ui/demo-server/public/javascripts/json-bigint.js:181-183 | Every character other than a quote and a backslash stands for itself, control characters included |
| `JsonReader.Reader.ReadArray` | ui/demo-server/public/javascripts/json-bigint.js:231-256 | `array`: elements, separators, errors, and the cursor behind the bracket |
| `JsonReader.Reader.ReadObject` | ui/demo-server/public/javascripts/json-bigint.js:258-290 | `object`: members in order, an error for a repeated key, and the cursor behind the brace; the model stops at the key `__proto__` |
| `JsonReader.Reader.ReadValue` | ui/demo-server/public/javascripts/json-bigint.js:292-310 | `value` ends on every text, the measure being the characters left, and is the function `JsonCodec.ValueAt`, error for error, up to a key `__proto__` |
| `JsonReader.ParseText` | ui/demo-server/public/javascripts/json-bigint.js:315-351 | `parse` without a reviver, on every text, up to the first key `__proto__` if it comes to one |
| `JsonGrammar.ParseIff` | ui/demo-server/public/javascripts/json-bigint.js:192-351 | `parse` accepts exactly the texts of a grammar, and returns the value the text stands for: words, numbers, strings, arrays and objects with commas between their parts, a colon behind each key, distinct keys, and white space around every part and nowhere else; keys `__proto__` apart |
| `JsonGrammar.BodyReads` | ui/demo-server/public/javascripts/json-bigint.js:231-310 | Every text of that grammar is read to its end, whatever text it stands in |
| `JsonGrammar.BodyFound` | ui/demo-server/public/javascripts/json-bigint.js:231-310 | And whatever is read anywhere stands for the value returned |
| `JsonGrammar.StringStands` | ui/demo-server/public/javascripts/json-bigint.js:150-190 | A string literal is read as the same string wherever it stands |
| `JsonPrinter.QuoteText` | ui/demo-server/public/javascripts/json-bigint.js:2470-2484 | `quote`: the text unchanged if nothing needs an escape, and otherwise every character escaped that does |
| `JsonLayout.QuoteVisible` | ui/demo-server/public/javascripts/json-bigint.js:2470-2484 | No quoted string holds a line break, another control character or a line separator |
| `JsonLayout.PlainQuoted` | ui/demo-server/public/javascripts/json-bigint.js:2470-2484 | A string of visible ASCII characters without quotes and backslashes is put between quotes as it is |
| `TextLaws.ShortWritten` | ui/demo-server/public/javascripts/json-bigint.js:2456-2464 | The characters that have a short escape, but for the slash, are written with it |
| `JsonNumbers.HostWhole` | ui/demo-server/public/javascripts/json-bigint.js:2519-2523 | Integers of the host up to 2^53 are written with all their digits, without a point and without an exponent |
| `JsonNumbers.BigWritten` | ui/demo-server/public/javascripts/json-bigint.js:2546-2547 | Big numbers are written in the layout of `toString` under the settings of the library |
| `JsonPrinter.Printer.Str` | ui/demo-server/public/javascripts/json-bigint.js:2487-2616 | `str` writes the value and leaves `gap` as it found it, at every depth; `JsonLayout.Reformatted` says how the text is indented |
| `JsonLayout.Reformatted` | ui/demo-server/public/javascripts/json-bigint.js:2549-2612 | Printed with white space for its indentation, a value is turned into the text printed with any other indentation, or none, by a formatter of JSON texts that knows nothing of values: it drops the white space outside strings, and starts a new line, with the indentation once for every bracket open around it, behind opening brackets and commas and before closing brackets |
| `JsonLayout.GapIndents` | ui/demo-server/public/javascripts/json-bigint.js:2549-2612 | Printed behind a gap, a value is what it is at the margin with the gap put behind every line break |
| `JsonPrinter.Stringify` | ui/demo-server/public/javascripts/json-bigint.js:2621-2661 | `stringify` without a replacer |
| `JsonRoundTrip.EscapeRead` | ui/demo-server/public/javascripts/json-bigint.js:167-183 | Every escape that `quote` writes is read as the character it was written for |
| `JsonRoundTrip.NumberRead` | ui/demo-server/public/javascripts/json-bigint.js:108-148 | The text of any finite number is read as the number itself or as its double, depending on that double alone |
| `JsonRoundTrip.ReadsItems` | ui/demo-server/public/javascripts/json-bigint.js:231-256 | The printed elements of an array are read in order, from any element on and at any indentation |
| `JsonRoundTrip.ReadsEntries` | ui/demo-server/public/javascripts/json-bigint.js:258-290 | The printed members of an object likewise, for keys other than `__proto__`, none being taken for a duplicate |
| `JsonRoundTrip.ReadsBack` | ui/demo-server/public/javascripts/json-bigint.js:292-310 | In whatever text a printed value without keys `__proto__` stands, it is read there to its end, or rejected for a number too large |
| `JsonLaws.ParsePrint` | ui/demo-server/public/javascripts/json-bigint.js:2621-2661 | What printing and reading make of any tree with integers of the host, finite big numbers and keys other than `__proto__`: the same tree with its numbers settled; an error iff a number has no finite double |
| `JsonLaws.RoundTrip` | ui/demo-server/public/javascripts/json-bigint.js:2621-2661 | For every finite tree of null, booleans, strings, arrays, objects without repeated keys and without the key `__proto__`, integers of the host up to 2^53 and finite big numbers, and every indentation by white space: `parse(stringify(v, null, space))` is v iff no integer of the host is -0 and every big number lies beyond 2^53 + 1 and has a finite double |
| `JsonLaws.SettledIff` | ui/demo-server/public/javascripts/json-bigint.js:141-145 | Which numbers come back as big numbers: exactly those above 2^53 + 1 and below 2^1024 - 2^970 in magnitude |
| `JsonLaws.NextIntegerIsLost` | ui/demo-server/public/javascripts/json-bigint.js:144-145 | The big number 2^53 + 1, printed and parsed, comes back as the plain number 2^53 |
| `JsonLaws.ReaderCanonical` | ui/demo-server/public/javascripts/json-bigint.js:292-310 | Everything read without meeting the key `__proto__` is made of code units, distinct keys, finite plain numbers and big numbers beyond the plain ones |
| `JsonLaws.Reparse` | ui/demo-server/public/javascripts/json-bigint.js:315-351 | A text that is read without meeting the key `__proto__`, printed and read again gives the same value, if its plain numbers are integers |
| `JsonLaws.ParseWhole` | ui/demo-server/public/javascripts/json-bigint.js:320-325 | A text is accepted iff a value is read and nothing but white space follows, and then all of it is consumed |
| `Ledger.RunKeepsLedger` | state/state.go:177-197 | In every reachable state the pending transactions and receipts match hash by hash, the logs are those of the receipts, and each cumulative gas is the prefix sum of gas used |
| `Gas.ReceiptsReport` | state/state.go:173-196 | In every run the transactions and receipts are those of the applied events, in order: gas used, failure, root, logs, bloom and contract are what the virtual machine reported, and the gas used is the sum of its reports |
| `Gas.Requested` | state/state.go:144-193 | What the libraries are asked for a transaction, and in which order: prepared by hash, block and index, applied with its own gas limit and price and the pool found, the root read before the state is settled and the logs after; for a rejected one its marks stay and nothing is recorded |
| `Gas.BlockTaken` | state/state.go:116-131 | A block becomes one event for each transaction, in order, with its position in the block and the hash of the block, behind what was pending, and all in one commit if the block is gone through |
| `Gas.GasConserved` | state/state.go:97-131 | If an applied message takes from the pool the gas it reports: over every run of blocks, allocations and calls no commit uses more than the supply of gas, and what is pending and the pool come to no more than it; without calls to exactly the supply, as long as nothing was rejected |
| `Ledger.CommittedFolds` | state/state.go:204-219 | The committed accounts are what a commit stores of the fold of all genesis allocations and transactions so far, block boundaries or not, if storing accounts in between (which drops empty ones) makes no difference to what is stored later |
| `Ledger.CommittedFoldsIff` | state/state.go:204-219 | That condition on the account trie is also necessary: it holds iff from every start and over every history the commits in between cannot be told from what is stored in the end |
| `Ledger.CallsDoNotMatter` | state/state.go:104-107 | Events that differ only in gas pools, all of them large enough, come to the same |
| `Ledger.SameBlock` | state/state.go:116-131 | The same block, taken up with different pools that both last, becomes events that differ only in the pools |
| `Ledger.CallsLeftOut` | state/state.go:104-107 | Over a whole run of blocks, failing ones included, allocations and calls, and the same run without its calls: the same commits and pending events but for the pools they found, as long as no transaction found a pool short |
| `StateMachine.WriteAheadState.Execute` | state/state.go:167-197 | A transaction is run and recorded, or rejected with whatever marks it leaves |
| `StateMachine.WriteAheadState.Commit` | state/was.go:32-52 | The four writes of a commit, in order |
| `StateMachine.WriteAheadState.WriteHead` | state/was.go:54-60 | The head is the last transaction, or the empty one |
| `StateMachine.WriteAheadState.WriteTransactions` | state/was.go:62-77 | The batch holds every transaction under its hash |
| `StateMachine.WriteAheadState.WriteReceipts` | state/was.go:79-94 | The batch holds every receipt under its hash |
| `StateMachine.State.CommitAll` | state/state.go:204-219 | Everything pending becomes one commit; the write-ahead state starts again from it |
| `StateMachine.State.ApplyTransaction` | state/state.go:136-202 | Undecodable bytes change nothing; otherwise one event is added, with the pool found, and it succeeds iff the event is applied |
| `StateMachine.State.ProcessBlock` | state/state.go:116-131 | Event by event, the transactions of the block with their index, block hash and what the one before left of the pool. If all are applied they are committed with whatever was pending, and the root of the accounts is returned; otherwise it stops at the first that is undecodable, adding nothing, or rejected, keeping its marks, and all before it stay pending. So it is the step `Ledger.Operate` of the whole run |
| `StateMachine.State.CreateAccounts` | state/state.go:266-283 | The allocations are committed together with whatever was pending |
| `StateMachine.State.Call` | state/state.go:87-114 | A call changes nothing but the gas pool |
| `StateMachine.State.Reset` | state/state.go:221-232 | The write-ahead state starts from the committed accounts, empty, with a full gas pool |
| `StateMachine.InitState` | state/state.go:236-264 | What is loaded from the database at start |
| `StateMachine.NewState` | state/state.go:47-75 | A node that starts satisfies the invariant that ties objects, runs and database writes together |
| `StateMachine.PendingLedger` | state/state.go:177-197 | The ledger invariant for the objects themselves; the write-ahead accounts are the committed ones with exactly the pending events applied in order, and the pending receipts and gas are what the virtual machine reported of them |
| `StateMachine.GasAccounted` | state/state.go:173-178 | For the objects: the gas used and the gas left in the pool come to no more than the supply, and to exactly the supply if nothing was rejected and no call was made |
| `StateMachine.CallsInvisible` | state/state.go:104-107 | Two nodes started alike, one of which went through a list of blocks, allocations and calls and the other through the same list without the calls, hold the same accounts, pending lists and database, unless a transaction found the pool short |
| `StateMachine.CommittedFound` | state/state.go:293-322 | After a commit every transaction of it, and of all commits before, is looked up under its hash with its own receipt |
| `Recovery.CrashRecovery` | state/state.go:236-264 | What `InitState` finds after a crash between any two database writes of any run of commits, in terms of the last head written |
| `Recovery.NodeOrigin` | state/was.go:32-52 | Every state in the database was there before the session or is that of a commit whose state write completed |
| `Recovery.CrashSafety` | state/state.go:236-264 | Stopping between any two database writes of any run of commits, recovery reports an error or loads the state the session started from, one stored before, or one of a commit that at least completed its state write, never any other |
| `Recovery.CrashExactly` | state/state.go:236-264 | And exactly which: before the first new head the state the session started from; behind a head without its receipt the error of a missing receipt; and the state of a commit that completed and contained a transaction iff it agrees with its last receipt |
| `Recovery.AgreesIff` | state/state.go:179-182 | A commit agrees with its last receipt iff whatever came after the last applied transaction left the root alone |
| `Recovery.RunCrash` | state/state.go:236-264 | The same over whole runs of blocks and allocations, whatever failed in between: the state committed last, a fold of events, is found iff that commit agrees with its last receipt |
| `Recovery.RunSafety` | state/state.go:236-264 | And over such runs nothing but a committed state, the first one, or one stored before is ever loaded |
| `Recovery.EndsAgree` | state/state.go:177-202 | A commit that ends with an applied transaction, such as every block that is not empty, agrees with its last receipt |
| `Recovery.LivesSafety` | state/state.go:236-264 | Through any number of crashes and restarts, nothing is loaded but the empty state and states of commits that at least completed their state write |
| `Recovery.StoreKept` | state/was.go:32-52 | Whatever a crash leaves behind is again a database that a session may start from |
| `Recovery.TxKept` | state/was.go:62-77 | Once written a transaction stays under its hash |
| `Recovery.ReceiptKept` | state/was.go:79-94 | Once written a receipt stays what it is |
| `Recovery.PendingThenAllocation` | state/state.go:236-264 | A commit that disagrees with its last receipt, and that no restart finds |
| `StateMachine.FailedBlockThenAccounts` | state/state.go:116-131 | How a node comes to it: a block whose second transaction is undecodable fails, genesis accounts are created, and start-up reports a missing state |

## Left out

- `sqrt`, `round`'s defaults and argument checks around `setMode`, `toFixed`, `toPrecision`, `toExponential` and the parts of `format` that only they use.
- Conversion between bases of numbers with a fraction. `divide` and `rnd` are modelled in base 10, so their `base` and `isOdd` are not.
- Bases.FromTextBase: a text with digits behind a point, which the source converts, counts as no number of its base.
- JsonReader.Reader.ReadObject: at the key `__proto__` the source changes the prototype of the object, and what it does from there on is not modelled; the model stops with an outcome of its own, and no theorem speaks of values with that key.
- JsonReader.Reader.ReadValue: likewise.
- JsonReader.ParseText: likewise.
- `config`, the error messages and the counter behind them; the settings are fields of `Library`.
- Constructor arguments that are numbers, with their limit of 15 digits, or BigNumbers with a base.
- DigitLoops.Add: the digit loops work on sequences in local variables and fields, so aliasing between the arrays of two numbers is not modelled; every operation copies its argument first.
- Engine.Library.Rnd: the holes that setting the length of a longer array makes are zeros in the model; both are taken off again before the array is seen.
- Engine.Library.Power: exponents beyond MAX_POWER and exponents that are no integers, which the source rejects or hands to the host.
- NumberText.FromText: the exponent of a literal is an integer in the model, where the host computes it as a double; beyond 2^53 both are out of range.
- Limits on the length of arrays and on memory.
- Numbers of the host that are no integers up to 2^53: they are read correctly rounded (`JsonNumbers.NumberMeaning`), but how they are printed is a parameter, and the round trip does not cover them.
- The reviver, the replacer, `toJSON`, and values that are undefined or functions. An object lists its members in the order in which they were read, where a JavaScript engine puts keys that are indices first.
- The virtual machine, RLP, signatures, blooms, the account trie and the copying of states: functions of an `Env`.
- Database writes that fail without a crash, decoding of stored entries, locks, logging, `GetBalance` and `GetNonce`.
- StateMachine.State.CreateAccounts: the order in which Go iterates over the map of accounts is a parameter; the theorems hold for each order.
- HTTP services, the proxy, commands and scripts.
