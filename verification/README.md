# A verified model of the eapml limb arithmetic and of the FastCGI stream layer

The project models two components of the repository and proves what they are for.

**Limb arithmetic of the eapml big-integer library.** A number is an array of 32-bit limbs, least
significant first. `Limbs.Val` is the number that limbs hold, and `Limbs.Shift(x, n)` is x times B^n
with B = 2^32. The routines keep their in-place form: arrays with offsets, wrapping words, carry
loops, mutual recursion. Each is proved against the mathematical operation, with a frame that says
what it leaves alone:

- `Limbs`, `Bits`, `Integers`: limb vectors, shifts and bit operations of words;
- `SpecialArithmetic`, `SpecialLogic`: addition, subtraction, one-limb products, shifts, comparison;
- `Multiplication`, `Karatsuba`, `BlockMultiplication`, `Squaring`, `Product`: products;
- `WordDivision`, `SingleLimbDivision`, `TwoLimbDivision`, `SchoolbookDivision`,
  `RecursiveDivision`, `TruncatingDivision`: quotients and remainders;
- `Congruences`, `ModularPower`: sliding-window and binary exponentiation;
- `Radix`, `Digits`, `Printing`, `Parsing`: tables, digit strings, and the round trip between them;
- `IntegerX`, `SignedArithmetic`, `TwosComplement`: signed numbers and their two's-complement view.

**The FastCGI stream layer of fcgiapp.c.** A connection holds the bytes still to be read and the bytes
sent. `OsRead` gives any non-empty prefix that fits, `OsWrite` takes any non-empty prefix.

- `FcgiWire`: records and name-value pairs, and `Fill`, the function that says what unread bytes mean
  to a reader in a given control state, and what is sent in answer to them;
- `FcgiConnection`, `FcgiReader`: the reader objects; every call is proved to do what `Fill` says;
- `FcgiStreams`, `FcgiPairs`, `FcgiAccept`: what `Fill` makes of sequences of records, of encoded
  pairs, and of a whole request;
- `FcgiFraming`, `FcgiWriter`: what writers send, as functions on values, and the writer objects
  proved against them;
- `FcgiService`, `FcgiEndRequest`, `FcgiRequest`: whole runs: framing, round trip, interleaved writers,
  END_REQUEST, and one request from its first byte to its last on the objects.

What the code does differently from what one would expect, stated as lemmas or contracts:

- An empty record of another request leaves `skip` set, so that the next record with content is passed
  over, and the content of an unknown management record reaches the client. Among legal records, the client gets the
  contents of exactly those of the stream if and only if none of them is passed over and no such
  content comes through (`FcgiStreams.StreamFromItsRecords`). Unless both happen at once, the same
  holds for the bytes (`FcgiStreams.StreamDelivered`). When both happen, they can cancel out
  (`FcgiStreams.FaultsCancel`); `FcgiStreams.Demultiplexed` gives the exact bytes in every case.
- A BEGIN_REQUEST record that arrives while a request is open is refused by an END_REQUEST record even
  when it repeats the id of that request. The request gets exactly one END_REQUEST if and only if none
  does so among its parameters (`FcgiRequest.AnswerRequest`).
- Padding behind a BEGIN_REQUEST record is taken for a header, and since `ReadParams` reports success
  for an error between two pairs, the request is accepted without its parameters
  (`FcgiAccept.PaddedBeginLosesParameters`). Unless the padding begins with byte 1, the request is
  admitted with its parameters if and only if there is none (`FcgiAccept.AdmittedIffUnpadded`).
  Padding that begins with byte 1, the version, is read as real headers and can be harmless
  (`FcgiAccept.HarmlessPadding`). Whole records in it that deliver and skip nothing do no harm, and
  the request is admitted if and only if no header behind them stops the reader
  (`FcgiAccept.AdmittedIffNotStopped`). The padding of the empty PARAMS record is forgotten in the same
  way (`FcgiAccept.StdinIffUnpadded`, `FcgiAccept.StdinIffNotStopped`).
- Records in front of the BEGIN_REQUEST record are answered and passed over like those behind it, with
  the same two faults: the request behind them is admitted if and only if no content of an unknown
  management record comes through and no empty record of another request has left `skip` set
  (`FcgiAccept.RequestAdmitted`). A record that still has the id of the previous request ends the
  connection (`FcgiAccept.PreviousRequestRefused`).
- The role entry stands in front, so a parameter called FCGI_ROLE is never found by FCGX_GetParam
  (`FcgiAccept.RoleFirst`).
- Accepting a request does not reset the exit status, so a request that sets none in time reports the
  one of the previous request (`FcgiEndRequest.StatusIsOwn`, `FcgiRequest.HandleRequest`).
- `rshift` writes from index 0 of its target whatever the offset (`SpecialLogic.RShift`,
  `SpecialLogic.RShiftMissesOffset`). `tdiv_qr_large_numerator` passes on the offset of its remainder
  and so leaves a shifted remainder at index 0. `gcd` passes the number of low zero limbs
  when the limb above them is even (integer_x_gcd.e:82-88 and 101-107), and so meets it for operands
  of two limbs or more with a zero limb at the bottom and an even limb as the lowest that is not zero.
- `set_str` in a power-of-two base leaves leading zero limbs when the digits begin with so many zeros
  that the number does not reach the topmost limb they fill (`Parsing.SetStrPow2`, both ways;
  `Parsing.ZerosLeaveZeroLimb`). Only callers of the limb routine can meet this: the `set_str` of
  signed numbers strips leading zeros first (integer_x_assignment.e:112-118).
- The tables for base 107 repeat the entries of base 106, a power of the wrong base
  (`Radix.WrongEntryFor107`); no other base up to 256 is affected (`Radix.TablesGood`). The callers admit
  bases up to 62 only.

## Model

| member | source | states |
|---|---|---|
| Limbs.HiLo | library/crypto/eapml/limb_natural_32/limb_manipulation.e:428-446 | the two words of umul_ppmm make up the whole product |
| Limbs.ValInjective | library/crypto/eapml/facilities/special_arithmetic.e:101-139 | equally long limb vectors with the same number are equal limb by limb: the number determines what add_n and its relatives may leave |
| SpecialLogic.LShift | library/crypto/eapml/facilities/special_logic.e:112-149 | n limbs times 2^count, the bits shifted out in the carry, also in place; nothing outside the n limbs changes |
| SpecialLogic.RShift | library/crypto/eapml/facilities/special_logic.e:151-179 | n limbs divided by 2^count, the bits shifted out in the carry; written from index 0 of the target whatever its offset |
| SpecialLogic.RShiftMissesOffset | library/crypto/eapml/facilities/special_logic.e:151-179 | for every size, shift count and offset: the result stands at the offset asked for, whatever the operand and the target hold, if and only if the offset is 0 |
| SpecialLogic.RShiftExact | library/crypto/eapml/facilities/special_logic.e:151-179 | shifting right a multiple of 2^count divides it exactly and shifts nothing out |
| SpecialArithmetic.AddN | library/crypto/eapml/facilities/special_arithmetic.e:101-139 | sum of two n-limb numbers with carry, for disjoint and for upward-overlapping operands |
| SpecialArithmetic.SubN | library/crypto/eapml/facilities/special_arithmetic.e:961-988 | difference of two n-limb numbers with borrow |
| SpecialArithmetic.Mul1 | library/crypto/eapml/facilities/special_arithmetic.e:375-403 | n limbs times one limb, the top word as carry |
| SpecialArithmetic.AddMul1 | library/crypto/eapml/facilities/special_arithmetic.e:141-172 | n limbs times one limb added into the target |
| SpecialArithmetic.SubMul1 | library/crypto/eapml/facilities/special_arithmetic.e:990-1020 | n limbs times one limb subtracted from the target |
| SpecialArithmetic.Add1 | library/crypto/eapml/facilities/special_arithmetic.e:70-99 | one limb added, with the carry rippling in place |
| SpecialArithmetic.Sub1 | library/crypto/eapml/facilities/special_arithmetic.e:920-959 | one limb subtracted, with the borrow rippling in place |
| SpecialArithmetic.Add | library/crypto/eapml/facilities/special_arithmetic.e:18-68 | sum of numbers of different sizes; the carry loop and the copy of the rest |
| SpecialArithmetic.Sub | library/crypto/eapml/facilities/special_arithmetic.e:878-918 | difference of numbers of different sizes |
| SpecialArithmetic.IncrU | library/crypto/eapml/facilities/special_arithmetic.e:197-217 | a carry added in place never runs past n limbs that have room for it |
| SpecialArithmetic.Cmp | library/crypto/eapml/facilities/special_comparison.e:13-37 | the top-down loop decides the order of the two numbers, both ways |
| SpecialArithmetic.Normalize | library/crypto/eapml/facilities/special_utility.e:13-22 | leading zero limbs dropped, the number kept, the top limb left non-zero |
| Multiplication.MulBasecase | library/crypto/eapml/facilities/special_arithmetic.e:405-429 | product of n1 by n2 limbs, written over n1 + n2 limbs only |
| Karatsuba.KaraMulN | library/crypto/eapml/facilities/special_arithmetic.e:449-664 | product of two n-limb numbers for every n >= 2, odd or even, all signs of the half differences, inside 2n limbs and the given workspace |
| Karatsuba.KaratsubaIdentity | library/crypto/eapml/facilities/special_arithmetic.e:449-664 | the middle term recovered from the product of the differences, for both sign combinations, gives the product of the halves |
| Karatsuba.WorkspaceFits | library/crypto/eapml/facilities/special_arithmetic.e:431-447 | 2n + 64 limbs are enough workspace for the whole recursion when n < 2^31 |
| Karatsuba.MulN | library/crypto/eapml/facilities/special_arithmetic.e:431-447 | product of two n-limb numbers below and above the threshold, with the workspace it allocates |
| Karatsuba.AddAt | library/crypto/eapml/facilities/special_arithmetic.e:560-664 | a carry out of an addition inside 2n limbs is propagated and never leaves them |
| BlockMultiplication.MulBlocks | library/crypto/eapml/facilities/special_arithmetic.e:264-293 | blocks of 500 limbs: the saved high triangle is added back and the result is the product; the carry is the top limb |
| BlockMultiplication.AddTriangle | library/crypto/eapml/facilities/special_arithmetic.e:275-279 | adding the saved triangle to a block gives block plus triangle; the carry stays inside the block |
| Squaring.SquarePeeled | library/crypto/eapml/facilities/special_arithmetic.e:795-861 | a square is its diagonal plus twice its off-diagonal triangle |
| Squaring.SquareOf | library/crypto/eapml/facilities/special_arithmetic.e:795-839 | twice the triangle plus the diagonal of all limbs is the square |
| Squaring.SqrDiagonal | library/crypto/eapml/facilities/special_arithmetic.e:841-861 | the squares of the limbs, two limbs each |
| Squaring.TriangleRows | library/crypto/eapml/facilities/special_arithmetic.e:811-822 | the rows of the off-diagonal triangle |
| Squaring.SqrBasecase | library/crypto/eapml/facilities/special_arithmetic.e:795-839 | the square over 2n limbs for 1 <= n <= 65; the last carry has room |
| Product.Mul | library/crypto/eapml/facilities/special_arithmetic.e:219-293 | product of equal sizes, and of any size by fewer than 32 limbs; the carry is the top limb |
| WordDivision.InverseBound | library/crypto/eapml/limb_natural_32/limb_manipulation.e:138-147 | the reciprocal of a normalized limb fits into a limb and is the largest that does not overshoot |
| WordDivision.ReciprocalEstimate | library/crypto/eapml/facilities/special_division.e:459-483 | the quotient estimate of the branch-free division is right or one too small |
| WordDivision.UdivQrnndPreinv | library/crypto/eapml/facilities/special_division.e:459-483 | exact quotient and remainder of two words by a normalized one, although every word wraps |
| WordDivision.UdivQrnnd | library/crypto/eapml/limb_natural_32/limb_manipulation.e:89-136 | exact quotient and remainder by half words, for a normalized divisor |
| WordDivision.LimbInverse | library/crypto/eapml/limb_natural_32/limb_manipulation.e:138-147 | floor((B^2 - 1) / d) - B |
| WordDivision.AddSsaaaa | library/crypto/eapml/facilities/special_division.e:491-498 | sum of double words modulo B^2 |
| WordDivision.SubDdmmss | library/crypto/eapml/facilities/special_division.e:355-362 | difference of double words modulo B^2 |
| SingleLimbDivision.PreinvDivrem1 | library/crypto/eapml/facilities/special_division.e:583-671 | quotient with xsize fraction limbs and remainder by an unnormalized limb, in place when the quotient ends where the numerator does |
| SingleLimbDivision.ShiftedStep | library/crypto/eapml/facilities/special_division.e:644-654 | one quotient limb of the shifted numerator keeps what has been divided so far exact |
| SingleLimbDivision.Unshifted | library/crypto/eapml/facilities/special_division.e:670 | the normalizing shift leaves the quotient and multiplies the remainder |
| SchoolbookDivision.SbDivremMN | library/crypto/eapml/facilities/special_division.e:673-771 | N = (qh B^(nn-dn) + Q) D + R and R < D with R in the low limbs of the numerator, for every nn >= dn > 2 |
| SchoolbookDivision.DivideStep | library/crypto/eapml/facilities/special_division.e:725-767 | one digit: dn + 1 limbs are replaced by their remainder, the digit is exact |
| SchoolbookDivision.StepEqual | library/crypto/eapml/facilities/special_division.e:727-736 | when the top limbs are equal, B - 1 is the exact digit after at most one add-back |
| SchoolbookDivision.StepLess | library/crypto/eapml/facilities/special_division.e:737-767 | the estimate from three limbs, at most one correction before and one add-back after the subtraction |
| SchoolbookDivision.FirstDigit | library/crypto/eapml/facilities/special_division.e:711-718 | the top quotient limb is the comparison, and the subtraction leaves less than the divisor |
| TwoLimbDivision.Divrem2 | library/crypto/eapml/facilities/special_division.e:270-353 | quotient and remainder by two limbs |
| TwoLimbDivision.TwoLimbDigit | library/crypto/eapml/facilities/special_division.e:309-347 | one digit by two limbs is exact |
| TwoLimbDivision.Retry | library/crypto/eapml/facilities/special_division.e:327-346 | the retry loop brings the estimate down to the exact digit |
| TruncatingDivision.TdivQrTwoCase | library/crypto/eapml/facilities/special_division.e:1062-1101 | N = Q D + R, R < D for any numerator of at least two limbs and any two-limb divisor; nothing outside quotient and remainder changes |
| TruncatingDivision.TdivQrLargeNumerator | library/crypto/eapml/facilities/special_division.e:791-839 | N = Q D + R, R < D for divisors of 3 to 95 limbs; the remainder is at index 0 when the divisor had to be shifted; nothing outside quotient and remainder changes |
| TruncatingDivision.Denormalized | library/crypto/eapml/facilities/special_division.e:791-839 | scaling numerator and divisor scales the remainder and leaves the quotient |
| TruncatingDivision.DroppedLimbIsZero | library/crypto/eapml/facilities/special_division.e:791-839 | the high quotient limb that is discarded is zero |
| RecursiveDivision.DcDivremN | library/crypto/eapml/facilities/special_division.e:110-116 | 2n limbs by n limbs, recursively, with n limbs of scratch |
| RecursiveDivision.DcDiv2By1 | library/crypto/eapml/facilities/special_division.e:118-162 | 2n by n limbs, odd and even n; all of its recursion ends |
| RecursiveDivision.DcDiv3By2 | library/crypto/eapml/facilities/special_division.e:164-195 | 3n by 2n limbs: N = (qhl B^n + Q) D + R, R < D |
| RecursiveDivision.CorrectQuotient | library/crypto/eapml/facilities/special_division.e:185-193 | the correction loop ends with the exact quotient and a remainder below the divisor |
| Congruences.ReduceMeaning | library/crypto/eapml/facilities/integer_x_number_theory.e:507-511 | Montgomery and plain reduction keep the residue class and the range |
| Congruences.StandsProduct | library/crypto/eapml/facilities/integer_x_number_theory.e:557-562 | the reduced product of two residues stands for the sum of their exponents |
| ModularPower.CrossingWindow | library/crypto/eapml/facilities/integer_x_number_theory.e:572-577 | a window across two limbs, put together by shifts and bit_or, is the window of the exponent |
| ModularPower.FetchWindow | library/crypto/eapml/facilities/integer_x_number_theory.e:569-584 | the next window of the exponent: position and value |
| ModularPower.NextBit | library/crypto/eapml/facilities/integer_x_number_theory.e:595-602 | the next exponent bit, across limbs |
| ModularPower.FetchFirst | library/crypto/eapml/facilities/integer_x_number_theory.e:529-543 | the topmost window is the topmost bits, not zero, and inside the table |
| ModularPower.OddPowers | library/crypto/eapml/facilities/integer_x_number_theory.e:485-527 | the table of odd powers |
| ModularPower.WindowWidth | library/crypto/eapml/facilities/integer_x_number_theory.e:474-482 | a width of 1 to 10 with its power of two |
| ModularPower.ApplyWindow | library/crypto/eapml/facilities/integer_x_number_theory.e:604-648 | a window worked in by squarings and one table entry; the table index is in range |
| ModularPower.SlideBits | library/crypto/eapml/facilities/integer_x_number_theory.e:585-603 | leading zero bits of a window are squared away |
| ModularPower.SlideWindows | library/crypto/eapml/facilities/integer_x_number_theory.e:474-649 | first window and main loop leave base^e; the scan position decreases |
| ModularPower.PowM | library/crypto/eapml/facilities/integer_x_number_theory.e:390-681 | base^e mod m for every base of any sign, every non-negative exponent and every positive modulus, with and without Montgomery reduction |
| ModularPower.ShiftedRemainder | library/crypto/eapml/facilities/integer_x_number_theory.e:659-666 | the modulus shifted for normalization, and the remainder shifted back |
| ModularPower.AdjustSign | library/crypto/eapml/facilities/integer_x_number_theory.e:670-676 | an odd power of a negative base is the modulus minus the residue |
| ModularPower.PowMUi | library/crypto/eapml/facilities/integer_x_number_theory.e:683-809 | base^e mod m for a one-limb exponent |
| ModularPower.BinaryScan | library/crypto/eapml/facilities/integer_x_number_theory.e:742-780 | the scan below the topmost bit computes the power |
| ModularPower.ScanBit | library/crypto/eapml/facilities/integer_x_number_theory.e:742-779 | the shifted exponent shows the next bit at its top |
| Radix.TablesGood | library/crypto/eapml/facilities/mp_bases.e:569-1603 | for every base from 3 to 256 that is no power of two: big_base is base^chars_per_limb and big_base_inverted its reciprocal after normalization if and only if the base is not 107 |
| Radix.WrongEntryFor107 | library/crypto/eapml/facilities/mp_bases.e:780-783 | both tables repeat the entry of base 106 for base 107: its big_base is 106^4, not 107^4 |
| Radix.DigitBits | library/crypto/eapml/facilities/mp_bases.e:569-1084 | the big_base entry of every power of two up to 256 is the number of bits of its digits |
| Digits.DigitsUnique | library/crypto/eapml/facilities/special_access.e:172-261 | digit strings without leading zero that denote the same number are equal |
| Digits.BufferLargeEnough | library/crypto/eapml/facilities/special_access.e:203-212 | 610 digits are more than 29 limbs can need in any base from 3 on |
| Printing.DigitExtracted | library/crypto/eapml/facilities/special_access.e:222-230 | each multiplication of the fraction yields exactly the next digit of the remainder |
| Printing.FractionDigits | library/crypto/eapml/facilities/special_access.e:219-231 | chars_per_limb multiplications of frac + 1 yield exactly the digits of the remainder |
| Printing.FractionOfRemainder | library/crypto/eapml/facilities/special_access.e:217-219 | the fraction limb plus one does not wrap and lies just above the remainder |
| Printing.NextGroup | library/crypto/eapml/facilities/special_access.e:216-232 | a division by the big base moves one group of digits into the buffer, whose index stays in range |
| Printing.SbGetStr | library/crypto/eapml/facilities/special_access.e:172-261 | the digits denote the number, with no leading zero beyond the padding asked for |
| Printing.StraddlingDigit | library/crypto/eapml/facilities/special_access.e:121-129 | a digit across two limbs is the corresponding bits of the number |
| Printing.GetStrPow2 | library/crypto/eapml/facilities/special_access.e:97-131 | the digits in a power-of-two base denote the number, the first one not zero, for any number of limbs |
| Printing.GetStr | library/crypto/eapml/facilities/special_access.e:91-137 | all bases from 2 to 62: the digits denote the number; zero is one zero digit |
| Parsing.MultiplyAdd | library/crypto/eapml/facilities/special_assignment.e:97-112 | n m + d in place, normalized, growing by at most one limb |
| Parsing.ReadGroup | library/crypto/eapml/facilities/special_assignment.e:74-95 | a group of digits as one limb, with the power of the base |
| Parsing.SetStrDigits | library/crypto/eapml/facilities/special_assignment.e:67-156 | the limbs hold exactly the number that the digits denote, normalized |
| Parsing.PackDigit | library/crypto/eapml/facilities/special_assignment.e:50-61 | a digit of 1 to 5 bits joins the partial limb, across limbs |
| Parsing.SetStrPow2 | library/crypto/eapml/facilities/special_assignment.e:42-66 | the limbs hold the number; they are normalized if and only if it reaches into the topmost limb that the digits fill, and always when the first digit is not zero |
| Parsing.ZerosLeaveZeroLimb | library/crypto/eapml/facilities/special_assignment.e:42-66 | zeros in front of the digits that make up two limbs or more leave the number as it is, and always leave a leading zero limb |
| Parsing.SetStr | library/crypto/eapml/facilities/special_assignment.e:18-156 | both branches |
| Parsing.PrintAndParse | library/crypto/eapml/facilities/special_assignment.e:18-156 | printing a normalized number and parsing the digits gives the same limbs and the same count |
| Parsing.ParseAndPrint | library/crypto/eapml/facilities/special_access.e:72-137 | parsing digits without leading zero and printing the number gives the same digits |
| Parsing.NormalizedUnique | library/crypto/eapml/facilities/special_assignment.e:18-156 | normalized limb vectors that hold the same number are equal |
| IntegerX.Integer.Resize | library/crypto/eapml/readable_integer_x.e:1719-1729 | more room with the old limbs kept |
| SignedArithmetic.Combine | library/crypto/eapml/facilities/integer_x_arithmetic.e:66-104 | signed sum of magnitudes by comparison, subtraction or addition, normalized, for every aliasing of the target |
| SignedArithmetic.AddIntegers | library/crypto/eapml/facilities/integer_x_arithmetic.e:27-106 | value(op1) + value(op2), normalized, whichever of the three are the same object |
| SignedArithmetic.SubIntegers | library/crypto/eapml/facilities/integer_x_arithmetic.e:456-543 | value(op1) - value(op2), normalized, whichever of the three are the same object |
| SignedArithmetic.CountSign | library/crypto/eapml/facilities/integer_x_arithmetic.e:27-106 | the sign of the count is the sign of the value |
| TwosComplement.BitTest | library/crypto/eapml/facilities/integer_x_logic.e:831-864 | the result is floor(x / 2^i) mod 2 for every x of either sign and every i |
| Bits.LimbsAbove | library/crypto/eapml/facilities/integer_x_logic.e:831-864 | the limbs of a negative number in two's complement, with the borrow from below |
| TwosComplement.ComplementFlips | library/crypto/eapml/facilities/integer_x_logic.e:257-293 | -x - 1 has every bit of x flipped |
| TwosComplement.BitOneComplement | library/crypto/eapml/facilities/integer_x_logic.e:257-293 | the result is -x - 1, normalized, with every bit flipped, also in place |
| TwosComplement.XorLimbsValue | library/crypto/eapml/facilities/special_logic.e:310-331 | limb-wise xor is the xor of the numbers |
| TwosComplement.XorUp | library/crypto/eapml/facilities/special_logic.e:310-331 | upwards, then the rest of the longer operand, also in place |
| TwosComplement.XorDown | library/crypto/eapml/facilities/integer_x_logic.e:930-950 | the rest of the longer operand first, then downwards |
| TwosComplement.BitXorBits | library/crypto/eapml/facilities/integer_x_logic.e:866-1011 | xor of the magnitudes behind the signs is xor of all two's-complement bits |
| TwosComplement.BitXorIntegers | library/crypto/eapml/facilities/integer_x_logic.e:866-1011 | bit i of the result is the xor of the bits i of the operands, for all signs and any aliasing of the result |
| FcgiWire.HeaderFields | library/server/libfcgi/Clib/libfcgi/libfcgi/fcgiapp.c:1229-1247 | the eight bytes of a header: version 1, the type, id and content length in two bytes each, most significant first, the padding length, and 0; the fields read back are those written |
| FcgiWire.EndRequestOnWire | library/server/libfcgi/Clib/libfcgi/libfcgi/fcgiapp.c:1258-1270 | the sixteen bytes of an END_REQUEST record, for every status: type 3, the id, and the status modulo 2^32 in four bytes, most significant first, then the protocol status and three zeros |
| FcgiWire.RefusalOnWire | library/server/libfcgi/Clib/libfcgi/libfcgi/fcgiapp.c:1569-1577 | the refusal of a BEGIN_REQUEST is such a record of status 0 and protocol status 1 |
| FcgiWire.UnknownOnWire | library/server/libfcgi/Clib/libfcgi/libfcgi/fcgiapp.c:1281-1288 | the sixteen bytes of an FCGI_UNKNOWN_TYPE record: type 11, id 0, and the type that is not understood in the first byte of the content |
| FcgiWire.DeliverPart | library/server/libfcgi/Clib/libfcgi/libfcgi/fcgiapp.c:1681-1688 | delivering a part of a record's content does not change what is still to come |
| FcgiWire.SkipPart | library/server/libfcgi/Clib/libfcgi/libfcgi/fcgiapp.c:1689-1696 | skipping a part of a record's content does not change what is still to come |
| FcgiWire.PaddingPart | library/server/libfcgi/Clib/libfcgi/libfcgi/fcgiapp.c:1702-1711 | nor does passing over a part of its padding |
| FcgiWire.HeaderPart | library/server/libfcgi/Clib/libfcgi/libfcgi/fcgiapp.c:1724-1733 | nor does taking a header in pieces |
| FcgiConnection.Connection.WriteItAll | library/server/libfcgi/Clib/libfcgi/libfcgi/fcgiapp.c:1388-1400 | all bytes are sent, in order, however the system cuts the writes |
| FcgiConnection.Params.constructor | library/server/libfcgi/Clib/libfcgi/libfcgi/fcgiapp.c:1051-1060 | an empty vector with its NULL terminator |
| FcgiConnection.Params.PutParam | library/server/libfcgi/Clib/libfcgi/libfcgi/fcgiapp.c:1104-1116 | the string is appended and the NULL stays in bounds while the vector doubles |
| FcgiConnection.GetParam | library/server/libfcgi/Clib/libfcgi/libfcgi/fcgiapp.c:1131-1146 | the value of the first string of the vector that begins with the name and =, nothing exactly when there is none |
| FcgiConnection.LookupPairs | library/server/libfcgi/Clib/libfcgi/libfcgi/fcgiapp.c:1131-1146 | in the strings of any pairs without = in their names, looking up a name gives the value of the first pair of that name, and nothing exactly when there is none |
| FcgiConnection.ContentsAreStrings | library/server/libfcgi/Clib/libfcgi/libfcgi/fcgiapp.c:1131-1136 | the strings up to the NULL of the vector are those that were put |
| FcgiReader.Reader.constructor | library/server/libfcgi/Clib/libfcgi/libfcgi/fcgiapp.c:1792-1850 | a fresh reader has the whole connection before it |
| FcgiReader.Reader.SetError | library/server/libfcgi/Clib/libfcgi/libfcgi/fcgiapp.c:970-980 | only the first error is kept |
| FcgiReader.Reader.FillBuff | library/server/libfcgi/Clib/libfcgi/libfcgi/fcgiapp.c:1655-1780 | supplies content or comes to the ending, as the unread bytes decide and independent of how they arrive |
| FcgiReader.Reader.PassRecord | library/server/libfcgi/Clib/libfcgi/libfcgi/fcgiapp.c:1681-1720 | content, skipped content, padding and end of record leave the outcome as it was |
| FcgiReader.Reader.TakeRecord | library/server/libfcgi/Clib/libfcgi/libfcgi/fcgiapp.c:1739-1778 | a header processed under eorStop, and the action on its status |
| FcgiReader.Reader.ProcessHeader | library/server/libfcgi/Clib/libfcgi/libfcgi/fcgiapp.c:1619-1644 | each status is what the outcome of the header demands |
| FcgiReader.Reader.ProcessBeginRecord | library/server/libfcgi/Clib/libfcgi/libfcgi/fcgiapp.c:1558-1595 | accepts, refuses or answers FCGI_CANT_MPX_CONN, exactly when the record and the state say so; the answer is sixteen bytes with status 0 and protocol status 1 |
| FcgiReader.Reader.ProcessManagementRecord | library/server/libfcgi/Clib/libfcgi/libfcgi/fcgiapp.c:1482-1537 | a GET_VALUES record is consumed whole; other types leave their content unread and are answered by one FCGI_UNKNOWN_TYPE record, byte for byte |
| FcgiReader.Reader.GetChar | library/server/libfcgi/Clib/libfcgi/libfcgi/fcgiapp.c:118-136 | the next byte of the stream, or EOF exactly when there is none |
| FcgiReader.Reader.GetStr | library/server/libfcgi/Clib/libfcgi/libfcgi/fcgiapp.c:153-197 | the next n bytes, fewer only at the ending; under eorStop every byte is accounted for |
| FcgiReader.Reader.ReadLength | library/server/libfcgi/Clib/libfcgi/libfcgi/fcgiapp.c:1178-1200 | a one- or four-byte length |
| FcgiReader.Reader.ReadPair | library/server/libfcgi/Clib/libfcgi/libfcgi/fcgiapp.c:1172-1216 | one pair as name=value, or failure exactly when the stream ends inside it |
| FcgiReader.Reader.ReadParams | library/server/libfcgi/Clib/libfcgi/libfcgi/fcgiapp.c:1166-1218 | appends name=value for every complete pair; 0 exactly when the stream ends between pairs, else -1 with the first error |
| FcgiReader.Reader.SetReaderType | library/server/libfcgi/Clib/libfcgi/libfcgi/fcgiapp.c:1886-1898 | restarts at the current byte and forgets padding |
| FcgiReader.RecordEnding | library/server/libfcgi/Clib/libfcgi/libfcgi/fcgiapp.c:1716-1720 | a record read under eorStop ends with itself or fails |
| FcgiStreams.RecordStep | library/server/libfcgi/Clib/libfcgi/libfcgi/fcgiapp.c:1619-1645 | any legal record between two others adds exactly its share, whatever follows; before a request has begun, so do the records of other requests and the management records |
| FcgiStreams.Demultiplexed | library/server/libfcgi/Clib/libfcgi/libfcgi/fcgiapp.c:1655-1780 | legal records and then the empty record: the client gets exactly the stream content, foreign, BEGIN_REQUEST and GET_VALUES records add nothing to it, the bytes behind are untouched, and exactly one answer has been sent for every BEGIN_REQUEST and unknown management record |
| FcgiStreams.StreamDelivered | library/server/libfcgi/Clib/libfcgi/libfcgi/fcgiapp.c:1689-1696 | unless both faults occur at once, the client gets the bytes of the stream if and only if no record of it follows an empty foreign record with no content between, and no unknown management record has content that no pending skip passes over |
| FcgiStreams.StreamFromItsRecords | library/server/libfcgi/Clib/libfcgi/libfcgi/fcgiapp.c:1655-1780 | for any legal records: what is delivered are the contents of exactly the records of the stream if and only if none of them is swallowed and nothing leaks |
| FcgiStreams.FaultsCancel | library/server/libfcgi/Clib/libfcgi/libfcgi/fcgiapp.c:1689-1696 | a concrete run with both faults in which the bytes delivered equal the stream |
| FcgiStreams.SkipHidesLeak | library/server/libfcgi/Clib/libfcgi/libfcgi/fcgiapp.c:1689-1696 | a concrete run in which the pending skip passes over the content of an unknown management record |
| FcgiStreams.AnswersAreReplies | library/server/libfcgi/Clib/libfcgi/libfcgi/fcgiapp.c:1565-1581 | the bytes sent in answer are FCGI_CANT_MPX_CONN and FCGI_UNKNOWN_TYPE records, one for each record answered, in order |
| FcgiStreams.StreamDeliveredUnlessLeak | library/server/libfcgi/Clib/libfcgi/libfcgi/fcgiapp.c:1523-1537 | when every foreign record has content, the stream arrives if and only if no unknown management record has content |
| FcgiStreams.NonEmptyForeignHarmless | library/server/libfcgi/Clib/libfcgi/libfcgi/fcgiapp.c:1761-1763 | when every foreign record has content, nothing is swallowed, and every unknown management record with content leaks |
| FcgiStreams.EmptyForeignSwallows | library/server/libfcgi/Clib/libfcgi/libfcgi/fcgiapp.c:1689-1696 | a concrete run in which an empty foreign record swallows a record of the stream |
| FcgiStreams.UnknownManagementLeaks | library/server/libfcgi/Clib/libfcgi/libfcgi/fcgiapp.c:1523-1537 | a concrete run in which the content of an unknown management record reaches the client |
| FcgiStreams.WrongTypeRejected | library/server/libfcgi/Clib/libfcgi/libfcgi/fcgiapp.c:1640-1642 | a record of the request of another type ends the stream with the error -3 |
| FcgiStreams.ConnectionLost | library/server/libfcgi/Clib/libfcgi/libfcgi/fcgiapp.c:1666-1673 | a connection that ends between records: everything so far, then the error -3 |
| FcgiStreams.ConnectionCut | library/server/libfcgi/Clib/libfcgi/libfcgi/fcgiapp.c:1664-1673 | a connection that ends at any place inside any legal record: the content that has come for the client, then the error -3; the record has been answered if and only if its header is complete |
| FcgiStreams.BrokenValues | library/server/libfcgi/Clib/libfcgi/libfcgi/fcgiapp.c:1491-1496 | a GET_VALUES record with broken pairs ends the stream with the error -4, unless a pending skip passes over its content |
| FcgiStreams.MalformedBeginRejected | library/server/libfcgi/Clib/libfcgi/libfcgi/fcgiapp.c:1561-1564 | a BEGIN_REQUEST record without an id, or whose content is not of eight bytes, ends the stream with the error -3, before and after a request has begun |
| FcgiStreams.VersionRejected | library/server/libfcgi/Clib/libfcgi/libfcgi/fcgiapp.c:1623-1625 | eight bytes at the place of a header that do not begin with 1 end the stream with the error -2 |
| FcgiPairs.PairsRoundTrip | library/server/libfcgi/Clib/libfcgi/libfcgi/fcgiapp.c:1166-1218 | every encoding of every list of pairs, with one- or four-byte lengths, decodes to the list |
| FcgiPairs.PairsTruncated | library/server/libfcgi/Clib/libfcgi/libfcgi/fcgiapp.c:1179-1214 | bytes that end inside a pair: the pairs before it and failure |
| FcgiPairs.PairOnWire | library/server/libfcgi/Clib/libfcgi/libfcgi/fcgiapp.c:1178-1216 | the bytes of a pair: the two lengths, in one byte or in four, most significant first with the top bit set, the name, the value |
| FcgiAccept.AcceptRequest | library/server/libfcgi/Clib/libfcgi/libfcgi/fcgiapp.c:2239-2297 | accepted exactly when role and parameters can be read; role, id, environment, the bytes sent in answer meanwhile, the stdin stream that follows, and two fresh open writers; FCGI_ROLE in the environment is RESPONDER, AUTHORIZER or FILTER exactly when the role is 1, 2 or 3; the exit status of the previous request stays |
| FcgiAccept.RequestAdmitted | library/server/libfcgi/Clib/libfcgi/libfcgi/fcgiapp.c:2239-2297 | records of other requests and management records, then an unpadded BEGIN_REQUEST and parameters in any encoding and any cut into records: the request is admitted, with the role entry, all name=value strings and an answer to every further BEGIN_REQUEST and unknown management record, if and only if nothing of the records in front comes through and no skip is pending behind them; else it is refused |
| FcgiAccept.RequestDecided | library/server/libfcgi/Clib/libfcgi/libfcgi/fcgiapp.c:2239-2297 | any records of the parameters: the request is admitted if and only if what they deliver is a sequence of whole pairs |
| FcgiAccept.RequestLookup | library/server/libfcgi/Clib/libfcgi/libfcgi/fcgiapp.c:2255-2269 | what FCGX_GetParam finds in the environment of a request: the role that the first two bytes of the BEGIN_REQUEST content give as a big-endian number, and for every other name the first parameter of that name |
| FcgiAccept.RoleFirst | library/server/libfcgi/Clib/libfcgi/libfcgi/fcgiapp.c:2255-2269 | the role entry tells the role and hides no parameter but one called FCGI_ROLE |
| FcgiAccept.UnknownRoleRefused | library/server/libfcgi/Clib/libfcgi/libfcgi/fcgiapp.c:2265-2266 | a role other than 1, 2 and 3 is refused |
| FcgiAccept.BeginFound | library/server/libfcgi/Clib/libfcgi/libfcgi/fcgiapp.c:1583-1594 | an unpadded or padded BEGIN_REQUEST begins the request with its id, role and flag, unless a skip is pending; then it is a protocol error |
| FcgiAccept.BeginCut | library/server/libfcgi/Clib/libfcgi/libfcgi/fcgiapp.c:1587-1590 | a connection that ends in front of the last content byte of BEGIN_REQUEST: nothing begins, and the error is -3 |
| FcgiAccept.AdmitBehind | library/server/libfcgi/Clib/libfcgi/libfcgi/fcgiapp.c:1619-1645 | records of other requests and management records in front of any bytes: refused when content of an unknown management record comes through; when neither that happens nor a skip is pending, admitted as the bytes would be alone, with the answers to the records added in front |
| FcgiAccept.PendingSkipRefused | library/server/libfcgi/Clib/libfcgi/libfcgi/fcgiapp.c:1689-1696 | an empty record of another request directly in front makes the BEGIN_REQUEST record an error |
| FcgiAccept.PreviousRequestRefused | library/server/libfcgi/Clib/libfcgi/libfcgi/fcgiapp.c:1637-1642 | a record of the previous request on the connection in front of BEGIN_REQUEST ends the connection |
| FcgiAccept.PaddedBeginLosesParameters | library/server/libfcgi/Clib/libfcgi/libfcgi/fcgiapp.c:1886-1898 | padding behind BEGIN_REQUEST that does not begin with the version byte: the request is accepted without any of its parameters, and the stream has failed |
| FcgiAccept.AdmittedIffUnpadded | library/server/libfcgi/Clib/libfcgi/libfcgi/fcgiapp.c:2239-2297 | unless the padding behind BEGIN_REQUEST begins with the version byte, the request is admitted with role and all parameters if and only if there is no padding |
| FcgiAccept.AdmittedIffNotStopped | library/server/libfcgi/Clib/libfcgi/libfcgi/fcgiapp.c:1886-1898 | padding behind BEGIN_REQUEST made of whole legal records that deliver and skip nothing, and then bytes whose header fields stop the reader: the request is admitted with role and all parameters if and only if there are no such bytes |
| FcgiAccept.HarmlessPadding | library/server/libfcgi/Clib/libfcgi/libfcgi/fcgiapp.c:1886-1898 | such padding exists: the eight bytes 1, 77, 0, 0, 0, 0, 0, 0 |
| FcgiAccept.StdinIffNotStopped | library/server/libfcgi/Clib/libfcgi/libfcgi/fcgiapp.c:1886-1898 | the same for the padding of the empty PARAMS record and the STDIN records behind it |
| FcgiAccept.StdinIffUnpadded | library/server/libfcgi/Clib/libfcgi/libfcgi/fcgiapp.c:1886-1898 | unless the padding of the empty PARAMS record begins with the version byte, the STDIN records behind it are delivered if and only if there is none |
| FcgiAccept.NewWriters | library/server/libfcgi/Clib/libfcgi/libfcgi/fcgiapp.c:2292-2294 | out and err are fresh, open and empty with buffers of 8192 and 512 bytes, less 8 when unaligned, and there are two writers |
| FcgiFraming.SpillKeepsBytes | library/server/libfcgi/Clib/libfcgi/libfcgi/fcgiapp.c:326-359 | cutting bytes into full buffers loses, adds and reorders nothing |
| FcgiFraming.SpillSplit | library/server/libfcgi/Clib/libfcgi/libfcgi/fcgiapp.c:326-359 | putting a and then b has the effect of putting a followed by b |
| FcgiFraming.ParseRoundTrip | library/server/libfcgi/Clib/libfcgi/libfcgi/fcgiapp.c:1229-1247 | a sequence of records can be read back from its bytes (FastCGI Specification, section 3.3) |
| FcgiWriter.Writer.constructor | library/server/libfcgi/Clib/libfcgi/libfcgi/fcgiapp.c:1792-1850 | a fresh writer has nothing pending and a buffer of a multiple of 8 bytes |
| FcgiWriter.Writer.CompleteRecord | library/server/libfcgi/Clib/libfcgi/libfcgi/fcgiapp.c:1423-1440 | the buffered content becomes a record padded with zeros to a multiple of 8, or the header room is reclaimed |
| FcgiWriter.Writer.EmptyBuff | library/server/libfcgi/Clib/libfcgi/libfcgi/fcgiapp.c:1412-1458 | sends what is pending as one record, in raw mode as it stands |
| FcgiWriter.Writer.PutChar | library/server/libfcgi/Clib/libfcgi/libfcgi/fcgiapp.c:298-309 | one byte: the effect of putting a one-byte string; EOF when closed |
| FcgiWriter.Writer.PutStr | library/server/libfcgi/Clib/libfcgi/libfcgi/fcgiapp.c:326-359 | records and pending bytes are those of cutting lazily at full buffers; nothing when closed |
| FcgiWriter.Writer.PutRaw | library/server/libfcgi/Clib/libfcgi/libfcgi/fcgiapp.c:326-359 | in raw mode all bytes are sent or buffered in order, also through a full buffer |
| FcgiWriter.Writer.FFlush | library/server/libfcgi/Clib/libfcgi/libfcgi/fcgiapp.c:915-921 | pending bytes leave as one record, an empty buffer sends nothing |
| FcgiWriter.Writer.WriteCloseRecords | library/server/libfcgi/Clib/libfcgi/libfcgi/fcgiapp.c:1352-1384 | the empty record unless a stderr was never written, END_REQUEST for the last writer, one writer less |
| FcgiWriter.Writer.EmptyBuffAndClose | library/server/libfcgi/Clib/libfcgi/libfcgi/fcgiapp.c:1412-1458 | the pending record, then the close records |
| FcgiWriter.Writer.FClose | library/server/libfcgi/Clib/libfcgi/libfcgi/fcgiapp.c:940-957 | closing sends the close records once; closing again sends nothing |
| FcgiService.OpenEffect | library/server/libfcgi/Clib/libfcgi/libfcgi/fcgiapp.c:298-359 | a put or flush sends whole data records with non-empty content and loses nothing; what a put sends is full records, and a flush leaves nothing pending |
| FcgiService.FlushSendsAll | library/server/libfcgi/Clib/libfcgi/libfcgi/fcgiapp.c:915-921 | over every run: behind a flush, the contents of the data records are all bytes put so far |
| FcgiService.FrameOnWire | library/server/libfcgi/Clib/libfcgi/libfcgi/fcgiapp.c:1423-1440 | the bytes of a data record: version 1, the type of the writer, the id, the lengths of content and padding, the content, the padding |
| FcgiService.EmptyOnWire | library/server/libfcgi/Clib/libfcgi/libfcgi/fcgiapp.c:1360-1368 | the record that ends a stream is the eight bytes 1, type, id, and four zeros |
| FcgiService.Framing | library/server/libfcgi/Clib/libfcgi/libfcgi/fcgiapp.c:1412-1458 | over every run: data records of a multiple of 8 bytes, with fewer than 8 zeros of padding, whose contents are the bytes put before the close, then the empty record unless a stderr got nothing, then nothing |
| FcgiService.BoundariesIndependent | library/server/libfcgi/Clib/libfcgi/libfcgi/fcgiapp.c:326-359 | without flushes the records depend only on the bytes put |
| FcgiService.RoundTrip | library/server/libfcgi/Clib/libfcgi/libfcgi/fcgiapp.c:1655-1780 | what a closed writer has sent gives a reader of its type and request the bytes put and then the end of the stream |
| FcgiService.ReadToEnd | library/server/libfcgi/Clib/libfcgi/libfcgi/fcgiapp.c:153-197 | reading to the end in pieces of any size gives the data that the unread bytes hold, and sends exactly their answers |
| FcgiEndRequest.EndRequestSafety | library/server/libfcgi/Clib/libfcgi/libfcgi/fcgiapp.c:1352-1384 | over every run of both writers: nWriters is the number of open ones, no END_REQUEST while it is positive, exactly one as the last record when it is zero, with the status then in force |
| FcgiEndRequest.ExactlyOneEndRequest | library/server/libfcgi/Clib/libfcgi/libfcgi/fcgiapp.c:2043-2062 | any use, FCGX_Finish_r, and any use after it: exactly one END_REQUEST, last, with the final status; later calls add nothing |
| FcgiEndRequest.StreamsSeparate | library/server/libfcgi/Clib/libfcgi/libfcgi/fcgiapp.c:1352-1384 | in every interleaving each writer sends the records it would send alone |
| FcgiEndRequest.FinishRequest | library/server/libfcgi/Clib/libfcgi/libfcgi/fcgiapp.c:2043-2062 | closes err and then out, with the records of those two steps |
| FcgiEndRequest.FinishOrder | library/server/libfcgi/Clib/libfcgi/libfcgi/fcgiapp.c:2055-2056 | while out is open, FCGX_Finish_r sends the empty STDOUT record directly in front of END_REQUEST: all of err comes before |
| FcgiEndRequest.SetStatus | library/server/libfcgi/Clib/libfcgi/libfcgi/fcgiapp.c:2345-2349 | the exit status is stored in the request |
| FcgiEndRequest.PerformSteps | library/server/libfcgi/Clib/libfcgi/libfcgi/fcgiapp.c:1352-1384 | any sequence of puts, flushes, closes and exit statuses on the two writer objects sends the records of Serve and leaves its service |
| FcgiEndRequest.StatusFromCalls | library/server/libfcgi/Clib/libfcgi/libfcgi/fcgiapp.c:2345-2349 | the status in END_REQUEST is the last one set while a writer was open, seen from the calls alone |
| FcgiEndRequest.StatusIsOwn | library/server/libfcgi/Clib/libfcgi/libfcgi/fcgiapp.c:2333-2349 | the status sent is that of a request starting from 0 if and only if one is set in time or 0 is inherited from the previous request |
| FcgiRequest.ServeAndFinish | library/server/libfcgi/Clib/libfcgi/libfcgi/fcgiapp.c:2043-2062 | on the wire any use of the two writers and FCGX_Finish_r adds records that end with the one END_REQUEST, with the status of the calls; the last sixteen bytes sent say so byte by byte |
| FcgiRequest.HandleRequest | library/server/libfcgi/Clib/libfcgi/libfcgi/fcgiapp.c:2220-2297 | an admitted request: what is sent are the answers of the acceptance and then the records of the application, which end with their one END_REQUEST; a status that is not set is the one left by the previous request |
| FcgiRequest.AcceptSoundRequest | library/server/libfcgi/Clib/libfcgi/libfcgi/fcgiapp.c:2239-2297 | on the objects: in the vector of parameters that FCGX_Accept_r leaves, FCGX_GetParam finds the role of the BEGIN_REQUEST content, and for every other name the first parameter of that name in the bytes that the server sent |
| FcgiRequest.AnswerRequest | library/server/libfcgi/Clib/libfcgi/libfcgi/fcgiapp.c:1565-1581 | a whole request as bytes, behind harmless records of other requests and management records: the records sent are the answers to these, to further BEGIN_REQUEST and to unknown management records and then those of the application, with the END_REQUEST of the request last, in the last sixteen bytes; it is the only one with its id if and only if no further BEGIN_REQUEST among the parameters has that id |

## Left out

- WordDivision.UdivQrnnd: proved for normalized divisors, the only ones that limb_inverse passes; the source's precondition also admits a divisor below 2^16, for which the routine divides by zero.
- RecursiveDivision.DcDivremN: from 6 limbs on, so that every part has the three limbs that the schoolbook division needs; the callers start at 96.
- TruncatingDivision.TdivQrLargeNumerator: divisors of 3 to 95 limbs, the schoolbook branch; the recursive branch is proved as `RecursiveDivision.DcDivremN`, but the loop around it is not modelled.
- Product.Mul: equal sizes (squares below 64 limbs) and second operands below 32 limbs; the unbalanced branch above that is not modelled.
- ModularPower.PowM: residues are numbers, not limb buffers, and reduction is by its contract; the exponent is scanned limb by limb. Negative exponents, which need a modular inverse, are not modelled.
- ModularPower.PowMUi: residues are numbers, and a double-length result is divided unless it is below B^(mn-1), which gives the same value as the original's test on limb counts.
- Printing.GetStr: up to 29 limbs in a base that is not a power of two; the divide-and-conquer printer is not modelled.
- SignedArithmetic.AddSized: the bodies of add and sub are the same once the sign of the second operand is taken into account, so they are modelled once.
- FcgiReader.Reader.ProcessManagementRecord: the reply to GET_VALUES is not modelled; its padding is never given a value by the original. So the bytes sent, wherever they are stated, are those without such replies.
- FcgiReader.Reader.ReadParams: lengths are unbounded integers; the sum of two lengths that overflows an int is not modelled.
- FcgiReader.Reader.SetReaderType: reading on after an error between two pairs of the parameters, which leaves the error code set, is not modelled.
- FcgiReader.Reader.FillBuff: operating-system errors of a read are not modelled, only the end of the connection.
- FcgiReader.Reader.ReadPair: as ReadParams, lengths are unbounded integers.
- FcgiConnection.Connection.WriteItAll: write errors are not modelled.
- FcgiWriter.Writer.FClose: on a writer, and with writes that succeed.
- FcgiAccept.AdmittedIffNotStopped: padding whose last header begins a record that runs on into the bytes behind, an incomplete header, and a GET_VALUES record with broken pairs are not covered.
- FcgiAccept.AcceptRequest: one round of the loop of FCGX_Accept_r, on an open connection; the loop over several connections is not modelled.
- FcgiConnection.GetParam: a string is its bytes; what a C string loses behind a zero byte is not modelled.
- FcgiRequest.AcceptSoundRequest: as HandleRequest, and with an unpadded BEGIN_REQUEST record.
- FcgiRequest.HandleRequest: the application leaves STDIN unread; reading it is `FcgiService.ReadToEnd`.
- FcgiRequest.AnswerRequest: as HandleRequest; a BEGIN_REQUEST record among the STDIN records would be refused when it is read.
- FCGX_UnGetChar, FCGX_GetLine and FCGX_VFPrintF.
- Allocation, memory freeing and pointer alignment; an unaligned buffer only loses 8 bytes.
- 32-bit overflow of indices and counts of the Eiffel routines.
- kara_sqr_n, tdiv_qr_large_denominator, tdiv_qr_non_zero_quotient, tdiv_qr_shift_result, divrem_1, mod_1, divexact_1 and bdivmod.
- aorsmul and its relatives, the one-limb variants of signed addition and subtraction, and the multiplication of signed numbers.
- bit_and, bit_or, bit_set, bit_clear, bit_complement, bit_scan_0, bit_scan_1, bit_xor_lshift and cmpabs.
- Greatest common divisors, modular inverses, primality tests, random numbers, and the floating-point size estimates.
