# Verified models of five parts of a small database toolkit

The repository is a C toolkit around an indexed table store. These files model five of its parts, in
their own imperative form, and prove what each of them is for:

* **decimal arithmetic** (`lib/number.c`): signed numbers as digit strings with a scale. `Arith`,
  `Digits`, `Number`, `Compare`, `AddSub`, `SchoolMul`, `ShiftAdd`, `Karatsuba`, `Multiply`,
  `DivideStep`, `DivideWindow`, `Divide`, `DivMod`, `Raise`, `Radix`, `Text`;
* **the quicksort without recursion** (`lib/qsort.c`): `Order`, `Partition`, `Qsort`, `Insertion`;
* **the streaming digest collector** (`include/md32_common.h`): `Pack`, `Padding`, `Md32`;
* **the block index with its write-back cache** (`lib/index.c`, `lib/idxblk.c`, `lib/block.c`):
  `BlockFile`, `IdxBlk`, `BlockImage`, `HeaderBytes`, `IndexOrder`, `IndexRun`, `KeySizes`, `Shell`, `Index`,
  `KeyOrder`, `LostOrder`, `ScanOrder`, `ShortField`; the search of the directory is in `lib/sort.c`;
* **the table-driven CRC** (`include/crc32.h`, `lib/crc32.c`): `Crc`, `CrcTable`.

`Wrappers` holds the option type they share.

`dafny verify dfyconfig.toml` checks everything.

## How the parts are modelled

A **number** is a value with sign, integer length, scale and digits, most significant first. `Mag` is
the digits as an integer, `Int` the same with the sign, so the value is `Int` over 10^scale; `MagAt(s)`
and `At(s)` are the same in units of 10^-s for any s at least the scale, and `Number.AtIsValue` ties
that to the real number. `Valid` is the normal form: digits, no leading zero before another integer
digit, zero is positive. Every routine that fills a digit buffer does so on an array, with the source's
loops and carry variables; array bounds are checked by Dafny, so "no access outside the buffers" is
part of every such result. The partial operands of the divide and conquer product may have integer
length 0 and mean zero.

A **sort** works in place on an array of elements; the comparator is any function whose "not greater"
is a total preorder. The scans have no bounds checks, and the proofs say which element stops them.

A **digest context** is an object with the fields `Nl`, `Nh`, `num` and the sixteen-word buffer; the
block function is any function from a chaining state and sixteen words to a chaining state. The two
byte orders are one boolean. Words are 32-bit vectors. The ghost field `msg` is what has been hashed.

An **index** is a directory of keys over a chain of blocks seen through a cache of nine buffers. The
ghost sequence `view` says what each block number stands for; `Coherent` says that a cached copy, or
else the copy on disk, is exactly that. Loading, evicting and rewriting leave `view` alone, and that is
what makes the cache transparent. `BlockImage` lays a block out in the bytes of the file: header, items,
room. `IndexRun.Run` relates a sequence of added items to the directories and block contents they can lead
to; the index object carries the proof that its own state is one. The directory is searched through the
nodes kept over it, which are rebuilt now and then; a search compares the new key with directory keys only,
and finds its place when the signs of these comparisons are in order (`IndexRun.Answer`), whatever the nodes.

A **CRC** is the 32-bit register; the bitwise definition feeds one message bit at a time.

## Where the code does not do what its description says

* `bc_raisemod` returns 1 for a zero exponent without reducing it: the result is the remainder of the
  power if and only if the exponent is positive or the modulus is not 1 or -1 (`DivMod.RaiseMod`).
* `bc_raise` is documented for exponents up to `LONG_MAX`. An exponent whose integer part is larger than
  the conversion to `long` accepts counts as zero and gives 1; the conversion in fact accepts up to nine
  more than `LONG_MAX` rounded down to a multiple of ten. For every base and scale the result is that of the
  exponent as written if and only if its integer part is within that limit (`Raise.TooLargeExponent`). Zero
  to a negative power leaves the result untouched.
* `bc_out_num` reads every digit back through the same conversion, so it prints all integers right in
  base b if and only if b is at most that limit plus one (`Radix.BasesThatPrint`).
* `bc_str2num` and `bc_raise` can return a negative zero by cutting digits off. Reading a text does so if
  and only if the text is a minus sign, zeros or nothing, a point and at least one digit, those within the
  scale all zero (`Text.ParseMinusZero`): `-0.5` at scale 0 and `-0.0` at any scale, but not `-0`
  (`Text.MinusZeroTexts`). Raising a number in normal form does so if and only if the base is negative, the
  exponent positive and odd, and the power cut to its scale zero (`Raise.RaiseTo`): -0.1 cubed at scale 0
  (`Raise.NegativeZeroPower`). `bc_compare` answers the sign of the difference if and only if its operands are
  not two zeros of different signs; then it puts the negative one below (`Compare.Compare`,
  `Compare.MinusZeroBelow`). Writing a number and reading it back at its scale returns it if and only if it is
  not a negative zero without decimals (`Text.RoundTrip`).
* `HASH_UPDATE` counts the whole blocks of a piece in an `int` and multiplies that by 64. The product is right if
  and only if there are fewer than 2^25 of them (`Md32.CountExact`); with a piece of two gigabytes the data
  pointer moves backwards (`Md32.TwoGigabytes`). Where whole blocks are copied to the buffer one by one, the
  counter alone must fit.
* The refresh of the first directory key copies `itemSize - sizeof (keyItem)` bytes, computed without sign. The
  copy stays inside the key field, for every index of strings, if and only if the field is not shorter than the
  padding of `keyItem`, eight bytes when a `long` has eight (`ShortField.CopiesInsideIff`; a field without room
  for a character is never copied). A column of five characters has a field of six: adding "b" and then "a"
  copies nearly 2^64 bytes (`ShortField.FiveCharacters`). Adding below the first key requires that the copy stays
  inside here. Fields of fewer than four bytes are also read beyond their end by the hash of the comparators.
* The key of the first directory entry is refreshed with fewer bytes than the other keys are copied with
  (`lib/index.c:631` against `lib/index.c:578`): n bytes, eight less than the key field when a `long` has
  eight. With zeros after the strings, an index is in order after any adds of strings of at most l characters
  if and only if l is at most n (`ScanOrder.PaddedInOrderIff`); with arbitrary bytes after them, if and only if
  also n is at least four, because the comparators hash four bytes (`ScanOrder.InOrderIff`). One character more,
  and a split can leave the directory out of order, after which a later item goes into the wrong block:
  `LostOrder.OrderLost` is a run of adds, z, as many b as fit a block and c, every step of which has exactly one
  outcome and which ends out of order; `ScanOrder.LoseOrder` adds it to an index and scans it. As long as the
  copies stay inside their fields, nothing is ever lost or doubled, whatever the keys.
* On an index to which nothing was ever added, `firstIndexItem` and `lastIndexItem` follow a null pointer:
  the directory is set up by the first call of `addIndexItem` (`lib/index.c:503-508`), and both look into it
  unasked (`lib/index.c:1509`, `lib/index.c:1559`). The two calls and the scans require `shell` here, which
  says that it has been set up.
* `flushIndexBlocks` skips buffers without a dirty mark, and adding an item to a buffer that was flushed
  before does not set the mark. A flush makes the disk equal to what is seen through the cache if and
  only if every unmarked buffer already agrees with the disk (`IdxBlk.FlushExact`); before the first
  flush every buffer is marked. `Index.LostUpdate` adds, flushes, adds and flushes, and the second item is
  not on disk.
* `caseCompare` puts a hash of four signed characters before `strcmp`, so it is a total preorder but not
  the order of `strcmp`: `az` comes after `b` (`KeyOrder.HashOverridesStrcmp`). The two agree between keys
  whose first four characters lie in one aligned group of 32 codes other than the lowest
  (`KeyOrder.HashKeepsStrcmp`).

## Model

| member | source | states |
|---|---|---|
| Number.AtIsValue | include/number.h:39-53 | a number in units of 10^-s, for any s at least its scale, is its value: lining numbers up at a common scale changes nothing |
| Number.IsZero | lib/number.c:279-303 | the answer is yes exactly for the numbers of magnitude zero, whatever the lengths |
| Number.RmLeadingZeros | lib/number.c:136-146 | value, sign and scale stay; afterwards no leading zero stands before another integer digit |
| Compare.CompareMagnitude | lib/number.c:170-256 | the sign of the difference of the magnitudes at every common scale; with an empty operand, as the divide and conquer product makes them, still never the wrong sign |
| Compare.CompareDigits | lib/number.c:193-256 | with equal integer lengths the first differing digit, or a nonzero tail of the longer fraction, decides the sign of the difference |
| Compare.LexGreater | lib/number.c:197-223 | of two digit strings of one length the one with the larger first differing digit is the larger number |
| Compare.LongerIsLarger | lib/number.c:170-189 | a number without leading zeros and with more integer digits is larger |
| Compare.Compare | lib/number.c:152-256 | minus one, zero or one as the difference of the signed values is negative, zero or positive, if and only if the operands are not zeros of different signs; the negative one of those is below |
| Compare.MinusZeroBelow | lib/number.c:164-168 | the negative zero -0.5 reads as at scale 0 compares below zero |
| Compare.SgnIsOrder | lib/number.c:261-266 | that sign is the order of the values as real numbers, both ways |
| AddSub.CopyFraction | lib/number.c:367-376 | the columns only one fraction has hold the sum of the two operands' digits so far, the rest of the buffer still zero |
| AddSub.AddColumns | lib/number.c:378-395 | after the common columns, what is written plus the carry at its weight is the sum of the operands' lower columns |
| AddSub.AddCarry | lib/number.c:397-411 | running the carry through the longer integer part keeps that sum |
| AddSub.DoAdd | lib/number.c:336-420 | the exact sum of the magnitudes at the larger scale, at least scale_min, for all lengths and scales |
| AddSub.SubColumns | lib/number.c:428-524 | after the common columns, what is written minus the borrow at its weight is the difference of the lower columns |
| AddSub.DoSub | lib/number.c:428-524 | the exact difference of the magnitudes when the first is not smaller; no borrow is left over |
| AddSub.SubMagnitudes | lib/number.c:553-565 | whichever operand is larger, the signed result is the first magnitude minus the second, zero being positive |
| AddSub.Sub | lib/number.c:528-571 | the exact signed difference, in normal form, at the larger scale or scale_min |
| AddSub.Add | lib/number.c:578-619 | the exact signed sum, in normal form, at the larger scale or scale_min |
| SchoolMul.ColumnsAreProduct | lib/number.c:676-685 | all columns of digit products, each at its weight, add up to the product of the two numbers |
| SchoolMul.AddColumn | lib/number.c:678-681 | the inner loop adds exactly the digit products of one column to the carry |
| SchoolMul.SimpMul | lib/number.c:656-686 | the integer product of two digit strings of any lengths; its first digit is always zero |
| ShiftAdd.AddSubColumns | lib/number.c:712-721 | the accumulator, with the signed carry at its weight, is the old one plus or minus the operand shifted |
| ShiftAdd.CarryInside | lib/number.c:722-728 | while a carry is alive and the total fits, there is a digit left for it: no carry or borrow runs past the top digit |
| ShiftAdd.RunCarry | lib/number.c:741-747 | the second loops end, inside the buffer, with the digits of the total |
| ShiftAdd.ShiftAddSub | lib/number.c:693-749 | the accumulator becomes itself plus or minus val times 10^shift whenever that is a number of its size; the assertion on lengths is the caller's duty |
| Karatsuba.KaratsubaIdentity | lib/number.c:751-755 | the identity behind the three products |
| Karatsuba.Split | lib/number.c:780-799 | an operand is its high part times 10^n plus its low part, also when it is shorter than n and the high part is empty, with lengths that make the recursion end |
| Karatsuba.TotalsFit | lib/number.c:830-839 | the sum of the four additive terms is below 10^(ulen+vlen+1) for all lengths |
| Karatsuba.PartialFits | lib/number.c:830-840 | for the parts of one level no intermediate total overflows the product buffer |
| Karatsuba.Accumulate | lib/number.c:830-840 | the five shifted additions give exactly the signed sum of the five terms; every call meets the assertion of the shifted add |
| Karatsuba.Combine | lib/number.c:830-840 | the five terms together are the product of the two operands, so the total is never negative |
| Karatsuba.RecMul | lib/number.c:759-852 | termination, and exactly the integer product, for all lengths, agreeing with the schoolbook product digit for digit in value and length |
| Multiply.Mul | lib/number.c:858-886 | the product truncated toward zero, in normal form: with all its decimals, or, if that is fewer, with the largest of the scale asked for and the operands' scales; exact when that holds all decimals, as it does when an operand has none |
| DivideStep.OneMult | lib/number.c:893-925 | the digits written and the carry put before them are digit times the number, in place or not, nothing else touched; without room before the result there is no carry |
| DivideStep.FirstGuessRange | lib/number.c:1039-1043 | the first guess is the true quotient digit or one or two more |
| DivideStep.RejectedIsAbove | lib/number.c:1045-1056 | a guess that fails the two-digit test is too large |
| DivideStep.AcceptedIsClose | lib/number.c:1045-1056 | a guess that passes it is at most one too large |
| DivideStep.GuessIsClose | lib/number.c:1039-1056 | after both tests the trial digit is the true digit or one more |
| DivideWindow.SubWindow | lib/number.c:1064-1077 | window minus multiple, the borrow at its weight, nothing outside the window changed |
| DivideWindow.AddWindow | lib/number.c:1083-1099 | window plus divisor modulo the size of the window, the last carry going into the digit before it |
| DivideWindow.CorrectDigit | lib/number.c:1080-1101 | subtracting the trial multiple borrows exactly when the trial digit is one too large, and one add-back then leaves the true remainder |
| DivideWindow.SettleDigit | lib/number.c:1058-1101 | from a close guess to the true digit, the window reduced to the remainder |
| DivideWindow.QuotientDigit | lib/number.c:1037-1105 | one turn: the digit is the quotient of the window by the divisor, the window becomes the remainder, below the divisor again |
| Divide.DivideLoop | lib/number.c:1029-1105 | all turns: the digits written are the quotient of the dividend's leading part by the normalised divisor |
| Divide.NormQuotient | lib/number.c:1021-1027 | scaling dividend and divisor by the same factor leaves the quotient |
| Divide.PointsAgree | lib/number.c:966-981 | moving the decimal point and dropping the divisor's trailing zeros leaves the quotient of the values to scale decimals |
| Divide.LongDivision | lib/number.c:1018-1106 | normalising and looping over the loaded digits gives the integer quotient, for every divisor that is not zero |
| Divide.QuotientDigits | lib/number.c:966-1106 | the quotient digits of the magnitudes with scale places after the point, including the case that the quotient is zero |
| Divide.Div | lib/number.c:933-1121 | no result exactly for a zero divisor; otherwise n1/n2 truncated toward zero to scale decimals, in normal form |
| DivMod.DivRem | lib/number.c:1129-1160 | n1 = quot * n2 + rem exactly, with \|rem\| < \|n2\| * 10^-scale and rem zero or of n1's sign |
| DivMod.RemainderFacts | lib/number.c:1141-1150 | the bound and the sign of the remainder follow from the truncated quotient at any scales |
| DivMod.Modulo | lib/number.c:1166-1172 | the remainder of such a division |
| DivMod.IntegerDivMod | lib/number.c:1129-1160 | on integers at scale 0 they are the truncated integer quotient and remainder |
| DivMod.OddTurn | lib/number.c:1215-1220 | multiplying the result in keeps result * power^exponent congruent to the target |
| DivMod.SquareTurn | lib/number.c:1222-1223 | squaring the power and halving the exponent keeps it too |
| DivMod.RaiseTurn | lib/number.c:1213-1224 | one turn of the loop keeps the invariant and halves the exponent |
| DivMod.Settled | lib/number.c:1213-1224 | with the exponent used up the result is congruent, and equal to the remainder if and only if the exponent was positive or the modulus is not 1 or -1 |
| DivMod.RaiseMod | lib/number.c:1178-1232 | no result exactly for a zero modulus or a negative exponent; at any scales 1 or smaller than the modulus in units of 10^-scale; on integers at scale 0 congruent to base^expo, and the remainder exactly under that condition |
| Raise.Num2Long | lib/number.c:1586-1609 | the integer part, or zero when it is beyond the accepted limit |
| Raise.StripTwos | lib/number.c:1278-1287 | squaring away the factors of two gives an exact power and an odd rest of the exponent |
| Raise.PowerLoop | lib/number.c:1278-1301 | the growing scales lose no digit: the exact power with all its decimals |
| Raise.CutPower | lib/number.c:1311-1315 | lowering the scale field truncates the power toward zero |
| Raise.PowerScaleOk | lib/number.c:1275-1275 | the decimals of a power: at least those of the base and at most those of the exact power, and if fewer, the larger of the scale asked for and the base's |
| Raise.FirstIsSame | lib/number.c:1278-1301 | a number in normal form to the first power is that number, digit for digit |
| Raise.RaiseTo | lib/number.c:1238-1317 | zero exponent: 1; positive: the exact power truncated to all its decimals or, if fewer, the larger of the scale asked for and the base's, and the first power is the base; negative: the truncated inverse, and nothing exactly when the power is zero; for a base in normal form the result leaves it, as a negative zero, exactly when the base is negative, the exponent positive and odd and the cut power zero |
| Raise.NegativeZeroPower | lib/number.c:1311-1315 | minus a tenth cubed at scale 0 is a negative zero |
| Raise.PowNonzero | lib/number.c:1303-1307 | only zero to a positive power is zero, so only a zero base has no inverse power |
| Raise.TooLargeExponent | lib/number.c:1253-1255 | for every base and scale a result for the exponent counted with is one for the exponent written, if and only if its integer part is at most 134217729 |
| Radix.Int2Num | lib/number.c:1614-1654 | the number of every machine integer, in normal form |
| Radix.DigitsOfDenote | lib/number.c:1523-1533 | repeated division gives digits that denote the number in that base, in range, the first not zero |
| Radix.IntDigits | lib/number.c:1523-1549 | the digits stacked are those digits, each as far as a machine integer holds it |
| Radix.FracDigits | lib/number.c:1551-1570 | every prefix of the k places is the fraction cut off there, and k is the least with base^k at least 10^scale |
| Radix.WholeAndFraction | lib/number.c:1508-1517 | integer part and fraction recompose the magnitude |
| Radix.OutTen | lib/number.c:1480-1500 | the fast way for base ten prints the same expansion |
| Radix.OutOther | lib/number.c:1501-1579 | the slow way prints it for the other bases |
| Radix.OutNum | lib/number.c:1457-1580 | sign, integer digits and places are the expansion of the number in any base from 2 up to the limit |
| Radix.BasesThatPrint | lib/number.c:1526-1533 | all integers print right in a base if and only if it is at most 134217730 |
| Text.Num2Str | lib/number.c:1657-1693 | an optional minus, then for each digit the character whose code is 48 more, a point before the fraction, and nothing else |
| Text.ScanPass | lib/number.c:1709-1718 | where the checking pass ends and how many digits it counts |
| Text.Str2Num | lib/number.c:1696-1764 | the two passes give the number the scan positions determine |
| Text.ParseDecimal | lib/number.c:1696-1764 | a decimal text reads as its value with the fraction cut to scale places, without superfluous leading zeros; the sign is minus exactly with a minus sign before anything but zeros without a fraction |
| Text.ReadMore | lib/number.c:1747-1763 | a text of one digit is read as its character code less 48, and one more digit makes ten times as much and that digit |
| Text.DigitsValueIs | lib/number.c:1747-1763 | what digits stand for, built up from the character codes in this way |
| Text.ReadDecimal | lib/number.c:1696-1764 | the digits before and after the point, as far as decimals are kept, stand for the number in units of the last one, negative exactly after a minus sign |
| Text.DecimalMinusZero | lib/number.c:1728-1745 | which decimal texts read as a negative zero |
| Text.ParseMinusZero | lib/number.c:1696-1764 | among all texts the result is out of normal form exactly for a minus sign, zeros or nothing, a point and at least one digit, those within the scale zero |
| Text.MinusZeroTexts | lib/number.c:1696-1764 | -0.5 at scale 0 and -0.0 at any scale are such texts, -0 is not |
| Text.ParseRefuses | lib/number.c:1719-1723 | any other text reads as zero |
| Text.RoundTrip | lib/number.c:1657-1764 | writing a number and reading it at its own scale returns the same number if and only if it is not a negative zero without decimals |
| Order.RearrangedIsPermutation | lib/qsort.c:29-31 | exchanges inside a stretch leave a permutation of the whole |
| Partition.MedianOfThree | lib/qsort.c:113-129 | at most two exchanges leave the ends around the pivot |
| Partition.ScanRight | lib/qsort.c:138-139 | the left scan stops at the sentinel at the latest, over elements below the pivot |
| Partition.ScanLeft | lib/qsort.c:141-142 | the right scan likewise |
| Partition.MoveWalls | lib/qsort.c:138-156 | each turn keeps everything left of the left wall at most the pivot and everything right of the right wall at least, and the walls move together |
| Partition.CollapseWalls | lib/qsort.c:130-157 | the walls end crossed by one or two places inside the range |
| Partition.PartitionRange | lib/qsort.c:113-158 | the range is rearranged so that everything up to right is at most everything after it |
| Qsort.PlanStep | lib/qsort.c:160-183 | replacing the current range by its parts keeps: each pending range of depth k has 2^k times its size within the array, every pending range lies right of the smallest elements known or is exactly them; and the work left shrinks |
| Qsort.HalvingDeeper | lib/qsort.c:172-183 | the smaller of two parts, one place deeper, still has twice the power of two times its size within the array |
| Qsort.PlanDepth | lib/qsort.c:168-183 | never more than 28 pending ranges for fewer than 2^31 elements, so the stack of 32 or more slots never overflows |
| Qsort.CutStep | lib/qsort.c:113-183 | the front elements that are at most all others stay so when a range right of them is rearranged, and shrink to the left part when their own range is split |
| Qsort.Advance | lib/qsort.c:165-183 | the four cases push, pop and set the bounds so that the pending ranges are the old ones with the current one replaced by its large parts |
| Qsort.PartitionPhase | lib/qsort.c:99-186 | termination; a permutation; afterwards at most MAX_THRESH + 1 front elements are at most all the others |
| Insertion.FindSmallest | lib/qsort.c:200-206 | the index of a smallest element of the first stretch |
| Insertion.SmallestToFront | lib/qsort.c:200-209 | the smallest of the first MAX_THRESH + 1 elements is the smallest of all and ends in front |
| Insertion.FindPlace | lib/qsort.c:217-219 | the unguarded scan stops at the front element at the latest, right of the last element not above the new one |
| Insertion.Rotate | lib/qsort.c:219-231 | the elements between move up by one and the new one takes the place |
| Insertion.InsertKeepsSorted | lib/qsort.c:214-233 | a sorted prefix stays sorted |
| Insertion.InsertionPhase | lib/qsort.c:211-235 | from any array whose first element is smallest: sorted, and a permutation |
| Insertion.Bqsort | lib/qsort.c:90-237 | for every total preorder and every length below 2^31: sorted, and a permutation of what was there |
| Pack.WordOfBytes | include/md32_common.h:337-369 | the word of a word's bytes is the word, in both byte orders |
| Pack.WordIs | include/md32_common.h:337-369 | four bytes as a number in base 256: in big-endian order the first byte is the highest digit, in little-endian order the lowest |
| Pack.WordsAre | include/md32_common.h:473-508 | each of the sixteen words a block function gets is the number of its four bytes of the block |
| Pack.FirstWordOfAbc | include/md32_common.h:337-369 | the first word of abc and the padding mark in both orders |
| Pack.HostC2l | include/md32_common.h:337-341 | the word of the next four bytes, as that number |
| Pack.HostPC2l | include/md32_common.h:342-348 | completing a word that holds n bytes, zero beyond them, gives the word of all four |
| Pack.HostPC2lP | include/md32_common.h:349-356 | adding bytes that do not complete a word gives the word of all bytes so far, zero beyond them |
| Pack.HostC2lP | include/md32_common.h:357-364 | the word of the next n bytes, read backwards, zero beyond them |
| Padding.FoldAppend | include/md32_common.h:473-508 | folding whole blocks and then more is folding the concatenation |
| Padding.FoldMore | include/md32_common.h:430-446 | only the bytes not yet in a whole block matter for what further bytes do |
| Padding.HoldsMore | include/md32_common.h:436-470 | storing the next word keeps: the buffer holds the pending bytes, unused bytes of the last word zero, later words arbitrary |
| Padding.ZeroCount | include/md32_common.h:576-585 | fewer than 64 zero bytes, and with the mark and the length whole blocks |
| Padding.PadIs | include/md32_common.h:546-607 | the padded message: the message, the byte 0x80, fewer than 64 zeros, and eight bytes of length up to a multiple of 64 |
| Padding.LengthIs | include/md32_common.h:584-594 | those bytes are the two words of the bit length modulo 2^64, the high one first in big-endian order, the low one in little-endian order, each in its byte order |
| Padding.CountMore | include/md32_common.h:422-428 | the masked sum, the carry test and the shifted high part add eight times the length to the 64-bit count, for every length |
| Md32.HashCtx.Count | include/md32_common.h:422-428 | the two count fields stand for the bit length modulo 2^64 of the longer message |
| Md32.HashCtx.FillBlock | include/md32_common.h:430-446 | pending and new bytes complete a block, which is folded in |
| Md32.HashCtx.TopUp | include/md32_common.h:448-470 | new bytes within the last word or beyond it extend the pending bytes |
| Md32.CountExact | include/md32_common.h:473-508 | the int counter, and its product with the block size, are right exactly for fewer than 2^31 and 2^25 blocks |
| Md32.TwoGigabytes | include/md32_common.h:473-508 | the whole blocks of a piece of 2^31 bytes are moved over backwards |
| Md32.HashCtx.WholeBlocks | include/md32_common.h:473-508 | countable whole blocks are folded in, directly or through the buffer, leaving no pending byte |
| Md32.HashCtx.Rest | include/md32_common.h:510-522 | what is left becomes the pending bytes |
| Md32.HashCtx.Update | include/md32_common.h:413-523 | for a piece whose whole blocks can be counted, chaining state, pending bytes and count afterwards stand for the old message followed by the new bytes |
| Md32.SameMessageSameContext | include/md32_common.h:413-523 | contexts that stand for the same message agree in the chaining state, the count and every word that is ever read, however it was cut |
| Md32.HashCtx.Spill | include/md32_common.h:578-583 | without room for the length this block is filled with zeros and folded in |
| Md32.HashCtx.Stamp | include/md32_common.h:584-594 | zeros up to the last two words, then the count in the byte order's word order, folded in |
| Md32.HashCtx.Final | include/md32_common.h:546-607 | the chaining state is the fold over message, 0x80, fewest zeros and 64-bit length (sections 3.1 and 3.2 of RFC 1321, section 4 of RFC 3174) |
| Md32.HashPieces | include/md32_common.h:413-607 | for every cutting of a message into such pieces and every alignment the digest is that of the whole padded message |
| BlockFile.BlocksAt | lib/block.c:152-170 | block k is the stretch at k times the block size |
| BlockFile.File.GetFileBlock | lib/block.c:152-170 | the k-th block, or an error beyond the end |
| BlockFile.File.PutFileBlock | lib/block.c:188-206 | exactly the k-th block is replaced; beyond the end the file grows by blocks of zeros up to it |
| BlockFile.BlocksZeros | lib/block.c:188-206 | a file of whole blocks extended by n blocks of zeros |
| BlockFile.File.AppendFileBlock | lib/block.c:224-239 | one more block at the end, its number returned |
| BlockFile.PackUnpack | lib/block.c:322-415 | items packed into a block are the items unpacked from it |
| BlockFile.ListToBlock | lib/block.c:391-415 | the items one after the other from offset on, nothing else changed; a list of another length is refused |
| BlockFile.BlockToList | lib/block.c:322-359 | the items of the block are appended to the list in order |
| HeaderBytes.SignedBack | include/index.h:191-200 | a signed number kept in n bytes is read back, if it fits |
| HeaderBytes.MachineCodec | include/index.h:191-200 | a header of an int and two file offsets, as it lies in memory, can be read back for all values of its fields |
| HeaderBytes.HeaderIs | include/index.h:191-200 | its bytes: the number of items in the first four, the links in the eight from the eighth and from the sixteenth, lowest byte first |
| HeaderBytes.NewFile | lib/index.c:100-160 | a file of a control block and a block of any items that fit |
| HeaderBytes.SmallFile | lib/index.c:100-160 | such a file with blocks of 100 bytes and five items of fourteen |
| BlockImage.MaxItemsFit | lib/idxblk.c:125-129 | a block holds as many items as the division says if and only if header and items fit the block |
| BlockImage.Fill | lib/idxblk.c:95-97 | the buffer then stands for the block: its header and its items can be read from the bytes |
| BlockImage.Take | lib/idxblk.c:122-144 | what is read from a buffer is the block it stands for |
| BlockImage.WriteBack | lib/idxblk.c:95-101 | afterwards the file stands for the disk with that block replaced |
| BlockImage.AppendNew | lib/idxblk.c:189-263 | afterwards the file stands for the disk with the block behind it, whose number is returned |
| BlockImage.ReadIn | lib/idxblk.c:111-146 | the block the disk has, or an error beyond its end |
| BlockImage.WriteThenRead | lib/idxblk.c:95-146 | a block written back and loaded again is the same block |
| IdxBlk.EvictKeeps | lib/idxblk.c:79-106 | writing the oldest buffer back and dropping it changes nothing that is seen and leaves no second copy |
| IdxBlk.LoadKeeps | lib/idxblk.c:108-156 | loading a block that is not cached changes nothing that is seen |
| IdxBlk.FewCached | lib/idxblk.c:286-406 | distinct cached numbers are fewer than the blocks of the file, so block 0 is overwritten with a block before it is ever read as one |
| IdxBlk.BlockCache.GetIndexBlock | lib/idxblk.c:25-165 | succeeds exactly for the blocks of the file; the block is then the most recently used; what is seen of every block from 1 on is unchanged by hit, miss, eviction and failure; no block cached twice, free plus used nine, or eight after a failure, which loses a buffer; no overfull block on disk; the evicted buffer is the oldest |
| IdxBlk.BlockCache.GetNewBlock | lib/idxblk.c:189-263 | succeeds exactly for the next block number; the new block is seen empty, the others as before; its buffer is a free one without a mark, or the oldest with its mark and links |
| IdxBlk.BlockCache.Halve | lib/idxblk.c:320-340 | moving half the links from one list to the front of the other keeps their concatenation |
| IdxBlk.BlockCache.MoveUpper | lib/idxblk.c:320-361 | the two lists share the items of the old one; both fit again before anything is written |
| IdxBlk.BlockCache.SplitBlock | lib/idxblk.c:286-406 | the upper half goes to a new last block linked in after the old one, the block after it points back to the new one, nothing else changes, and both halves stay cached |
| IdxBlk.BlockCache.FlushIndexBlocks | lib/idxblk.c:408-440 | exactly the dirty buffers are written, and all marks are cleared |
| IdxBlk.FlushedAt | lib/idxblk.c:415-438 | the disk copy of a block after a flush, by its buffer's mark |
| IdxBlk.FlushExact | lib/idxblk.c:408-440 | the disk equals what is seen if and only if every unmarked buffer already agreed with it |
| IdxBlk.MarksKept | lib/idxblk.c:40-58 | using a cached block again and changing its items leave every dirty mark as it was |
| IndexOrder.FlattenSorted | lib/index.c:1503-1654 | sorted blocks between directory keys, read in directory order, are sorted as a whole |
| IndexOrder.InsertOrdered | lib/index.c:710-722 | an item between the directory keys of its block keeps every block between its keys |
| IndexOrder.InsertFlatten | lib/index.c:710-722 | it is inserted at one place among all items, nothing else moves |
| IndexOrder.SplitOrdered | lib/index.c:723-755 | a split with the key of the upper half's first item keeps every block between its keys |
| IndexOrder.SplitFlatten | lib/idxblk.c:320-340 | and keeps all items in place |
| IndexRun.AddedShape | lib/index.c:494-767 | every add keeps block numbers distinct, blocks sorted and between half full and full, and adds exactly the one item, whatever the key |
| IndexRun.SignsFit | lib/index.c:600-700 | although the first directory key may be out of place, an item not below it meets the directory keys in order |
| IndexRun.FitsBlock | lib/index.c:600-722 | so the chosen block has directory keys around the item, the first being taken for the item it was refreshed with |
| IndexRun.AddedOrdered | lib/index.c:600-767 | an add keeps every block between its directory keys, the first key being taken for what it stands for, if the refresh is harmless for the keys |
| IndexRun.RunShape | lib/index.c:494-767 | after any sequence of adds whose copies stay inside their fields: at least floor((max+1)/2) items in each of two or more blocks, never more than max, and exactly the added items |
| IndexRun.RunFirst | lib/index.c:604-632 | the first directory key stays of a kind that refreshing keeps |
| IndexRun.RunSame | lib/index.c:604-632 | a run is the same with any refresh that gives the same on its keys |
| KeySizes.CopyInside | lib/index.c:631-631 | the unsigned number of bytes copied is at most the field if and only if the field is not shorter than the padding, and then it is their difference |
| ShortField.CopiesInsideIff | lib/index.c:604-632 | after any adds of strings no copy leaves its field, if and only if the field is not shorter than the padding or has no room for a character |
| ShortField.FiveCharacters | lib/cdbindex.c:118-120 | the field of a column of five characters is too short |
| IndexRun.RunOrdered | lib/index.c:494-767 | after any sequence of adds of keys the refresh is harmless for, the items in directory order are sorted |
| Index.SplitLinked | lib/index.c:723-755 | after a split the chain of links still follows the directory, forwards and backwards, and the blocks hold what they should |
| Index.DbIndex.InsertLink | lib/sort.c:1818-1850 | the new item goes after all items not above it, by the shortcuts or by the scan |
| Shell.Restructure | lib/sort.c:3933-4040 | from nine links on, a node over every ninth link and no others, with levels that lead forward |
| Shell.ShiftedOver | lib/sort.c:3210-3236 | a link put into the list keeps them so |
| Shell.ShiftedSame | lib/sort.c:3210-3236 | every node stays over its link and leads where it led |
| Shell.Descend | lib/sort.c:3593-3602 | the levels lead to a node below the key |
| Shell.SearchStretch | lib/sort.c:3603-3627 | a stretch of links the key is not before holds its place, or is passed as a whole |
| Shell.SearchNodes | lib/sort.c:3603-3652 | from that node on the place of the key is found, in an ordered directory |
| Shell.FirstOfLast | lib/sort.c:3567-3585 | among last keys level with the one searched for, the first |
| Shell.Search | lib/sort.c:3503-3655 | whatever the nodes, the entry found in an ordered directory is at most the key and the next one at least, as in the list alone |
| Index.DbIndex.QueryShellItem | lib/sort.c:3503-3655 | the same for the directory, with the nodes rebuilt when searches are slow |
| Index.DbIndex.Settle | lib/index.c:633-676 | an overfull block is split and its new half entered in the directory, whose nodes move along or are rebuilt; another is left alone |
| Index.DbIndex.AddIndexItem | lib/index.c:494-767 | if an item below the first key can be copied over it inside the field: the new state follows from the old by one add and the item count grows by one; the first add is refused exactly when fewer than four items fit a block; buffers all dirty stay so; an item that goes into a cached block without a split sets no mark and writes nothing |
| Index.BlocksInOrder | lib/index.c:633-765 | after any adds the chain from the first block passes through exactly the directory's blocks in its order, the links back agree, and the sizes hold |
| Index.DbIndex.Flush | lib/idxblk.c:408-440 | on an index never flushed before, the disk afterwards shows everything; in general exactly when no unmarked buffer differs |
| Index.LostUpdate | lib/index.c:705-722 | add, flush, add, flush: the block is seen with both items and is on disk with the first only |
| Index.DbIndex.FirstIndexItem | lib/index.c:1503-1534 | once an add was tried: the first of all items, or none without items; nothing seen changes |
| Index.DbIndex.LastIndexItem | lib/index.c:1553-1584 | once an add was tried: the last of all items, or none |
| Index.DbIndex.NextIndexItem | lib/index.c:1607-1654 | the item after the current one among all items, in the next block if need be; none at the end, where the cursor stays; none before a scan has begun |
| Index.DbIndex.PrevIndexItem | lib/index.c:1676-1718 | the item before it |
| Index.ScanForward | lib/index.c:1503-1654 | the first item and then the next ones until there is none: every added item exactly once, in comparator order for keys the refresh is harmless for |
| Index.ScanBackward | lib/index.c:1553-1718 | the last and then the previous ones: exactly the reverse |
| KeyOrder.ComparatorIsPreorder | lib/index.c:40-69 | caseCompare and noCaseCompare are total preorders that look at the keys alone |
| KeyOrder.CaseIgnored | lib/index.c:43-69 | noCaseCompare does not tell keys apart that differ in the case of letters only, nor do they compare differently with a third |
| KeyOrder.LevelIff | lib/index.c:40-69 | strings that compare as level are equal, or for noCaseCompare differ in case only; from three characters on those do |
| KeyOrder.FirstDifference | lib/index.c:40-69 | behind four characters alike, the first two that differ decide by their codes, for noCaseCompare by the codes in lower case |
| KeyOrder.HashKeepsStrcmp | lib/index.c:40-54 | keys whose first four characters lie in one aligned group of 32 codes, not the lowest, are ordered as by strcmp |
| KeyOrder.HashOverridesStrcmp | lib/index.c:40-54 | in general they are not: az and b |
| KeyOrder.MixCompared | lib/index.c:631-631 | for strings of at most n characters, comparing with a key refreshed by n bytes of another never gives the wrong sign, at worst it decides a tie |
| KeyOrder.ShortIsHarmless | lib/index.c:631-631 | so refreshing is harmless for strings of at most n characters |
| KeyOrder.ShortKeysSorted | lib/index.c:494-767 | after any adds of such strings the items are in order |
| KeyOrder.PaddedAgree | lib/index.c:631-631 | for strings of at most n characters with zeros after them, copying n bytes is copying the whole key |
| KeyOrder.PaddedKeysSorted | lib/index.c:494-767 | after any adds of those the items are in order, however small n is |
| LostOrder.OneOutcome | lib/index.c:604-676 | an add below the first directory key has exactly one outcome |
| LostOrder.RunIs | lib/index.c:604-676 | z, as many b as fit a block, and c, where b and c leave the key z as it is: each prefix of this run has exactly one outcome |
| LostOrder.OrderLost | lib/index.c:604-676 | after it the items are not in order, for all such keys, every comparator and every block size |
| ScanOrder.LettersTrap | lib/index.c:631-631 | keys that differ in one letter behind the copied bytes are such keys |
| ScanOrder.InOrderIff | lib/index.c:494-767 | whatever strings of at most l characters are added, with any bytes after them, the items are in order afterwards, if and only if l is at most the number of bytes copied and that is at least four |
| ScanOrder.PaddedInOrderIff | lib/index.c:494-767 | with zeros after them, if and only if l is at most the number of bytes copied |
| ScanOrder.HarmlessIff | lib/index.c:631-631 | the refresh is harmless for the same strings and no others |
| ScanOrder.IndexInOrder | lib/index.c:494-767 | every index of such strings is in order |
| ScanOrder.IndexOutOfOrder | lib/index.c:494-767 | no index to which a losing run was added is |
| ScanOrder.LoseOrder | lib/index.c:494-767 | for all sizes of field and padding with which copies stay inside, adding that run and scanning gives its items, out of order |
| ScanOrder.ScanStrings | lib/index.c:1503-1654 | scanning an index of strings of at most as many characters as bytes are copied gives every item once, in order |
| Crc.TableIsBitwise | lib/crc32.c:57-110 | each of the 256 entries is eight shifts of the feedback register from its index |
| Crc.StepLinear | lib/crc32.c:26-37 | one shift of the register is linear |
| Crc.TableStep | include/crc32.h:21-21 | one table lookup is eight shifts |
| Crc.UnStepStep | lib/crc32.c:26-37 | a shift can be undone: it is a bijection of the register |
| Crc.FeedIsSteps | lib/crc32.c:26-37 | feeding up to 32 bits one at a time is that many shifts of the register with the bits laid over it |
| Crc.UpdateIsBits | include/crc32.h:21-21 | the loop body is the bitwise CRC of one byte |
| Crc.Crc32 | include/crc32.h:16-23 | the table-driven loop computes the bit-at-a-time CRC with polynomial 0xedb88320 of every input |
| Crc.Composes | include/crc32.h:16-23 | a message can be checked in two parts |
| Crc.FeedInjective | include/crc32.h:16-23 | for fixed data different registers stay different |
| Crc.FeedSurjective | include/crc32.h:16-23 | and every register is reached |
| Crc.BurstDetected | lib/crc32.c:26-37 | messages differing only inside a window of 32 bits, at any bit offset, never collide |
| Crc.WindowDetected | include/crc32.h:16-23 | nor do messages of one length differing only inside four consecutive bytes |

## Left out

- Memory in `lib/number.c`: reference counts, the free list, shared results and allocation failure. Numbers are values, so a result that is also an operand is not modelled as one.
- The division by one at `lib/number.c:951-964`: it falls through to the general path, so only the final result is modelled.
- `bc_sqrt`, `bc_is_near_zero` and the `ignore_last` argument of the comparison; the pretty printing of large-base digits (`ref_str`, `bc_out_long`) and the `leading_zero` argument, which has no effect; warnings and error messages.
- Machine widths of lengths and scales in `lib/number.c`: they are unbounded here. `LONG_MAX` is the fallback the header gives when it is not defined. The negation of the smallest int in `bc_int2num` is not modelled.
- `mul_base_digits` is fixed at its default of 80.
- Text.Str2Num: strings are sequences without a terminator, so a zero byte inside a text is not modelled.
- Insertion.Bqsort: elements are moved as wholes, so the exchange and the rotation byte by byte, and the arithmetic on byte offsets, are not modelled. `STACK_SIZE` is taken for a four-byte `long`; a longer one only adds slots.
- The compression functions and the text form of digests in the files that use `include/md32_common.h`: the block function is a parameter and the chaining state is the result. Signed overflow is taken to wrap, and where blocks are copied one by one a piece plus 63 bytes to fit `unsigned long`.
- The block function on unaligned input (`HASH_BLOCK_DATA_ORDER`) is taken to be the same function on the words of the bytes.
- Uniqueness of an index, deletion and update: their paths are not modelled. Opening, closing and storing an index, file errors, allocation failures, `bof` and `eof`.
- The item count of the header is a field here only; `firstItem`, `currentSize` and `numMaxItems` are derived from the items.
- IdxBlk.BlockCache.GetIndexBlock: block 0 is not accounted for, because free buffers carry its number and are written over it; only that its first contents are never read as a block is proved.
- BlockImage.Fill: any copy of the header fields into bytes that can be undone is allowed; `HeaderBytes` has the one of a little-endian machine with eight-byte offsets, the unused bytes between its fields written as zeros. The cache itself works on blocks; `BlockImage` ties one write and one read of it to the file.
- Index.DbIndex.QueryShellItem: the current pointers of shell and list, which adding an item sets itself, and the nodes made by `addShellItem`, which the index does not call.
- Shell.Restructure: which nodes the levels link is stated only as far as that they lead forward; it decides how fast a search is, not what it finds.
- Index.DbIndex.NextIndexItem: like the previous-item call it requires the current block to be in its buffer still. When the buffer has been given to another block its links have been freed, and the source follows a freed link; items added before the current one move it.
- ScanOrder.InOrderIff: with fewer than four bytes copied, for fields at least two bytes longer than that and of three bytes or more; the padding is four or eight bytes.
- `crc32Sum`: opening and reading the file.
- The container, cipher, workspace, cursor, record and definition-file modules.
