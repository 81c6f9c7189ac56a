# Verified cores of the Ceres standard library

A Dafny model of ten cores of the C library of the Ceres virtual machine, a freestanding library for a 32-bit computer,
and proofs of what they promise. Nothing here was executed: every statement is checked by Dafny's verifier.
`dafny verify dfyconfig.toml` checks the whole project.

The model keeps the form of the sources. Loops over limbs, digits, list links, array elements and buffers are methods
with loops and invariants; objects the sources update in place (big integers, the heap, a broken-down time, a stream and
its medium, the maze) are classes; each method is tied by its contract to a specification, and the main results are
lemmas about the specifications or contracts of whole runs. Machine integers are naturals and integers with the wrap,
cut or range of the source written out; bit operations on disjoint or aligned parts are sums, quotients and remainders.

## What is modelled

**Exact binary and decimal conversion** (`src/fconv64.c`, `src/fconv.c`, `src/fconv_big.h`, `src/strtox.c`,
`src/format.c`; IEEE 754-2008 sections 4.3.1 and 5.12.2). Both conversion files are one model, with a record of the
format's numbers (`Rounding.Format`: precision, bias, limbs, digits, exits) in place of the two sets of constants; `Sizes`
proves of both that no big integer is ever cut. The value of a bit pattern is a whole number of units of the smallest
subnormal, so correct rounding is a statement about integers: the pattern nearest a fraction, ties to even, infinity
standing for the next power of two. Modules, from below: `Limbs`, `LimbArithmetic`, `BigInts` (the limb loops against
natural numbers), `Rounding`, `Reading` (restoring division and rounding), `Numerals`, `DecimalReading`, `BinaryReading`,
`Digits`, `Printing`, `DigitRounding`, `DigitsOf` (exact digits and their rounding), `RoundTrip`, `Places`, `RealText`
(the grammar of a number in a text), `Scanning`, `StringToReal` (`strtod` and `strtof` from text to pattern),
`Saturation`, `TextOf`, `FloatText`, `HexText` (`%e` and `%a`, and both round trips through text).

**The allocator** (`src/malloc.c`). Memory is an array of cells by address, headers and links being words at their own
4-aligned address and payloads bytes; a ghost shape says which blocks there are and ghost lists which are filed where.
`SizeClasses`, `HeapShape`, `HeapHeaders`, `HeapPayloads`, `HeapLists` and `HeapState` are about values; `Malloc` holds
the class `Heap` with the allocator's functions, each proved to take a valid state to a valid state, to succeed exactly
when it has room, and to leave every other live payload as it was. `HeapRuns` proves of any run of calls that the heap
behaves as a memory of separate byte strings and that `heap_check` returns 0. The heap limit is any value at each call.
`HeapChecks` is about `heap_check` on any memory at all, damaged or not: what it means that nothing is found.

**Introsort** (`src/qsort.c`; modules `Ordering`, `Introsort`), **LZ4 blocks** (`tools/mkpack.js`, `src/ceres/lz.c`;
`Lz4`, `Lz4Blocks`), **the calendar** (`src/time.c`; `Calendar`, `CalendarTime`), **buffered streams** (`src/file.c`;
`Media`, `Stdio`, `StdioRuns`), **the reduction of large arguments** (`src/math64.c`, `src/math.c`; `PayneHanek`), **the
maze** (`examples/maze.c`; `Passages`, `Maze`), **pictures into tiles** (`tools/img2tiles.js`; `Palettes`, `Tiles`) and
**checked arithmetic** (`include/stdckdint.h`; `CheckedArithmetic`; C23 section 7.20).

## Where the code and its documentation part

The model follows the code, and each of these is proved.

- A written exponent keeps six digits (`src/strtox.c:272,363`). With enough digits before it a text then reads as another
  number: `Saturation.SaturationShows` says exactly when, `Saturation.LongReadsZero` shows one.
- A request for decimal places is cut to 780, or 120 of a float (`src/fconv64.c:119-120`, `src/fconv.c:123-124`: "past
  every digit there is"), though values have up to 1074, or 149, binary places: `Places.PlacesClamp`,
  `Places.SmallestDoubleIsCut`.
- `mktime` does not keep "the same bound gmtime keeps" (`include/time.h:50-51`): its guard on the year comes first, and
  refuses fields whose day `gmtime` takes: `CalendarTime.YearBoundIsStricter`; `CalendarTime.Mktime` has the exact bound.
- `largest_free` is not always "the biggest single request that fits without growing" (`include/ceres/heap.h:34`): the
  size is rounded up before the lists are searched. `Malloc.LargestFree` says exactly when a request for it has to move
  the top, and `Malloc.LargestMayNotFit` runs into such a heap: 136 bytes, 8 bytes, and the first block given back.
- That `heap_check` finds nothing does not mean that "the lists hold exactly the free blocks" (`src/malloc.c:669-673`): it
  takes any address in the heap with the flag of a free block for one. `HeapChecks.ForgedPasses` has such a heap,
  `HeapChecks.FiledExactly` says exactly when the lists do, and `HeapChecks.PassesExactly` what else is not looked at.
- `floor_div(mon, 12) * 12` of `mktime` (`src/time.c:184`) is past an `int` for the eight earliest values of `tm_mon`:
  `CalendarTime.WholeYearsFit`, `CalendarTime.WholeYearsOverflow`. C leaves that open; the model wraps, as the machine's
  arithmetic does, and then the result is right all the same: `CalendarTime.MonthLeft`, `CalendarTime.Mktime`.
- A seek that fails has already dropped the pushed-back character and what was read ahead (`src/file.c:716-722`):
  `Stdio.Stream.Fseek` says exactly that.

## Model

| member | source | states |
|---|---|---|
| `BigInts.Big.Set` | src/fconv_big.h:13-17 | sets the number to one 32-bit word, whatever it was |
| `BigInts.Big.SetLong` | src/fconv64.c:37-40 | sets the number to a 64-bit value as two limbs |
| `BigInts.Big.Copy` | src/fconv_big.h:19-24 | the same number, the other object untouched |
| `BigInts.Big.MulSmall` | src/fconv_big.h:26-37 | the limb loop multiplies the number, and only a product past the capacity is cut |
| `BigInts.Big.AddSmall` | src/fconv_big.h:39-53 | the carry loop adds, growing by a limb where the carry leaves the top |
| `BigInts.Big.Shl` | src/fconv_big.h:55-73 | limbs moved and split by a shift of any size: times 2^k, cut at the capacity |
| `BigInts.Big.Shr1` | src/fconv_big.h:75-84 | half the number, rounded down, without leading zero limbs |
| `BigInts.Big.Cmp` | src/fconv_big.h:86-94 | compares the numbers though it only compares lengths and limbs |
| `BigInts.Big.Sub` | src/fconv_big.h:96-109 | the borrow loop subtracts a number that is not larger |
| `BigInts.Big.Bits` | src/fconv_big.h:111-116 | how many bits the number has: between 2^(bits - 1) and 2^bits |
| `BigInts.Big.DivModSmall` | src/fconv_big.h:118-131 | long division from the top limb: quotient left in place and the remainder returned |
| `BigInts.Big.MulPow` | src/fconv_big.h:133-145 | times base^k, by chunks and a rest, as long as the product fits |
| `BigInts.Big.MulPow10` | src/fconv_big.h:147 | times 10^k |
| `BigInts.Big.MulPow5` | src/fconv_big.h:148 | times 5^k |
| `Sizes.Binary64Sized` | src/fconv64.c:9-10 | 132 limbs, 780 digits, 90 chunks and the exits at 10^310 and 10^-325 meet the inequalities by which no intermediate number of the double conversions is ever cut |
| `Sizes.Binary32Sized` | src/fconv.c:13-14 | the same of 40 limbs, 120 digits and the exits of the float conversions |
| `Rounding.Format.NearestUnique` | src/fconv64.c:177 | at most one pattern is nearest, ties to even: the specification fixes the result |
| `Rounding.Format.OverflowThreshold` | src/fconv64.c:190-195 | infinity is nearest exactly from halfway between the largest finite value and the next power of two |
| `Rounding.Format.RoundAtIsNearest` | src/fconv64.c:196-200 | deciding at the midpoint of two neighbours, ties to even, gives the pattern nearest among all |
| `Reading.ScaledQuotient` | src/fconv64.c:152-175 | restoring division bit by bit gives floor(num 2^s / den) and whether anything is left |
| `Reading.RoundNormal` | src/fconv64.c:196-211 | rounding the quotient, with a carry into the exponent and out to infinity, gives the pattern of the rounded significand |
| `Reading.NearestOf` | src/fconv64.c:177-223 | the pattern nearest num/den, ties to even, in the normal and the subnormal range, and ERANGE just on overflow or inexact underflow |
| `DecimalReading.Numerator` | src/fconv64.c:245-263 | digits gathered into a number that never reaches the capacity |
| `DecimalReading.DroppedDigitsDoNotMatter` | src/fconv.c:8-10 | between two neighbouring decimals of 780 (120) digits every number rounds alike and none exactly: no midpoint lies there |
| `DecimalReading.Truncate` | src/fconv64.c:246-263 | digits past the limit, as a digit 1, leave the rounding what it was |
| `DecimalReading.Decimal` | src/fconv64.c:225-270 | for every digit string, exponent and sticky flag the value nearest the number they stand for, ties to even, and ERANGE exactly when due |
| `BinaryReading.TopBit` | src/fconv64.c:276-278 | the highest set bit |
| `BinaryReading.DroppedBitsStandFor` | src/strtox.c:253-257 | bits past the sixtieth never change the quotient the rounding is made from |
| `BinaryReading.Binary` | src/fconv64.c:272-299 | for every significand, exponent and sticky flag the nearest value, and ERANGE exactly when due |
| `Printing.Significand` | src/fconv64.c:22-36 | an odd significand, or an exponent of zero, with the value unchanged |
| `Printing.ExactDigits` | src/fconv64.c:18-72 | precisely the decimal expansion of m 2^e: no leading zero, at most 780 (120) digits, the right power of ten |
| `DigitRounding.RoundTo` | src/fconv64.c:74-107 | the first digits rounded to nearest even on all of them, with the carry into a new first digit |
| `DigitRounding.RoundEvenUnique` | src/fconv64.c:74 | the only integer within half a unit, and even at a tie, is the one the rounding gives |
| `DigitsOf.ToDigits` | src/fconv64.c:109-148 | the value rounded at the requested significant digit or decimal place up to the clamp, or no digits when it rounds to zero there |
| `Places.PlacesClamp` | src/fconv64.c:119-120 | every request for places is met if and only if the value has no more than 780 (120) binary places |
| `Places.SmallestDoubleIsCut` | src/fconv64.c:119-121 | a request the smallest double is not met in: all its 1074 places |
| `RoundTrip.EnoughDigitsReadBack` | src/fconv.c:172 | a value rounded to enough digits lies nearer it than any other value |
| `RoundTrip.NineSurvive` | src/fconv.c:172 | nine significant digits of any float read back as it |
| `RoundTrip.SeventeenSurvive` | src/fconv64.c:109-148 | and seventeen of any double |
| `RoundTrip.TryDigits` | src/fconv.c:159-166 | printing n digits and reading them gives the float exactly when its rounding to n digits reads back |
| `RoundTrip.Shortest` | src/fconv.c:155-173 | the fewest correctly rounded digits that read back, never more than nine |
| `Scanning.ReadCapped` | src/strtox.c:360-365 | the exponent digits kept: all of them below a million, else the six leading ones |
| `Scanning.ReadExponent` | src/strtox.c:352-369 | where the exponent ends, and what is kept of it; none, and the place before the letter, without a digit |
| `Scanning.ScanDigits` | src/strtox.c:319-351 | digits kept, the power of ten still due and whether a dropped one is not zero stand for the whole mantissa; that power never exceeds the characters read |
| `Scanning.ScanHex` | src/strtox.c:230-260 | the same of hexadecimal digits and sixty bits of them; the power of two never exceeds four a character |
| `StringToReal.ScanReal` | src/strtox.c:286-375 | spaces, sign, words, "0x" with and without digits, mantissa and exponent as the grammar has them, and where the number ends; up to 2^28 characters no exponent leaves int |
| `StringToReal.Strtod` | src/strtox.c:404-428 | for every text: its end, sign and the value nearest the number it spells, with ERANGE exactly when due, as long as the exponent is below a million or the text below 20000 characters |
| `StringToReal.BothReadable` | src/fconv64.c:9-12 | the numbers of both formats meet what the conversion of text asks of a format |
| `Saturation.TellsApart` | src/strtox.c:363 | two exponents far apart round the same digits alike only for zero, when even the smaller passes the overflow threshold or even the larger is at most half the smallest subnormal |
| `Saturation.SaturationShows` | src/strtox.c:360-366 | what is read is right if and only if the lost part of the exponent decides nothing |
| `Saturation.ReadExactly` | src/strtox.c:404-428 | strtod on every text, with that exact condition |
| `Saturation.LongReadsZero` | src/strtox.c:363 | a text that fails it: 0.00...01e+1000001 with a million zeros spells 1 and reads as 0 |
| `FloatText.UtoaTen` | src/format.c:103-117 | the decimal digits of a number, without leading zeros |
| `FloatText.ExponentTail` | src/format.c:257-266 | letter, sign and at least two digits that spell the exponent |
| `FloatText.LayOutE` | src/format.c:402-411 | the text of %e, whatever the width and flags, parses as its digits and exponent |
| `FloatText.FormatE` | src/format.c:340-427 | %e of every finite value spells the value rounded to precision + 1 significant digits, ties to even |
| `HexText.RoundPlaces` | src/format.c:294-310 | rounding the fraction to fewer hexadecimal digits, with the carry into the leading one, rounds the significand to nearest even |
| `HexText.ShownPlaces` | src/format.c:311-315 | dropping the zeros at the end loses nothing |
| `HexText.HexDigits` | src/format.c:327-328 | the nibbles of the fraction spell it |
| `HexText.FormatA` | src/format.c:271-333 | %a of every finite value spells exactly the value, or, in the exponent of its own leading 1, the value rounded to the precision asked for |
| `HexText.PrintThenRead` | src/format.c:340-427 | seventeen (nine) digits printed with %e, in any layout, read back as the same bits |
| `HexText.PrintHexThenRead` | src/format.c:268-333 | %a without a precision, or a large enough one, reads back as the same bits: subnormals and signed zeros too |
| `SizeClasses.BinMonotone` | src/malloc.c:75-82 | a larger size is never in a lower class |
| `SizeClasses.BinRange` | src/malloc.c:60-66 | the 208 lists cover exactly the payloads below 2^31 |
| `SizeClasses.GoodFit` | src/malloc.c:101-107 | every size in a class at or above the rounded size's is large enough |
| `SizeClasses.RoundingIsSmall` | src/malloc.c:105-106 | rounding up costs less than an eighth |
| `SizeClasses.RoundingStays` | src/malloc.c:105-107 | the class looked in is the size's own exactly when the size is the first of its class |
| `HeapShape.JoinedTiles` | src/malloc.c:259-263 | joining a block with the one above it leaves the blocks tiling the heap |
| `HeapShape.SplitTiles` | src/malloc.c:279-281 | so does splitting one |
| `HeapShape.RaisedTiles` | src/malloc.c:213-221 | and raising the last one with the top |
| `HeapShape.ReleaseShape` | src/malloc.c:256-272 | merging on both sides leaves no two free blocks adjacent and every other used block used |
| `HeapLists.CutLinked` | src/malloc.c:86-92 | taking any block out of a list leaves every list linked both ways |
| `HeapLists.FrontLinked` | src/malloc.c:245-250 | so does putting one at the front |
| `HeapLists.FirstInLevel` | src/malloc.c:112-121 | the lowest set bit names the first list from the class on that holds a block |
| `HeapState.UnlinkStep` | src/malloc.c:84-99 | one step on the whole state: lists, links and bitmaps agree again without the block |
| `HeapState.PushStep` | src/malloc.c:245-252 | and with it |
| `HeapState.SplitStep` | src/malloc.c:279-281 | headers describe the two blocks of a split and no payload changes |
| `HeapState.TakeStep` | src/malloc.c:404-407 | headers describe a block taken into use |
| `Malloc.Heap.UnlinkFree` | src/malloc.c:84-99 | the block leaves its list and, with the last of it, the bitmaps; only link words change |
| `Malloc.Heap.Insert` | src/malloc.c:234-253 | the block becomes free in the header above it and the first of its list |
| `Malloc.Heap.AbsorbNext` | src/malloc.c:258-263 | a free block above is merged |
| `Malloc.Heap.AbsorbPrev` | src/malloc.c:264-270 | a free block below is merged |
| `Malloc.Heap.Release` | src/malloc.c:255-272 | the block is used no more, nothing else changes hands, and the heap is at rest again; a block between used ones only becomes free |
| `Malloc.Heap.Trim` | src/malloc.c:274-283 | cut to the size when the rest makes a block of its own, and its first bytes kept |
| `Malloc.Heap.Find` | src/malloc.c:101-122 | none exactly when every list at or above the rounded class is empty, else a free block of at least the size |
| `Malloc.Heap.MoveTop` | src/malloc.c:178-189 | moves the epilogue exactly when the limit allows it |
| `Malloc.Heap.Grow` | src/malloc.c:191-222 | a block at the top exactly when the last free block is large enough or the limit allows it; else nothing changes |
| `Malloc.Heap.StartHeap` | src/malloc.c:163-176 | an empty heap at the first call that has room for one |
| `Malloc.Heap.constructor` | src/malloc.c:126-128 | the heap before its first call |
| `Malloc.Heap.Take` | src/malloc.c:396-410 | a used block exactly when a list or the top has room |
| `Malloc.Heap.Malloc` | src/malloc.c:412-431 | a pointer exactly when 0 < n is not too large and there is room; 8-aligned, at least n bytes, not one of the live blocks, none of which changes |
| `Malloc.Heap.LiveBlock` | src/malloc.c:324-349 | true of every live pointer and of no other pointer to a block or outside the heap; into a block it goes by the words found there |
| `Malloc.Heap.Free` | src/malloc.c:433-461 | a live pointer is released and never reported; any other the headers do not vouch for, into a block too, changes nothing and is reported by its kind |
| `Malloc.Heap.GrowInPlace` | src/malloc.c:519-548 | grows into the free block above or past the top, the first bytes kept, or changes nothing |
| `Malloc.Heap.Resize` | src/malloc.c:512-554 | a block of the new size exactly when it fits where it is, can grow there or there is room elsewhere |
| `Malloc.Heap.Replace` | src/malloc.c:549-554 | a larger block elsewhere, exactly when there is room: the contents moved, the old block given back, or nothing changed |
| `Malloc.Heap.Realloc` | src/malloc.c:484-555 | no pointer, no size, a dead pointer, in place and moved: the first min(old, new) bytes kept, the original intact on failure, no other live block touched |
| `Malloc.Heap.TakeAligned` | src/malloc.c:578-602 | the front piece is cut off as a block of its own and the payload is a multiple of the alignment |
| `Malloc.Heap.AlignedAlloc` | src/malloc.c:557-602 | EINVAL exactly for what is no power of two; a pointer exactly when there is room for the worst case |
| `Malloc.Heap.UsableSize` | src/malloc.c:477-482 | the payload size of a live block, 0 otherwise |
| `HeapChecks.WalkDescribes` | src/malloc.c:669-671 | in any memory where the walk finds nothing wrong, the blocks it meets tile the span, no two free ones are adjacent, every header and foot says what it should, and it counts the free ones |
| `HeapChecks.FiledExactly` | src/malloc.c:669-673 | of any memory that passes: the lists hold exactly the free blocks, each in the list of its size, if and only if every listed address is that of a block |
| `HeapChecks.PassesExactly` | src/malloc.c:669-745 | a heap is sound exactly when it passes, only blocks are listed, and the epilogue and the bitmaps have no stray bits |
| `HeapChecks.ForgedPasses` | src/malloc.c:669-673 | a damaged heap that passes though its one free block is in no list |
| `Malloc.Heap.CheckBlocks` | src/malloc.c:679-718 | in any memory: 0 and the number of free blocks exactly when the walk finds nothing wrong, else the first block where it does |
| `Malloc.Heap.CheckList` | src/malloc.c:725-738 | in any memory: 0 exactly when head, bitmaps and links of a list are as they should be, else the first address where they are not |
| `Malloc.Heap.HeapCheck` | src/malloc.c:669-745 | in any memory: 0 exactly when it passes, the first bad block when a block is bad; 0 in every valid state |
| `Malloc.Heap.HeapStats` | src/malloc.c:620-646 | used and free bytes and a header for each block sum to the span of the heap; the largest free size is one |
| `Malloc.LargestFree` | include/ceres/heap.h:34 | nothing larger is had without moving the top, and that size exactly when it is the first of its class or the last block is free and has it |
| `Malloc.LargestMayNotFit` | include/ceres/heap.h:34 | a run that reaches a heap where it is not had: largest_free is 136, and malloc(136) fails unless the top may move |
| `Malloc.LiveDisjoint` | src/malloc.c:669-673 | live payloads do not overlap, are 8-aligned and lie between the first block and the epilogue |
| `Malloc.BelievedIs` | src/malloc.c:321-349 | the headers around a block vouch for it exactly if it is live; of a free block the verdict is a double free |
| `Malloc.AllFreed` | src/malloc.c:255-272 | with nothing live the heap is one free block |
| `HeapRuns.DoAllocate` | src/malloc.c:412-431 | malloc into a variable: a new byte string, or no change |
| `HeapRuns.DoAligned` | src/malloc.c:557-602 | aligned_alloc into a variable |
| `HeapRuns.DoResize` | src/malloc.c:484-555 | realloc of a variable |
| `HeapRuns.DoRelease` | src/malloc.c:433-461 | free of a variable |
| `HeapRuns.Step` | src/malloc.c:386-602 | any one call keeps the heap valid and every variable what it should hold |
| `HeapRuns.Run` | src/malloc.c:386-745 | any run of calls, under any limits, behaves as a memory of separate byte strings, and heap_check returns 0 at its end |
| `Introsort.Swap` | src/qsort.c:25-55 | exchanges two elements |
| `Introsort.Sorter.Compare` | src/qsort.c:18-23 | every comparison of the sort is a call of this method, which counts it |
| `Introsort.InsertionSort` | src/qsort.c:57-63 | sorts, calling the comparator at most n (n - 1) / 2 times |
| `Introsort.SiftDown` | src/qsort.c:65-81 | makes a heap of a root over two heaps, with at most 2 log2 n calls |
| `Introsort.RootIsLast` | src/qsort.c:88-90 | the root of a heap is its last element in order |
| `Introsort.HeapSort` | src/qsort.c:83-93 | sorts, with at most (n / 2 + n) 2 log2 n calls |
| `Introsort.ParkMedian` | src/qsort.c:106-115 | the median of three is the pivot, and both ends are sentinels; three calls |
| `Introsort.ScanUp` | src/qsort.c:120 | the scan stops at a sentinel at the latest, after one call a step |
| `Introsort.ScanDown` | src/qsort.c:121 | so does the other |
| `Introsort.Partition` | src/qsort.c:106-126 | the pivot in its final place, nothing after it before and nothing before it behind, with at most n + 2 calls |
| `Introsort.IntroSort` | src/qsort.c:95-133 | sorts within the budget of its depth, with at most log2 n calls of itself nested |
| `Introsort.Sort` | src/qsort.c:135-141 | for every total preorder: a sorted rearrangement, at most 13 n log2 n calls of the comparator, at most log2 n calls nested |
| `Lz4.PutLength` | tools/mkpack.js:35-38 | the length extension of the format: bytes of 255 and a rest |
| `Lz4.Sequence` | tools/mkpack.js:39-53 | one sequence of the format: token, lengths, literals, offset |
| `Lz4.MatchLength` | tools/mkpack.js:62-63 | the longest repetition up to the limit, however it overlaps itself |
| `Lz4.Compress` | tools/mkpack.js:29-71 | a block that expands to the input, ends with five literals, starts no match in the last twelve bytes and has at most n + n / 255 + 16 bytes |
| `Lz4.ReadLength` | tools/mkpack.js:79 | reads a length extension back |
| `Lz4.CopyMatch` | tools/mkpack.js:88 | byte by byte, an overlapping match is the repetition it stands for |
| `Lz4.Decompress` | tools/mkpack.js:73-92 | every well-formed block is expanded, and refused exactly when the size is another |
| `Lz4.RoundTrip` | tools/mkpack.js:28-92 | decompressing what was compressed gives every byte string back |
| `Lz4Blocks.DecodedIs` | src/ceres/lz.c:22-81 | the bytes that read as making a result are exactly the blocks that spell it, whatever the last token says of a match |
| `Lz4Blocks.OneMeaning` | src/ceres/lz.c:22-81 | a block makes one thing of what is in front of it |
| `Lz4Blocks.ReadMore` | src/ceres/lz.c:34-44 | a length extension, or that it is cut short, or that it is past what there is room for |
| `Lz4Blocks.Repeat` | src/ceres/lz.c:75-78 | the match byte by byte, overlapping itself or not, and nothing past it |
| `Lz4Blocks.Decode` | src/ceres/lz.c:20-81 | of any bytes whatever: it succeeds exactly for a block with room for what it makes, leaves that and touches nothing else; a block too long is reported as such |
| `Lz4Blocks.PackThenDecode` | src/ceres/lz.c:83-86 | what the tools compress the library reads back, byte for byte, into any room that holds it |
| `Calendar.FloorDiv` | src/time.c:133-143 | the floor of a quotient from the truncated one |
| `Calendar.DaysOfCivil` | src/time.c:109-131 | every day count has a date of the calendar, which leads back to it |
| `Calendar.CivilOfDays` | src/time.c:109-131 | every date of the calendar has a day count, which leads back to it |
| `Calendar.NextDay` | src/time.c:123-131 | the next date of the Gregorian calendar is one day further |
| `Calendar.Successor` | src/time.c:105-121 | day by day the dates follow the Gregorian calendar, from 1970-01-01 at 0 |
| `CalendarTime.Civil` | src/time.c:109-121 | the same in 32-bit arithmetic, nothing overflowing within 2,000,000,000 days |
| `CalendarTime.Days` | src/time.c:123-131 | and back, within 5,800,000 years |
| `CalendarTime.GmtimeR` | src/time.c:149-171 | the fields show the instant, each in its range; refused exactly past the bound, and then untouched |
| `CalendarTime.Mktime` | src/time.c:179-205 | the instant arbitrary fields mean, shown normalized; refused exactly when the year or the day is past its bound |
| `CalendarTime.WholeYearsFit` | src/time.c:184 | the months of whole years fit an int exactly for tm_mon from -2147483640 on |
| `CalendarTime.WholeYearsOverflow` | src/time.c:184 | at the earliest tm_mon they come to -2147483652 |
| `CalendarTime.MonthLeft` | src/time.c:183-184 | with wrapping arithmetic the month of the year is right even there |
| `CalendarTime.ShownIsMeant` | src/time.c:149-205 | fields that show an instant mean it |
| `CalendarTime.ShownOnce` | src/time.c:203 | and there is only one way to show it: the fields are normalized |
| `CalendarTime.ThereAndBack` | src/time.c:149-205 | mktime of gmtime_r is the instant again |
| `CalendarTime.YearBoundIsStricter` | include/time.h:48-51 | fields mktime refuses though the day they mean is one gmtime takes: the bounds are not the same |
| `Media.Medium.Read` | src/file.c:493 | the medium: some of what is there, none only at the end |
| `Media.Medium.Write` | src/file.c:102 | the medium: some of what is given, at least a byte |
| `Media.Medium.Seek` | src/file.c:721 | the medium: to a place that is not negative, else nowhere |
| `Stdio.Stream.constructor` | src/file.c:138-140 | a stream before its first call |
| `Stdio.Stream.RawWrite` | src/file.c:98-110 | however short the writes, all of the bytes in their place |
| `Stdio.Stream.Flush` | src/file.c:113-123 | what is held back reaches the medium, and the program sees no difference |
| `Stdio.Stream.DropReadAhead` | src/file.c:125-136 | what was read ahead is given back, and the program sees no difference |
| `Stdio.Stream.BufferOf` | src/file.c:138-140 | a buffer, or none without memory for it |
| `Stdio.Stream.Fputc` | src/file.c:346-363 | the byte where the program is, in every mode |
| `Stdio.Stream.WriteBytes` | src/file.c:390-422 | the bytes where the program is, copied, straight through or both |
| `Stdio.Stream.OpsGetc` | src/file.c:478-507 | the next byte the program sees |
| `Stdio.Stream.Fgetc` | src/file.c:509-547 | as on the bare file, pushed-back character and end of file included |
| `Stdio.Stream.Ungetc` | src/file.c:554-561 | one character is taken back, and the end of file forgotten |
| `Stdio.Stream.OpsRead` | src/file.c:582-632 | as on the bare file, from the buffer, straight and through it |
| `Stdio.Stream.Fseek` | src/file.c:703-725 | to where the program asked from where it is; a seek that fails has lost exactly the pushed-back character and the bytes read ahead |
| `Stdio.Stream.Ftell` | src/file.c:752-763 | where the program is, though the medium is elsewhere |
| `Stdio.Stream.Fflush` | src/file.c:113-136 | the medium is where the program is and holds what it wrote |
| `StdioRuns.Step` | src/file.c:346-771 | any one call gives the answer, and leaves the file, the bare file would |
| `StdioRuns.Run` | src/file.c:113-771 | any run of calls, any buffer size and mode, however short the reads and writes: the same answers, bytes and positions as on the bare file |
| `PayneHanek.HeadNext` | src/math64.c:369-377 | a window is the next 32 bits of the table |
| `PayneHanek.HeadIsFloor` | src/math64.c:368-377 | the bits before a place of the table are the floor of its value there |
| `PayneHanek.Product` | src/math64.c:388-411 | the limb loop is the product of the significand and the window |
| `PayneHanek.WindowsNear` | src/math64.c:379-382 | skipped high bits add multiples of 4 and the bits left out little: a window stands for the whole product modulo 4 |
| `PayneHanek.Negate` | src/math64.c:421-422 | the distance up to the next quadrant in two words |
| `PayneHanek.Normalize` | src/math64.c:435-441 | the fraction moved up until its top bit is set |
| `PayneHanek.ToNearest` | src/math64.c:412-441 | the quadrant and the signed fraction say what the product's bits say |
| `PayneHanek.Reduce64` | src/math64.c:379-441 | for every positive normal double: x times the tabulated 2/pi modulo 4, with an error below 2^-127 |
| `PayneHanek.Reduce32` | src/math.c:42-75 | for every positive normal float, with an error below 2^-63 |
| `Passages.OnePath` | examples/maze.c:7-8 | cells hung one by one on others have at most one path between any two |
| `Passages.Connected` | examples/maze.c:7-8 | and one |
| `Passages.PathIsShortest` | examples/maze.c:80-81 | which no walk is shorter than |
| `Maze.OpenTwo` | examples/maze.c:74-75 | knocking down a wall hangs the door on the room and the new room on the door, and on nothing else |
| `Maze.Reached` | examples/maze.c:45-46 | when the walk is back where it began every room has been reached |
| `Maze.RoomsFit` | examples/maze.c:49 | the stack holds as many cells as there are rooms |
| `Maze.Field.Options` | examples/maze.c:60-67 | exactly the directions with a new room |
| `Maze.Field.Dig` | examples/maze.c:47-78 | whatever the random choices: it ends, within its stack, and the open cells are a tree that spans all the rooms |
| `Maze.ExactlyOneWay` | examples/maze.c:7-8 | exactly one path between any two open cells of a dug maze |
| `Maze.Finds` | examples/maze.c:97-101 | a cell seen for the first time has room in the queue, which holds each cell once |
| `Maze.AllFound` | examples/maze.c:90-102 | a queue that runs dry has found every room |
| `Maze.Field.Search` | examples/maze.c:83-102 | the goal is found, each cell from one found before it |
| `Maze.Field.Return` | examples/maze.c:103-105 | going back along came_from ends at the start, in a path |
| `Maze.Field.Reverse` | examples/maze.c:106-111 | turned round in place |
| `Maze.Field.FindWay` | examples/maze.c:80-112 | the way is the only path to the goal, and no walk there is shorter |
| `Maze.Field.NewGame` | examples/maze.c:45-112 | of any maze that is dug |
| `Palettes.Listed` | tools/img2tiles.js:199-201 | new colours after the old ones, each once, in the order they first appear in the block |
| `Palettes.BestBank` | tools/img2tiles.js:183-193 | of the banks with room the one that shares most with the block, the first of several; a new one just when none has room |
| `Palettes.ShareBanks` | tools/img2tiles.js:176-203 | every block finds its colours in its bank, none of more than 15; refused exactly for a block of more than 15, or when the colours fill too many banks of which no two could be one |
| `Palettes.BanksPalette` | tools/img2tiles.js:217-222 | each bank in its sixteen entries, a clear one first |
| `Palettes.Index8` | tools/img2tiles.js:207-215 | one palette; refused exactly for more than 255 colours |
| `Palettes.Index4` | tools/img2tiles.js:216-224 | banks of sixteen; refused for a block or for such an overflow of banks |
| `Palettes.Index` | tools/img2tiles.js:205-225 | every number, looked up in its bank, is the colour it was made from |
| `Tiles.Block` | tools/img2tiles.js:162-172 | a square of the picture, clear where it is transparent or has the key colour |
| `Tiles.Pack` | tools/img2tiles.js:227-233 | unpacking gives every number back |
| `Tiles.FlipPixels` | tools/img2tiles.js:235-241 | a tile turned round either way or both |
| `Tiles.FlippedTwice` | tools/img2tiles.js:265-269 | turning it the same way again gives it back |
| `Tiles.FindTile` | tools/img2tiles.js:261-269 | an entry that draws these pixels, or none when no known tile is them, however turned |
| `Tiles.AddTile` | tools/img2tiles.js:259-277 | the square's tile is kept or found, with the bank it needs |
| `Tiles.MapTiles` | tools/img2tiles.js:254-278 | every entry draws its square, and with deduplication no tile is kept twice, turned or (without --no-flip) not |
| `Tiles.Pad` | tools/img2tiles.js:280-285 | the map in the corner of a wider one, empty everywhere else |
| `Tiles.AllBytes` | tools/img2tiles.js:287-288 | tile after tile, packed |
| `Tiles.MakeTiles` | tools/img2tiles.js:245-294 | when it succeeds the layer shows every pixel of the picture in its colour, and nothing beside it, whatever was deduplicated and flipped |
| `CheckedArithmetic.FromOperand` | include/stdckdint.h:31-50 | sign and magnitude of any operand, the most negative one included |
| `CheckedArithmetic.AddIsExact` | include/stdckdint.h:52-75 | the sum, and `big` exactly from 2^64 on |
| `CheckedArithmetic.SubIsExact` | include/stdckdint.h:77-82 | the difference |
| `CheckedArithmetic.MulIsExact` | include/stdckdint.h:84-104 | the product from its halves, told apart from one that fits up to 128 bits |
| `CheckedArithmetic.IntType.ConvertedIs` | include/stdckdint.h:9-13 | converting drops a multiple of the type's size and keeps what the type holds |
| `CheckedArithmetic.IntType.OneValue` | include/stdckdint.h:9-13 | and no other value of the type would do |
| `CheckedArithmetic.CheckedIsExact` | include/stdckdint.h:117-136 | for all operands and every type of result: the exact result wrapped to the type, and overflow just when it does not fit |

## Left out

- `%f` and `%g`, and the infinities and NaNs, of `fmt_float`; of `%e` and `%a` all precisions, widths and flags are there.
  Fetching arguments, the sink and the rest of `vformat` are not modelled: a conversion makes a string.
- RoundTrip.Shortest: the fewest digits among the correctly rounded candidates, the only ones the code tries; a shorter
  decimal that is not one of them is not excluded.
- Malloc.Heap.LiveBlock: of a pointer into the middle of a block it goes by the words there, as the source says. What
  `free` and `realloc` do with one before which the program has itself written the words of a header is not described.
- Malloc.Heap.HeapCheck: of any memory, list heads and bitmaps, but the two variables that bound the heap are taken to
  be multiples of 8, in order and within memory. Past the end of memory every word is 0.
- The heap's debug build, the error handler's abort (a reported pointer is an outcome), the stack-limit hooks, `calloc`,
  `posix_memalign` and `heap_dump`. `errno` is a result. A header or link word is one cell at its address and not
  four bytes: where `live_block` takes payload bytes for a word, the cell stands for whatever word they make.
- Introsort.Sort: of the elements of an array, compared by a function that is a total preorder. Element size, moving
  elements byte by byte or word by word, `qsort_r`'s context and a size of 0 are not modelled; calls of
  the comparator and nested calls are counted in ghost variables.
- Lz4.Decompress: of well-formed blocks; malformed input leaves JavaScript's undefined values in play. The library's
  own decoder, `Lz4Blocks.Decode`, is of all input; input and output do not overlap. Its frames, and its compressor,
  which is the tool's but for a hash table, are not modelled.
- The streams: media that fail, append streams, the terminal, memory streams, `setvbuf`, and the byte count of `fread` and
  `fwrite` as a product of two sizes. A seek that
  fails is not part of a run of `StdioRuns`: what it loses depends on the buffer, as `Stdio.Stream.Fseek` says.
- StringToReal.ScanReal: past 2^28 characters the exponents are unbounded here, where the source's `int` could overflow.
- `strftime`, `asctime` and the time zone fields of the calendar.
- The reductions after the integer part: turning quadrant and fraction into floating-point numbers.
- The order `Palettes.ShareBanks` takes the blocks in is a parameter: it is JavaScript's sort by number of colours, and
  what is proved holds for every order. Reading PNG files, sprites, and writing C or assembly.
- Drawing the maze, and the walk of the game. Random choices are any choices.
- Device access, graphics, sound, the shell, tasks, containers and the polynomial kernels of the mathematical functions.
