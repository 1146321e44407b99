# Numeric, storage and memory invariants of the ejs runtime and compiler

A Dafny model of five parts of ejs, an ahead-of-time JavaScript compiler with its C runtime, and proofs that each
of these loop-and-update implementations agrees with a much simpler mathematical object.

- **BigInt numerics** (`Digits`, `BigInts`, `Doubles`, `BigIntDoubles`). A BigInt is a cell of 64-bit digits and a
  sign. Its operators compute on unbounded integers; conversion to a double is correct rounding, conversion from
  one is exact, and comparison with one is the true order. `Doubles` holds binary64 as m * 2^e and the rounding of
  section 4.3.1 of IEEE 754-2019.
- **Array elements and the algorithms over them** (`Elements`, `Arraylets`, `Arrays`, `Splicing`, `Quicksort`,
  `Flatten`). A dense buffer with holes and stale slack and a sorted list of 512-element arraylets are both the
  same abstract state, a length and a partial map, kept as a sequence of slots; `splice`, `toSpliced`, the sort and
  `flat` are proved against that state.
- **The memory protocol the compiler emits** (`NanBox`, `GcFrames`, `SizeClasses`, `EnvAlloc`). Memory is an
  array of 64-bit words, and the emitted code is methods on it: the chain of collector frames under calls, returns
  and throws, and the inline allocation of closure environments, which must equal the runtime's own.
- **A cache and a shared memory** (`Properties`, `Arguments`, `Truncation`, `Atomics`). The arguments object's side
  buffer answers for its property map; atomic operations work on the bytes of a block that only grows.
- **The AST visitor's in-place list transform** (`NodeVisitor`).

`Arith` and `Options` are shared helpers. Classes and arrays stand for what the source updates in place; each
method is proved against a function of its arguments and of the old state, and the lemmas are about those
functions. What those functions compute is stated again without them: slices for `splice`, the comparator's own
answers for the sort, level-by-level opening for `flat`, present and absent properties, bits and residues for the
atomic operations. Lengths, widths, wrap-around and truncation follow the source: 64-bit digits and words, int conversions
in `splice`, 8- to 64-bit elements, a limit of 2^20 digits.

Some properties do not hold for everything one might expect, and are proved with their exact conditions:

- `splice` narrows its integer arguments to int before clamping and `toSpliced` clamps in doubles. Wherever the
  narrowed start stays inside the array, the two make the same edit of every array of a length exactly for the
  arguments `Agreeable` describes (`SpliceAgreesIff`); a start of 2^32 is not among them
  (`WrappedResultsDiffer`).
- The partition tests `cmp < 1`, so a comparator with consistent signs on some elements sorts every array of them
  exactly if it never answers strictly between 0 and 1 for two of them (`SortsEveryArrayIff`).
- An emitted catch handler relinks a frame record only if its function has one, so after a throw the chain head is
  right exactly if the catcher owns a record or no discarded activation did (`Machine.Throw`); `LosingThrow` is a
  run that loses it.
- The collector keeps a cell size in an int, so its size class is the emitter's exactly up to 2^28 - 2 slots
  (`RuntimeClassIff`).
- A power is refused by the lengths of the factors its loop multiplies: every power past 2^20 digits, none below,
  and at that length exactly those `Refused` describes (`Pow`, `RefusedLengths`).

Two branches of the code are shown to be unreachable: the fractional tie of the comparison with a double
(runtime/ejs-bigint.cpp:540-544), and the mirroring store of the arguments object's set
(runtime/ejs-arguments.c:219-223), because every store into an own index property has already gone through the
define hook, which marks the object overridden. The -1 kept for a negative shift that rounds to nothing
(runtime/ejs-bigint.cpp:510-512) is not needed either.

## Model

| member | source | states |
|---|---|---|
| Doubles.RoundIsNearest | runtime/ejs-bigint.cpp:135-177 | the reference rounding the conversion is proved against is section 4.3.1 of IEEE 754-2019, for every integer: no double is nearer, ties go to the even one, infinity exactly from the overflow threshold up |
| Doubles.NearestEvenUnique | runtime/ejs-bigint.cpp:135-177 | that description has one answer, so any other rounding would break it |
| Doubles.OverflowValue | runtime/ejs-bigint.cpp:135-177 | the overflow threshold is 2^1024 - 2^970 |
| Doubles.RoundMonotone | runtime/ejs-bigint.cpp:529-551 | rounding never reverses the order of two integers |
| Doubles.RoundOrder | runtime/ejs-bigint.cpp:529-551 | a strict order between a rounded integer and a double is the true order; otherwise the double is the rounded integer itself |
| Doubles.FiniteBelowOverflow | runtime/ejs-bigint.cpp:101-125 | every finite double lies below the overflow threshold |
| BigInts.BigInt.constructor | runtime/ejs-bigint.cpp:41-51 | a new cell has the asked-for length, sign 0 and its own digits, whose contents are unspecified |
| BigInts.Alloc | runtime/ejs-bigint.cpp:41-51 | allocation throws "too big" exactly past 2^20 digits |
| BigInts.BigInt.Canonicalize | runtime/ejs-bigint.cpp:59-68 | the value is kept, with the sign given; no leading zero digit is left and zero is never negative |
| BigInts.NewFromUint64 | runtime/ejs-bigint.cpp:76-83 | the cell is canonical and has the value of the 64-bit integer |
| BigInts.NewFromInt64 | runtime/ejs-bigint.cpp:85-99 | the cell is canonical and has the value of every 64-bit signed integer, the least one included |
| BigInts.CellBounds | runtime/ejs-bigint.cpp:59-68 | for a canonical cell, length 0, the sign bit and the top digit are what the value says |
| BigInts.Mul | runtime/ejs-bigint.cpp:305-319 | a result is canonical and is the product; the RangeError comes exactly when both are nonzero and the digits of their values add up past the limit |
| BigInts.CellLength | runtime/ejs-bigint.cpp:59-68 | a canonical cell has as many digits as its value takes |
| BigInts.ProductCount | runtime/ejs-bigint.cpp:305-319 | a product takes as many digits as its factors together, or one less |
| BigInts.Neg | runtime/ejs-bigint.cpp:387-398 | the result is canonical and has the opposite value |
| BigInts.Shl | runtime/ejs-bigint.cpp:464-483 | multiplication by 2^n, floor division for negative n; refused exactly when a nonzero value would move past the digit limit; the recursion through Shr ends |
| BigInts.Shr | runtime/ejs-bigint.cpp:485-514 | floor division by 2^n for every sign of value and count, multiplication for negative n; the recursion through Shl ends |
| BigInts.ShiftOut | runtime/ejs-bigint.cpp:493-500 | once every bit is shifted out, the floor is 0 or, left of a negative value, -1 |
| BigInts.ShiftIsFloor | runtime/ejs-bigint.cpp:485-514 | the right shift is the floor: its multiple of 2^n is the greatest not above the value |
| BigInts.ShiftBack | runtime/ejs-bigint.cpp:464-514 | a right shift undoes the left shift of the same count |
| BigInts.FloorBySign | runtime/ejs-bigint.cpp:501-513 | floor division on sign and magnitude rounds a negative magnitude up |
| BigInts.ShrFits | runtime/ejs-bigint.cpp:501-508 | the rounded-up magnitude fits the result length, also when the carry needs a digit more |
| BigInts.ShiftFits | runtime/ejs-bigint.cpp:475-482 | a left shift fits the digits allocated for it |
| BigInts.ExpAdd | runtime/ejs-bigint.cpp:373-384 | the power of a sum of exponents is the product of the powers |
| BigInts.SquareStep | runtime/ejs-bigint.cpp:379-383 | the squaring half of a turn: a square too long for a cell means the power is refused; otherwise base, result and what is left of the exponent still make the power |
| BigInts.MultiplyStep | runtime/ejs-bigint.cpp:379-381 | the multiplying half: a product too long means the power is refused, and in the last turn exactly then |
| BigInts.Turn | runtime/ejs-bigint.cpp:379-383 | both halves together, whichever way the low bit of the exponent goes |
| BigInts.SquareAndMultiply | runtime/ejs-bigint.cpp:373-384 | the loop ends; its result is canonical and the exact power, or the power is one of those refused, and each of those is |
| BigInts.RefusedLengths | runtime/ejs-bigint.cpp:41-51 | every power of more than 2^20 digits is refused and none of fewer; at that length the two factors of the last multiplication decide |
| BigInts.CountOfProduct | runtime/ejs-bigint.cpp:305-319 | the digits of two powers and of their product |
| BigInts.EarlyRefusal | runtime/ejs-bigint.cpp:380-380 | a product refused in an earlier turn belongs to a power that is refused |
| BigInts.SquareRefusal | runtime/ejs-bigint.cpp:382-382 | so does a refused square |
| BigInts.LongExponentIsRefused | runtime/ejs-bigint.cpp:371-372 | a base other than 0, 1 and -1 raised to 2^64 or more is among the refused: the early error agrees with the loop |
| BigInts.UnitsAreNotRefused | runtime/ejs-bigint.cpp:364-370 | powers of 0, 1 and -1 never are |
| BigInts.ExpOfUnits | runtime/ejs-bigint.cpp:366-370 | powers of 1 and -1 by the parity of the exponent |
| BigInts.Pow | runtime/ejs-bigint.cpp:357-385 | for all operands: a result is canonical and the exact power; a negative exponent is the only cause of its error; "too big" is answered exactly for the refused powers, a condition on base and exponent alone |
| BigInts.Cmp | runtime/ejs-bigint.cpp:518-527 | the sign of the difference |
| BigIntDoubles.ToDouble | runtime/ejs-bigint.cpp:135-177 | for every canonical BigInt of any length, the nearest-even rounding of its value, including the carry to 2^53 and the infinities |
| BigIntDoubles.AnySet | runtime/ejs-bigint.cpp:157-158 | sticky exactly when a digit below is nonzero |
| BigIntDoubles.GatherTop | runtime/ejs-bigint.cpp:150-167 | the 64 most significant bits, across a digit boundary if need be, and whether anything nonzero lies below them |
| BigIntDoubles.TopWord | runtime/ejs-bigint.cpp:161-163 | the word or-ed together from two digits is their 64-bit window, and the bits shifted out are nonzero exactly when the remainder is |
| BigIntDoubles.WindowAligned | runtime/ejs-bigint.cpp:154-158 | a full top digit is the window |
| BigIntDoubles.WindowShifted | runtime/ejs-bigint.cpp:160-166 | two shifted digits are the window, and what they leave over is the rest of the value |
| BigIntDoubles.RoundWindow | runtime/ejs-bigint.cpp:168-176 | rounding at bit 11 of the window, with the sticky bit, is rounding the whole value |
| BigIntDoubles.TooManyBits | runtime/ejs-bigint.cpp:147-148 | more than 1024 bits round to infinity |
| BigIntDoubles.NewFromDouble | runtime/ejs-bigint.cpp:100-125 | for every finite integral double, a canonical BigInt with exactly the double's value |
| BigIntDoubles.StoreMantissa | runtime/ejs-bigint.cpp:111-124 | a 53-bit mantissa laid over one or two digits is mantissa * 2^shift, and fits the chosen length |
| BigIntDoubles.MantissaDigits | runtime/ejs-bigint.cpp:117-123 | when one digit is enough and how the bits split when it is not |
| BigIntDoubles.IntOfUnits | runtime/ejs-bigint.cpp:100-125 | the integer of an integral double has the double's value |
| BigIntDoubles.IntegralIff | runtime/ejs-bigint.cpp:100-100 | the integral doubles are exactly those whose value is an integer's |
| BigIntDoubles.RoundTrip | runtime/ejs-bigint.cpp:100-177 | converting an integral double to a BigInt and back gives the double |
| BigIntDoubles.BelowMantIff | runtime/ejs-bigint.cpp:106-110 | which integral doubles are below 2^53 |
| BigIntDoubles.RoundIsIntegral | runtime/ejs-bigint.cpp:538-548 | a rounded integer is integral, and is the integer itself below 2^53: the fractional tie cannot happen |
| BigIntDoubles.CmpDouble | runtime/ejs-bigint.cpp:529-551 | for every BigInt and every double but NaN: -1 exactly if the integer is below the double, 1 exactly if it is above, even where it rounds onto it, and the infinities at the ends; 2 for NaN |
| Elements.AbsentUntilStored | runtime/ejs-array.c:3413-3766 | an absent index stays absent over any run that stores nothing there |
| Elements.StaleSlackStaysHidden | runtime/ejs-array.c:3557-3579 | in the abstract state, what a length shrink drops never comes back, whatever grows the array again |
| Elements.RunSnoc | runtime/ejs-array.c:3413-3766 | a run and one operation more |
| Elements.StepSlots | runtime/ejs-array.c:3510-3766 | what each operation leaves in every slot, and the length |
| Elements.ReplySlots | runtime/ejs-array.c:3413-3623 | what a read or presence test answers for every slot |
| Elements.HollowedSlots | runtime/ejs-array.c:3679-3699 | the same for an accessor define |
| Elements.PresentIsExact | runtime/ejs-array.c:3382-3411 | the listing the name walk is compared with is strictly ascending and has exactly the present indices |
| Arraylets.NoOverlap | runtime/ejs-array.c:3314-3320 | chunks aligned and in strict order never overlap |
| Arraylets.LookupCovered | runtime/ejs-array.c:3339-3340 | an index in a chunk has that chunk's slot, whatever other chunks there are |
| Arraylets.LookupUncovered | runtime/ejs-array.c:3342-3343 | an index in no chunk is a hole |
| Arraylets.WriteSlot | runtime/ejs-array.c:3549-3552 | writing one slot of a chunk changes the map at that index alone |
| Arraylets.InsertEmpty | runtime/ejs-array.c:3345-3361 | inserting an all-hole chunk where the search ended keeps the order and the map |
| Arraylets.InsertOrdered | runtime/ejs-array.c:3345-3361 | the list stays strictly sorted, aligned and 512 long |
| Arraylets.DropLast | runtime/ejs-array.c:3368-3374 | dropping the last chunk at or past n loses only indices from n up |
| Arraylets.OnlyLastStraddles | runtime/ejs-array.c:3375-3378 | only the last surviving chunk can straddle the new length |
| Arraylets.ClearTail | runtime/ejs-array.c:3375-3378 | clearing its tail makes every index from n up a hole and no other |
| Arraylets.GapIsHole | runtime/ejs-array.c:3391-3401 | between chunks there is nothing |
| Arrays.LookupAfterSearch | runtime/ejs-array.c:3329-3343 | the end of the binary search decides whether the index has a slot, and which |
| Arrays.EJSArray.constructor | runtime/ejs-array.c:205-243 | n holes, sparse exactly past the cutoff of 50000 |
| Arrays.NewArray | runtime/ejs-array.c:205-243 | a fresh array of n holes |
| Arrays.EJSArray.MaybeRealloc | runtime/ejs-array.c:253-264 | room for the index, the same visible elements, whatever the new slack holds |
| Arrays.EJSArray.FillHoles | runtime/ejs-array.c:3539-3544 | holes from the length up to n, nothing else changed |
| Arrays.EJSArray.Find | runtime/ejs-array.c:3326-3343 | the chunk that covers an index, exactly when there is one, and the map's slot in it |
| Arrays.EJSArray.FindOrCreate | runtime/ejs-array.c:3326-3362 | a chunk covers the index afterwards, the map is as before, the list in order |
| Arrays.EJSArray.Insert | runtime/ejs-array.c:3345-3361 | the same for the insertion alone |
| Arrays.EJSArray.Poke | runtime/ejs-array.c:3361-3361 | a store through a slot address changes the map at that index alone |
| Arrays.EJSArray.SparseStore | runtime/ejs-array.c:3549-3552 | the map with one index set |
| Arrays.EJSArray.DropArraylets | runtime/ejs-array.c:3368-3374 | no chunk at or above n is left, and nothing below n is lost |
| Arrays.EJSArray.ClearLast | runtime/ejs-array.c:3375-3378 | nothing at or above n is left |
| Arrays.EJSArray.Truncate | runtime/ejs-array.c:3364-3380 | the map restricted to the indices below n |
| Arrays.EJSArray.Read | runtime/ejs-array.c:3476-3498 | the slot of the abstract state, for both representations |
| Arrays.EJSArray.Get | runtime/ejs-array.c:3413-3455 | the element, or undefined for a hole or an index past the end |
| Arrays.EJSArray.Has | runtime/ejs-array.c:3587-3623 | whether the index is present |
| Arrays.EJSArray.DenseSet | runtime/ejs-array.c:3530-3548 | the buffer with the value stored and the gap filled with holes |
| Arrays.EJSArray.DenseDefine | runtime/ejs-array.c:3707-3729 | the same for a define, whose hole loop runs over the index itself |
| Arrays.EJSArray.Set | runtime/ejs-array.c:3510-3555 | both representations become the state with one index set and the length raised to cover it |
| Arrays.EJSArray.Delete | runtime/ejs-array.c:3625-3657 | the state with a hole at the index; past the end nothing changes |
| Arrays.EJSArray.Define | runtime/ejs-array.c:3659-3736 | as Set for a descriptor with a value; without one nothing changes |
| Arrays.EJSArray.DefineAccessor | runtime/ejs-array.c:3679-3699 | what defining an accessor does to the elements: a hole at the index and the length raised, in both representations |
| Arrays.EJSArray.DenseHollow | runtime/ejs-array.c:3679-3699 | the dense half |
| Arrays.EJSArray.SetLength | runtime/ejs-array.c:3557-3579 | the state cut or padded with holes to the new length |
| Arrays.EJSArray.OwnIndexNames | runtime/ejs-array.c:3386-3411 | exactly the present indices below the length, ascending, for both representations |
| Arrays.EJSArray.WalkArraylets | runtime/ejs-array.c:3389-3402 | the same for the walk over the chunks |
| Arrays.EJSArray.WalkArraylet | runtime/ejs-array.c:3392-3400 | the present indices of one chunk below the length |
| Arrays.EJSArray.Do | runtime/ejs-array.c:3413-3766 | each operation has the effect and the answer of the abstract state |
| Arrays.EJSArray.Run | runtime/ejs-array.c:3413-3766 | over any run, the answers and the final state are those of the abstract state |
| Arrays.RunBoth | runtime/ejs-array.c:3413-3766 | a dense and a sparse array that start equal answer every run identically and stay equal, length included |
| Arrays.ShrinkHides | runtime/ejs-array.c:253-264 | in either representation, through the buffer and its stale slack: an index dropped by a shrink reads undefined and is absent after any run that does not store it |
| Splicing.ClampsAgreeIff | runtime/ejs-array.c:2199-2232 | splice converts to int before clamping, toSpliced clamps in doubles: the clamped range is the same exactly for the arguments described by StartInRange and CountInRange |
| Splicing.SpliceStartInsideIff | runtime/ejs-array.c:2199-2214 | the starts whose narrowing to int leaves splice inside the array |
| Splicing.StartsDiffer | runtime/ejs-array.c:2275-2369 | an edit that deletes or inserts something shows on a concrete array at which of two starts it was made |
| Splicing.SameEditIff | runtime/ejs-array.c:2275-2369 | two edits agree on every array of a length exactly if they are one edit, or both change nothing |
| Splicing.AgreeableRanges | runtime/ejs-array.c:2199-2232 | the agreeable arguments in terms of the clamped ranges |
| Splicing.SpliceAgreesIff | runtime/ejs-array.c:2941-3032 | wherever splice stays inside the array, it leaves in every array of a length what toSpliced makes of it exactly for the agreeable arguments, a condition on the arguments alone |
| Splicing.WrappedResultsDiffer | runtime/ejs-array.c:2199-2214 | a start of 2^32 fails on every nonempty array: splice empties it, toSpliced copies it |
| Splicing.WrappedStart | runtime/ejs-array.c:2204-2204 | every int start is among them; 2^32 is not: splice starts at 0, toSpliced at the end |
| Splicing.CountFits | runtime/ejs-array.c:2216-2232 | the count never reaches past the end |
| Splicing.MoveSlot | runtime/ejs-array.c:2286-2304 | one step of a move: the slot is copied, holes included |
| Splicing.CopySlot | runtime/ejs-array.c:2245-2258 | one step of the copy to the removed array |
| Splicing.CollectRemoved | runtime/ejs-array.c:2237-2264 | the removed array is the segment, holes included |
| Splicing.CopyAndTrim | runtime/ejs-array.c:2245-2264 | the copy loop and the length store after it |
| Splicing.CopyPresent | runtime/ejs-array.c:2245-2261 | the copy loop alone: the source is unchanged, holes stay holes |
| Splicing.ShiftDown | runtime/ejs-array.c:2277-2307 | the suffix moved down with its holes, although the moves overlap |
| Splicing.DeleteTail | runtime/ejs-array.c:2308-2317 | holes from the new length on |
| Splicing.ShiftUp | runtime/ejs-array.c:2319-2352 | the suffix moved up with its holes, last first, although the moves overlap |
| Splicing.OpenGap | runtime/ejs-array.c:2275-2353 | either way, prefix and suffix are in place |
| Splicing.StoreItems | runtime/ejs-array.c:2354-2366 | the items in order from the start, nothing else changed |
| Splicing.StoredIsSpliced | runtime/ejs-array.c:2275-2369 | cut to the new length, that is prefix, items, suffix |
| Splicing.Replace | runtime/ejs-array.c:2275-2369 | the array becomes prefix, items, suffix |
| Splicing.AskedForIff | runtime/ejs-array.c:2199-2232 | the clamps of both functions find the range the arguments ask for, and only that one: the position counted from the end if negative, or the end next to it, and the count that fits; splice reads the arguments narrowed to int |
| Splicing.SliceForms | runtime/ejs-array.c:2199-2232 | splice() removes nothing, splice(k) removes s[k..] and splice(-k) the last k elements; toSpliced leaves the same |
| Splicing.CountForms | runtime/ejs-array.c:2199-2232 | splice(k, c, ...items) removes s[k..k + c] and leaves s[..k], the items, s[k + c..], for k from the front or the back |
| Splicing.EditsRange | runtime/ejs-array.c:2182-2372 | the same for any range the arguments ask for |
| Splicing.Splice | runtime/ejs-array.c:2182-2372 | for any argument count: the range asked for is returned, and the array is the slots before it, the items and the slots after it, with the right length (section 22.1.3.25 of ECMA-262, 6th edition) |
| Splicing.TakeAndReplace | runtime/ejs-array.c:2237-2369 | the same once the range is known |
| Splicing.ToSpliced | runtime/ejs-array.c:2941-3032 | a fresh array with the slots before the range asked for, the items and the slots after it, holes read as undefined, for all arguments; the source is not modified (section 23.1.3.35 of ECMA-262, 2023) |
| Splicing.FillSpliced | runtime/ejs-array.c:2996-3028 | the three copy loops fill exactly that |
| Splicing.SpliceAndToSpliced | runtime/ejs-array.c:2941-3032 | run on equal arrays with the same arguments: splice returns the removed segment, toSpliced leaves its source unchanged, and for agreeable arguments its result is what splice left, holes read as undefined |
| Quicksort.SwapDense | runtime/ejs-array.c:43-50 | the swap |
| Quicksort.Partition | runtime/ejs-array.c:316-341 | the loop computes the function whose properties follow |
| Quicksort.QuicksortDense | runtime/ejs-array.c:343-352 | the recursion ends and computes the function whose properties follow |
| Quicksort.ScanPermutes | runtime/ejs-array.c:328-340 | the scan permutes the range it works on, for any comparator |
| Quicksort.ScanSplits | runtime/ejs-array.c:328-340 | after it, everything before the store index compared less than 1 with the pivot and nothing after it did |
| Quicksort.SortedPermutes | runtime/ejs-array.c:343-352 | quicksort permutes its range and leaves the rest, for any comparator |
| Quicksort.SortedInOrder | runtime/ejs-array.c:343-352 | the output is in order for a comparator that, on the elements sorted, is a total preorder without answers strictly between 0 and 1 |
| Quicksort.SortsEveryArrayIff | runtime/ejs-array.c:332-333 | for any set of elements on which the signs are consistent: every array of them is sorted exactly if no answer for two of them lies strictly between 0 and 1, because the partition tests cmp < 1 |
| Quicksort.SubtractionIsConsistent | runtime/ejs-array.c:169-184 | subtraction of numbers is consistent on numbers and undefined |
| Quicksort.SubtractionSortsNumbers | runtime/ejs-array.c:169-184 | so it sorts every array of them: numbers ascending, undefined after them; it is not consistent on all values |
| Quicksort.ArrangedIff | runtime/ejs-array.c:154-202 | the order promised, in terms of the comparator's own answers and of the strings' first differing code unit: no answer f(earlier, later) is positive, no text is the wrong way round, undefined is last |
| Quicksort.UserLeq | runtime/ejs-array.c:169-184 | what the comparator's answer decides for two elements |
| Quicksort.StringLessIff | runtime/ejs-array.c:193-202 | one string is less exactly if it is at the first code unit where they differ, or ends there |
| Quicksort.FractionMissorts | runtime/ejs-array.c:332-333 | one such answer leaves a two-element array in the wrong order |
| Quicksort.HalfDifferenceMissorts | runtime/ejs-array.c:332-333 | half the difference of two numbers sorts [0, 1] to [1, 0] |
| Quicksort.UndefinedLast | runtime/ejs-array.c:154-167 | in a sorted array nothing but undefined follows undefined |
| Quicksort.DefaultIsConsistent | runtime/ejs-array.c:185-202 | comparison by strings is a total preorder without such answers |
| Quicksort.DefaultSorts | runtime/ejs-array.c:185-202 | so the default sort always sorts |
| Quicksort.StringLessIsStrict | runtime/ejs-array.c:193-202 | of two different strings exactly one is less |
| Quicksort.StringLessTrans | runtime/ejs-array.c:193-202 | the order of strings is transitive |
| Quicksort.Sort | runtime/ejs-array.c:2824-2846 | sorting a dense array permutes its slots, holes included, for any comparator; for every comparator consistent on its elements, and whenever none is given, no earlier element is said to come after a later one and undefined is last |
| Quicksort.ToSorted | runtime/ejs-array.c:2900-2936 | the same in a fresh array for either representation, holes read as undefined; the source is not modified (section 23.1.3.34 of ECMA-262, 2023) |
| Quicksort.CopyAndSort | runtime/ejs-array.c:2921-2932 | the copy loop and the sort of the copy |
| Flatten.Flat | runtime/ejs-array.c:1521-1557 | a fresh array with the present values of the array, in order, opened as many levels as the depth argument asks for: one without it, its integer part, none for NaN and below one, all for Infinity; the source is not modified (section 23.1.3.13 of ECMA-262, 2023) |
| Flatten.FlatForms | runtime/ejs-array.c:1528-1552 | the depth argument and the levels opened |
| Flatten.FlatMap | runtime/ejs-array.c:1559-1589 | a fresh array with what the mapper answers for each present element and its index, in order, answers that are arrays opened once; an error exactly if the mapper cannot be called |
| Flatten.FlatMapForms | runtime/ejs-array.c:1470-1479 | the same of the flattening |
| Flatten.FlatOfMapped | runtime/ejs-array.c:1470-1479 | flattening with a mapper is flattening its answers for the present indices |
| Flatten.MapsEach | runtime/ejs-array.c:1470-1479 | without holes and without array answers, element i is the answer for element i and index i |
| Flatten.FlattenIntoArray | runtime/ejs-array.c:1448-1519 | for every finite nesting and every depth, the depth-limited flattening is stored in order from start, holes skipped; the answer is start plus the number of elements; other slots of the target and all of the source are untouched (section 23.1.3.13.1 of ECMA-262, 2023) |
| Flatten.FlattenSlot | runtime/ejs-array.c:1460-1515 | one turn of the loop: presence test, read, mapper |
| Flatten.FlattenNested | runtime/ejs-array.c:1496-1499 | the recursive call on a nested array |
| Flatten.FlattenElement | runtime/ejs-array.c:1481-1512 | the same for one element |
| Flatten.UnmappedValues | runtime/ejs-array.c:1470-1479 | without a mapper the mapped flattening is the flattening |
| Flatten.InfiniteLeavesNoArray | runtime/ejs-array.c:1491-1493 | at infinite depth no array is left in the result |
| Flatten.DeepEnough | runtime/ejs-array.c:1491-1499 | a depth at least the nesting flattens as far as infinity |
| Flatten.FlatIsOpened | runtime/ejs-array.c:1491-1499 | the depth-first recursion to depth d is opening every array among the values d times over |
| Flatten.FlatOfPresent | runtime/ejs-array.c:1460-1468 | holes are skipped: only present values are flattened |
| Flatten.FlatCompose | runtime/ejs-array.c:1491-1499 | flattening a levels and then b is flattening a + b |
| NodeVisitor.NodeList.Splice | lib/node-visitor.ts:46-49 | one element replaced by some |
| NodeVisitor.TreeVisitor.Visit | lib/node-visitor.ts:60-62 | the result of a visit, and the nodes handed to the per-type methods for it |
| NodeVisitor.TreeVisitor.VisitArray | lib/node-visitor.ts:39-58 | the loop ends; the list is the in-order concatenation of each original element's result, and the nodes visited are the original ones in order, none twice, none spliced in |
| NodeVisitor.TreeVisitor.VisitArrayKeep | lib/node-visitor.ts:33-35 | one result for each element, nulls kept in place |
| NodeVisitor.KeepingVisitor | lib/node-visitor.ts:282-284 | a visitor that returns nothing leaves a list of nodes as it was |
| NodeVisitor.OneResult | lib/node-visitor.ts:39-58 | what one element becomes, by the result of its method |
| NodeVisitor.ResultsAppend | lib/node-visitor.ts:39-58 | lists in a row become their results in a row |
| NodeVisitor.MappingVisitor | lib/node-visitor.ts:39-58 | a visitor that answers a node for each replaces each in its place |
| NodeVisitor.EachVisitedOnce | lib/node-visitor.ts:39-58 | the nodes visited in a list of nodes are its elements |
| NodeVisitor.OnlyNullOrEmptyDrops | lib/node-visitor.ts:282-284 | a node is removed exactly when its method returns an empty list |
| NanBox.UnboxIsPayload | lib/compiler.ts:707-716 | masking with 2^47 - 1 takes out the payload field |
| NanBox.BoxEnvIsTagged | lib/compiler.ts:810-816 | or-ing the shifted tag is adding it, for an address below 2^47 |
| NanBox.EnvRoundTrip | lib/compiler.ts:810-816 | the boxed value has the environment tag, is neither number nor object, and unboxes to the address |
| NanBox.YoungByAddress | lib/compiler.ts:832-851 | the nursery test of a boxed environment is the test of its address |
| NanBox.IsObjectByTag | lib/compiler.ts:689-704 | comparing a value with the shifted object tag is comparing its tag; no value is both an object and a number |
| GcFrames.Machine.constructor | runtime/ejs-gc.h:126-138 | an empty chain over a new stack of garbage |
| GcFrames.Machine.Link | lib/compiler.ts:871-890 | the record holds the old head and its count, its slots are undefined, and it is the head; no other word changes |
| GcFrames.Machine.Unlink | lib/compiler.ts:893-899 | the head is what the record holds as prev |
| GcFrames.Machine.Relink | lib/compiler.ts:903-908 | the head is the record |
| GcFrames.Machine.Prologue | lib/eir/emit.ts:328-331 | a function links a record exactly if it has one |
| GcFrames.Machine.Call | lib/compiler.ts:871-890 | after a call the head is the innermost live record, every live record is intact with what its slots held, and the new one's slots are undefined |
| GcFrames.Machine.Return | lib/eir/emit.ts:1254-1258 | after a return the head is the innermost record of the callers, whose slots hold what they held |
| GcFrames.Machine.Throw | lib/eir/emit.ts:431-433 | after a throw to an emitted handler the records below are intact, and the head is right exactly if the catcher owns a record or no discarded activation did |
| GcFrames.Machine.ThrowToC | runtime/ejs-function.c:477-497 | a catcher in the runtime, which restores the head it saved, always leaves it right |
| GcFrames.Machine.StoreSlot | lib/compiler.ts:910-918 | a store of a value through a slot address changes that slot, no other, and keeps the chain |
| GcFrames.Machine.Spill | runtime/ejs-gc.h:140-149 | stores elsewhere in the running function's stack keep the chain and every slot |
| GcFrames.Machine.Walk | runtime/ejs-gc.h:132-149 | following prev from the head visits exactly the live records, innermost first, and every slot within their counts is a value |
| GcFrames.Machine.Do | lib/compiler.ts:871-918 | each event keeps the chain and has its effect on the slots |
| GcFrames.Machine.Run | lib/compiler.ts:853-918 | over any run of calls, returns, throws and stores in which every emitted catcher owns a record or loses none, the head is the innermost live record, the chain is intact, and every slot of a live record holds what was stored in it last, undefined before that |
| GcFrames.RootsAfterSlots | lib/compiler.ts:871-918 | the slots of an activation entered or stored into, written out |
| GcFrames.RootsPush | lib/compiler.ts:871-890 | entering an activation changes no other's slots |
| GcFrames.RootsWrite | lib/compiler.ts:910-918 | a write to the running function's stack changes its slot there, if it is one, and no other's |
| GcFrames.Pushed | lib/compiler.ts:871-890 | chain, records and slots after a prologue |
| GcFrames.RunFromEmpty | lib/compiler.ts:853-918 | the same from the empty chain on a stack of its own |
| GcFrames.LosingThrow | lib/compiler.ts:901-908 | a reachable run in which a catcher without a record catches from a callee with one: the records below are intact, but the head still points at the discarded record |
| GcFrames.HeadAfterDrop | lib/compiler.ts:901-908 | dropping activations leaves the head right exactly if none of them had a record |
| GcFrames.HeadBounds | lib/compiler.ts:853-863 | there is a head exactly if some live activation has a record |
| GcFrames.TopRecord | lib/compiler.ts:871-890 | the head is the record of the innermost activation that has one |
| GcFrames.WalkStep | runtime/ejs-gc.h:145-149 | what one step along prev finds in memory |
| GcFrames.WriteKeepsRecords | lib/compiler.ts:864-870 | a write outside live records, or of a value into a slot, keeps all records |
| GcFrames.DropKeepsRecords | lib/compiler.ts:901-908 | discarding activations keeps the records below |
| GcFrames.PushKeepsRecords | lib/compiler.ts:871-890 | entering an activation keeps the records below |
| EnvAlloc.ClassIsLeast | lib/compiler.ts:762-766 | the class found is the least whose cells hold the environment; cells stay within 256 bytes, five classes, for exactly 30 slots and fewer |
| EnvAlloc.CellClass | lib/compiler.ts:762-766 | the doubling loop and the logarithm find that class |
| EnvAlloc.Log2OfPower | lib/compiler.ts:766-766 | the logarithm of a power of two is its exponent |
| SizeClasses.SmearDoubles | runtime/ejs-gc.c:310-316 | or-ing a number with itself shifted down by w doubles a run of w ones below its top bit |
| SizeClasses.SmearIsOnes | runtime/ejs-gc.c:310-316 | six such steps fill every bit below the top one, for any 64-bit number |
| SizeClasses.Pow2Ceil | runtime/ejs-gc.c:303-319 | so pow2_ceil is the least power of two not below its argument, for every argument whose result fits 64 bits |
| SizeClasses.CeilExponentUnique | runtime/ejs-gc.c:303-319 | only one power of two is |
| SizeClasses.FfsOfPower | runtime/ejs-gc.c:345-348 | ffs of a power of two is its exponent plus one |
| EnvAlloc.ExponentOfClass | runtime/ejs-gc.c:343-348 | the least power of two for an environment is the cell size of the emitter's class |
| EnvAlloc.RuntimeClassIff | runtime/ejs-gc.c:343-362 | the collector's class is the emitter's exactly up to 2^28 - 2 slots; past that the int that holds the cell size is zero and the class is -5 |
| EnvAlloc.Bucket | runtime/ejs-gc.c:343-362 | pow2_ceil, the minimum and ffs compute that class and cell size |
| EnvAlloc.DirtyHeader | runtime/ejs-gc.c:474-477 | or-ing the dirty bit into a new header |
| EnvAlloc.AllocationKeeps | lib/compiler.ts:768-794 | whatever page or cell the collector supplies, a new environment overlaps neither another nor the unused part of any page |
| EnvAlloc.SplitKeeps | lib/compiler.ts:782-794 | moving the bump word past a cell leaves the cell outside the unused part |
| EnvAlloc.Heap.constructor | runtime/ejs-gc.h:106-112 | no page installed, no environment |
| EnvAlloc.Heap.Init | runtime/ejs-closureenv.c:21-31 | the length and undefined slots of _ejs_closure_init, nothing else |
| EnvAlloc.Heap.StoreHalf | lib/compiler.ts:798-801 | a 32-bit store to the low half of a word |
| EnvAlloc.Heap.Wipe | runtime/ejs-gc.c:365-391 | a zeroed cell with its header, dirty or not, and nothing else |
| EnvAlloc.Heap.GcAlloc | runtime/ejs-gc.c:343-391 | with the class the collector computes, the cell taken and the bump words left are those of the shared description of an allocation; the cell is zeroed but for its header, which is dirty for a large object with the nursery on |
| EnvAlloc.Heap.NewByRuntime | runtime/ejs-closureenv.c:13-31 | the runtime path meets the shared description: one more cell, its header, length and undefined slots, its boxed address, no write outside it, and zeros past the slots |
| EnvAlloc.Heap.TakeInline | lib/compiler.ts:793-809 | the fast block's stores: header, length, undefined slots, within the cell |
| EnvAlloc.Heap.BumpInline | lib/compiler.ts:793-818 | the fast block meets the same description, answers the old bump address, boxed, and leaves the rest of the cell as it was |
| EnvAlloc.Heap.NewInline | lib/compiler.ts:760-830 | the emitted code, fast or slow, meets the same description as the runtime path; the rest of the cell is as it was exactly on the fast path, zeros otherwise |
| EnvAlloc.SlotIndex | lib/compiler.ts:920-939 | the word a slot address names |
| EnvAlloc.Heap.Admit | lib/compiler.ts:760-830 | all other environments keep their header, length and slots when one is made |
| EnvAlloc.Heap.Load | lib/compiler.ts:920-939 | the inline slot address is the one _ejs_closureenv_get_slot_ref takes, and holds the slot's value |
| EnvAlloc.Heap.Store | lib/compiler.ts:927-939 | a store there changes that slot of that environment to the value, and nothing else |
| EnvAlloc.SlotsAreDistinct | lib/compiler.ts:927-939 | different environments have different values; different slots, of one or of two, have different addresses |
| EnvAlloc.StoreKeeps | lib/compiler.ts:927-939 | the same for the contents of all environments |
| EnvAlloc.ViewsAfterNew | lib/compiler.ts:802-809 | a new environment adds one list of undefined slots to the contents and changes no other |
| EnvAlloc.EffectSlots | lib/compiler.ts:760-830 | what an allocation or store leaves in every slot of every environment |
| EnvAlloc.KeptUntilStored | lib/compiler.ts:927-939 | a slot keeps its value over any run that does not store in it |
| EnvAlloc.Heap.Do | lib/compiler.ts:760-830 | each allocation or store has its effect on the contents |
| EnvAlloc.Heap.Run | lib/compiler.ts:760-830 | over any run of allocations and stores, every environment holds what was stored in it and undefined elsewhere, and every value made still addresses its own |
| Arguments.ReadDecimal | runtime/ejs-arguments.c:50-53 | the text of an index is canonical and reads back as the index |
| Arguments.DecimalRead | runtime/ejs-arguments.c:50-53 | canonical text is the text of the index it reads as |
| Arguments.ArgumentsIndex | runtime/ejs-arguments.c:54-80 | the loop answers a nonnegative integral number up to 2^31 - 1, the value of a canonical string of up to nine digits, and -1 for every other key |
| Arguments.IndexNamesItsProperty | runtime/ejs-arguments.c:50-80 | a key read as an index is the property key of that index, by number or by string |
| Arguments.IndexTextIsReadIff | runtime/ejs-arguments.c:65-66 | the string of an index is read as it exactly below 10^9, and as -1 from there up |
| Arguments.OtherKeys | runtime/ejs-arguments.c:50-80 | texts and symbols are keys as they are |
| Arguments.NumberIsText | runtime/ejs-arguments.c:50-80 | a number and a text are one key exactly if the text is the number's |
| Arguments.IndexPropsExact | runtime/ejs-arguments.c:119-123 | the index loop defines exactly the indices below argc, each with its argument |
| Arguments.InitialPropsExact | runtime/ejs-arguments.c:112-140 | a new object has those, length, callee and the iterator, and nothing else |
| Arguments.InitialPropsMirror | runtime/ejs-arguments.c:142-145 | buffer and map agree when the flag is cleared |
| Arguments.ArgumentsObject.constructor | runtime/ejs-arguments.c:82-148 | a new object is not overridden, its buffer holds the arguments and its properties are exactly those |
| Arguments.ArgumentsObject.DefineIndices | runtime/ejs-arguments.c:119-123 | the index loop |
| Arguments.ArgumentsObject.DefineOthers | runtime/ejs-arguments.c:125-140 | the three other properties |
| Arguments.ArgumentsObject.Get | runtime/ejs-arguments.c:175-190 | the fast path and the map always give the same answer: that of the ordinary get |
| Arguments.ArgumentsObject.Has | runtime/ejs-arguments.c:192-206 | the same for the presence test |
| Arguments.ArgumentsObject.OrdinarySet | runtime/ejs-object.c:2838-2934 | the ordinary set of a dictionary-mode object; it overrides the object exactly if it stores into it |
| Arguments.ArgumentsObject.Set | runtime/ejs-arguments.c:208-226 | the ordinary set with any receiver, the invariant kept, the buffer unchanged: its mirroring store is never reached |
| Arguments.ArgumentsObject.DefineOwnProperty | runtime/ejs-arguments.c:228-238 | the ordinary define, and from then on the map alone answers |
| Arguments.ArgumentsObject.Delete | runtime/ejs-arguments.c:240-245 | the ordinary delete: refused exactly for a present property that is not configurable, otherwise the property is gone; from then on the map alone answers |
| Arguments.ArgumentsObject.Do | runtime/ejs-arguments.c:175-245 | each operation's answer and effect are those of an ordinary object; the object is overridden exactly by those that store, define or delete |
| Arguments.ArgumentsObject.Run | runtime/ejs-arguments.c:175-245 | over any run, the object answers as an ordinary object with its properties, and while it is not overridden every index below argc is a plain data property equal to its buffer slot (section 10.4.4.6 of ECMA-262) |
| Arguments.UnchangeableStays | runtime/ejs-object.c:2992-3247 | over any run, a property that is not configurable, and not writable if it holds data, stays as it is: callee does from the start |
| Arguments.AbsentStays | runtime/ejs-object.c:2964-2989 | over any run, a property that is absent, deleted for one, stays absent until it is set or defined |
| Arguments.NoNewProperties | runtime/ejs-object.c:2992-3247 | once extensions are prevented, over any run, nothing absent appears |
| Arguments.PreventIs | runtime/ejs-object.c:3331-3339 | preventing extensions changes no property |
| Properties.SetThenGet | runtime/ejs-object.c:2838-2934 | what an object accepted from a set reads back, and no other property changes |
| Properties.DeleteIs | runtime/ejs-object.c:2964-2989 | a delete is refused exactly for a present property that is not configurable, and then nothing changes; otherwise the property is gone, lookups answer as the prototype does, and no other property changes |
| Properties.LookupIs | runtime/ejs-object.c:2755-2816 | own properties before the prototype's; absent properties and absent getters are undefined, getters are calls to make |
| Properties.DefineIs | runtime/ejs-object.c:2992-3247 | a define makes of a property, old or new, exactly what the descriptor says; it is refused exactly if the old one is not configurable and would change in more than the value or writability of a writable one, or a new one may not be added |
| Properties.SetIs | runtime/ejs-object.c:2838-2934 | a set by every kind of property found and receiver: its answer, the property it leaves, and no other change |
| Properties.DefineKeeps | runtime/ejs-object.c:2992-3247 | no define changes such a property |
| Properties.UnchangeableIsKept | runtime/ejs-object.c:2964-2989 | no delete removes it |
| Truncation.TruncatedIsTowardsZero | runtime/ejs-atomics.c:26-36 | truncation drops less than one and only towards zero, for every finite double |
| Truncation.TruncatedIff | runtime/ejs-atomics.c:26-36 | the truncation of a finite double is the one integer between zero and it and less than one from it; 0 for NaN, the infinities as they are |
| Atomics.ToIndexIff | runtime/ejs-atomics.c:38-47 | an index is exactly the double with its fraction dropped, from 0 to 2^53 - 1, 0 for NaN; there is none for infinities |
| Atomics.IntegralIndex | runtime/ejs-atomics.c:38-47 | an integral double stands for its own value |
| Atomics.IntegerDoubleToUint32Bits | runtime/ejs-atomics.c:79-89 | the remainder modulo 2^32 of every integer, 0 for infinities |
| Atomics.BigIntValueToUint64Bits | runtime/ejs-atomics.c:70-77 | the remainder modulo 2^64 of every BigInt, negative ones included |
| Atomics.NumberBytes | runtime/ejs-atomics.c:358-379 | storing little-endian bytes and loading them reduces modulo the element's range |
| Atomics.BytesNumber | runtime/ejs-atomics.c:358-379 | loading and storing changes nothing |
| Atomics.ByteOfNumber | runtime/ejs-atomics.c:358-379 | byte i of an element has weight 256^i |
| Atomics.ElementTypes | runtime/ejs-atomics.c:362-381 | width and range of every element type, and the residue stored in it |
| Atomics.WrapIsTheResidue | runtime/ejs-atomics.c:362-381 | the stored element is the only value in the element's range congruent to the result |
| Atomics.InterpretedBits | runtime/ejs-atomics.c:362-365 | bits and the signed or unsigned values they stand for determine each other |
| Atomics.NewBitsAreMeant | runtime/ejs-atomics.c:362-379 | for every operation and width, the arithmetic on reduced bits is the mathematical operation on the values, reduced at the end |
| Atomics.OperationIs | runtime/ejs-atomics.c:366-376 | what each operation means: sums and differences of values, bits combined one by one, what is exchanged, compared or kept |
| Arith.BitwiseAt | runtime/ejs-atomics.c:370-372 | the bitwise operations combine bit by bit |
| Arith.BitwiseBits | runtime/ejs-atomics.c:370-372 | and needs both bits, or one of them, xor exactly one |
| Arith.BitAtIs | runtime/ejs-atomics.c:370-372 | bit k is the quotient by 2^k, modulo 2 |
| Atomics.SwitchIsMeant | runtime/ejs-atomics.c:330-379 | the same for the operands the code reduces to 32 or 64 bits first |
| Atomics.Operand | runtime/ejs-atomics.c:330-356 | an operand's bits are its integer modulo 2^32 or 2^64 |
| Atomics.Convert | runtime/ejs-atomics.c:330-356 | the conversions each operation makes |
| Atomics.OldBigInt | runtime/ejs-atomics.c:383-395 | the old 64-bit element as a BigInt of its value |
| Atomics.SharedBuffer.LoadBits | runtime/ejs-atomics.c:363-364 | the number the element's bytes denote |
| Atomics.SharedBuffer.StoreBits | runtime/ejs-atomics.c:377-379 | the element's bytes denote the number, no other byte changes |
| Atomics.SharedBuffer.Modify | runtime/ejs-atomics.c:358-397 | the switch: the old element is answered, the mathematical result is stored modulo 2^width, no other byte changes |
| Atomics.SharedBuffer.Perform | runtime/ejs-atomics.c:330-407 | conversions, switch and answer together |
| Atomics.SharedBuffer.Rmw | runtime/ejs-atomics.c:318-407 | a bad element type, index or operand gives the error the checks give, in their order, and changes nothing; otherwise, for the index i the argument stands for, element i of the view is answered (for store the unreduced operand), it becomes the mathematical result modulo 2^width, and no other element and no other byte changes |
| Atomics.AccessErrorIff | runtime/ejs-atomics.c:318-356 | an access goes through exactly for an integer element type, an index inside the view and operands of its kind |
| Atomics.PutElement | runtime/ejs-atomics.c:377-379 | storing an integer leaves its residue in that element and every other byte as it was |
| Atomics.AccessIs | runtime/ejs-atomics.c:318-407 | within a run: an access that goes through answers element i of its view and changes that element alone |
| Atomics.GrowIs | runtime/ejs-atomics.c:189-206 | within a run: a grow succeeds exactly for a length in range, and then adds zeros up to it |
| Atomics.OneElement | runtime/ejs-atomics.c:358-379 | changing the bytes of element i changes that element of the view and no other |
| Atomics.PutIsOnlyChange | runtime/ejs-atomics.c:377-379 | the element's value and the unchanged rest determine every byte |
| Atomics.SharedBuffer.constructor | runtime/ejs-atomics.c:103-128 | length zero bytes in a zeroed block of the maximum size |
| Atomics.New | runtime/ejs-atomics.c:130-169 | a buffer of the length the argument stands for, exactly for lengths and maxima in range, a RangeError otherwise |
| Atomics.SharedBuffer.Grow | runtime/ejs-atomics.c:189-206 | TypeError exactly if not growable; otherwise the length the argument stands for exactly if it is in [length, maximum], a RangeError if not; the same bytes, then zeros |
| Atomics.SharedBuffer.Slice | runtime/ejs-atomics.c:208-242 | a buffer of its own with the bytes between the clamped indices, none if they cross |
| Atomics.ClampIsNearest | runtime/ejs-atomics.c:208-217 | clamping picks the position nearest to the one asked for, counted from the end if negative; infinities give the ends |
| Atomics.SharedBuffer.Do | runtime/ejs-atomics.c:189-407 | each atomic operation or grow has its effect on the bytes, and its answer or error is what the bytes before it call for |
| Atomics.SharedBuffer.Run | runtime/ejs-atomics.c:189-407 | over any run of atomic operations and grows, the bytes are those of the integers stored, each answer is the element the bytes before it held or the error the checks give, the length never falls or passes the maximum, and the block past it stays zero |

## Left out

- Splicing.Splice: takes a start that the narrowing to int leaves inside the array (`SpliceStartInsideIff` says which); any other lands below 0, where the keys are negative, or, for a start such as -2^31 - 1 - length, past the end; the model has neither.
- EnvAlloc.Heap.NewByRuntime: takes at most 2^28 - 2 slots; past that the collector's size class is -5 (`RuntimeClassIff`), where the model does not follow it. NewInline has the same limit.
- EnvAlloc.Heap.Run: takes what the collector supplies when a page is full as given, free memory; collections, which move cells between two operations, are not modelled.
- Arrays.EJSArray.Define: takes data descriptors; an accessor's effect on the elements is DefineAccessor, outside the runs, and the named property it becomes belongs to the ordinary object.
- The vendored digit routines (schoolbook and fast multiplication, shifts, comparison) appear as exact results on values stored back into digits; their internals are not modelled.
- The hardware conversion of one 64-bit digit to a double is taken to round to nearest even.
- The two zeros are one value; nothing modelled tells them apart.
- BigInt addition, subtraction, division, remainder, bitwise operators, asIntN and asUintN, parsing and printing: the same shape as multiplication over the vendored routines.
- Array keys are nonnegative ints with room for the runtime's own key arithmetic; negative, fractional and larger keys, accessors, inherited index properties, species constructors and proxies are not modelled.
- The growth of the arraylet vector itself (runtime/ejs-array.c:3345-3348) is a sequence here.
- Arguments of `splice` that are infinite: their conversion to a 64-bit integer is undefined in C.
- TypeErrors for lengths past 2^53 - 1, which int-range lengths never reach.
- Quicksort.Sort: hands the hole value to the comparator as the code does, so where holes end up is not the order the standard gives them. Comparators that change the array they sort are not modelled, and an infinite answer of a comparator counts as a large number.
- Quicksort.ToSorted: takes lengths up to the dense cutoff and Sort takes dense arrays, since sorting a sparse array is not implemented by the source.
- Flatten.FlattenIntoArray: nested arrays are values, so arrays that contain themselves or the target, and mappers with side effects, are not modelled.
- `copyWithin`, whose step differs from the one it documents (runtime/ejs-array.c:595).
- NodeVisitor.TreeVisitor.Visit: the per-type methods are one function from node to result; visits that themselves edit the list being walked are not modelled.
- `lib/parser.ts`, the driver, the bindings to LLVM and 32-bit targets.
- Generators, which swap the frame chain head, and the collector's rewriting of slots.
- The arguments object's getters and setters are answered as calls still to be made; the key `__proto__`, and changes of prototype, are left to the ordinary object.
- The text of numbers that are not integers, and of integers from 10^21 up, is given with the key.
- Views whose length follows their buffer, ordinary (detachable) buffers, wait and notify, and threads other than the one that runs.
- Operand conversions that run user code before an atomic operation.
