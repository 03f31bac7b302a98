# A verified model of the core of a C utility library

The library is a set of small C components. This project models six of them in Dafny and proves what each
promises. Components that change memory step by step are classes and methods over arrays here, with the
loops of the C code; each is proved against a function of the values involved, and the laws are lemmas
about those functions.

- **Numbers of fixed width** (`Words`, `BigNum`, `BigNumShift`, `BigNumArith`, `BigNumStray`,
  `BigNumDivAsWritten`, `BigNumHex`). A number is an array of 32-bit words, least significant first, and its
  value is `Val`. The word count n is the length of the arrays, so the results hold for the default 32 words and
  for any other count (from two up where a product of two words must fit, from three up for division as
  written); `P(n)` is 2^(32n).
  Two pointers to one struct are one array. Where the C code allows an output to be an input too, the
  method has no precondition that keeps them apart.
- **The blocking queue** (`ThreadQueue`, `ThreadQueueRing`, `ThreadQueueRuns`, `ThreadQueueWaits`,
  `ThreadQueueBytes`). The ring of
  bytes, mapped twice in a row, is an array read modulo its length. What one thread does between taking the lock and
  waiting or unlocking is one turn; `Ring` proves that the bytes implement the turns on a list of messages,
  and `ThreadQueueRuns` has every run of any number of threads, with wait sets, signals that wake any one
  waiter, and spurious wake-ups. `ThreadQueueWaits` says why threads wait in them, and
  `ThreadQueueBytes` carries them out on the bytes.
- **The bit pool** (`Word64`, `BitPool`, `BitPoolQueries`). Both levels of words, and the range and run
  queries of the test file, against a sequence of booleans. `ctz64(0)` is 64, as the callers assume, and the
  number of slots is a positive multiple of 64.
- **The region and its vector** (`Region`, `RegionRuns`, `Vector`, `VectorRuns`). One byte buffer with a header
  before every block. A pointer is an offset. The map of live blocks is a ghost field. The runs are sequences of
  operations of a client, against what the client may rely on.
- **The failure record** (`FailureRecord`, `FailureRecordBuffer`). The writer of the record, and the splitter
  and unescaper that take it apart in place.
- **The argument iterator** (`ArgParse`), against the flattening of the arguments.

`Arith`, `Bits` and `Bytes` hold arithmetic shared by the others. `size_t` is a number below 2^64.

## Where the C code does something else

- `shr_one` (src/ty_bignum.c:495) takes the incoming bit of word i from word i - 1; halving needs word
  i + 1. `ShrOneAsWritten` is the loop as it stands, and halves exactly when every bit it moves in equals
  the bit that belongs there; `ShrOneMissesTwo` is an input on which it does not. Word 0 reads the word
  below the array: a parameter there. `DivAsWritten` is the division with that loop. With an odd word below
  `current` it does not end (`OddBelowSpins`); with an even one it ends. For a dividend below 2^31 it is right
  exactly when the dividend is below the divisor, or the word below `denom` is even, the quotient is even, and
  the remainder is below twice the odd part of the divisor. For larger dividends, every odd quotient below
  2^31 is wrong if the divisor is below P(n)/2; so x / x is wrong for every such x.
- `ty_bignum_shr` (src/ty_bignum.c:308) stops its bit loop after four words. `ShrAsWritten` proves when that
  is right: the count is a multiple of 32, or what is left after the whole words is below 2^128.
- `div`, `divmod`, `mod` and `isqrt` as intended are proved on the halving `ShrOne` and the full-width `Shr`.
- `isqrt` is right exactly when no square that it computes wraps into a wrong comparison (`Isqrt`,
  `RootIsEdge`). With 2k words that is so for every a with a/2 + 1 < P(k), and that bound is sharp: where
  a/2 + 1 is P(k), it is wrong (`IsqrtEdge`), and it is wrong again for 2 P(k) + 1 (`IsqrtFails`).
- Division by zero does not end: `DivByZeroSpins`.
- `region_alloc` admits a size so large that its sums wrap (`WrappedIsAdmitted`); `AdmitsExactly` says that
  an admitted block fits exactly when they do not. `region_remap` keeps what is left of the region in 32 bits;
  the in-place branch then asks for less than there is, never for more (`RoomAbove`).
- A queue whose consumers' buffers are shorter than some message can come to rest with a producer and a
  consumer inside and nobody to run, although every message fits the ring: `SmallBufferDeadlocks`.
- A failure record of 4096 characters loses its last bar and is still read back whole; a longer one never is
  (`RecordRecovered`).
- The sum start + count of a range query wraps, and then the query inspects other slots than it was asked for:
  `WrappedQueryLooksFree` is an all-free pool of 1024 slots that is told to have 2^64 - 60 free ones.
  `IsRangeFree` says exactly when a wrapped query still answers as a scan would. A query may also read a bucket
  that the pool does not have; its answer is `Beyond` there.
- A query for 64 slots of one bucket shifts by 64, which C leaves undefined. The value the shift gives is a
  parameter of `IsRangeFree`; with the usual hardware result, the query calls every whole bucket free
  (`WholeBucketAlwaysFree`).

## Model

| member | source | states |
|---|---|---|
| `Words.ValInjective` | src/ty_bignum.c:380-394 | two word arrays of one length with the same value have the same words, so the value determines the number |
| `BigNum.Init` | src/ty_bignum.c:15-21 | every word and the value are zero |
| `BigNum.Assign` | src/ty_bignum.c:465-474 | the destination has the source's words |
| `BigNum.FromInt` | src/ty_bignum.c:23-46 | a 64-bit integer becomes the number of that value |
| `BigNum.Add` | src/ty_bignum.c:159-174 | the sum of the values, less P(n) when it does not fit; the output may be an input |
| `BigNum.Sub` | src/ty_bignum.c:176-195 | the difference of the values, plus P(n) when it is negative; the output may be an input |
| `BigNum.Inc` | src/ty_bignum.c:143-157 | one more, and zero after the largest number |
| `BigNum.Dec` | src/ty_bignum.c:126-141 | one less, and the largest number before zero |
| `BigNum.Cmp` | src/ty_bignum.c:380-394 | -1, 0 or 1, as the values compare |
| `BigNum.IsZero` | src/ty_bignum.c:396-407 | true exactly for the value zero |
| `BigNum.OrWords` | src/ty_bignum.c:356-366 | the value is the bitwise or of the two values: word by word is bit by bit |
| `BigNumShift.ShlWord` | src/ty_bignum.c:500-511 | words move up; the value times 2^(32k) is the new value plus what left at the top |
| `BigNumShift.ShrWord` | src/ty_bignum.c:513-530 | words move down; the value is divided by 2^(32k), rounding down, also for counts beyond the array |
| `BigNumShift.ShlOne` | src/ty_bignum.c:476-486 | the double, less P(n) when it does not fit |
| `BigNumShift.Shl` | src/ty_bignum.c:267-290 | a times 2^k modulo P(n) for every count k |
| `BigNumShift.ShrOne` | src/ty_bignum.c:488-498 | half the value, with the incoming bit taken from the word above |
| `BigNumShift.Shr` | src/ty_bignum.c:292-315 | a divided by 2^k, rounding down, for every k, with the bit loop over all words |
| `BigNumShift.ShrOneAsWritten` | src/ty_bignum.c:488-498 | the loop as it stands halves if and only if each bit it moves in is the one that belongs there |
| `BigNumShift.ShrOneExact` | src/ty_bignum.c:493-497 | the same on word sequences: the words it leaves are those of the half exactly under that condition |
| `BigNumShift.ShrOneMissesTwo` | src/ty_bignum.c:493-495 | the number 2 does not meet the condition, whatever lies below the array |
| `BigNumShift.ShrAsWritten` | src/ty_bignum.c:292-315 | the loop as it stands divides by 2^k if and only if 32 divides k or the quotient by the whole words is below 2^128 |
| `BigNumArith.RowsAreProduct` | src/ty_bignum.c:208-222 | all word products at their places, summed over rows, are the product of the values |
| `BigNumArith.MulRow` | src/ty_bignum.c:209-220 | one row, plus what is lost beyond the array, is one word times the other number |
| `BigNumArith.Mul` | src/ty_bignum.c:197-223 | the product of the values modulo P(n); skipped and lost places do not matter |
| `BigNumArith.TopWord` | src/ty_bignum.c:240-247 | the test of the top word holds exactly when doubling would not fit |
| `BigNumArith.DivideStep` | src/ty_bignum.c:257-264 | one round keeps: quotient times divisor plus remainder is the dividend, the remainder is below twice the shifted divisor, and the quotient has no bits at or below the current one |
| `BigNumArith.DoubleUp` | src/ty_bignum.c:243-250 | the bit and the divisor are shifted alike, until the divisor exceeds the dividend or would lose its top bit |
| `BigNumArith.Div` | src/ty_bignum.c:225-265 | the quotient, rounding down, for every dividend and every divisor but zero; the output may be either input |
| `BigNumArith.DivByZeroSpins` | src/ty_bignum.c:243-250 | with divisor zero both exits of the doubling loop are closed, and doubling leaves the divisor zero |
| `BigNumArith.DivMod` | src/ty_bignum.c:327-342 | dividend = quotient times divisor + remainder, and the remainder is below the divisor |
| `BigNumArith.Mod` | src/ty_bignum.c:317-325 | the remainder, also into one of the inputs |
| `BigNumArith.PowInto` | src/ty_bignum.c:409-434 | a to the power b modulo P(n), 1 for b = 0 |
| `BigNumArith.PowStep` | src/ty_bignum.c:427-431 | reducing the power in every round gives the same as reducing it once |
| `BigNumArith.Isqrt` | src/ty_bignum.c:436-463 | with 2k words, r with r^2 <= a < (r+1)^2 for every a with a/2 + 1 < P(k); for any a and word count, if and only if every square probed is told right although it is reduced modulo P(n); ends for every a |
| `BigNumArith.SearchFindsEdge` | src/ty_bignum.c:449-461 | the binary search finds the edge of a monotone property exactly when it is told right at every probe |
| `BigNumArith.RootIsEdge` | src/ty_bignum.c:449-462 | the search returns the root exactly when its probes are told right |
| `BigNumArith.IsqrtDomain` | src/ty_bignum.c:446-451 | with 2k words, every a with a/2 + 1 < P(k) is such a number |
| `BigNumArith.IsqrtEdge` | src/ty_bignum.c:446-451 | no a with a/2 + 1 equal to P(k) is: the domain is sharp |
| `BigNumArith.IsqrtFails` | src/ty_bignum.c:446-451 | 2 P(k) + 1, for every k, is not |
| `BigNumStray.ShiftedDescends` | src/ty_bignum.c:489-498 | with an even word below, the loop as it stands makes a number smaller when it is read from its lowest word down, so that division as written ends |
| `BigNumStray.OddBelowSpins` | src/ty_bignum.c:257-264 | with an odd word below, no number of rounds of the loop as it stands, one or more, leaves zero |
| `BigNumStray.AgedStep` | src/ty_bignum.c:493-497 | a round makes every bit that has strayed above the lowest word one round older |
| `BigNumStray.CarriesStep` | src/ty_bignum.c:493-497 | a stray bit stays in the number, through all words but the last, until the last round of its life |
| `BigNumDivAsWritten.AstrayStep` | src/ty_bignum.c:257-264 | a round as written keeps: `current` has one bit in the lowest word or has left it, and bit 0 of the quotient is never set without bit 63 |
| `BigNumDivAsWritten.CourseStep` | src/ty_bignum.c:257-264 | with an even quotient, a round as written goes as intended until `current` leaves the lowest word; then the quotient is complete, and it is spoiled exactly if `denom`, shifted down to an even number, meets the remainder |
| `BigNumDivAsWritten.CourseEnds` | src/ty_bignum.c:257-264 | when `current` is zero, the quotient is right if and only if the remainder is below twice the odd part of the divisor |
| `BigNumDivAsWritten.DivAsWritten` | src/ty_bignum.c:225-265 | division with line 495 as it stands, for a dividend below 2^31: right if and only if the dividend is below the divisor, or the word below `denom` is even, the quotient is even and the remainder is below twice the odd part of the divisor; for any dividend: 0 below the divisor, and wrong for every odd quotient below 2^31 of a divisor below P(n)/2 |
| `BigNumHex.HexValHex` | src/ty_bignum.c:109-113 | printing with k digits and reading gives the number back |
| `BigNumHex.DigitsInOrder` | src/ty_bignum.c:84-91 | digit d is the d-th of 0..9a..f, printed so and read so, and read as well from 0..9A..F |
| `BigNumHex.SameInUpperCase` | src/ty_bignum.c:84-91 | a text of hex digits denotes the same number in upper case |
| `BigNumHex.FirstDigits` | src/ty_bignum.c:109-123 | the first digits of a text are the number with its last digits shifted out |
| `BigNumHex.SixteenthIsQuotient` | src/ty_bignum.c:109-123 | shifting out k digits divides by 16^k |
| `BigNumHex.NumeralUnique` | src/ty_bignum.c:114-123 | there is one lowercase numeral without leading zeros for each value |
| `BigNumHex.ToStr` | src/ty_bignum.c:95-124 | for every even nbytes, the text is the one lowercase numeral, empty for zero, of the number divided by 16 for each digit that nbytes does not reach; with nbytes of 8n or more, of the number itself |
| `BigNumHex.FromStr` | src/ty_bignum.c:67-93 | the number is the value of the digits, in either case |
| `BigNumHex.PrintAndParse` | src/ty_bignum.c:67-124 | printing a number, padding with zeros and reading it, as it is or in upper case, gives the same words |
| `ThreadQueueRing.ParsesAppend` | src/ty_thread_queue.c:138-146 | a frame with the next sequence number behind a ring that parses makes one that parses as one message more |
| `ThreadQueueRing.Consumed` | src/ty_thread_queue.c:174-182 | without the front frame, and after the reset to the first half, the ring parses as the other messages, with head in [0, size) and head <= tail <= head + size |
| `ThreadQueueRing.Ring.Put` | src/ty_thread_queue.c:131-149 | the bytes do what a turn of put does to the list: append the message exactly when it and its 16-byte header fit, else wait and change nothing |
| `ThreadQueueRing.Ring.Get` | src/ty_thread_queue.c:151-186 | the bytes do what a turn of get does to the list: exactly when the oldest message fits the buffer, and the thread has not seen its number before, it is got byte for byte and taken off; else the list stays, and nothing else is written to the caller's buffer |
| `ThreadQueueRing.HeaderOf` | src/ty_thread_queue.c:162-163 | the 16 bytes at the head are the length and sequence number of the oldest message |
| `ThreadQueueRuns.FifoOverRuns` | src/ty_thread_queue.c:131-186 | in every run, messages put, in lock order, are the messages got followed by those queued |
| `ThreadQueueRuns.CoveredStep` | src/ty_thread_queue.c:135-183 | every step keeps: unsignalled readers waiting means no more queued messages than signalled readers, and writers waiting on an empty queue means a signalled writer |
| `ThreadQueueRuns.NoDeadlock` | src/ty_thread_queue.c:131-186 | in every run with fitting messages and buffers, while a producer and a consumer are inside, some thread can take the lock |
| `ThreadQueueRuns.Progress` | src/ty_thread_queue.c:136-171 | turns in a row that complete nothing are no more than the threads at the lock |
| `ThreadQueueRuns.SmallBufferDeadlocks` | src/ty_thread_queue.c:165-168 | for every ring, message length that fits it and shorter buffer there is a run into deadlock |
| `ThreadQueueRuns.DeadlockFreeIff` | src/ty_thread_queue.c:131-186 | no run deadlocks if and only if every buffer holds every message |
| `ThreadQueueWaits.SequenceOverRuns` | src/ty_thread_queue.c:141-176 | in every run the oldest message has the number of messages got, modulo 2^64 |
| `ThreadQueueWaits.TurnCompletesExactly` | src/ty_thread_queue.c:131-186 | in any state, a turn completes exactly when its operation can, unless it has seen the oldest message; otherwise the thread waits for a message, for the oldest one to go, or for space |
| `ThreadQueueWaits.WaitsOnlyForLonger` | src/ty_thread_queue.c:165-169 | in every run with fewer than 2^64 gets, a get waits for the oldest message to go only while that is longer than its buffer |
| `ThreadQueueWaits.CompletesExactly` | src/ty_thread_queue.c:131-186 | in every run with fewer than 2^64 gets, a thread at the lock completes exactly when its message fits the ring, or when there is an oldest message and it fits its buffer, also when it has waited for another to take a longer one |
| `ThreadQueueBytes.Execute` | src/ty_thread_queue.c:131-186 | after every run, carried out on the ring, its bytes parse as the queue of the last state, and the bytes that get returned are the messages got, which are the first of those put |
| `Word64.Ctz64` | includes/ty_bitpool.h:44-58 | the place of the least set bit, 64 for zero |
| `Word64.PopCount64` | tests/test_ty_bitpool.c:50-63 | the number of set bits |
| `BitPool.FullBucket` | includes/ty_bitpool.h:109-110 | a word of L0 is all ones exactly when its 64 slots are used |
| `BitPool.Pool.Check` | includes/ty_bitpool.h:128-129 | whether the slot is used |
| `BitPool.Pool.Find` | includes/ty_bitpool.h:62-95 | the least free slot, and failure exactly when all slots are used |
| `BitPool.Pool.Set` | includes/ty_bitpool.h:97-113 | exactly that slot is now used, and both levels still agree |
| `BitPool.Pool.Clear` | includes/ty_bitpool.h:115-126 | exactly that slot is now free, and both levels still agree |
| `BitPool.Pool.Alloc` | includes/ty_bitpool.h:131-136 | the least free slot is taken: never a used one |
| `BitPool.Replay` | includes/ty_bitpool.h:62-136 | from a zeroed pool, after every run of the three operations both levels agree, the slots are those of a linear scan over booleans, and every allocation returned the index and flag that the scan finds at its point |
| `BitPool.SetAgrees` | includes/ty_bitpool.h:102-112 | what setting writes to both levels keeps them in agreement and changes one slot |
| `BitPool.ClearAgrees` | includes/ty_bitpool.h:119-125 | what clearing writes to both levels keeps them in agreement and changes one slot |
| `BitPoolQueries.AllocBatch` | tests/test_ty_bitpool.c:34-45 | the free slots in ascending order, as many as asked for and there are |
| `BitPoolQueries.Stats` | tests/test_ty_bitpool.c:65-84 | the numbers of used and of free slots |
| `BitPoolQueries.FindContiguous` | tests/test_ty_bitpool.c:89-112 | the smallest start of a free run of that length, -1 exactly when there is none |
| `BitPoolQueries.LargestContiguous` | tests/test_ty_bitpool.c:166-183 | the length of the longest free run |
| `BitPoolQueries.RunsUpToLongest` | tests/test_ty_bitpool.c:89-183 | the search fails exactly for lengths above the longest run |
| `BitPoolQueries.AllocAt` | tests/test_ty_bitpool.c:116-125 | takes the slot exactly when it is in the pool and free |
| `BitPoolQueries.IsRangeFree` | tests/test_ty_bitpool.c:129-161 | for any two size_t: without a wrap of start + count, and with count at least 1, the masks agree with a slot-by-slot scan, but for a whole bucket, where the answer is that of the mask the undefined shift yields; with a wrap, they agree if and only if the wrapped sum exceeds the pool, or start lies in the pool and a slot inspected instead is used; for count 0 the answer is stated, too |
| `BitPoolQueries.RangeWithoutWrap` | tests/test_ty_bitpool.c:132-160 | what the buckets say is what the slots say, for every query whose sum does not wrap and which is not for a whole bucket |
| `BitPoolQueries.RangeWithWrap` | tests/test_ty_bitpool.c:132-160 | the exact condition under which a query whose sum wraps is answered as a scan would |
| `BitPoolQueries.WrappedQueryLooksFree` | tests/test_ty_bitpool.c:132-160 | a query for more slots than there are, told to be free |
| `BitPoolQueries.MaskedFree` | tests/test_ty_bitpool.c:139-158 | a bucket has no bit in common with a mask of adjacent bits exactly when those slots are free |
| `BitPoolQueries.WholeBucketAlwaysFree` | tests/test_ty_bitpool.c:139-140 | with 1ULL << 64 giving 1, the mask is empty and every bucket passes |
| `BitPoolQueries.WideMaskIsOneLess` | tests/test_ty_bitpool.c:139 | the mask of the undefined shift is one less than what it yields, in 64 bits |
| `Region.AlignmentLoss` | includes/ty_alloc.h:61-68 | fewer than 16 bytes, and the offset plus them is a multiple of 16 |
| `Region.AdmitsExactly` | src/ty_alloc.c:28-31 | without a wrap the test admits a block if and only if it fits; with a wrap no block fits, and those with a small enough wrapped sum are admitted |
| `Region.WrappedIsAdmitted` | src/ty_alloc.c:28-31 | a size whose sum wraps, and which is admitted |
| `Region.Region.LiveIsOwned` | includes/ty_alloc.h:102-107 | every byte of a live block is owned, and exactly the bytes of the buffer are |
| `Region.Region.BufferSize` | includes/ty_alloc.h:110-114 | the header of a live block holds its size |
| `Region.Region.IsLast` | includes/ty_alloc.h:116-122 | true exactly when the block ends where the region does |
| `Region.Region.Alloc` | src/ty_alloc.c:23-37 | a new block of n bytes behind an aligned 8-byte header, apart from all live blocks, if n is not 0 and it fits, and NULL otherwise; nothing but the header changes |
| `Region.NewBlock` | src/ty_alloc.c:32-36 | writing a header above the region's end keeps all headers and payloads and makes the new block one of the live ones |
| `Region.Region.Free` | src/ty_alloc.c:58-65 | the block is no longer live; the last block, and only that, gives its bytes back |
| `Region.Region.Remap` | src/ty_alloc.c:38-57 | the same pointer if the block is large enough; a larger block keeps its pointer if and only if it is the last and what is above its start, modulo 2^32, is n at least, which below 2^32 means that it fits; else a new block, or NULL exactly if that does not fit; either way it begins with the old bytes and is the last; other payloads and headers stay |
| `Region.Relocated` | src/ty_alloc.c:51-55 | a new block, the copy, and the old block forgotten: the live blocks stay apart and keep their bytes |
| `Region.RoomAbove` | src/ty_alloc.c:46-48 | the truncated bytes_left never lets a block grow beyond the buffer |
| `Region.GrowsInPlaceExactly` | src/ty_alloc.c:46-48 | the truncated test, on what is above the block, and without truncation below 2^32 |
| `Region.Region.Store` | src/ty_alloc.c:23-65 | a client that writes inside its payload leaves all headers and all other payloads as they are |
| `Region.StoreKeeps` | includes/ty_alloc.h:110-114 | the same on byte sequences |
| `RegionRuns.Replay` | src/ty_alloc.c:23-65 | after every run of alloc, remap, free and store by handle, the region is valid, so that live blocks lie apart below its end with their sizes in their headers, and every block that is held has all bytes stored in it and never overwritten, through all moves |
| `RegionRuns.CopyMatches` | src/ty_alloc.c:44-55 | a block that was copied or grown still holds what its client stored |
| `RegionRuns.AllOthersKept` | src/ty_alloc.c:23-65 | an operation on one handle leaves the blocks of all others as they were |
| `Vector.GrownEnough` | src/ty_alloc.c:232-235 | doubling ends at less than twice the need, and at a power of two times the old capacity |
| `Vector.Vector.Ensure` | src/ty_alloc.c:225-243 | room for the elements, or false exactly when the region can neither extend the block in place nor fit a new one, with elements, capacity, pointer and region unchanged; a first growth to at most 16 elements gives capacity 16 |
| `Vector.Vector.Push` | includes/ty_alloc.h:272-274 | appends exactly the element, or nothing changes; other live blocks keep their bytes and sizes |
| `Vector.Vector.PushN` | includes/ty_alloc.h:276-280 | appends exactly the elements in order, or nothing changes; other live blocks keep their bytes and sizes |
| `Vector.Vector.Pop` | includes/ty_alloc.h:282-283 | removes exactly the last element; false exactly when there is none |
| `Vector.HoldsMoved` | src/ty_alloc.c:236-241 | what remap keeps of a block keeps the vector in it |
| `Vector.ElementInMemory` | includes/ty_alloc.h:274 | element i is the bytes at data + i * element size |
| `Vector.OtherVectorKept` | src/ty_alloc.c:38-57 | an operation on one block keeps a vector in another block of the region |
| `VectorRuns.Replay` | includes/ty_alloc.h:272-283 | after every run of push, pushN and pop the elements are those of the sequence under the same operations, pops succeed exactly on a sequence that is not empty, and all other blocks of the region keep their bytes and sizes |
| `VectorRuns.UndisturbedStep` | src/ty_alloc.c:236-241 | blocks of others stay undisturbed over a run, although the vector's own block moves |
| `FailureRecord.UnescapeEscaped` | src/ty_test.c:62-73 | unescaping an escaped text gives it back, for any mix of backslashes and bars |
| `FailureRecord.UnescapedSame` | src/ty_test.c:177-187 | unescaping leaves a text as it is if and only if no backslash stands before a backslash or a bar |
| `FailureRecord.EscapedPlain` | src/ty_test.c:66-71 | a text without backslashes and bars is not changed by escaping |
| `FailureRecord.RecordIsCut` | src/ty_test.c:128-144 | a record that fits is the encoding; a longer one ends where the buffer does, and only its last character can differ, being a bar without its backslash |
| `FailureRecord.FieldEndEscaped` | src/ty_test.c:160-171 | the splitter ends an escaped text at the bar behind it, not inside |
| `FailureRecord.FieldsOfEncoded` | src/ty_test.c:152-175 | a record that lost at most its last bar splits into the escaped texts |
| `FailureRecord.LastFieldLost` | src/ty_test.c:152-175 | a record that lost more has fewer fields, or a last field that is too short |
| `FailureRecord.ReportNeedsBar` | src/ty_test.c:213-216 | a report is read exactly if there is a bar outside escapes, that is, two fields |
| `FailureRecord.RecordRecovered` | src/ty_test.c:128-231 | the six texts come back if and only if the encoding has at most 4096 characters |
| `FailureRecordBuffer.KindNumberIsPlace` | includes/ty_test.h:24-32 | the number of a kind, read as a decimal, is its place in the enum, so it tells the kinds apart |
| `FailureRecordBuffer.ExpressionKept` | src/ty_test.c:109-126 | asserts, strings and numbers keep the expression they are given; memory and timeout records have texts of their own, which differ; other kinds are not written |
| `FailureRecordBuffer.AtoiOfDigits` | src/ty_test.c:233-240 | atoi of decimal digits is the number they denote |
| `FailureRecordBuffer.AtoiOfSigned` | src/ty_test.c:233-240 | a sign before the digits and blanks before anything are taken as C takes them |
| `FailureRecordBuffer.DecimalDigits` | src/ty_test.c:84-91 | the ten digits in order, and no other characters, are digits |
| `FailureRecordBuffer.AppendEscaped` | src/ty_test.c:61-73 | appends the escaped text, cut where the buffer ends, and writes nothing at or beyond the end |
| `FailureRecordBuffer.AppendLiteral` | src/ty_test.c:75-82 | appends the text, cut where the buffer ends, and writes nothing at or beyond the end |
| `FailureRecordBuffer.WriteFailure` | src/ty_test.c:95-150 | the record of the six texts in 4095 characters, with the expression chosen by the kind, and nothing for other kinds |
| `FailureRecordBuffer.SplitFields` | src/ty_test.c:152-175 | in place: the fields are terminated strings at ascending offsets, none overlapping |
| `FailureRecordBuffer.FieldsOntoIs` | src/ty_test.c:157-173 | taking fields one after the other from the cursor gives the fields of the text |
| `FailureRecordBuffer.Unescape` | src/ty_test.c:177-187 | in place: the unescaped text, not longer, with everything outside the old text unchanged |
| `FailureRecordBuffer.UnescapedOntoIs` | src/ty_test.c:180-186 | the cursor's way through the text is the recursive unescaping |
| `FailureRecordBuffer.ReadFailure` | src/ty_test.c:207-231 | false exactly for fewer than two fields; else the fields lie in the buffer, the four texts unescaped without disturbing each other |
| `FailureRecordBuffer.FailureArrives` | src/ty_test.c:95-231 | for texts without NUL, what the reader finds in the bytes written is the six texts, if and only if the encoding has at most 4096 characters |
| `FailureRecordBuffer.WriteAndRead` | src/ty_test.c:95-240 | a failure written and read: the reader has the six texts as its fields if and only if the encoding has at most 4096 characters; then the number it reads is the kind's place in the enum, and the line is the number its digits denote |
| `ArgParse.NextMoves` | includes/ty_argparse.h:87-122 | a call ends, keeps short_index at a character of a cluster and 0 after "--", delivers something at or behind the cursor, and passes over nothing else but dashes |
| `ArgParse.NextTakesFirst` | includes/ty_argparse.h:87-122 | a call delivers the first of what is to come in the flattening and leaves the rest |
| `ArgParse.NextValueTakesRest` | includes/ty_argparse.h:74-85 | a value covers exactly the characters of its argument at the cursor and behind it |
| `ArgParse.FlattenSplits` | includes/ty_argparse.h:87-122 | before "--", options and operands come in any order, and the arguments do not depend on each other |
| `ArgParse.FlattenTerminated` | includes/ty_argparse.h:93-113 | behind the first "--", which is delivered by itself nowhere, every argument is an operand |
| `ArgParse.FlattenOne` | includes/ty_argparse.h:95-121 | one argument is an operand, a short option for each of its characters, or a long option |
| `ArgParse.Context.ArgNext` | includes/ty_argparse.h:87-122 | the loop with its jumps ends with that argument and cursor |
| `ArgParse.Context.ArgNextValue` | includes/ty_argparse.h:74-85 | the whole rest of the argument at the cursor, dashes included, and the cursor at the start of the next argument; or NULL at the end, and nothing changes |
| `ArgParse.Iterate` | includes/ty_argparse.h:64-122 | from arg_init to ARG_KIND_DONE: ends for every argv, with exactly the flattening of the arguments |
| `ArgParse.NothingTwice` | includes/ty_argparse.h:74-122 | with both calls in any order, every delivery lies behind all earlier ones |
| `ArgParse.NothingLost` | includes/ty_argparse.h:74-122 | with both calls in any order, a character passed was delivered or is one of the dashes at the start of its argument |

## Left out

- Div: rests on the halving shift, not on line 495 as written; when that line halves is stated by ShrOneAsWritten.
- DivAsWritten: the words below `current` and `denom`, whose reading C leaves undefined, are parameters that stay the same; for dividends from 2^31 up it does not say whether an even quotient, or one from 2^31 up, is right.
- ShrOne: the intended halving; line 495 as it stands is stated by ShrOneAsWritten.
- Shr: the intended loop over all words; line 308 as it stands is stated by ShrAsWritten.
- DivMod: the same as Div, and the quotient may not be an input or the remainder.
- Mod: the same as Div.
- Isqrt: rests on the halving shift and on Shr over all words.
- ShrOneAsWritten: the word below the array, whose reading C leaves undefined, is a parameter.
- Alloc: its precondition excludes the sizes whose sums wrap and which are admitted all the same; AdmitsExactly shows that those blocks, and no others, reach beyond the buffer.
- Remap: the sizes that Alloc excludes are excluded where it allocates; the old block of a relocated one counts as freed.
- RegionRuns.Replay: the sizes asked for leave room for header and padding in a size_t, and the client stores only inside its blocks.
- VectorRuns.Replay: the elements of the whole run leave such room, too.
- Ensure: the bytes of the next capacity are below 2^64, and not a size that Remap excludes; a loop whose doubling wraps is not modelled. Push and PushN call it under the same condition.
- Put: the message length plus its header is below 2^64.
- IsRangeFree: an answer after a read outside the pool is not modelled, and the pool has fewer than 2^64 slots.
- ReadFailure: the copies into the result, of limited length, and the kinds that drop fields there are not modelled.
- ArgParse: strings end at their NUL, so a character at an index is never NUL; printing of errors is left out.
- ToStr: the buffer has room for all that sprintf prints, which is whole words.
- FromStr: reads hexadecimal digits only; what sscanf does with other characters is not modelled.
- ctz64 of zero is 64, though neither the builtin nor the fallback defines it; pool sizes that are not a multiple of 64 are not modelled.
- Builds with words of one or two bytes, bitwise and, bitwise xor and the conversion to int: the same loops again.
- Exits on NULL arguments are preconditions: there are no NULL structs.
- The set-up and tear-down of the queue (memory mapping, mutex and condition variables) are system calls; the double mapping is the fact that bytes i and i + size are one.
- WriteFailure: line numbers are given as texts of digits; their printing (snprintf) is left out.
- Atoi: for numbers of any length; what C does beyond the range of int is undefined.
- The pipe between writer and reader, fork, signals, timing and floating-point tolerance of the test runner.
- The arena, the annex, linked lists, strings, logs, arrays, errors and assertions of the library.
