# Algorithms of the Julia runtime, modelled and proved in Dafny

Dafny models of the parts of the runtime whose correctness is decided by an algorithm or a protocol
rather than by plumbing, with proofs of what they promise.

| files | what they model |
|---|---|
| EngineProtocol, Engine | the inference lease engine: threads lease methods, wait for each other, and break cycles |
| Crc32c, Crc32cPolynomial, Crc32cTables, Crc32cFast | CRC-32C: the bit-at-a-time form, the remainder of polynomials that it is, the generated tables, the software and the ARMv8 form |
| Bits, Words, APIntArith, APIntDiv, APIntMul, APIntShift | integers of any bit width in arrays of 64-bit words |
| Rounding, APIntFloat | conversion of such integers to floating point with one rounding |
| ListScheduling, UnionFind, Partition, ModulePartition | splitting a module into partitions of similar weight |
| WorkerPoolProtocol, WorkerPool | the worker pool that compiles the partitions, rationed by jobserver tokens |
| SafeName | reversible symbol names |
| JitBlocks, JitAllocators, JitBatch | JIT memory: bump allocators, page protections, and the batch protocol |
| TypeEgal, TypeEgalExact, TypeHash | egality of types and its hash, exactly when they agree with the canonical form, and what the hash tells apart |
| Wtf8, Wtf8Canonical | UTF-16 to WTF-8 and back, and which bytes survive the way there and back |
| Aarch64Hfa | homogeneous aggregates in the AArch64 calling convention |

Concurrent parts are state machines over their atomic steps (critical sections, one semaphore operation,
one fetch_add); theorems about them hold for every run.  Beside a machine stands a class with the fields
of the source, whose methods are proved to take exactly these steps.  Loops over arrays are methods proved
against a mathematical reading: the number an array of words stands for, the CRC of a bit string, the
flattened form of a type.

Conventions: machine words are natural numbers with explicit bounds; `x >> k` and `x << k` are quotients
by and products with powers of two, cut off where the C type cuts them; pointers into buffers are
indices; memory handed out by malloc is a new array; addresses of mapped regions are what the system
offers, about which nothing but being unused is known.

Where comments and code disagree, the model follows the code:

- The comment on `uint_to_fp` says that the result fits losslessly in mbits bits.  The result has up to
  two bits more; it only rounds to mbits correctly.  At 53 bits the claim is true, at 52 it fails for
  integers of exactly 53 significant bits, and below for all that do not fit already.  See
  APIntFloat.LosslessExactly and APIntFloat.NotLossless.
- The comment on `crc32c_zeros_op` says that a length that is not a power of two counts as the largest
  power of two *less* than it.  That is what happens, and a power of two counts as itself.
- The comment above `struct Block` in cgmemmgr.cpp speaks of up to eight blocks and less than 1% waste.
  Both allocation loops stop at the first empty slot and only slot 0 is ever filled, so one block is in
  use at a time; the model proves that and claims nothing about waste.
- The assertion at the start of `DualMapAllocator::get_wr_ptr` fails for an empty allocation from a block
  that is exactly full; see JitAllocators.WrPtrAssertIff and JitAllocators.WrPtrAssertFails.
- The comment in add_output says to keep held_tokens at live_threads - 1.  Tokens that are booked after the
  last worker left are all held, one more than that; see PoolProtocol.HeldExactly and PoolProtocol.LateCredit.
- Egal types may have different hashes, and `egal_types` may not be symmetric, if a variable occurs under
  two binders of its own or a bound TypeVar is shared; see TypeEgalExact.

## Model

| member | source | states |
|---|---|---|
| LeaseProtocol.RunsKeepInv | src/engine.c:66-199 | After any interleaving of reserve, wait, wake, fulfill and sweep: the graph "thread waits for the holder of its key" is acyclic, no thread sleeps unsignalled while its key is free, and each thread's `engine_nqueued` is its leases plus its reserve call in progress |
| LeaseProtocol.ChainEndProgresses | src/engine.c:91-110 | Every wait chain ends, at a thread that is running or whose key is free and whose wake-up is on its way |
| LeaseProtocol.NoDeadlock | src/engine.c:84-120 | No run makes all threads of a group sleep on leases held inside the group |
| LeaseProtocol.AcyclicSleep | src/engine.c:94-117 | Going to sleep after a walk that found no cycle closes none |
| LeaseProtocol.AcyclicRedirect | src/engine.c:50-64 | A lease may change hands, to a thread that waits for nobody, without closing a cycle |
| LeaseProtocol.RefusedForever | src/engine.c:111-126 | A placeholder returned by cycle breaking stays refused through any further run |
| LeaseProtocol.BrokenPlaceholderIsInert | src/engine.c:183-192 | Such a placeholder never releases a lease, now or after any further run, whoever fulfills it |
| LeaseProtocol.FulfillerHolds | src/engine.c:188-193 | The ownership that fulfill asserts: a lease found with a placeholder belongs to the thread that reserved the placeholder |
| LeaseProtocol.FulfillReleasesOwn | src/engine.c:183-199 | In any run, fulfilling releases exactly the lease inserted with the placeholder, if there is one, which is the caller's; then its counter drops by one and all sleepers are woken; all other leases and counters stay, and without such a lease nothing changes |
| LeaseProtocol.EnterCounts | src/engine.c:69-72 | A reserve call is counted once, with a placeholder of its own for the key it asks for, before it tries to get the lease |
| LeaseProtocol.AttemptOutcomes | src/engine.c:84-126 | In any run, a critical section of a reserve call ends with the lease if the key is free; else asleep and registered if the waits then still have no cycle; else without a lease, refused and uncounted; nobody else is touched |
| LeaseProtocol.CycleIfSlept | src/engine.c:94-126 | The walk gives up only where sleeping would have closed a cycle |
| LeaseProtocol.SweepDropsTheDead | src/engine.c:146-181 | A sweep drops exactly the leases whose placeholder was found dead and keeps the others as they are; each counter drops by the number of its thread's leases among them; sleepers are woken exactly if there was one |
| LeaseProtocol.CounterReturnsToZero | src/engine.c:69-69 | The counter is never negative, and zero exactly while the thread holds no lease and reserves none |
| LeaseEngine.Engine.constructor | src/engine.c:201-208 | The engine starts in the initial state of the protocol |
| LeaseEngine.Engine.EnterReserve | src/engine.c:69-72 | Entering counts the call and creates a fresh placeholder, as the protocol's Enter step |
| LeaseEngine.Engine.WalkChain | src/engine.c:94-110 | The inner walk terminates on every reachable table, its assertion holds, and it answers whether the chain from the holder leads back to the caller |
| LeaseEngine.Engine.Attempt | src/engine.c:84-120 | One critical section takes exactly the protocol's step: it inserts the lease, gives up if and only if sleeping would close a cycle, or goes to sleep |
| LeaseEngine.Engine.HasReserved | src/engine.c:131-139 | True exactly if the calling thread holds the lease |
| LeaseEngine.Engine.Fulfill | src/engine.c:183-199 | The protocol's Fulfill step, called by the thread that reserved the placeholder; the asserted ownership is proved |
| LeaseEngine.Engine.Sweep | src/engine.c:167-181 | The protocol's Sweep step: exactly the leases of dead placeholders go, counters drop by as many, and sleepers are woken if anything went |
| LeaseEngine.Engine.SweepReservations | src/engine.c:146-165 | Removes exactly the leases of dead placeholders and says whether there were any |
| Crc32c.CrcConcat | src/crc32c.c:394-397 | The CRC of a concatenation is the CRC of the second part continued from that of the first |
| Crc32c.StepsLinear | src/crc32c.c:484-487 | Shifting a CRC register through zero bits is linear over GF(2) |
| Crc32c.FoldAsSteps | src/crc32c.c:405-415 | Taking in bytes is shifting the register, exclusive-or the little-endian value of the bytes, through their bits |
| Crc32c.InstructionIsFold | src/crc32c.c:215-239 | A CRC instruction of 1, 2, 4 or 8 bytes is as many bytes of the bit-at-a-time CRC |
| Crc32c.Join | src/crc32c.c:270-273 | Two streams join: the first CRC shifted through the zeros of the second, exclusive-or the second's own from zero |
| Crc32cTables.InitSw | src/crc32c.c:455-478 | Entry n of column k of the software table is n shifted through 8(k+1) zero bits |
| Crc32cTables.MatrixTimes | src/crc32c.c:488-500 | The loop computes the GF(2) product of a 32-row matrix with any word |
| Crc32cTables.TimesIsSteps | src/crc32c.c:484-500 | A matrix whose rows are the shifted unit vectors, times a word, is that word shifted |
| Crc32cTables.MatrixSquare | src/crc32c.c:504-510 | Squaring a matrix, row by row |
| Crc32cTables.SquareDoubles | src/crc32c.c:502-510 | The square of the operator for n zero bits is the operator for 2n |
| Crc32cTables.FloorPow2Is | src/crc32c.c:512-516 | The length the operator is made for is the largest power of two not above `len`, or 1 |
| Crc32cTables.ZerosOp | src/crc32c.c:517-552 | Whatever way the odd and even squarings alternate, `even` ends as the operator for 8 * 2^k zero bits, 2^k the largest power of two not above `len` |
| Crc32cTables.Zeros | src/crc32c.c:556-568 | The four byte tables hold the operator applied to each byte in its place |
| Crc32cTables.ShiftIsSteps | src/crc32c.c:75-79 | The tables, looked up byte by byte, shift every 32-bit word through the zeros |
| Crc32cFast.LookupsAreSliced | src/crc32c.c:407-415 | The eight lookups of slicing-by-8 are eight byte-wise table steps |
| Crc32cFast.HalvesLookUp | src/crc32c.c:416-428 | The branch for machines without 64-bit words, on two 32-bit halves, takes in the eight bytes as well |
| Crc32cFast.SlicedIsSteps | src/crc32c.c:407-415 | Eight byte-wise table steps shift a 64-bit word through 64 bits |
| Crc32cPolynomial.GeneratorReversed | src/crc32c.c:55-56 | POLY is the bit reversal of 0x1edc6f41, which with x^32 is the generator of section 12.1 of RFC 3720 |
| Crc32cPolynomial.Division | src/crc32c.c:461-468 | Long division over GF(2): after any bits, the register is the bit-reversed remainder of the message times x^32, the start added at its head, by the generator |
| Crc32cPolynomial.OneRemainder | src/crc32c.c:55-56 | Division by the generator has one remainder of degree below 32 |
| Crc32cPolynomial.CrcIsRemainder | src/crc32c.c:394-437 | For every message and starting value the CRC, complemented and bit-reversed, is the remainder of the message by that generator, defined without the register, and no other number is |
| Crc32cPolynomial.CheckValue | src/crc32c.c:38-56 | The CRC of "123456789" is 0xe3069283 |
| Crc32cFast.SoftwareCrc | src/crc32c.c:398-437 | For every byte string, starting value and alignment of the buffer, and on machines with and without 64-bit words, the software form returns the bit-at-a-time CRC, which by Crc32cPolynomial.CrcIsRemainder is the CRC-32C of section 12.1 of RFC 3720 |
| Crc32cFast.HardwareCrc | src/crc32c.c:242-332 | So does the hardware form with its three interleaved streams, its joins and its 8, 4, 2 and 1 byte tails |
| Crc32cFast.Rounds | src/crc32c.c:256-296 | The rounds over three blocks take in all whole triples of blocks and leave less than one |
| Crc32cFast.TwoBlocks | src/crc32c.c:298-311 | Two streams of one short block each |
| Crc32cFast.TailBits | src/crc32c.c:320-329 | The last bytes, by the bits of the remaining length |
| Crc32cFast.BothForms | src/crc32c.c:242-437 | With the generated tables both forms return the same CRC |
| Words.ValSplit | src/APInt.c:21-45 | An array of words as a number: the words below i, and those from i on times 2^(64 i) |
| Words.BitAt | src/APInt.c:54-59 | Bit k of the number is bit k % 64 of word k / 64 |
| APIntArith.MaskTop | src/APInt.c:41-45 | Masking the top word reduces the number modulo 2^numbits, odd widths included |
| APIntArith.NWordsIsLeast | src/APInt.c:15-17 | A number takes as few words as hold its bits |
| APIntArith.Load | src/APInt.c:27-34 | Loading gives the words' value modulo 2^numbits |
| APIntArith.IsNegative | src/APInt.c:54-59 | The sign bit tells whether the number is at least 2^(numbits - 1) |
| APIntArith.AddSubWords | src/APInt.c:72-87 | The words and the carry together are the sum, or the difference plus 2^(64 nw); result and operands may be the same array |
| APIntArith.NegateWords | src/APInt.c:92-100 | The words become the two's complement of the number |
| APIntArith.CompareWords | src/APInt.c:61-68 | Compares the numbers |
| APIntArith.AddSubOv | src/APInt.c:385-406 | Addition and subtraction wrap to numbits; the flag of the signed form, and of unsigned addition, is raised exactly when the true result does not fit, and that of unsigned subtraction likewise |
| APIntArith.SignTests | src/APInt.c:402-405 | The tests on the three sign bits decide exactly whether the exact result fits |
| APIntDiv.UDivRem | src/APInt.c:162-180 | a = q * b + rem with rem < b, for every width and nonzero b; shifting the remainder never loses a bit |
| APIntDiv.TruncatingDivision | src/APInt.c:283-300 | Quotient and remainder of the magnitudes, with the signs put back, are those of division towards zero |
| APIntDiv.SDivRem | src/APInt.c:285-300 | Signed division truncates towards zero and the remainder has the sign of the dividend, wrapped to numbits |
| APIntDiv.CountTrailingZeros | src/APInt.c:303-320 | Counts the trailing zero bits, numbits for zero |
| APIntDiv.IsMinInt | src/APInt.c:352-356 | True exactly for -2^(numbits - 1) |
| APIntDiv.IsNegOne | src/APInt.c:358-363 | True exactly for -1 |
| APIntDiv.OnlyOverflow | src/APInt.c:612-614 | The truncated quotient fits except for the smallest number divided by -1 |
| APIntDiv.DivRem | src/APInt.c:599-625 | Returns 1 for a zero divisor, and for signed division exactly if the quotient is asked for and does not fit; otherwise quotient and remainder are exact |
| APIntMul.Mul64 | src/APInt.c:105-123 | The portable product of two words from four products of halves: hi * 2^64 + lo = a * b |
| APIntMul.MacLimb | src/APInt.c:127-144 | Word and carry together are the product plus the old word and carry; nothing overflows |
| APIntMul.MulWords | src/APInt.c:147-157 | The words are the product modulo 2^(64 nw) |
| APIntMul.Extend | src/APInt.c:219-228 | Extension gives the two's complement of the same number, signed or not, over the wider array |
| APIntMul.CheckOverflow | src/APInt.c:232-245 | False exactly if all bits from numbits on are the expected ones |
| APIntMul.ProductFits | src/APInt.c:587-589 | The bits above numbits of the double-width product are all alike, as tested, exactly if the true product fits |
| APIntMul.MulOv | src/APInt.c:575-593 | Stores the product modulo 2^numbits and returns overflow exactly when the signed or unsigned product does not fit, for every width |
| APIntShift.DigitsGive | src/APInt.c:192-215 | Words that are each the digit of a number in their place make up that number modulo 2^(64 nw) |
| APIntShift.Window | src/APInt.c:199-214 | A shifted word joined with the bits of its neighbour is the digit of the whole number shifted by up to 64 bits |
| APIntShift.LeftIsWindow | src/APInt.c:195-199 | Shifting left is shifting right with zero words below |
| APIntShift.FilledShift | src/APInt.c:204-214 | With fill words on top, the kept words of the shifted number are those of the signed number divided by 2^shift, rounded down |
| APIntShift.ShlN | src/APInt.c:192-201 | For every shift count the words become a * 2^shift modulo 2^(64 nw); the result may be the operand |
| APIntShift.ShrN | src/APInt.c:204-215 | For every shift count the words become the quotient by 2^shift rounded down, of the number or, filled with ones, of the negative number it stands for, modulo 2^(64 nw) |
| APIntShift.ExtractShift | src/APInt.c:184-190 | The shift count, however many words it has, limited to the width |
| APIntShift.ShiftLeft | src/APInt.c:533-546 | a * 2^b wrapped to numbits, for every width and every count b, also beyond the width |
| APIntShift.ShiftRight | src/APInt.c:548-566 | The signed or unsigned number divided by 2^b and rounded down, wrapped to numbits, for every width and every count b |
| Rounding.RoundToIsNearest | src/APInt.c:249-251 | The rounding used as the yardstick: no multiple of the unit is nearer, and ties go to an even multiple (section 4.3.1 of IEEE 754-2008) |
| Rounding.JamRounds | src/APInt.c:264-276 | Rounding a number cut to p + 2 bits, with everything dropped or-ed into the last, equals rounding the number itself |
| Rounding.DoubleKeepsRounding | src/APInt.c:278-280 | Rounding first to 53 bits and then to p loses nothing for a number of p + 2 bits |
| APIntFloat.ExtractIsJam | src/APInt.c:259-276 | The two top words, normalized, and the sticky bit give exactly the top mbits + 2 bits of the number with the rest or-ed in |
| APIntFloat.SingleRounding | src/APInt.c:252-281 | Rounding the result to mbits equals rounding the exact integer once |
| APIntFloat.UintToFp | src/APInt.c:252-281 | For every array of words and mbits up to 53, the result has the number's correctly rounded value at mbits bits, exponent range unbounded; and it fits mbits bits exactly if FitsLosslessly holds of the number |
| APIntFloat.LosslessExactly | src/APInt.c:249-251 | When the comment is right that the double fits mbits bits: always at 53; at 52 except for integers of exactly 53 significant bits; below 52 only for integers that fit already |
| APIntFloat.NotLossless | src/APInt.c:249-251 | Converting the one-word array 2^25 + 1 for mbits = 24 gives a double that does not fit 24 bits |
| ListScheduling.LoadsConserved | src/aotcompile.cpp:1470-1536 | The partitions together weigh what was placed |
| ListScheduling.GreedyBound | src/aotcompile.cpp:1470-1536 | Giving each item to a lightest of m bins makes no bin heavier than (2 - 1/m) times the heaviest bin of any other distribution |
| UnionFind.Partitioner.Make | src/aotcompile.cpp:1399-1404 | A new node is its own representative, with its weight, and is found by its global |
| UnionFind.Partitioner.Find | src/aotcompile.cpp:1406-1412 | Terminates on every forest reached, halving paths on the way, changes only parents, and returns the representative, which stays the same for every node |
| UnionFind.HalvingKeeps | src/aotcompile.cpp:1408-1408 | A node points to its grandparent, which is heavier still |
| UnionFind.Partitioner.Merge | src/aotcompile.cpp:1414-1426 | Joins the two classes and no others; the representative weighs what the members of the joined class were made with |
| UnionFind.SameRootIffConnected | src/aotcompile.cpp:1454-1468 | Two nodes have one representative exactly when merges connect them |
| UnionFind.LighterThanParent | src/aotcompile.cpp:1482-1486 | A node that is not its own representative weighs strictly less than its parent and than its representative |
| Partitioning.Collect | src/aotcompile.cpp:1431-1452 | One node for each definition that is not a coverage counter, with its weight |
| Partitioning.MergeUses | src/aotcompile.cpp:1455-1468 | Merges exactly the pairs of nodes linked by a use; a user that is no node is a coverage counter, as asserted |
| Partitioning.SortByWeight | src/aotcompile.cpp:1480-1486 | All node indices, each once, by falling weight |
| Partitioning.RootFirst | src/aotcompile.cpp:1482-1492 | In that order every representative comes before the other members of its class |
| Partitioning.PlaceNode | src/aotcompile.cpp:1490-1522 | One round keeps the placement: a representative goes to a lightest partition with the weight of its class, a member follows it; both assertions hold |
| Partitioning.PlaceNodes | src/aotcompile.cpp:1488-1523 | Afterwards every node is placed, with its class, and every partition weighs what its nodes were made with |
| ModulePartition.SpreadCounters | src/aotcompile.cpp:1528-1536 | Every defined coverage counter goes to a partition that is lightest at that moment, and weighs 1 |
| ModulePartition.PartitionModule | src/aotcompile.cpp:1382-1545 | Every definition is in exactly one partition and no declaration in any; globals linked by a use stay together, coverage counters excepted; the tables follow their globals; a partition weighs what its globals weigh; and none is heavier than (2 - 1/threads) times the heaviest partition of any other partitioning that keeps links together |
| ModulePartition.ClassesCounted | src/aotcompile.cpp:1488-1523 | A distribution that respects classes weighs the same counted by nodes or by classes |
| ModulePartition.BoundedByRivals | src/aotcompile.cpp:1470-1536 | The bound for every rival distribution of the module's globals |
| ModulePartition.HomePlacesOnce | src/aotcompile.cpp:1304-1352 | What verify_partitioning checks of names: each definition in one partition, declarations in none |
| ModulePartition.LinkedHomes | src/aotcompile.cpp:1345-1364 | What it checks of uses: linked globals in one partition |
| PoolProtocol.RunsKeepInv | src/aotcompile.cpp:2074-2181 | In every interleaving of main thread, workers and sibling processes the pool's invariant holds |
| PoolProtocol.HeldFollowsLive | src/aotcompile.cpp:2130-2175 | With a jobserver held <= live <= held + 1 whenever pool_mutex is free, live is the number of workers that exist or are about to be spawned, and tokens free, outside, held and in transit add up to the budget |
| PoolProtocol.LeaverPaysBack | src/aotcompile.cpp:2130-2140 | A worker that leaves gives a token back exactly if the workers that stay do not need it: where live - 1 were held, that is so again, or none with nobody left, and what is given back is free |
| PoolProtocol.HeldExactly | src/aotcompile.cpp:2130-2175 | In every run, once the pool is open, held is exactly live - 1, or 0 without workers; but exactly live after tokens were booked to a pool whose last worker had left |
| PoolProtocol.LateCredit | src/aotcompile.cpp:2160-2167 | A run in which that happens: one surplus token is held |
| PoolProtocol.PollWants | src/aotcompile.cpp:2157-2161 | The main thread asks for a token for each unclaimed partition as far as there is room for workers, and stops polling exactly without a jobserver, room or unclaimed partitions |
| PoolProtocol.StopsAsking | src/aotcompile.cpp:110-124 | acquire ends only at a failed trywait or with all tokens it asked for, and every token taken becomes a worker |
| PoolProtocol.SpawnedWithinThreads | src/aotcompile.cpp:2155-2175 | Workers spawned, about to be spawned and tokens acquired for more never exceed the number of partitions |
| PoolProtocol.ClaimedOnce | src/aotcompile.cpp:2093-2095 | No two workers compile one partition, and none is compiled again |
| PoolProtocol.AllDoneAtTheEnd | src/aotcompile.cpp:2177-2180 | After the joins every partition was claimed once and compiled, `held_tokens` is 0 as asserted, and all tokens are back |
| PoolProtocol.RunsAreShort | src/aotcompile.cpp:2092-2140 | Workers take at most five steps per partition in all, however long the main thread polls |
| PoolProtocol.NeverStuck | src/aotcompile.cpp:2157-2175 | An unfinished pool can always go on, and polling never waits for itself |
| WorkerPool.Pool.constructor | src/aotcompile.cpp:2076-2081 | The pool starts in an initial state of the protocol |
| WorkerPool.Pool.FetchPartition | src/aotcompile.cpp:2093-2095 | The protocol's Fetch step: a partition that no other worker has, or none is left |
| WorkerPool.Pool.WriteOutput | src/aotcompile.cpp:2125-2125 | The protocol's Output step |
| WorkerPool.Pool.LeavePool | src/aotcompile.cpp:2130-2140 | The protocol's Leave step: one live thread less, and where live - 1 tokens were held, live - 1 are held again, or none with nobody left; what is given back is free |
| WorkerPool.Pool.Others | src/aotcompile.cpp:2092-2140 | Any number of steps of workers and siblings, in any order, adds none to the main thread's own steps |
| WorkerPool.Pool.TryWait | src/aotcompile.cpp:113-121 | One token is taken, or nothing but the failure is noted |
| WorkerPool.Pool.Acquire | src/aotcompile.cpp:110-124 | Takes one token by each successful trywait, until one fails or there are as many as wanted, with workers and siblings acting in between and trywaits that may fail at any time |
| WorkerPool.Pool.OpenPool | src/aotcompile.cpp:2144-2151 | The first pool: the baseline thread and one for each token acquired, fewer than partitions only if a trywait failed, or one per partition without a jobserver; the main thread takes exactly the protocol's steps for it |
| WorkerPool.Pool.SpawnWorker | src/aotcompile.cpp:2082-2084 | The protocol's Spawn step, within the array of workers |
| WorkerPool.Pool.SpawnAll | src/aotcompile.cpp:2152-2153 | Spawns the workers booked, as so many Spawn steps, some of which may be at work or gone before the last is spawned |
| WorkerPool.Pool.Grow | src/aotcompile.cpp:2160-2171 | The pool grows by the tokens acquired, less than wanted only if a trywait failed: Take steps, then Credit and as many Spawn steps, whatever others do in between |
| WorkerPool.Pool.ScaleUp | src/aotcompile.cpp:2157-2175 | One round, with workers and siblings acting at any point of it, ends the loop only if the pool is full or every partition is claimed, and else grows the pool by a worker for each partition unclaimed when it polled, as far as there is room, unless a trywait failed |
| WorkerPool.Pool.JoinAll | src/aotcompile.cpp:2177-2180 | After the joins no token is held and every partition is compiled |
| SafeName.RoundTrip | src/aotcompile.cpp:415-420 | A decoder that reads codes from the end recovers every byte string from its safe name |
| SafeName.EscapeTable | src/aotcompile.cpp:388-420 | Byte by byte: letters, digits, `_`, `$` and 128 to 254 stay; a byte with a name becomes the name and a dot, any other two hexadecimal digits and a dot; and each of these is read as that byte |
| SafeName.SourceExample | src/aotcompile.cpp:420-420 | The example of the source's comment |
| SafeName.CodesDoNotClash | src/aotcompile.cpp:401-412 | No code of three letters ends in a code of two letters or in two hexadecimal digits |
| SafeName.NamesStayApart | src/aotcompile.cpp:415-420 | Different names have different safe names |
| SafeName.OnlySafeCharacters | src/aotcompile.cpp:415-420 | A safe name holds nothing but identifier characters, `$`, dots and bytes from 128 to 254 |
| SafeName.SizeTells | src/aotcompile.cpp:443-444 | The size grows exactly when some byte was escaped, and else the name is unchanged |
| SafeName.MakeSafeName | src/aotcompile.cpp:421-445 | Renames exactly the names with a byte that is not safe, to their safe names |
| JitBlocks.MaskAligns | src/cgmemmgr.cpp:455-455 | `avail & -align` rounds down to the alignment, in 64-bit words |
| JitBlocks.AllocPlaces | src/cgmemmgr.cpp:453-461 | An allocation is aligned, in bounds, and between the old and the new top of the block |
| JitBlocks.AllocIsFirstFit | src/cgmemmgr.cpp:453-461 | An allocation fails exactly if no aligned place is left in the block, and else takes the lowest |
| JitBlocks.CutAboveTop | src/cgmemmgr.cpp:462-470 | What reset unmaps starts at a page boundary above everything handed out, is not empty, as asserted, and leaves less than a page unused |
| JitBlocks.RangesApart | src/cgmemmgr.cpp:434-473 | No byte lies in two of the ranges handed out |
| JitBlocks.BlockSizeFits | src/cgmemmgr.cpp:48-52 | A new block is a whole number of pages and large enough |
| JitBlocks.BlockSizeIsLeast | src/cgmemmgr.cpp:48-52 | No smaller number of whole pages, from 256 on, would do |
| JitBlocks.RWAllocator.Allocate | src/cgmemmgr.cpp:490-506 | Hands out one more aligned range apart from all earlier ones, which stay mapped: the lowest place in the old block, or, exactly if that has none, the start of a new one, and then less than a page of the old one's unused space stays mapped |
| JitAllocators.ROAllocator.constructor | src/cgmemmgr.cpp:545-561 | An allocator starts with nothing mapped and nothing handed out |
| JitAllocators.ROAllocator.PrepareShadow | src/cgmemmgr.cpp:632-640 | Afterwards the block's second map exists and is writable |
| JitAllocators.ROAllocator.DualWrPtr | src/cgmemmgr.cpp:628-642 | The write address shows the allocated bytes in the second map, apart from all other write addresses in use; the asserted bound of the runtime address holds exactly if bytes were asked for or the block has some left |
| JitAllocators.ROAllocator.TempWrPtr | src/cgmemmgr.cpp:710-724 | The write address lies in a temporary buffer, apart from all other write addresses in use |
| JitAllocators.ROAllocator.Allocate | src/cgmemmgr.cpp:572-621 | Hands out one more range at its runtime address, and a writable range to fill it through; all earlier ones stay apart, mapped, and writable until the next finalization; the range is the lowest place in the old block or, exactly if that has none, the start of a new one, and the old one is completed or trimmed to its used pages |
| JitAllocators.ROAllocator.FinalizeBlock | src/cgmemmgr.cpp:651-742 | The block gets its final protection, or its second map is closed or unmapped; the assertions on the state hold in every reachable state |
| JitAllocators.ROAllocator.Finalize | src/cgmemmgr.cpp:692-783 | Afterwards all that was handed out lies in memory that is executable, or read-only for constants, and not writable; every second map is closed or gone; everything handed out is still mapped, and completed blocks keep less than a page unused |
| JitAllocators.ROAllocator.ClearTemp | src/cgmemmgr.cpp:766-781 | Keeps at most the first temporary buffer, empty |
| JitAllocators.HandedOutApart | src/cgmemmgr.cpp:572-621 | Ranges handed out never overlap and stay mapped, at every moment |
| JitAllocators.BytesApart | src/cgmemmgr.cpp:628-642 | No byte of memory is written for two allocations since the last finalization, whichever of the views of a block they are written through |
| JitAllocators.WritesApart | src/cgmemmgr.cpp:628-724 | The write addresses of allocations since the last finalization never overlap, are writable and, except in temporary buffers, show the range that was handed out, at the same offset of its block; no two show the same byte of memory |
| JitAllocators.WrPtrAssertIff | src/cgmemmgr.cpp:630-631 | For an allocator whose block is past its first finalization, the asserted bound of the runtime address holds exactly if bytes are asked for or some aligned space is left |
| JitAllocators.WrPtrAssertFails | src/cgmemmgr.cpp:630-631 | An allocator reaches a state where it fails: all 256 pages handed out, finalized, and then an allocation of no bytes |
| JitBatch.MemoryManager.constructor | src/cgmemmgr.cpp:862-867 | The manager starts with nothing in flight |
| JitBatch.MemoryManager.Allocate | src/cgmemmgr.cpp:1005-1045 | Each of the three allocators hands out exactly one range for each segment of its kind, in order, with that segment's size and alignment, and none for others; the constants and code are written through ranges as long; the handle keeps exactly those two; a successful call adds one allocation in flight, a failed one none |
| JitBatch.MemoryManager.PlaceSegment | src/cgmemmgr.cpp:1016-1036 | A segment gets one range from the allocator for its protection, and no other allocator hands out anything |
| JitBatch.MemoryManager.CompleteBatch | src/cgmemmgr.cpp:871-881 | Protections are touched exactly when the last allocation in flight completes, and then all waiting callbacks are released |
| JitBatch.MemoryManager.Finalize | src/cgmemmgr.cpp:896-924 | Counts the allocation out; its callback may run at once, or waits for the end of the batch if it covers executable memory; once nothing is in flight nothing waits, all constants are read-only and all code is executable and not writable |
| JitBatch.MemoryManager.Abandon | src/cgmemmgr.cpp:926-935 | Counts the allocation out without a callback |
| JitBatch.MemoryManager.Drop | src/cgmemmgr.cpp:957-961 | Dropping an allocation that was not completed abandons it, and does nothing to one that was |
| JitBatch.MemoryManager.RunCallback | src/cgmemmgr.cpp:883-894 | A callback that runs has not run before, and the pages of its code are executable |
| JitBatch.BatchEnds | src/cgmemmgr.cpp:871-881 | When no allocation is open and all code has its final protection, every callback may run |
| TypeEgality.ShortcutSaves | src/builtins.c:191-192 | The test for identical objects never changes the answer, whichever nodes are one object |
| TypeEgality.EgalIsEquality | src/builtins.c:189-255 | Types that bind nothing are egal exactly if they are equal in every part, an absent Vararg element counting as Any |
| TypeEgality.EgalBinders | src/builtins.c:219-241 | Types that bind a variable need equal bounds, and equal names where names count and always within TypeEgal |
| TypeEgality.EgalVariables | src/builtins.c:210-218 | A variable bound outermost is egal to the one bound at the same place, any other only to itself |
| TypeEgality.EgalIsCanonEquality | src/builtins.c:189-255 | egal_types decides exactly whether two types are equal up to the identity of bound variables, names kept or, outside TypeEgal, ignored, if no variable of the second occurs under two binders of its own and no TypeVar that either binds is shared |
| TypeEgality.CanonGivesEgal | src/builtins.c:189-255 | Types with one canonical form are egal, without any condition |
| TypeEgality.EgalGivesCanon | src/builtins.c:189-255 | The converse, relating the environment of pairs to the depths of binders on either side |
| TypeEgality.HashSeesCanon | src/builtins.c:419-479 | type_object_id_ depends on nothing but the canonical form, for cached hashes that do |
| TypeEgality.EgalTypesHashAlike | src/builtins.c:419-479 | Egal types have equal hashes, whatever the mixing function |
| TypeHashing.HashIsExact | src/builtins.c:419-479 | With a mixing function that never collides, types without Vararg and cached hashes hash alike exactly if they have one canonical form |
| TypeHashing.MixedTells | src/builtins.c:419-479 | Such a hash gives back what it started from and every part that was mixed in, in order |
| TypeHashing.PerfectExists | src/builtins.c:419-479 | There are mixing functions like that |
| TypeHashing.VarargCollides | src/builtins.c:463-469 | Whatever the mixing function, Vararg{D{p}, n} hashes like D{p, n} |
| TypeEgalExact.OtherReading | src/builtins.c:210-231 | For every type in which no variable is both free and bound there is another one with new binders, each bound once, that egal_types takes for it; it has the same canonical form exactly if no variable occurs under two binders of its own |
| TypeEgalExact.EgalIsCanonExactly | src/builtins.c:189-255 | The exact condition on a type: egal_types takes no type with another canonical form for it, sharing no bound TypeVar, if and only if none of its variables occurs under two binders of its own |
| TypeEgalExact.EgalHashesAlikeExactly | src/builtins.c:419-479 | Under the same condition, and only then, all egal types hash alike for every mixing function, where no hash is cached |
| TypeEgalExact.RebindingMisleads | src/builtins.c:210-231 | Two types with every binder in use, one of which binds a variable again in its scope: egal_types holds in one direction only, and the hashes may differ |
| TypeEgalExact.SharingExactly | src/builtins.c:191-192 | With any sharing allowed, the exact condition is that no variable stands below a binder: otherwise some type with another canonical form, which binds the same TypeVars, is taken for it |
| TypeEgalExact.SharingMisleads | src/builtins.c:191-192 | Two types with every binder in use that share a TypeVar, bound at different depths: they are egal and may hash differently |
| Wtf8.DecodeEncoded | cli/loader_win_utils.c:122-161 | Every code point up to 0x10FFFF, surrogates included, is read back from its bytes, and reading stops at its last byte |
| Wtf8.Examples | cli/loader_win_utils.c:217-236 | The bytes of the examples in section 7 of RFC 3629, and of a lone surrogate |
| Wtf8.UnitsOfValue | cli/loader_win_utils.c:166-177 | A value is written as the units it was read from |
| Wtf8.BytesAreString | cli/loader_win_utils.c:181-240 | The bytes are below 256 and hold no NUL but the last |
| Wtf8.Put | cli/loader_win_utils.c:217-236 | The masked and joined bytes that are written are the byte form of the code point |
| Wtf8.RoundTrip | cli/loader_win_utils.c:181-283 | utf8_to_wchar gives back every NUL-terminated array of 16-bit units from what wchar_to_utf8 made of it |
| Wtf8.Decode1 | cli/loader_win_utils.c:122-161 | The pointer moves and the code point is found as specified, without reading past the NUL |
| Wtf8.CountBytes | cli/loader_win_utils.c:188-206 | The first pass counts exactly the bytes that the second writes |
| Wtf8.WcharToUtf8 | cli/loader_win_utils.c:181-240 | The new buffer holds exactly the byte form with its NUL |
| Wtf8.CountUnits | cli/loader_win_utils.c:252-263 | The first pass counts exactly the units, or finds the byte that is out of place |
| Wtf8.Utf8ToWchar | cli/loader_win_utils.c:245-283 | The new buffer holds exactly the units with their NUL, or nothing is returned |
| Wtf8Canonical.EncodedClean | cli/loader_win_utils.c:217-236 | wchar_to_utf8 writes neither overlong forms nor the halves of a surrogate pair one by one |
| Wtf8Canonical.DecodedShort | cli/loader_win_utils.c:122-161 | A code point read from bytes that are not overlong is written as exactly these bytes |
| Wtf8Canonical.ComesBackExactly | cli/loader_win_utils.c:181-283 | Bytes that can be read come back from wchar_to_utf8 after utf8_to_wchar if and only if no overlong start and no encoded pair occurs anywhere in them |
| Wtf8Canonical.OverlongChanges | cli/loader_win_utils.c:139-143 | A concrete string that can be read and does not come back |
| Aarch64Hfa.Continue | src/abi_aarch64.cpp:107-176 | Succeeds exactly when the leaves of the type continue what was found so far, up to four in all, and then adds their number |
| Aarch64Hfa.Members | src/abi_aarch64.cpp:149-163 | The same for the members of an aggregate, those of size zero ignored |
| Aarch64Hfa.LeavesFill | src/abi_aarch64.cpp:99-106 | Numbers and short vectors account for every byte of a type that is made of them |
| Aarch64Hfa.HomogeneousSize | src/abi_aarch64.cpp:188-190 | A homogeneous aggregate is as large as its leaves together, at most 64 bytes, so the early test on the size refuses none |
| Aarch64Hfa.EqualNumbers | src/abi_aarch64.cpp:107-176 | An aggregate of equal primitive fields is homogeneous exactly if they are floating-point numbers of 2, 4, 8 or 16 bytes, and four at most |
| Aarch64Hfa.ShortVector | src/abi_aarch64.cpp:18-60 | A tuple of VecElements of one type without fields is a short vector exactly if it takes 8 or 16 bytes |
| Aarch64Hfa.OtherVectors | src/abi_aarch64.cpp:107-131 | Such tuples of another size are homogeneous only if they are not lowered as vectors, like other aggregates |
| Aarch64Hfa.ElementType | src/abi_aarch64.cpp:178-197 | Finds the element type of exactly the types that flatten to one to four identical numbers or short vectors, and their number |
| Aarch64Hfa.NeedPassByRef | src/abi_aarch64.cpp:199-220 | True exactly for types larger than 16 bytes that are not homogeneous |
| Aarch64Hfa.ClassifyArg | src/abi_aarch64.cpp:231-340 | Vector registers for exactly the homogeneous types, as many as leaves; the stack for what else is larger than 16 bytes; otherwise as many general registers as the bytes need.  From the type alone: a primitive type is passed unchanged in a vector register exactly if it is a float of 2, 4, 8 or 16 bytes, a tuple of VecElements exactly if it has 8 or 16 bytes, and up to four equal floats as an array of them (section 5.4 of AAPCS64) |
| Aarch64Hfa.UseSret | src/abi_aarch64.cpp:361-377 | A result goes through memory exactly when an argument of its type would be passed by reference |

## Left out

- The SSE4.2 form of the CRC: the same streams and joins as the ARMv8 form, with an alignment loop in front.
- The literal tables of crc32c-tables.c: the model uses what their generator computes.
- CPU dispatch, inline assembly: a CRC instruction is its definition, 8, 4, 2 or 1 byte-wise steps.
- Hash tables in the engine: native_reservations and foreign_reservations are one map keyed by method and owner.
- Placeholders in the engine are never reused addresses: each reserve call gets a new identity, and the thread that made the call is the one that fulfills it.
- Weak memory ordering, in all protocols: steps are atomic and in sequence.
- Liveness of the operating system: that a woken thread or a sleeping poller runs again.
- Byte-level memcpy in load and store of APInt.c: operands are words.
- Bitwise operations, comparisons, byte swap, popcount, leading zeros and the exported wrappers of APInt.c: easier than what is here.
- FPtoInt, half and bfloat encoders, denormals and overflow of the final cast: they rest on libm or helpers that are not part of this model.
- Failing allocation: malloc and mmap always succeed.
- LLVM objects in aotcompile.cpp: a module is its globals with weights, uses and table entries; getFunctionWeight is the given weight.
- Partitioning.SortByWeight: std::sort may order equal weights otherwise; callers rely on no more than its contract.
- verify_partitioning as a program: its checks are the predicates PlacedOnce, UsesTogether and TablesFollow.
- A jobserver whose semaphore could not be opened: acquire then returns 0, which is a semaphore without tokens.
- PoolProtocol.NeverStuck: says that some step is possible, not that the scheduler takes it.
- Contents of JIT memory: flush and the copies to runtime addresses are not modelled, only where everything lies and how it is protected.
- The Windows variants of the allocators: a block there starts with a second map.
- Alignments above the page size.
- jl_egal and object_id apart from types: other values are leaves with what egality compares.
- TypeEgality.EgalTypesHashAlike: takes cached hashes of concrete types, and hashes of other values, as depending on what egality sees only.
- TypeEgalExact.EgalIsCanonExactly: speaks of all terms, also those with a binder whose variable does not occur, which jl_type_unionall does not build; TypeEgalExact.RebindingMisleads has a pair without such binders.
- TypeEgalExact.EgalHashesAlikeExactly: types that carry a cached hash are left to TypeEgality.EgalTypesHashAlike.
- Null type parameters in type_object_id_.
- Wtf8.Utf8ToWchar: buffers that cannot be allocated.
- Layout computation: sizes of the types in Aarch64Hfa are those of types without padding, and padded types are refused by the flag as in the source.
