# A Dafny model of the AT32 RT-Thread kernel services and fixed-point library

The project models, in Dafny 4.11, the parts of the repository that carry an algorithm rather than register
settings, and proves what they promise for all inputs, all runs and all thread interleavings.

| file | what it models |
|---|---|
| `pool_protocol.dfy`, `pool_waits.dfy`, `mempool.dfy`, `pool_machine.dfy` | the fixed-block memory pool: every interrupt-free region as one step, any number of threads, timed waits that expire, detach running beside them; and the same regions on byte memory with block headers and a ring of suspended threads; and both joined over whole runs |
| `lists.dfy` | the intrusive circular list and the singly linked list, on the heap |
| `reciprocal.dfy` | the Q31 and Q15 Newton reciprocals |
| `pid.dfy`, `clarke.dfy`, `interpolation.dfy`, `fixed_point.dfy` | the incremental PID controller, the Clarke transform pair, table interpolation, clips and the 32x64 product |
| `circular_buffer.dfy` | the circular write and read |
| `number_text.dfy`, `emission.dfy`, `format_text.dfy`, `directive.dfy`, `conversion.dfy`, `printf.dfy` | `print_number` and `rt_vsnprintf` |
| `mem_ops.dfy`, `malloc_align.dfy` | memmove, memcpy, memset; aligned allocation |
| `i2c_line.dfy`, `i2c_master.dfy` | the bit-banged I2C master and a receiver that follows sections 3.1.3 to 3.1.6 of NXP UM10204 |
| `nvic.dfy`, `bit_reversal.dfy` | interrupt priorities, the software bit reversal |
| `arith.dfy`, `bits.dfy`, `ram.dfy`, `sequences.dfy` | shared arithmetic, bit operators, little-endian byte memory |

Conventions. The machine is the Cortex-M4: pointers, `long`, `rt_ubase_t` and `rt_size_t` have 32 bits, `RT_ALIGN_SIZE` is 4,
memory is little-endian, casts wrap in two's complement and a right shift of a signed value is arithmetic. Values are
mathematical integers, and every cast that the code performs is written out with its modulus. Code that updates state is a
method or a class; its contract ties the new state to a function of the old one, and the lemmas are about those functions.

## Where the code falls short of what it promises

Each of these is stated as a theorem: a condition under which the code keeps its promise, and that outside it it does not.

- A timed wait that expires leaves `suspend_thread_count` one too high. The counter is right exactly when no wait has expired,
  and a later free that finds the list empty takes the list head for a thread (`WaiterCount`, `CrashExactly`).
- `rt_mp_detach` looks at the list outside the region that relies on it, so a free in between makes it resume the list
  head (`FreeBehindDetachCrashes`). These two are the only ways to fail (`CrashExactly`, `SafeWithoutTimeouts`).
- The time left of a wait is computed in 32 bits: it is right exactly if the thread is not overdue, or overdue by at most
  2^31 ticks modulo 2^32 (`TimeLeftExactly`).
- The reciprocal is a reciprocal exactly for positive inputs (`RecipQ31Exactly`).
- The PID documentation says that the result saturates; the code wraps. A sample gets the saturated value exactly when the
  sum fits 32 bits or is the lowest of all (`UpdateSaturatesExactly`), so a run keeps to the documentation exactly when
  the documented controller has nothing to saturate (`RunSaturatesExactly`), which for input scaled down as documented
  means that the sum of the increments never leaves 32 bits (`ScaledRunExactly`). `OutputWraps` is an input that fails.
  The drift bound holds when the sum fits, and for up to 2^32 samples only then (`DriftIsBounded`).
- The Clarke documentation says that there is no risk of overflow; the second product is cast without saturation, and
  the output is the saturated sum exactly when that product fits (`ForwardSaturatesExactly`).
- `clip_q63_to_q15` saturates outside two half-ranges only (`ClipQ63ToQ15Exactly`).
- The comment in the circular buffers announces support for negative increments; the offset stays in range exactly for
  increments from zero to the length (`AdvanceStaysIn`).
- `rt_vsnprintf` with size 0 has no limit (`SizeZeroIsUnbounded`). Its return value is too large by the number of
  conversions with a sign, a '0' or '-' flag and width to spare whose sign has no room left in the buffer; it is right
  exactly when there is none (`BoundedCall`). `LengthTooLarge` is a call that returns 7 instead of 6.
- `%o` prints hexadecimal, since any base but ten divides by sixteen: read in base eight it denotes its argument exactly
  when that is below eight (`OctalExactly`).
- A precision of zero suppresses the digits of every number: the text denotes the number exactly when that is zero
  (`PrecisionZeroExactly`).
- `rt_memcpy` moves correctly, for every content of memory, exactly when the destination does not begin inside the source
  (`ForwardMovesExactly`).
- `rt_malloc_align` aligns, for every heap pointer, exactly when the rounded alignment is a power of two
  (`AlignedExactlyForPowers`), and asks for room enough exactly when no addition wraps (`AskedIsEnough`).
- `rt_mp_create` asks for room for all its blocks exactly when the product does not wrap (`RequestedExactly`).
- An I2C write is well framed exactly when the slave answers before each ninth clock pulse rises; a later answer appears
  on the bus as a START (`WellFramedExactly`).

## Model

| member | source | states |
|---|---|---|
| PoolProtocol.NoLostWakeUp | Libraries/utilities/rtthread/src/mempool.c:315-383 | on every run of any threads, timeouts and evictions included, a waiting thread implies that there are at most as many free blocks as threads woken by a free that have not looked yet; with none of those pending, no block is free |
| PoolProtocol.WaiterCount | Libraries/utilities/rtthread/src/mempool.c:334-358 | the counter exceeds the suspend list by the number of expired waits, so it is right exactly on runs without one |
| PoolProtocol.PoolPartition | Libraries/utilities/rtthread/src/mempool.c:370-389 | on every run free and allocated blocks are exactly the pool's blocks, each once; the free counter is the list's length, the assertion on the list head holds, and a block handed out was not in use |
| PoolProtocol.CrashExactly | Libraries/utilities/rtthread/src/mempool.c:421-435 | after any run, a step fails exactly when an allocated block is freed after some wait has expired and nobody is on the list, or the list has run empty between the two parts of a turn of detach |
| PoolProtocol.SafeWithoutTimeouts | Libraries/utilities/rtthread/src/mempool.c:398-448 | no run fails in which no wait expires and no free comes between detach's test and its region |
| PoolProtocol.FreeBehindDetachCrashes | Libraries/utilities/rtthread/src/mempool.c:142-165 | a five-step run in which a free between detach's test and its region makes it resume the list head |
| PoolProtocol.TimeLeftExactly | Libraries/utilities/rtthread/src/mempool.c:360-365 | for every wait and any number of elapsed ticks, the 32-bit subtraction gives what is left of the wait exactly if the thread is not overdue, or overdue by at most 2^31 ticks modulo 2^32 |
| PoolProtocol.TimeoutThenFreeCrashes | Libraries/utilities/rtthread/src/thread.c:732-754 | a four-step run in which an expired wait makes a free resume the list head |
| PoolProtocol.WokenThreadCanLose | Libraries/utilities/rtthread/src/mempool.c:317-368 | whenever a free wakes the first waiter of an empty pool, any other thread may take the block; the woken one goes back to the front of the list with what is left of its wait, or gives up if nothing is |
| PoolProtocol.LastFreedFirstAllocated | Libraries/utilities/rtthread/src/mempool.c:374-419 | the block freed last is allocated next, and the two steps leave the free list and the set of used blocks as they were |
| PoolProtocol.StepKeepsInv | Libraries/utilities/rtthread/src/mempool.c:304-448 | every step of every thread keeps partition, queue, counter and the wake-up bound, and fails exactly in the two fatal cases |
| PoolProtocol.RunKeepsInv | Libraries/utilities/rtthread/src/mempool.c:304-448 | the same over whole runs, counting the expired waits |
| PoolProtocol.FreshInv | Libraries/utilities/rtthread/src/mempool.c:101-119 | a freshly initialised pool satisfies the invariant |
| PoolProtocol.WaitsAddUp | Libraries/utilities/rtthread/src/mempool.c:360-365 | interrupted waits add up to one wait for up to 2^31 ticks, and a finite wait never becomes endless |
| PoolWaits.ErrorEndsWait | Libraries/utilities/rtthread/src/mempool.c:151-165 | on every run, once detach or its timer has ended a thread's wait, and whatever other steps come in between, the thread's next step is to leave with RT_ERROR or RT_ETIMEOUT: it takes no block, does not go back to the list, and the pool does not change |
| PoolWaits.Bystander | Libraries/utilities/rtthread/src/mempool.c:304-448 | the steps of others leave a thread where it is, but for the first one on the list, which a free wakes without an error and detach with one |
| PoolWaits.StaysRoused | Libraries/utilities/rtthread/src/mempool.c:354-358 | over every run, a thread that has been made ready keeps its error code until it runs, and is not on the list |
| PoolWaits.EndlessWait | Libraries/utilities/rtthread/src/mempool.c:317-366 | in every step an endless wait goes on, or detach ends it, or the thread takes a block; no timer ends it |
| PoolWaits.WokenTakes | Libraries/utilities/rtthread/src/mempool.c:315-383 | a woken thread takes the first free block if there is one when it runs |
| PoolWaits.AttemptMeans | Libraries/utilities/rtthread/src/mempool.c:315-383 | for every wait: a block exactly when one is free, sleep exactly when none is and the wait is not zero, giving up exactly when none is and the wait is zero |
| PoolWaits.LastAsleepFirstWoken | Libraries/utilities/rtthread/src/mempool.c:335-430 | the thread that went to sleep last is the first that a free wakes |
| Ram.RoundingMeans | Libraries/utilities/rtthread/include/rtdef.h:271-284 | rounding gives the nearest multiple of four on its side, and wraps to zero behind the last one |
| MemPools.LinkBlocks | Libraries/utilities/rtthread/src/mempool.c:108-117 | the initialisation loop links all headers in address order and ends the list in NULL |
| MemPools.HeadersSpaced | Libraries/utilities/rtthread/src/mempool.c:109-117 | the blocks are distinct, do not overlap and lie in the pool's memory |
| MemPools.Init | Libraries/utilities/rtthread/src/mempool.c:77-122 | a pool over the given memory has size / (block + header) blocks as large as asked, rounded up, all free, in a valid state with a list head of its own |
| MemPools.Create | Libraries/utilities/rtthread/src/mempool.c:185-238 | the same over heap memory, and no pool when the heap has none |
| MemPools.RequestedExactly | Libraries/utilities/rtthread/src/mempool.c:201-207 | the bytes asked from the heap suffice for the blocks exactly when their product does not wrap |
| MemPools.BlockLargeEnough | Libraries/utilities/rtthread/src/mempool.c:96-98 | a block is as large as asked exactly when rounding the size up does not wrap |
| MemPools.TakeInMemory | Libraries/utilities/rtthread/src/mempool.c:370-381 | unlinking the first block and writing the pool's address in its header keeps the chain in memory |
| MemPools.PushInMemory | Libraries/utilities/rtthread/src/mempool.c:414-419 | linking a used block back in front keeps the chain in memory |
| MemPools.PayloadInMemory | Libraries/utilities/rtthread/src/mempool.c:380-389 | whatever a holder writes into its block, headers and free list stay intact |
| MemPools.MemPool.AttemptRegion | Libraries/utilities/rtthread/src/mempool.c:315-384 | the region of alloc, on memory and list, does what the protocol says: new state, outcome and error code; the only store is to the header handed out |
| MemPools.MemPool.ReleaseRegion | Libraries/utilities/rtthread/src/mempool.c:411-446 | the region of free, on memory and list, does what the protocol says, waking the first listed thread; the only store is to the header given back |
| MemPools.MemPool.PoolOf | Libraries/utilities/rtthread/src/mempool.c:405-407 | the word before an allocated block leads to its pool |
| MemPools.MemPool.Detach | Libraries/utilities/rtthread/src/mempool.c:142-165 | the loop empties the list and gives every waiting thread the error code |
| MemPools.MemPool.EvictRegion | Libraries/utilities/rtthread/src/mempool.c:145-164 | one region of detach, on memory and list, does what the protocol says and gives the thread the error code |
| MemPools.MemPool.ExpireRegion | Libraries/utilities/rtthread/src/thread.c:732-755 | the timer unlinks its thread wherever it stands in the list, does what the protocol says, and leaves the counter alone |
| MemPools.MarkedMeans | Libraries/utilities/rtthread/src/mempool.c:149-161 | exactly the threads of the list get the code |
| MemPools.MemPool.WritePayload | Libraries/utilities/rtthread/src/mempool.c:380-389 | a write to an allocated block leaves the pool valid |
| PoolMachine.PerformAction | Libraries/utilities/rtthread/src/mempool.c:142-446 | every region that can be executed without failing, and every byte that a holder writes, keeps memory, list and error codes in the protocol's state; a byte of a block changes only when it is written, and a thread that leaves with an error changes neither pool nor memory |
| PoolMachine.PerformAll | Libraries/utilities/rtthread/src/mempool.c:142-446 | every run that does not fail, of any threads, with the holders writing their blocks in between, ends in memory where the protocol ends; a byte that its holder has left alone in a block that it has not freed is still there; a thread made ready with an error finds its code and is not on the ring |
| PoolMachine.InitAndPerform | Libraries/utilities/rtthread/src/mempool.c:77-446 | the same from rt_mp_init: after every such run the state in memory is that of the protocol's run |
| PoolMachine.SimMeans | Libraries/utilities/rtthread/src/mempool.c:370-419 | what that means: the free blocks are linked in the order of the list and end in NULL, free and used blocks are the pool's, every used header names the pool, and the suspend list is the ring of the waiting threads |
| PoolMachine.WritesAreInvisible | Libraries/utilities/rtthread/src/mempool.c:380-389 | the regions of a run with writes are a run of the protocol with the same result |
| PoolMachine.SafeRuns | Libraries/utilities/rtthread/src/mempool.c:142-446 | runs with writes do not fail if no wait expires and no free comes between detach's test and its region |
| RtList.InsertAfter | Libraries/utilities/rtthread/include/rtservice.h:58-65 | on a ring, inserts right behind the given member; behind the head means first |
| RtList.InsertBefore | Libraries/utilities/rtthread/include/rtservice.h:73-80 | on a ring, inserts right before the given member; before the head means last |
| RtList.Remove | Libraries/utilities/rtthread/include/rtservice.h:86-92 | deletes exactly the node, keeps the order of the others, leaves the node linked to itself |
| RtList.IsEmpty | Libraries/utilities/rtthread/include/rtservice.h:98-101 | true exactly when the head is alone |
| RtList.Len | Libraries/utilities/rtthread/include/rtservice.h:107-118 | the walk terminates with the number of members |
| RtSlist.Append | Libraries/utilities/rtthread/include/rtservice.h:194-204 | the node becomes the last one |
| RtSlist.Insert | Libraries/utilities/rtthread/include/rtservice.h:206-210 | the node becomes the first one |
| RtSlist.Len | Libraries/utilities/rtthread/include/rtservice.h:212-223 | the walk terminates with the number of members |
| RtSlist.Remove | Libraries/utilities/rtthread/include/rtservice.h:225-235 | deletes exactly the node when it is on the list, and otherwise changes nothing |
| Reciprocal.NewtonStep | Libraries/startup/CoreSupport/arm_math.h:594-601 | one turn stays in range, never overestimates, and squares the residual up to an explicit truncation loss |
| Reciprocal.TwoTurns | Libraries/startup/CoreSupport/arm_math.h:573-607 | from any seed the final error is at least zero and below (e0^2 + 3/p)^2 + 2/p |
| Reciprocal.TurnWithoutClip | Libraries/startup/CoreSupport/arm_math.h:596-600 | for a positive input neither a cast nor the clip changes its argument |
| Reciprocal.TurnOnNegative | Libraries/startup/CoreSupport/arm_math.h:596-600 | for a negative input a turn saturates the exact product and never lowers the estimate |
| Reciprocal.ErrorIsResidual | Libraries/startup/CoreSupport/arm_math.h:582-583 | the error measured on the original input with the returned exponent is that of the normalised input |
| Reciprocal.RecipQ31Exactly | Libraries/startup/CoreSupport/arm_math.h:563-608 | the error lies in [0, 1], and then below the bound, exactly for positive inputs |
| Reciprocal.ArmRecipQ31 | Libraries/startup/CoreSupport/arm_math.h:563-608 | the whole function, for both signs: table index in range, normalising exponent, and the two turns on the seed |
| Reciprocal.ArmRecipQ15 | Libraries/startup/CoreSupport/arm_math.h:614-659 | for both signs the index is in range and the result is that of two turns with all their casts; on positive inputs, of two exact turns |
| Reciprocal.RecipQ15Bound | Libraries/startup/CoreSupport/arm_math.h:614-659 | the Q15 result never overestimates, and its error is below the bound of two turns |
| Reciprocal.TurnQ15Means | Libraries/startup/CoreSupport/arm_math.h:645-652 | for both signs a turn is the exact one, cut to sixteen bits |
| Reciprocal.ExactTurnQ15 | Libraries/startup/CoreSupport/arm_math.h:647-650 | the unclipped 16-bit cast never wraps on positive inputs |
| PidQ31.Pid.Process | Libraries/startup/CoreSupport/arm_math.h:4829-4858 | the method keeps the state of the recurrence and returns its output, every cast included |
| PidQ31.OutputIsWrappedSum | Libraries/startup/CoreSupport/arm_math.h:4845-4849 | without accumulator overflow the output is the sum of all increments modulo 2^32, whatever wrapped on the way |
| PidQ31.IncrementsTelescope | Libraries/startup/CoreSupport/arm_math.h:4740-4745 | the increments telescope to the positional controller, losing less than one unit per sample |
| PidQ31.DriftIsBounded | Libraries/startup/CoreSupport/arm_math.h:4829-4857 | the output is below the positional controller by at most n units after n samples when the sum of the increments fits, and for up to 2^32 samples only then |
| PidQ31.UpdateSaturatesExactly | Libraries/startup/CoreSupport/arm_math.h:4825-4849 | for every accumulator and previous output, the new output is the saturated sum exactly when the sum fits or is the lowest possible one; otherwise it is off by 2^32 |
| PidQ31.RunSaturatesExactly | Libraries/startup/CoreSupport/arm_math.h:4825-4857 | for all gains and samples, every output is that of the documented saturating controller exactly when that controller meets no sum that wrapping would harm |
| PidQ31.RunFitsExactly | Libraries/startup/CoreSupport/arm_math.h:4825-4857 | with room in the accumulator, exactly when the exact sum of the increments never leaves 32 bits; the output then is that sum |
| PidQ31.ScaledRunExactly | Libraries/startup/CoreSupport/arm_math.h:4822-4857 | the same for all gains and all input scaled down by two bits |
| PidQ31.PositionalDecides | Libraries/startup/CoreSupport/arm_math.h:4740-4857 | a run keeps to the documentation if the positional controller stays in range with one unit per sample to spare below, and only if it stays in range up to one unit per sample above |
| PidQ31.ScaledInputFits | Libraries/startup/CoreSupport/arm_math.h:4822-4827 | input scaled down by two bits never overflows the accumulator, for all gains |
| PidQ31.OutputWraps | Libraries/startup/CoreSupport/arm_math.h:4827-4849 | a two-sample input on which the output wraps instead of saturating |
| Clarke.ForwardSaturatesExactly | Libraries/startup/CoreSupport/arm_math.h:5014-5033 | the output is the saturated sum of the exact products exactly when the second product fits; otherwise that product enters it off by 2^32 |
| Clarke.SecondProductFits | Libraries/startup/CoreSupport/arm_math.h:5028-5029 | the range of Ib in which it does |
| Clarke.InverseSaturates | Libraries/startup/CoreSupport/arm_math.h:5111-5130 | the inverse transform never wraps and saturates the exact difference |
| Clarke.RoundTrip | Libraries/startup/CoreSupport/arm_math.h:5014-5130 | there and back returns Ia exactly and Ib within -3 .. +1 units, whenever nothing wraps or saturates on the way there |
| Interpolation.SampleMeans | Libraries/startup/CoreSupport/arm_math.h:5502-5520 | index and fraction make up the sample, which has twenty bits behind the point |
| Interpolation.LinearInterp | Libraries/startup/CoreSupport/arm_math.h:5490-5532 | all reads in range, the table's ends outside, and inside a value above the exact interpolant minus 5 and at most 1 above it |
| Interpolation.HalfBounds | Libraries/startup/CoreSupport/arm_math.h:5523-5530 | the final doubling cannot overflow, and the interpolation error |
| FixedPoint.WrapsMean | Libraries/startup/CoreSupport/arm_math.h:484-531 | the casts change a value by a multiple of their width and bring it into range |
| FixedPoint.ClipQ63Saturates | Libraries/startup/CoreSupport/arm_math.h:484-489 | the clip is saturation on the whole 64-bit range |
| FixedPoint.ClipQ63ToQ15Exactly | Libraries/startup/CoreSupport/arm_math.h:494-499 | the clip is saturation exactly outside two half-ranges, and there it is off by 2^16 |
| FixedPoint.Mult32x64IsExact | Libraries/startup/CoreSupport/arm_math.h:525-531 | the exact floor of the product over 2^32, no step leaving 64 bits |
| CircularBuffer.CircularWrite | Libraries/startup/CoreSupport/arm_math.h:5905-5943 | the loop stores the strided samples at the successive positions, and the offset it returns |
| CircularBuffer.CircularRead | Libraries/startup/CoreSupport/arm_math.h:5949-5999 | the loop copies the samples at the successive positions to the wrapping destination, and the offset it returns |
| CircularBuffer.AdvanceStaysIn | Libraries/startup/CoreSupport/arm_math.h:5932-5935 | the update keeps every offset in the buffer exactly for increments from 0 to the length |
| CircularBuffer.PosIsModular | Libraries/startup/CoreSupport/arm_math.h:5932-5935 | after k updates the offset is start + k * increment modulo the length |
| CircularBuffer.RoundTripExactly | Libraries/startup/CoreSupport/arm_math.h:5924-5995 | every block of k samples reads back in order exactly when the k positions are distinct |
| CircularBuffer.UnitSpread | Libraries/startup/CoreSupport/arm_math.h:5924-5995 | with unit increments they are distinct exactly up to the length of the buffer |
| CircularBuffer.RoundTrip | Libraries/startup/CoreSupport/arm_math.h:5905-5999 | up to a buffer's length of samples, written and read back from one offset, arrive in order; both offsets end at offset + k modulo the length |
| CircularBuffer.WriteThenRead | Libraries/startup/CoreSupport/arm_math.h:5905-5999 | the same for the two calls on arrays of up to 2^16 cells and a destination that is begun at any cell and wraps; nothing outside the two windows has changed |
| CircularBuffer.UnitSteps | Libraries/startup/CoreSupport/arm_math.h:5972-5983 | in unit steps, begun at any cell, destination position i is start + i modulo the length: behind the last cell comes the base |
| CircularBuffer.DividingSteps | Libraries/startup/CoreSupport/arm_math.h:5972-5983 | steps that divide the destination visit every inc-th cell in turn and begin again at the base |
| CircularBuffer.RunsOn | Libraries/startup/CoreSupport/arm_math.h:5972-5983 | with any steps the destination runs on until it meets its end exactly |
| CircularBuffer.GoesOnFromBase | Libraries/startup/CoreSupport/arm_math.h:5972-5983 | and from there it goes on as from the base |
| CircularBuffer.WrappedRead | Libraries/startup/CoreSupport/arm_math.h:5949-5999 | a read of up to a destination's length, begun at any cell, puts sample i at start + i modulo that length, and leaves the other cells alone |
| CircularBuffer.WrappedRoundTrip | Libraries/startup/CoreSupport/arm_math.h:5905-5999 | samples written and read back into a destination that wraps are at start + i modulo its length |
| CircularBuffer.OutsideUntouched | Libraries/startup/CoreSupport/arm_math.h:5924-5939 | cells at none of the positions keep their content |
| CircularBuffer.CopiedIsReadBack | Libraries/startup/CoreSupport/arm_math.h:5972-5983 | a destination that is long enough receives the samples in order |
| NumberText.NumTextLength | Libraries/utilities/rtthread/src/kservice.c:656-743 | max(width, sign + max(digits, precision)) characters, unless the precision is zero |
| NumberText.NumTextDenotes | Libraries/utilities/rtthread/src/kservice.c:622-743 | reading the text back gives the number, signed or unsigned, the most negative value included, for every flag, width and precision but zero |
| NumberText.UnstoredSign | Libraries/utilities/rtthread/src/kservice.c:677-685 | a sign that is not stored changes the text behind it only, and lengthens it by one exactly when padding was still to come |
| NumberText.PrecisionZeroExactly | Libraries/utilities/rtthread/src/kservice.c:614-733 | with a precision of zero the text reads as the number exactly when the number is zero, for every flag, base and width |
| NumberText.OctalExactly | Libraries/utilities/rtthread/src/kservice.c:548-565 | an octal conversion, read in base eight, denotes its argument exactly when that is below eight |
| NumberText.CellsSuffice | Libraries/utilities/rtthread/src/kservice.c:605-654 | at most ten of the sixteen cells are used |
| FormatText.SkipAtoiRecovers | Libraries/utilities/rtthread/src/kservice.c:567-574 | skip_atoi recovers the number that the decimal digits denote |
| FormatText.NumberItemSound | Libraries/utilities/rtthread/src/kservice.c:677-685 | each number's two texts agree as far as its sign, and exactly the signed numbers flagged '0' or '-' with width to spare become longer |
| FormatText.PiecesSound | Libraries/utilities/rtthread/src/kservice.c:781-996 | for every row of texts and numbers that a format can stand for, the two texts of each piece agree as far as its sign, and exactly the signed numbers flagged '0' or '-' with width to spare become longer |
| FormatText.NoneLost | Libraries/utilities/rtthread/src/kservice.c:677-685 | none is lost exactly when no number with a sign, a '0' or '-' flag and width to spare begins, in the full text, where the buffer has no room for its sign |
| Directives.ParseMeans | Libraries/utilities/rtthread/src/kservice.c:791-854 | wherever a directive stands, with any flags, width, precision and qualifier, the parser gets back what was written: which flags occur, the fields' values or arguments, and the conversion character |
| Emission.DroppedAreLost | Libraries/utilities/rtthread/src/kservice.c:677-685 | the signs that the bounded call drops are those that lie past the end in the full text |
| Emission.LostMeans | Libraries/utilities/rtthread/src/kservice.c:677-685 | none is lost exactly when no item that would become longer has its sign past the end of the full text |
| Emission.EmitAgrees | Libraries/utilities/rtthread/src/kservice.c:781-1004 | up to the end the bounded text is the full text, and its length is that plus one for each dropped sign |
| Emission.BoundedIsPrefix | Libraries/utilities/rtthread/src/kservice.c:771-1004 | the buffer holds the first min(len, size - 1) characters and a zero, and no other cell of memory changes |
| Conversions.DirectivePiece | Libraries/utilities/rtthread/src/kservice.c:781-996 | wherever a directive stands, it gives one piece, made from what its writer asked for and the arguments behind those used so far; the scan goes on behind it with the next argument |
| Conversions.DirectiveDenotes | Libraries/utilities/rtthread/src/kservice.c:791-996 | the text of a numeric directive, for every flag, width, precision but zero, and qualifier, reads as its argument: in base sixteen for x, X and p, in base ten for d, i and u, as a signed word for d and i, as its low half under h |
| Conversions.ConversionDenotes | Libraries/utilities/rtthread/src/kservice.c:921-996 | the same from the parsed directive |
| Conversions.ConversionKeeps | Libraries/utilities/rtthread/src/kservice.c:916-996 | only d and i show signs, only X has capital letters, a pointer without a width gets eight digits with leading zeros, and the rest goes to print_number as parsed |
| Conversions.ConversionCase | Libraries/utilities/rtthread/src/kservice.c:609-619 | x and p show no capital letter, X no small one |
| Conversions.SignMeans | Libraries/utilities/rtthread/src/kservice.c:622-738 | the whole text of a number, for every flag, width and precision: '-' for negative ones, '+' if asked for, a blank if only that was asked for, nothing otherwise; padding behind, zeros between, or blanks in front |
| Conversions.SignAndCase | Libraries/utilities/rtthread/src/kservice.c:622-638 | a '-' is in the text exactly of a negative signed number, a '+' exactly of a non-negative one that asked for it, and letters have one case |
| Conversions.FirstCharacters | Libraries/utilities/rtthread/src/kservice.c:622-738 | with no width to spare the text begins with a digit, or with a blank and a digit for the space flag |
| Conversions.OtherMeans | Libraries/utilities/rtthread/src/kservice.c:859-968 | characters and strings are padded on the side that the flag says, strings cut at the precision, no string is "(NULL)", unknown conversions are copied, percent signs print themselves |
| Conversions.PlainPiece | Libraries/utilities/rtthread/src/kservice.c:781-789 | a character that is no percent sign gives one piece, itself, and the scan goes on behind it with the same argument |
| Conversions.PlainFormat | Libraries/utilities/rtthread/src/kservice.c:781-789 | a format without percent signs prints itself |
| Conversions.LonePercent | Libraries/utilities/rtthread/src/kservice.c:955-968 | a percent sign that ends the format prints itself and ends the scan |
| Printf.EndMeans | Libraries/utilities/rtthread/src/kservice.c:771-779 | a size that stays in the address space is honoured; zero, and one that runs over its top, is no limit |
| Printf.BoundedCall | Libraries/utilities/rtthread/src/kservice.c:748-1005 | for every row of pieces and size >= 1 the bounded call leaves a prefix of the unbounded one and a zero, and writes nothing else; its length is right exactly when no number flagged '0' or '-', with a sign and width to spare, has its sign past the end, as when the text fits |
| Printf.TwoCalls | Libraries/utilities/rtthread/src/kservice.c:748-1005 | a bounded and an unbounded call on equal memories: the first buffer begins like the second and ends in a zero, the rest of both is untouched, and the two returned words are equal exactly when every sign fits |
| Printf.FitsUnbounded | Libraries/utilities/rtthread/src/kservice.c:771-1004 | a call without a limit has the length of the full text |
| Printf.LengthTooLarge | Libraries/utilities/rtthread/src/kservice.c:677-685 | one cell, the format a%-5d and -1: the length is 7 where the unbounded call's is 6 |
| Printf.SizeZeroIsUnbounded | Libraries/utilities/rtthread/src/kservice.c:771-779 | size 0 stores the whole text and its zero |
| Printf.PrintNumber | Libraries/utilities/rtthread/src/kservice.c:584-746 | the loops of print_number emit exactly the number's text for this position and end |
| Printf.MakeDigits | Libraries/utilities/rtthread/src/kservice.c:647-654 | the digit loop fills the local buffer with the digits, last one first, and stays inside it |
| Printf.ReadSpec | Libraries/utilities/rtthread/src/kservice.c:791-854 | the loops read what the parser of Directives.ParseMeans reads, at every position of every format |
| Printf.PutOther | Libraries/utilities/rtthread/src/kservice.c:859-968 | characters, strings, percent signs and unknown conversions are emitted with their padding |
| Printf.Vsnprintf | Libraries/utilities/rtthread/src/kservice.c:748-1005 | memory and return value after the call are those of the format's items against the end |
| MemOps.MemMove | Libraries/utilities/rtthread/src/kservice.c:296-315 | under every overlap the old source bytes appear at the destination and nothing else changes |
| MemOps.MemCpy | Libraries/utilities/rtthread/src/kservice.c:239-277 | the block, word and byte loops do what copying byte by byte does, for every length, alignment and overlap |
| MemOps.WordStep | Libraries/utilities/rtthread/src/kservice.c:253-267 | moving an aligned word is copying four bytes from the front |
| MemOps.ForwardMovesExactly | Libraries/utilities/rtthread/src/kservice.c:253-275 | copying from the front is a move for every memory exactly when the destination does not begin inside the source |
| MemOps.MemSet | Libraries/utilities/rtthread/src/kservice.c:143-193 | the word and byte loops fill exactly the region with the low byte of the argument |
| MallocAlign.AlignedPointer | Libraries/utilities/rtthread/src/kservice.c:1208-1225 | for every alignment, power of two or not, the hidden word before the pointer and the bytes after it lie in the heap's block; for a power of two the pointer is aligned |
| MallocAlign.MallocAlign | Libraries/utilities/rtthread/src/kservice.c:1202-1234 | for every alignment the returned handle is such a pointer with the heap's pointer in front, and nothing outside the block changes |
| MallocAlign.HiddenPointerSurvives | Libraries/utilities/rtthread/src/kservice.c:1227-1249 | however the holder fills its bytes, the handle stays a handle for the heap's pointer |
| MallocAlign.FreeAlign | Libraries/utilities/rtthread/src/kservice.c:1243-1249 | for every handle, what is handed to the heap is the heap's own pointer |
| MallocAlign.AllocateFillFree | Libraries/utilities/rtthread/src/kservice.c:1202-1249 | allocating, filling the bytes in any way and freeing: the heap gets its pointer back, the bytes were the holder's, and nothing outside the block changed |
| MallocAlign.AskedIsEnough | Libraries/utilities/rtthread/src/kservice.c:1208-1212 | for every size and alignment, the size asked from the heap is at least their sum exactly when no addition wraps |
| MallocAlign.AlignedExactlyForPowers | Libraries/utilities/rtthread/src/kservice.c:1217-1225 | every heap pointer leads to an aligned result exactly when the alignment is a power of two; with any other one, the lowest pointer already does not |
| I2cMaster.Bus.Start | Libraries/drivers/src/gpio_iic.c:16-26 | from an idle bus or a low clock, one START and nothing else |
| I2cMaster.Bus.Stop | Libraries/drivers/src/gpio_iic.c:28-39 | one STOP, after the data bit that was under way if there was one |
| I2cMaster.Bus.SendData | Libraries/drivers/src/gpio_iic.c:92-112 | the eight bits of the byte, most significant first, SDA steady while SCL is high |
| I2cMaster.Bus.WaitAck | Libraries/drivers/src/gpio_iic.c:41-64 | for every answering time of the slave: an acknowledge, a spurious START, or after 0x1000 polls a missing acknowledge and a STOP; and the flag |
| I2cMaster.Bus.Transfer | Libraries/drivers/src/gpio_iic.c:16-112 | the events of a whole write, for every list of bytes and answering times |
| I2cMaster.Bus.WriteByte | Libraries/drivers/src/gpio_iic.c:16-112 | the three-byte write of the EEPROM driver: a whole transfer when the device answers to its address, and otherwise only its address and the STOP |
| I2cMaster.PowerUpAndTransfer | Libraries/drivers/src/gpio_iic.c:16-112 | from an idle bus, what a receiver decodes from the two lines after a transfer is one START, the bytes with their acknowledges and one STOP exactly when every answer is early |
| I2cLine.WellFramedExactly | Libraries/drivers/src/gpio_iic.c:16-112 | the events parse to one START, those bytes with their acknowledges and one STOP exactly when every answer is early |
| I2cLine.BitsDenote | Libraries/drivers/src/gpio_iic.c:99-111 | the eight bits sent denote the byte |
| Nvic.FieldsFill | Libraries/startup/CoreSupport/core_cm4.h:1747-1752 | pre-emption and sub-priority bits make up the implemented bits, for every group |
| Nvic.EncodeMeans | Libraries/startup/CoreSupport/core_cm4.h:1745-1758 | the code is the masked pair, one field above the other, and fits the implemented bits |
| Nvic.DecodeEncoded | Libraries/startup/CoreSupport/core_cm4.h:1745-1783 | decoding recovers the masked pair |
| Nvic.EncodedOrder | Libraries/startup/CoreSupport/core_cm4.h:1745-1758 | within a group the order of codes is the lexicographic order of pairs |
| Nvic.BinaryPoint | Libraries/startup/CoreSupport/core_cm4.h:1745-1758 | in the register that holds a code, the bits above bit group % 8 are the pre-emption priority and the others the sub-priority |
| Nvic.SamePreemption | Libraries/startup/CoreSupport/core_cm4.h:1745-1758 | two codes of a group agree above the binary point exactly when their pre-emption priorities are equal |
| Nvic.DecodeMeans | Libraries/startup/CoreSupport/core_cm4.h:1772-1783 | decoding takes any value apart, whatever stands above the implemented bits |
| Nvic.FieldMeans | Libraries/startup/CoreSupport/core_cm4.h:1698-1708 | a priority stands in the top bits of its register, and one that is too large loses its upper bits |
| Nvic.StoreAndDecode | Libraries/startup/CoreSupport/core_cm4.h:1698-1783 | encode, set, get and decode recover the masked pair for core and external interrupts, the register holds it on the two sides of the binary point, and no other register changes |
| BitReversal.Rbit | Libraries/startup/CoreSupport/cmsis_gcc.h:533-544 | the early-exit loop and the last shift compute the reversal of 32 bits |
| BitReversal.RbitMirrors | Libraries/startup/CoreSupport/cmsis_gcc.h:526-545 | bit i is bit 31 - i of the value, and reversing twice is the identity |

## Left out

- MemPools.MemPool.ReleaseRegion: is stated for frees that do not meet an empty list with a raised counter; what the code does then is undefined and is a failing step of the protocol.
- MemPools.MemPool.Detach: on memory and list, runs without other steps in between; in the protocol the emptiness test and the region are separate steps among those of all threads.
- PoolProtocol.WaiterCount: counts in unbounded integers; the 32-bit counter comes round after 2^32 expired waits.
- MemPools.Init: needs room for at least one block and a rounded block size whose stride does not wrap to zero; with no block the code writes in front of the pool.
- MemPools.Create: needs a block count above zero and a product that does not wrap; `rt_mp_delete` is Detach followed by calls into the heap.
- Scheduler, timers, kernel objects, hooks, errno and the heap are abstract: suspending, resuming and allocating appear as their effects on the list, the thread states and a returned pointer.
- Payload writes of more than one byte at a time, and several pools sharing one memory.
- Reciprocal.ArmRecipQ31: leaves out zero, on which counting leading zeros is undefined, and the most negative value, whose negation overflows. The content of the seed table is not part of this model; any positive seeds will do.
- Reciprocal.ArmRecipQ15: on negative inputs states the exact turns cut to sixteen bits, and no error bound; leaves out zero and the most negative value.
- PidQ31.DriftIsBounded: its only-if half is for up to 2^32 samples, beyond which the drift allowed is wider than one wrap.
- PidQ31.PositionalDecides: its two halves differ by the drift, since the positional value does not tell how much each increment has lost.
- PidQ31.Pid.Process: takes the derived gains as given; the initialisation and reset functions have no body in the repository. Wrapping additions stand for the signed overflow of the 32-bit sum.
- The floating-point variants, bilinear interpolation, and the clips from Q31 to Q15 and Q7.
- CircularBuffer.CircularRead: the positions in the buffer and the destination must exist, as in CircularBuffer.CircularWrite; what the C code does outside its arrays is undefined.
- Printf.Vsnprintf: computes widths, precisions and field counters as unbounded integers, since their overflow is undefined in C; the text must not run over the top of the address space. Strings are reached through a function from pointers to texts, arguments through a function from positions to words.
- The RT_PRINTF_LONGLONG and RT_PRINTF_SPECIAL builds, and the RT_USING_TINY_SIZE variants of the memory functions.
- MallocAlign.AlignedExactlyForPowers: leaves out the one rounded alignment, 2^32 - 4, beside which there is no room for a heap pointer, and zero.
- MallocAlign.MallocAlign: needs an alignment above zero, sizes whose 32-bit sum does not wrap and a 4-aligned heap pointer.
- Directives.ParseMeans: is about directives as they are meant to be written; what the parser makes of others, such as a width of zero, is FormatText.Parse.
- Printf.TwoCalls: speaks of the buffers and results that Printf.Vsnprintf's contract gives for the two sizes.
- I2cMaster.Bus.Transfer: models writes; multi-byte reads release the bus with SCL high, and delays carry no meaning on the trace. Every pin operation is instantaneous and the slave moves SDA only to acknowledge.
- Nvic.StoreAndDecode: covers the core interrupts with a priority register, -12 to -1, and every external one.
- link.c, imu_data_decode.c, device.c, irq.c, idle.c, clock.c, components.c, the clock, GPIO, UART and SPI drivers and the project mains: counters, flags and register settings that would only add easy members.
