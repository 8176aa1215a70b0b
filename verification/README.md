# Verified model of the persistent-memory copy engine

The repository copies bytes into persistent memory with hand-written vector routines and measures how
fast that is.  This project models the copy engine (`util/aep.h` over the kernels of `util/instr.h`), the
benchmark that drives it from many threads (`bgtest/AEP/aep_study.cc`, `bgtest/AEP/aep_study.h`), the
load-only and store-only routines (`util/aep_just.h`) and the bit operations below them
(`util/bitops.h`), and proves what a user of the engine relies on: the bytes arrive, they survive a power
failure once the fence has returned, and threads do not disturb each other.

## How it is modelled

* **Memory** (`PersistentMemory.dfy`).  Each byte is a cell holding every value it has had, how far the
  media is known to have followed, and, per thread, the newest version whose write-back that thread has
  started and not yet fenced.  Stores, non-temporal stores, `clwb`, `sfence` and evictions are events on
  cells.  An eviction belongs to nobody and may come between any two events.  A crash leaves a version the
  media is known to hold or any newer one.  `CrashLaw` says the same of the log alone, without cells: a
  version is safe if and only if its line was evicted, or a thread started a write-back and fenced it
  afterwards.  `Necessity.dfy` draws the conclusion that no operation is durable before its fence, and none
  without its write-backs.  `ExposureIsExact` proves that this is not a guess but exactly
  what additional evictions could have caused, and `LineImagesAreCuts` says the same of a whole cache line.
* **Instructions** (`Instructions.dfy`).  Loads into registers, stores from them, fills, `clwb` and
  `sfence`.  `Run` executes code against memory.  `Resolve` gives the events of the same code when every
  load sees one fixed image; `RunIsResolve` says when the two agree.
* **Plans** (`CopyPlans.dfy`).  No branch of a routine looks at the bytes it moves, so what a routine does
  is a list of chunks and write-backs that depends on `dest` and `len` alone.  `CopyChoices.dfy` proves that
  all its branches together are one rule, to take the largest kernel that fits.  `CopyCode.dfy` turns a plan
  into the instructions of the kernels.  `WriteBackPlans.dfy`, `WriteBackTraces.dfy`, `CopyMeaning.dfy`,
  `CopyLegality.dfy` and `OperationLegality.dfy` prove, in this order, when each byte is written back, which
  lines are written back in which order, which bytes are read and written with what values, and when every
  access is aligned.
* **The machine** (`Machine.dfy`, `Operations.dfy`).  The class `Machine` has registers, memory and a log,
  and evicts lines of its own choice before every instruction.  The routines are methods on it, branch by
  branch as in the source, with pointers and lengths advanced in place.  Each is proved to execute exactly
  the code of its plan, to copy or fill like `memmove` or `memset` (ISO C11, sections 7.24.2.1, 7.24.2.2
  and 7.24.6.1), and, with its fence, to leave the destination on the media.
* **Threads** (`Concurrency.dfy`, `ConcurrentCopies.dfy`).  A schedule picks, step by step, a thread or a
  line to evict.  Every statement holds for every schedule, and so at every moment of every run.  A thread
  first loads what it likes, also bytes that others are storing, and then performs its operations.  An
  instruction that faults ends the process: from then on no thread executes anything.
* **The benchmark** (`Division.dfy`, `Bits.dfy`, `WordArithmetic.dfy`, `BenchmarkConfig.dfy`, `Globals.dfy`,
  `Preparation.dfy`, `ThreadJobs.dfy`, `Benchmark.dfy`, `SlotVisits.dfy`). The globals and the functions
  that set them are the class `GlobalCfg`; products, masks and addresses are computed in words as the source
  does. `Benchmark.dfy` joins slot geometry and concurrent copies, for the threads of all three main jobs,
  each with its `PrepareJob`, and for the rounds that `MainJobNormal` runs one after the other. The random
  numbers are a parameter.

Twins that differ only in the load instruction (`load`/`ntload`) are one method with the parameter `ld`; a
non-temporal load is a load.  The unrolled kernels are written as loops over the register number.  The C
library's `memcpy` and `memset` act as ISO C says, as one store of the whole chunk.

## What turned out to be otherwise than intended

* `CheckGlobalCfg` multiplies `buffer_size * thread_num` in 64 bits.  Sixteen buffers of 2^60 bytes pass
  the check (`WrappedCheckPasses`).  The regions of a configuration that passes fit if and only if
  `buffer_size <= AEP_SIZE / 2` (`RegionsFitIff`).
* `MainJobVaryThreadNum` computes the slot mask before it shrinks the buffer. With an access size of 2^a,
  its round number n (for 2^n threads) keeps every slot the mask can select inside its region if and only if
  `n = 0` or `a + n <= 3`, where the mask has been truncated to 32 bits. So the random mode may leave its
  regions from the second round on for every access size of at least 8. The sequential mode visits no slot
  beyond its iterations and stays inside if and only if `n = 0` or `a + n <= 16`; with two threads it leaves
  from 64 KB on (`VaryThreadNum`). Its iterations are the slots brought between 500000 and 2500000, but 2^32
  slots or more are cut to none, so that the rounds with `a + n <= 3` make do with 500000. In general the
  slots stay inside if and only if `(mask + 1) * access_size <= buffer_size` (`SlotsStayIff`), and those of
  the sequential mode if and only if `min(mask + 1, iters) * access_size <= buffer_size`
  (`SequentialStaysIff`).
* `MainJobVaryAccessSize` computes the mask of a round from the buffer of the round before.  The mask is
  undefined exactly when that buffer has no room for one slot.  When it is defined, the slots it can select
  stay inside their regions in every round but the first, and in the first one if and only if the checked
  `buffer_size` is at most `AEP_SIZE / 2`: the check lets larger ones pass when the product wraps around.
  The sequential mode stays inside its regions in all of them (`VaryAccessSize`).
* `clwb_extent` does not terminate when the end it computes in 64 bits is past the start of the last line of
  the address space, and terminates in every other case (`ExtentTerminates`).  A range of at most
  2^64 - 64 bytes that reaches the top of the address space has its end wrap around, and is silently not
  written back (`WrappedExtentIsSkipped`).
* One thread that makes a vector copy from a DRAM block that is not aligned with its slots ends the whole
  process, so that no other thread is sure to be joined either (`RoundTerminates`).
* `PrepareJob` reads one 64-bit word past the end of the index array (`PrepareInSteps`).
* The vector routines do not need `dest` and `src` to agree modulo 32 for short ranges.  The exact
  condition is `Compatible` (`LegalIffCompatible`).

## Model

| member | source | states |
|---|---|---|
| PersistentMemory.ExposureIsExact | util/aep.h:28-30 | A crash may leave a value in a byte if and only if some schedule of additional evictions puts that value on the media. |
| PersistentMemory.CrashLaw | util/aep.h:28-30 | For every log of every number of threads: a crash may leave a value if and only if the byte has had it and no newer version is safe, where a version is safe once its line was evicted, or once some thread has started a write-back of it, by `clwb` or by a non-temporal store, and has itself fenced later. What is under way at the start counts too. |
| PersistentMemory.LineImagesAreCuts | util/aep.h:28-30 | For a whole cache line, the images that additional evictions can put on the media are exactly those that show all its bytes as of one and the same moment, bytes known to be newer on the media excepted. |
| PersistentMemory.PhaseIsSound | util/aep.h:28-30 | Following one thread's own stores, `clwb`s and `sfence`s suffices to know that its last store is fenced, whatever other threads and the cache do. |
| PersistentMemory.CleanIffFenced | util/aep.h:28-30 | The converse, for a byte that only this thread stores to and writes back and that is not evicted: its newest value is on the media exactly if the thread has not stored to it or has fenced it; a `clwb` alone does not do it. |
| PersistentMemory.CrashOldOrNew | util/aep.h:28-30 | While only one value is being stored, a crash leaves that value or what a crash before could have left, never a third. |
| PersistentMemory.DurableFromThenOn | util/aep.h:28-30 | A byte stored, written back and fenced by its only writer stays settled, also while the same value is stored again later. |
| Instructions.RunIsResolve | util/instr.h:114-154 | Code that loads every byte before storing to it behaves as if memory never changed under it. |
| Instructions.CodePhaseIsPhase | util/instr.h:230-343 | When each byte of some code is stored, written back and fenced is decided by its addresses alone. |
| CopyPlans.HeadAligns | util/aep.h:145-165 | The cross-branch invariant: after the alignment steps a rest of 32 or more starts on a line, of 16 or more on a multiple of 32, of 1 or more on a multiple of 16. |
| CopyPlans.HeadStaysInLine | util/aep.h:222-244 | The alignment steps never leave the first line, so the one `clwb` after them covers all their stores. |
| CopyPlans.Leftover | util/aep.h:174-214 | The loop and the halving steps consume whole lines and leave less than 64 bytes, still aligned for the steps that follow. |
| CopyPlans.PlansAreSound | util/aep.h:144-217 | The chunks of each routine tile `[dest, dest+len)` in order with nothing left over, and each is aligned as its kernel demands; kernels that write back start on a line. |
| CopyChoices.ChunksAreGreedy | util/aep.h:144-302 | The chunks of all vector routines are those of one rule: the largest kernel of 16 to 512 bytes that the address and the rest allow, and the small copy where none does. Whole lines use the kernels with write-backs in the flushing routines and in no other. |
| CopyChoices.OperationExists | bgtest/AEP/aep_study.h:356-391 | Every access of a vector copy is a scalar one of 1, 2, 4 or 8 bytes or a vector one of 16 or 32, with the kind of loads it is named after, and non-temporal stores exactly under that strategy. |
| CopyChoices.NativeFlushesAtOnce | util/aep.h:91-137 | Each chunk of the native flushing routines stays in a line, which is written back right after it. |
| WriteBackPlans.FlushPhase | util/aep.h:219-302 | In the flushing routines every byte of the range has its write-back issued after its last store, including the tail whose `clwb` uses the pointer that has moved on. |
| WriteBackPlans.NtPhase | util/aep.h:472-547 | In the non-temporal routines every byte of the range is either stored non-temporally or written back after its last cached store. |
| WriteBackPlans.ByAllPhase | util/aep.h:34-40 | Storing everything and then running `clwb_extent` issues the write-back of every byte of the range. |
| WriteBackPlans.NativePhase | util/aep.h:91-137 | `cpy_native_flush` and `memset_native_flush` tile the range and issue the write-back of every byte after its store. |
| WriteBackPlans.FlushLines | util/aep.h:219-302 | The flushing routine writes back the lines of `clwb_extent`, in that order, except that its first line comes twice exactly when the range starts and ends inside it and the alignment steps leave a rest. |
| WriteBackPlans.NtLines | util/aep.h:472-547 | The non-temporal routine writes back the line of `dest` if `dest` is not 16-aligned, and then always the line of `dest + len`. |
| WriteBackPlans.NativeTrace | util/aep.h:91-137 | The native flushing routines write back exactly the lines of `clwb_extent`, for every length including zero. |
| WriteBackTraces.OperationTrace | bgtest/AEP/aep_study.h:159-217 | The `clwb` instructions of every operation, in order, name exactly the lines its strategy promises. |
| WriteBackTraces.ExtentIsExact | util/aep.h:34-40 | `clwb_extent` visits exactly the lines that meet the range, each once and in order; for an empty range the line `dest` lies inside of, if any. |
| WriteBackTraces.LastLineInRange | util/aep.h:545-546 | The last line a non-temporal routine writes back is one past the range exactly when the range ends on a line. |
| CopyCode.StoreLinesPhase | util/instr.h:230-343 | In a flushing kernel on an aligned destination each `clwb` follows both stores to the line it names, and every line stored to is written back. |
| CopyCode.CodePhaseIsPlanPhase | util/instr.h:32-968 | The kernels store and write back exactly where the plan says. |
| CopyMeaning.CodeFootprint | util/aep.h:144-217 | A routine loads only from its source range and stores only to its destination range. |
| CopyMeaning.CopiesForward | util/aep.h:144-217 | For disjoint ranges, and for any overlap with `dest <= src`, no byte is stored to before it has been loaded. |
| CopyMeaning.CodeWrites | util/aep.h:42-81 | Every store of a routine puts the one intended byte at each address, also where the two words of a small copy overlap. |
| CopyLegality.LegalIffCompatible | util/instr.h:17-20 | No vector access of a routine is misaligned if and only if `dest` and `src` agree modulo 16 when the destination holds an aligned 16-byte block, and modulo 32 when it holds a 32-byte block. |
| CopyLegality.CongruentIsCompatible | util/aep.h:144-217 | Ranges that agree modulo 32 are legal for every length. |
| OperationLegality.OperationIsLegal | bgtest/AEP/aep_study.h:356-428 | An operation runs without a fault if and only if it is no vector copy or its ranges are compatible. |
| WordArithmetic.ExtentTerminates | util/aep.h:34-40 | In 64-bit arithmetic, for every address and length, the loop of `clwb_extent` ends if and only if the end it computes is at most 2^64 - 64. |
| WordArithmetic.WrappedExtentIsSkipped | util/aep.h:34-40 | When the end of a range of at most 2^64 - 64 bytes wraps around, the loop does not take a single step. |
| PersistentCopies.OperationSettles | bgtest/AEP/aep_study.h:159-192 | Whatever the thread did before, each operation ends with every byte of its range fenced. |
| PersistentCopies.OperationWrites | bgtest/AEP/aep_study.h:159-192 | Every store of an operation to a byte stores the byte promised there. |
| PersistentCopies.CrashDuringOperation | util/aep.h:219-302 | At every step of every operation, under every interleaving, a crash leaves each byte of the destination old or final, and other bytes old. |
| PersistentCopies.DurableAfterOperation | bgtest/AEP/aep_study.h:356-428 | After the fence, under every interleaving, loads and every crash see the promised bytes in the whole destination. |
| PersistentCopies.AloneIsAnInterleaving | bgtest/AEP/aep_study.h:356-428 | The events of a thread that runs alone satisfy the hypotheses of the two statements above, so these are not empty. |
| PersistentCopies.StrategiesAgree | bgtest/AEP/aep_study.h:356-428 | Flush-by-all, flush-by-cacheline, non-temporal and native copies of the same bytes end in the same volatile and persistent destination. |
| Necessity.FenceDecides | bgtest/AEP/aep_study.h:356-428 | While any operation is under way, with no eviction and nobody else writing its line back, a crash may leave a byte of the destination as it was; that ends exactly when the fence has been executed. |
| Necessity.StoresNeedWriteBacks | util/aep.h:144-217 | The routines that do not flush are not durable, fence or no fence: a crash may leave every byte as it was. |
| CopyRuns.NewEvents | util/aep.h:144-217 | What a machine logs while it executes a routine is what the routine's code does on the memory it started from. |
| CopyRuns.RoutineDone | util/aep.h:144-217 | A machine that has executed the code of a routine holds the old source bytes, or the fill value, in the destination, and no other byte has changed. |
| CopyRuns.OperationDone | bgtest/AEP/aep_study.h:356-428 | A machine that has executed an operation has copied or filled, changed nothing else, and has the destination on the media. |
| CopyRuns.CrashInMidOperation | util/aep.h:42-81 | When a machine has executed any prefix of an operation, also on ranges that overlap as `memmove` allows, a crash leaves each byte of the destination as before or final, and other bytes as before. |
| Machines.Machine.CpyWords | util/instr.h:44-154 | The kernels without write-backs load all their registers before they store any. |
| Machines.Machine.CpyLinesFlush | util/instr.h:230-343 | The kernels with write-backs do the same and follow every second store with the `clwb` of its line. |
| Machines.Machine.CpyLess16 | util/aep.h:42-81 | The copy of fewer than 16 bytes: one scalar move, or two overlapping ones loaded before either is stored. |
| Machines.Machine.ClwbExtent | util/aep.h:34-40 | Whenever the loop terminates it issues exactly the write-backs of the lines up to the end it computes, which for a range that does not wrap are those of its plan. |
| Machines.Machine.LadderSteps | util/aep.h:254-280 | The 512-byte loop and the 256, 128 and 64-byte steps: code, pointers and remaining length, with the alignment each kernel demands. |
| Machines.Machine.VectorTailSteps | util/aep.h:282-296 | The 32 and 16-byte steps leave fewer than 16 bytes, so the assertion of the small copy holds. |
| Machines.Machine.CpyStoreNoflush | util/aep.h:144-217 | `cpy_load_store_noflush` and `cpy_ntload_store_noflush` execute their plan and copy like `memmove` for disjoint ranges and for `dest <= src`. |
| Machines.Machine.CpyStoreFlush | util/aep.h:219-302 | The same for `cpy_load_store_flush` and `cpy_ntload_store_flush`. |
| Machines.Machine.CpyNtStore | util/aep.h:472-547 | The same for `cpy_load_ntstore` and `cpy_ntload_ntstore`. |
| Machines.Machine.NativeNoflush | util/aep.h:87-114 | `cpy_native_noflush` and `memset_native_noflush` are `memcpy` and `memset`. |
| Machines.Machine.NativeFlush | util/aep.h:91-137 | `cpy_native_flush` and `memset_native_flush` execute their plan and have the effect of `memcpy` and `memset`; the copy also for overlapping ranges with `dest` below `src`, as long as no line meets its own source. |
| Operations.VectorByAll | bgtest/AEP/aep_study.h:356-367 | Store, `clwb_extent`, fence: afterwards the destination is the old source, nothing else changed, and the destination is on the media. |
| Operations.VectorByCacheline | bgtest/AEP/aep_study.h:369-379 | The same with write-backs by cache line. |
| Operations.VectorNtStore | bgtest/AEP/aep_study.h:381-391 | The same with non-temporal stores. |
| Operations.NativeByAll | bgtest/AEP/aep_study.h:331-342 | The same for `memcpy` and `clwb_extent`. |
| Operations.NativeByCacheline | bgtest/AEP/aep_study.h:344-354 | The same for `memcpy` line by line, also for such overlapping ranges. |
| Operations.Perform | bgtest/AEP/aep_study.cc:705 | Any operation called through its function pointer does all of the above. |
| Operations.MemsetByAll | bgtest/AEP/aep_study.h:510-521 | The same for `memset` and `clwb_extent`. |
| Operations.MemsetByCacheline | bgtest/AEP/aep_study.h:523-533 | The same for `memset` line by line. |
| Concurrency.Lockstep | bgtest/AEP/aep_study.cc:669-714 | Threads that first only load, and then load nothing that any of them stores, do with their work, under every schedule, exactly what each would have done alone. What they loaded first may have been changing. |
| Concurrency.AloneRuns | bgtest/AEP/aep_study.cc:669-714 | A thread that is alone runs exactly as its code does on the machine, whatever it loads and stores. |
| Concurrency.OrderIsKept | bgtest/AEP/aep_study.cc:858-866 | Every eviction and every event of a turn reaches memory at its own time, after everything before it; a turn has at most one event, of its own thread. |
| Concurrency.DeadStaysDead | bgtest/AEP/aep_study.cc:858-866 | After a fault no thread moves any more, and only evictions reach memory. |
| Concurrency.TurnsDecide | bgtest/AEP/aep_study.cc:858-866 | As long as the process lives, how far a thread has got is the number of its turns: no thread waits for another. The process has died exactly when some thread has had the turn at which its code first faults. |
| Concurrency.TerminatesIffLegal | bgtest/AEP/aep_study.cc:858-866 | All threads run to their ends under every schedule that gives each of them enough turns if and only if no instruction of any thread faults. |
| ConcurrentCopies.StoresArePromised | bgtest/AEP/aep_study.cc:669-714 | Under every schedule every store comes from a call that its own thread has begun, which covers the byte and promises that value. |
| ConcurrentCopies.ConcurrentCrash | bgtest/AEP/aep_study.cc:669-714 | At every moment of every schedule a crash leaves a byte as at the start, or as some call that has begun and covers it promises. |
| ConcurrentCopies.ConcurrentDurability | bgtest/AEP/aep_study.cc:669-714 | Once a call has returned, its destination is durable with the promised bytes from then on, until a later call of the same thread that promises something else there begins. |
| ConcurrentCopies.TurnsReturn | bgtest/AEP/aep_study.cc:684-705 | If nothing faults, a call has begun, and has returned, exactly when its thread has had enough turns for that. |
| Bits.HighestBit | util/bitops.h:36-39 | `__fls`: 2^k <= word < 2^(k+1). |
| Bits.Fls | util/bitops.h:43-46 | `fls`: the number of bits of the argument, zero for zero. |
| Bits.IsPow2Decides | util/bitops.h:48 | `is_pow2` holds exactly for the powers of two. |
| Bits.AndMask | bgtest/AEP/aep_study.cc:686 | Masking with 2^k - 1 is the remainder modulo 2^k. |
| Bits.SequentialIsFair | bgtest/AEP/aep_study.cc:685-686 | In sequential mode the visit counts of any two slots differ by at most one after any number of iterations, and all slots are visited exactly when there are at least as many iterations as slots. |
| BenchmarkConfig.CheckedSizes | bgtest/AEP/aep_study.cc:286-289 | In a configuration that passes, sizes are powers of two with `access_size <= buffer_size`, and the 32-bit mask is a mask of at most that many slots. |
| BenchmarkConfig.PassesIff | bgtest/AEP/aep_study.cc:236-256 | A configuration passes if and only if there are as many cores as threads, the device has at least 64 GiB, the sizes are powers of two with `access_size <= buffer_size`, and `buffer_size * thread_num` modulo 2^64 is at most 32 GiB. |
| BenchmarkConfig.MaskIsLargest | bgtest/AEP/aep_study.cc:286-288 | For any sizes, the mask covers as many slots as the largest power of two the buffer has room for, up to 2^32. |
| BenchmarkConfig.SlotsStayIff | bgtest/AEP/aep_study.cc:685-697 | Every slot the mask can select lies inside its thread's region if and only if `(mask + 1) * access_size <= buffer_size`. |
| BenchmarkConfig.SequentialStaysIff | bgtest/AEP/aep_study.cc:685-697 | Every slot the sequential mode visits lies inside its thread's region if and only if `min(mask + 1, iters) * access_size <= buffer_size`. |
| BenchmarkConfig.CheckedSlotsStay | bgtest/AEP/aep_study.cc:247-256 | Slots stay inside their regions in every configuration that passes. |
| BenchmarkConfig.RegionsFitIff | bgtest/AEP/aep_study.cc:248-249 | The regions of a configuration that passes lie in the lower half of the device if and only if `buffer_size <= AEP_SIZE / 2`. |
| BenchmarkConfig.WrappedCheckPasses | bgtest/AEP/aep_study.cc:249 | A configuration that passes because its product wraps to zero, and whose regions do not fit. |
| BenchmarkConfig.RegionsApart | bgtest/AEP/aep_study.cc:618-622 | Regions of different threads are disjoint. |
| BenchmarkConfig.SlotsApart | bgtest/AEP/aep_study.cc:691-703 | Different slots of a region are disjoint. |
| BenchmarkConfig.SourceOfSlot | bgtest/AEP/aep_study.cc:700-703 | A copy source is above every region, on the device, and aligned with its destination for every vector routine. |
| BenchmarkConfig.WarmUpStays | bgtest/AEP/aep_study.cc:651-652 | The two 2 MB reads of the preparation stay in their halves of the device. |
| BenchmarkConfig.CheckedStaysMapped | bgtest/AEP/aep_study.cc:248-249 | In a configuration that passes, with `buffer_size <= AEP_SIZE / 2`, every slot, every copy source and both 2 MB reads end inside the mapping of the device. |
| BenchmarkConfig.CheckedIsTiled | bgtest/AEP/aep_study.cc:286-288 | The slots of a configuration that passes fill the region if and only if there are at most 2^32 of them. |
| Globals.GlobalCfg.InitGlobalCfg | bgtest/AEP/aep_study.cc:259-289 | Slots, mask and shift computed from the sizes; nothing is known of the mask when there is no slot. |
| Globals.GlobalCfg.CheckGlobalCfg | bgtest/AEP/aep_study.cc:236-256 | The result of the check is exactly that condition, device size and 64-bit product included. |
| Globals.GlobalCfg.ReCfgWhenThreadNumChange | bgtest/AEP/aep_study.cc:733-740 | Each thread gets its share of 32 GiB, and as many iterations as that has slots, cut to 32 bits, but at least 500000 and at most 2500000. |
| Globals.GlobalCfg.VaryThreadNum | bgtest/AEP/aep_study.cc:768-783 | For every power of two as access size, and each of the six rounds: the iterations in closed form, and exactly when the selectable slots and when the sequentially visited slots stay inside their regions. |
| Globals.GlobalCfg.VaryAccessSize | bgtest/AEP/aep_study.cc:816-826 | For every configuration that has passed the check, in each of the thirteen rounds: regions fit; the mask is defined exactly when the buffer it is computed from has room for a slot; then the sequentially visited slots stay inside their regions, and the selectable ones do exactly when it is not the first round or the checked buffer was at most `AEP_SIZE / 2`. The iterations follow the five thresholds of `gen_iters` for one thread and the bounds above for more. |
| ThreadJobs.GenerateIdx | bgtest/AEP/aep_study.cc:430-436 | The slots are the random numbers in reverse order of drawing, masked, so that they depend on the seed alone, and none exceeds the mask. |
| ThreadJobs.MakeTask | bgtest/AEP/aep_study.cc:409-437 | All fields of a task, its random slots included. |
| ThreadJobs.InitThreadContext | bgtest/AEP/aep_study.cc:618-626 | One such task per thread, with the next block of random numbers, whose buffer starts where the 64-bit computation puts it, which is the thread's region if the regions fit. |
| ThreadJobs.ThreadJob | bgtest/AEP/aep_study.cc:669-714 | A thread executes the loads of `PrepareJob` and then the operations of its iterations, in order, on the slots they select. |
| Preparation.PrepareInSteps | bgtest/AEP/aep_study.cc:647-667 | What `PrepareJob` reads, in this order and to the byte: 2 MB at the start of the buffer, 2 MB half a device above, the whole words of the DRAM block, the index array and one word more, and a buffer of at most 64 MB. |
| Preparation.PrepareFootprint | bgtest/AEP/aep_study.cc:647-667 | A byte is read by the preparation if and only if it lies in one of these. |
| Preparation.WordsInOrder | bgtest/AEP/aep_study.cc:654-666 | The words of the DRAM block and of a small buffer are read upwards, those of the index array downwards, one after the other. |
| Preparation.PrepareJob | bgtest/AEP/aep_study.cc:647-667 | The machine executes these loads. |
| Preparation.PrepareLoads | bgtest/AEP/aep_study.cc:647-667 | `PrepareJob` only loads, and none of its loads is misaligned. |
| Benchmark.ReadyIsPossible | bgtest/AEP/aep_study.cc:247-256 | There are configurations and tasks that meet the hypotheses of the statements below, for every kind of operation. |
| Benchmark.CheckedIsReady | bgtest/AEP/aep_study.cc:247-256 | A configuration that passes, with `buffer_size <= AEP_SIZE / 2`, meets them. |
| Benchmark.StayingIsReady | bgtest/AEP/aep_study.cc:684-698 | So does any round whose regions fit and whose slots stay inside them, as far as its mode visits them. |
| Benchmark.SizedIsReady | bgtest/AEP/aep_study.cc:816-826 | So do the rounds of `MainJobVaryAccessSize` whose mask is defined, except for random tasks in the first one if the checked buffer did not fit. |
| Benchmark.VariedIsReady | bgtest/AEP/aep_study.cc:768-783 | So do the rounds of `MainJobVaryThreadNum` with `n = 0` or `a + n <= 3`, and for sequential tasks those with `a + n <= 16`. |
| Benchmark.SetUp | bgtest/AEP/aep_study.cc:885-903 | Initialising, checking and making the tasks leads to a round that meets them, with everything inside the mapping of the device, if the check passes with buffers that fit. |
| Benchmark.BenchmarkIsIsolated | bgtest/AEP/aep_study.cc:690-705 | No two threads write the same byte, and after its preparation no thread reads a byte that any thread writes. |
| Benchmark.CallsAreRunnable | bgtest/AEP/aep_study.cc:690-705 | Every iteration may run its operation as it is, except that a vector copy from DRAM needs, exactly, a block aligned with the slot. |
| Benchmark.RoundTerminates | bgtest/AEP/aep_study.cc:858-866 | All threads run to their ends under every schedule that gives each enough turns, so that all can be joined, if and only if the DRAM block of every thread is aligned with its slots as far as a vector copy needs it. |
| Benchmark.BenchmarkDurability | bgtest/AEP/aep_study.cc:852-872 | Under every schedule, once an iteration has returned, its slot is durable with the wanted bytes from then on, however often the thread comes back to it. |
| Benchmark.DurabilityAcrossRounds | bgtest/AEP/aep_study.cc:852-872 | Once an iteration has returned in some round, its slot is durable with the bytes wanted at the very beginning, throughout that round and all later ones, whatever operations they use and however far their threads come. |
| Benchmark.BenchmarkCrash | bgtest/AEP/aep_study.cc:852-872 | At every moment a crash leaves a byte as at the start, or with what some iteration that has begun, of the thread that owns the byte, wants there. |
| Benchmark.ThreadsKeepToTheirRegions | bgtest/AEP/aep_study.cc:852-872 | No thread stores outside its own region. |
| Benchmark.RegionDurability | bgtest/AEP/aep_study.cc:684-705 | When a thread has finished a sequential round with at least as many iterations as slots, its whole region is durable, while the others still run. |
| SlotVisits.IterationWritesItsSlot | bgtest/AEP/aep_study.cc:684-698 | Iteration `i` writes the slot `idx_[i % 10485760]` in random mode and the slot `i % slots` in sequential mode, and nothing else. |
| SlotVisits.StoresGoToTheirSlots | bgtest/AEP/aep_study.cc:684-705 | Every store under every schedule goes to that slot of an iteration its thread has begun, with the byte wanted there. |
| SlotVisits.RandomDurability | bgtest/AEP/aep_study.cc:684-705 | When a thread has finished a random round, each slot drawn for its iterations is durable with the wanted bytes. |
| SlotVisits.ThreadsStayMapped | bgtest/AEP/aep_study.cc:647-705 | No load or store of a thread leaves the mapping of the device, the thread's block in DRAM, and its index array with one word more. |
| SlotVisits.EnoughTurnsFinish | bgtest/AEP/aep_study.cc:858-866 | If all blocks fit, a thread has finished its round after as many turns as it has instructions. |
| JustAccess.FootprintIsExact | util/aep_just.h:98-161 | For every address and length a load routine reads exactly its range and a store routine writes exactly its range. |
| JustAccess.AlwaysLegal | util/aep_just.h:230-435 | No load-only or store-only routine makes a misaligned vector access. |
| JustAccess.SmallTouches | util/aep_just.h:7-96 | The accesses of fewer than 16 bytes cover exactly their range, also where the 9 to 15-byte loads go on with the 4-byte loads. |
| JustAccess.JustStoresPersist | bgtest/AEP/aep_study.h:125-157 | Whatever bytes the store-only operations store, they are on the media after the fence, under every interleaving. |
| JustAccess.JustTouch | util/aep_just.h:98-435 | The routines, branch by branch, issue the instructions of their plan, all of them legal, on exactly their range. |
| CopyChoices.AccessExists | util/aep_just.h:98-435 | All their accesses are of the widths and of the kind the routine is named after. |
| CopyChoices.SmallAccesses | util/aep_just.h:7-96 | How many accesses fewer than 16 bytes take: at most two, except that 9 to 15 bytes are loaded by four. |
| CopyChoices.PlainAccessNeverFlushes | util/aep_just.h:98-293 | The routines that are not to flush issue no `clwb`. |

## Left out

- `util/aep.cc` and the `*_pmem2_*` wrappers: they call libpmem2, whose code is not part of the repository.
- Timing, latency reports, flags, logging, NUMA and core binding, files and directories: input and output around the engine. The NUMA checks of `CheckGlobalCfg` and the choice of a device are not modelled.
- `aep_native_store_dram` (`bgtest/AEP/aep_study.h:230-245`): it steps by eight over 8-byte words and does not copy `len` bytes, so there is no copy contract to state.
- `cpy_64b_MOVDIR64B` (`bgtest/AEP/aep_study.h:269-281`): an experiment without a return value.
- What `PrepareJob` does with the values it reads: they are used for nothing.
- The contents of the tables of operations (`bgtest/AEP/aep_study.h:283-297`, `bgtest/AEP/aep_study.h:464-478`, `bgtest/AEP/aep_study.h:568-575`): at this commit every store, copy and fill modelled here is commented out of them, and only the baselines and the libpmem2 calls are active. `Operations.Perform` dispatches to the modelled ones.
- Read jobs and the baselines: they store nothing to the device. The reading copies are the routines above with a destination in DRAM.
- Concurrent statements for rounds in which a thread visits slots outside its region: those of `MainJobVaryThreadNum` with `n > 0` and `a + n > 3` in random mode or `a + n > 16` in sequential mode, and a random first round of `MainJobVaryAccessSize` with a checked buffer larger than `AEP_SIZE / 2`.
- The 32-register kernels, which are commented out, and register or memory clobber lists of the inline assembly.
- Machines.Machine.CpyStoreNoflush: addresses are unbounded, so a range that wraps around the address space is not modelled; the same holds for the other copy routines. `clwb_extent` and the slot addresses are computed in 64-bit words.
- ThreadJobs.ThreadJob: the loop counter is unbounded, where the source counts in a signed 32-bit `int`.
- JustAccess.JustTouch: returns the instructions in place of executing them, because the bytes of the stores come from registers that are not set. The loads are executed by `Preparation.PrepareJob`.
- PersistentMemory.PhaseIsSound: each store instruction takes effect at once and for all threads, in program order; store buffers and the weaker visibility order of non-temporal stores between threads are not modelled. Persistence order is left to the cache.
- The effect of non-temporal loads on the cache.
