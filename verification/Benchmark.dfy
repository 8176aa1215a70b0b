/// A round of the benchmark
/// ========================
///
/// `MainJobNormal` of `bgtest/AEP/aep_study.cc`: the threads of a checked configuration run one kind
/// of operation over their slots, all at once, while the cache evicts lines as it likes.

module Benchmark {
  import opened PersistentMemory
  import opened WordArithmetic
  import opened Instructions
  import opened WriteBackPlans
  import opened PersistentCopies
  import opened Operations
  import opened Bits
  import opened BenchmarkConfig
  import opened CopyLegality
  import opened OperationLegality
  import opened Concurrency
  import opened ConcurrentCopies
  import opened Globals
  import opened ThreadJobs

  /// The slots the tasks visit lie in their regions, regions in the lower half of the device, and the
  /// tasks were made for this configuration.  The blocks in DRAM lie outside the device.
  ghost predicate Ready(c: Cfg, rw: RwType, tasks: seq<Task>) {
    && c.RegionsFit() && c.accessSize == Pow2(c.accessSizeBits)
    && c.aepBuf + AEP_SIZE < WORD
    && TasksFor(c, rw, tasks) && AllOffDevice(c, tasks)
    && AllValid(tasks) && VisitsStay(c, tasks)
  }

  predicate OffDevice(c: Cfg, block: nat) {
    block + c.accessSize <= c.aepBuf || c.aepBuf + AEP_SIZE <= block
  }

  ghost predicate AllOffDevice(c: Cfg, tasks: seq<Task>) {
    forall t: nat | t < |tasks| :: OffDevice(c, tasks[t].memCpyBuf)
  }

  ghost predicate AllValid(tasks: seq<Task>) {
    forall t | 0 <= t < |tasks| :: tasks[t].Valid()
  }

  ghost predicate VisitsStay(c: Cfg, tasks: seq<Task>)
    requires AllValid(tasks)
  {
    forall t: nat, i: nat | t < |tasks| && i < tasks[t].iters ::
      tasks[t].Target(i) + c.accessSize <= c.Region(t) + c.bufferSize
  }

  ghost function WorkersOf(tasks: seq<Task>, op: Operation): (workers: seq<Worker>)
    requires AllValid(tasks)
    ensures |workers| == |tasks|
    ensures forall t | 0 <= t < |workers| ::
              workers[t] == Worker(tasks[t].WarmUp(), ThreadCalls(tasks[t], op, tasks[t].iters))
  {
    seq(|tasks|, t requires 0 <= t < |tasks| => Worker(tasks[t].WarmUp(), ThreadCalls(tasks[t], op, tasks[t].iters)))
  }

  /// The log, and the byte at `a`, after any schedule of the threads and of evictions.
  ghost function LogAfter(tasks: seq<Task>, op: Operation, boot: nat -> Cell, schedule: seq<Step>): seq<Event>
    requires AllValid(tasks)
  {
    After(boot, ProgramsOf(WorkersOf(tasks, op)), schedule).log
  }

  ghost function CellAfter(tasks: seq<Task>, op: Operation, boot: nat -> Cell, schedule: seq<Step>, a: nat): Cell
    requires AllValid(tasks)
  {
    At(boot(a), LogAfter(tasks, op, boot, schedule), a)
  }

  /// Thread `t` has begun, or has finished, its iteration number `k`.
  ghost predicate Started(tasks: seq<Task>, op: Operation, boot: nat -> Cell, schedule: seq<Step>, t: nat, k: nat)
    requires AllValid(tasks) && t < |tasks| && k < tasks[t].iters
  {
    Begun(boot, WorkersOf(tasks, op), schedule, t, k)
  }

  ghost predicate Finished(tasks: seq<Task>, op: Operation, boot: nat -> Cell, schedule: seq<Step>, t: nat, k: nat)
    requires AllValid(tasks) && t < |tasks| && k < tasks[t].iters
  {
    Returned(boot, WorkersOf(tasks, op), schedule, t, k)
  }

  predicate InRegion(c: Cfg, t: nat, a: nat) {
    Within(a, c.Region(t), c.Region(t) + c.bufferSize)
  }

  /// Reaching a round
  /// ----------------

  /// A round is ready when all slots stay in their regions, or when the sequential mode visits none that
  /// do not.
  lemma StayingIsReady(c: Cfg, rw: RwType, tasks: seq<Task>)
    requires c.SlotsStay() || (c.SequentialStays() && forall t: nat | t < |tasks| :: !tasks[t].random)
    requires c.RegionsFit() && c.accessSize == Pow2(c.accessSizeBits) && c.aepBuf + AEP_SIZE < WORD
    requires TasksFor(c, rw, tasks) && AllOffDevice(c, tasks)
    ensures Ready(c, rw, tasks)
  {
    hide Cfg.Slot, And, Cfg.RegionsFit, AllOffDevice, TasksFor;
    TasksCount(c, rw, tasks);
    forall t: nat, i: nat | t < |tasks| && i < tasks[t].iters
      ensures tasks[t].Target(i) + c.accessSize <= c.Region(t) + c.bufferSize
    {
      var idx := TargetIsSlot(c, rw, tasks, t, i);
      assert c.Slot(t, idx) + c.accessSize <= c.Region(t) + c.bufferSize;
    }
  }

  /// Checked configurations whose buffers really fit are ready.
  lemma CheckedIsReady(c: Cfg, rw: RwType, tasks: seq<Task>)
    requires c.Initialised() && c.Passes() && c.Validated() && c.bufferSize <= HALF
    requires c.aepBuf + AEP_SIZE < WORD && TasksFor(c, rw, tasks) && AllOffDevice(c, tasks)
    ensures Ready(c, rw, tasks) && c.IsMask()
  {
    hide Cfg.SlotsStay, Cfg.RegionsFit, TasksFor, Pow2, HighestBit, AllOffDevice, Ready;
    CheckedSlotsStay(c);
    RegionsFitIff(c);
    var a, b := CheckedSizes(c);
    StayingIsReady(c, rw, tasks);
  }

  /// So are the rounds of `MainJobVaryAccessSize` whose mask is defined, except for random tasks in the
  /// first one when the checked buffer did not fit.
  lemma SizedIsReady(c: Cfg, n: nat, threadNum: nat, first: nat, rw: RwType, tasks: seq<Task>)
    requires IsSizedRound(c, n, threadNum, first) && c.bufSlots > 0
    requires n > 0 || first <= HALF || forall t: nat | t < |tasks| :: !tasks[t].random
    requires c.aepBuf + AEP_SIZE < WORD && TasksFor(c, rw, tasks) && AllOffDevice(c, tasks)
    ensures Ready(c, rw, tasks) && c.IsMask()
  {
    hide Cfg.SlotsStay, Cfg.SequentialStays, Cfg.RegionsFit, TasksFor, Pow2, AllOffDevice, Ready, Cfg.IsMask;
    StayingIsReady(c, rw, tasks);
  }

  /// And the rounds of `MainJobVaryThreadNum` whose visits stay.
  lemma VariedIsReady(c: Cfg, n: nat, a: nat, rw: RwType, tasks: seq<Task>)
    requires n <= 5 && IsVariedRound(c, n, a)
    requires n == 0 || a + n <= 3 || (a + n <= 16 && forall t: nat | t < |tasks| :: !tasks[t].random)
    requires c.aepBuf + AEP_SIZE < WORD && TasksFor(c, rw, tasks) && AllOffDevice(c, tasks)
    ensures Ready(c, rw, tasks) && c.IsMask()
  {
    hide Cfg.SlotsStay, Cfg.SequentialStays, Cfg.RegionsFit, TasksFor, Pow2, AllOffDevice, Ready, Cfg.IsMask, ItersFor;
    StayingIsReady(c, rw, tasks);
  }

  /// The program before `MainJobNormal`: read the flags, check them, make the tasks.
  method SetUp(g: GlobalCfg, flags: Flags, rw: RwType, random: bool, buffers: seq<nat>, idxBlocks: seq<nat>,
               rand: nat -> nat)
    returns (ok: bool, tasks: seq<Task>)
    requires |buffers| == |idxBlocks| == flags.threadNum && flags.accessSize > 0
    modifies g
    ensures ok == g.View().Passes()
    ensures ok && g.View().Validated() && g.bufferSize <= HALF ==> Mapped(g.View())
    ensures ok && g.View().Validated() && g.bufferSize <= HALF && g.aepBuf + AEP_SIZE < WORD
            && (forall t: nat | t < |buffers| :: OffDevice(g.View(), buffers[t])) ==>
              Ready(g.View(), rw, tasks)
  {
    hide Ready, Cfg.Passes, TasksFor, OffDevice, IsDrawn, Mapped;
    g.InitGlobalCfg(true, flags);
    ok := g.CheckGlobalCfg();
    tasks := [];
    if ok {
      tasks := InitThreadContext(g, rw, random, buffers, idxBlocks, rand);
      if g.View().Validated() && g.bufferSize <= HALF {
        CheckedIsMapped(g.View());
      }
      if g.View().Validated() && g.bufferSize <= HALF && g.aepBuf + AEP_SIZE < WORD
         && forall t: nat | t < |buffers| :: OffDevice(g.View(), buffers[t])
      {
        RegionsFitIff(g.View());
        CheckedIsReady(g.View(), rw, tasks);
      }
    }
  }

  /// All slots, the sources half a device above them and both reads of two megabytes at the start of every
  /// thread lie inside the mapping of the device.
  ghost predicate Mapped(c: Cfg) {
    forall t: nat, idx: nat | t < c.threadNum && idx <= c.bufSlotsMask :: IsMapped(c, t, idx)
  }

  predicate IsMapped(c: Cfg, t: nat, idx: nat) {
    && c.aepBuf <= c.Slot(t, idx) && c.Slot(t, idx) + 0x8_0000_0000 + c.accessSize <= c.aepBuf + c.aepBufSize
    && c.aepBuf <= c.Region(t) && c.Region(t) + 0x8_0000_0000 + 0x20_0000 <= c.aepBuf + c.aepBufSize
  }

  lemma CheckedIsMapped(c: Cfg)
    requires c.Initialised() && c.Passes() && c.Validated() && c.bufferSize <= HALF
    ensures Mapped(c)
  {
    hide Cfg.Initialised, Cfg.Passes, Cfg.Validated, Cfg.Slot;
    forall t: nat, idx: nat | t < c.threadNum && idx <= c.bufSlotsMask ensures IsMapped(c, t, idx) {
      CheckedStaysMapped(c, t, idx);
      RegionOnDevice(c, t);
    }
  }

  /// There are such configurations: two threads with 64 slots of 16 bytes each.
  lemma ReadyIsPossible(rw: RwType) returns (c: Cfg, tasks: seq<Task>)
    ensures Ready(c, rw, tasks) && |tasks| == 2
  {
    hide Cfg.Initialised, Cfg.Passes, Cfg.Validated, Ready, TaskFor, Cfg.Region, OffDevice;
    c := Cfg(0x1_0000, AEP_SIZE, 2, 2, 1024, 16, 100, 64, 63, 4);
    SmallConfigPasses(c);
    var first := SmallTask(c, rw, 0);
    var second := SmallTask(c, rw, 1);
    tasks := [first, second];
    CheckedIsReady(c, rw, tasks);
  }

  lemma SmallTask(c: Cfg, rw: RwType, t: nat) returns (task: Task)
    requires c == Cfg(0x1_0000, AEP_SIZE, 2, 2, 1024, 16, 100, 64, 63, 4)
    ensures TaskFor(c, rw, task) && task.buf == c.Region(t) && OffDevice(c, task.memCpyBuf)
  {
    var idx := seq(MAX_IDX_SIZE, i => 0);
    task := Task(c.Region(t), 1024, 0x100, rw, false, 0x1000, idx, 16, 4, 63, 100);
  }

  lemma SmallConfigPasses(c: Cfg)
    requires c == Cfg(0x1_0000, AEP_SIZE, 2, 2, 1024, 16, 100, 64, 63, 4)
    ensures c.Initialised() && c.Passes() && c.Validated()
  {
    assert Pow2(4) == 16 && Pow2(5) == 32 && Pow2(6) == 64 && Pow2(7) == 128 && Pow2(10) == 1024 && Pow2(11) == 2048;
    HighestBitOf(16, 4);
    HighestBitOf(64, 6);
    HighestBitOf(1024, 10);
  }

  /// The byte an iteration is meant to leave at `a` of its slot.
  function Wanted(task: Task, image: nat -> byte, i: nat, a: nat): byte
    requires task.Valid() && task.Target(i) <= a
  {
    match task.rw
    case Write => image(task.memCpyBuf + (a - task.Target(i)))
    case Cpy => image(a + HALF)
    case Fill => 1
  }

  lemma WantedIsPromised(task: Task, op: Operation, image: nat -> byte, i: nat, a: nat)
    requires task.Valid() && Offers(task.rw, op) && Covers(ThreadCall(task, op, i), a)
    ensures CallByte(ThreadCall(task, op, i), image, a) == Wanted(task, image, i, a)
  {
    var d := task.Target(i);
    match task.rw
    case Write => assert a - d + task.memCpyBuf == task.memCpyBuf + (a - d);
    case Cpy => assert a - d + (d + HALF) == a + HALF;
    case Fill =>
  }

  /// Where calls go
  /// --------------

  lemma CallOf(c: Cfg, rw: RwType, tasks: seq<Task>, op: Operation, t: nat, call: Call) returns (i: nat)
    requires TasksFor(c, rw, tasks) && t < |tasks| && call in WorkersOf(tasks, op)[t].calls
    ensures i < tasks[t].iters && call == ThreadCall(tasks[t], op, i)
  {
    var job := WorkersOf(tasks, op)[t].calls;
    i :| 0 <= i < |job| && job[i] == call;
  }

  lemma TargetIsSlot(c: Cfg, rw: RwType, tasks: seq<Task>, t: nat, i: nat) returns (idx: nat)
    requires TasksFor(c, rw, tasks) && t < |tasks|
    ensures tasks[t].Valid() && tasks[t].rw == rw && tasks[t].accessSize == c.accessSize
    ensures t < c.threadNum && idx <= c.bufSlotsMask && tasks[t].Target(i) == c.Slot(t, idx)
    ensures idx == tasks[t].SlotIndex(i) && tasks[t].iters == c.iters
    ensures !tasks[t].random ==> idx == And(i, c.bufSlotsMask)
  {
    hide Shl, And;
    assert TaskFor(c, rw, tasks[t]);
    idx := tasks[t].SlotIndex(i);
  }

  /// An iteration writes inside its thread's region.
  lemma CallWritesRegion(c: Cfg, rw: RwType, tasks: seq<Task>, op: Operation, t: nat, i: nat, a: nat)
    requires TasksFor(c, rw, tasks) && AllValid(tasks) && VisitsStay(c, tasks)
    requires t < |tasks| && i < tasks[t].iters
    ensures Covers(ThreadCall(tasks[t], op, i), a) ==> InRegion(c, t, a)
  {
    hide TasksFor, Cfg.Slot, Cfg.Region;
    var idx := TargetIsSlot(c, rw, tasks, t, i);
    SlotAfterRegion(c, t, idx);
  }

  lemma SlotAfterRegion(c: Cfg, t: nat, idx: nat)
    ensures c.Region(t) <= c.Slot(t, idx)
  {
  }

  /// It reads nothing that any thread writes.
  lemma CallReadsOutside(c: Cfg, rw: RwType, tasks: seq<Task>, op: Operation, t: nat, i: nat, u: nat, a: nat)
    requires c.RegionsFit() && TasksFor(c, rw, tasks) && AllValid(tasks) && VisitsStay(c, tasks) && Offers(rw, op)
    requires t < |tasks| && i < tasks[t].iters && u < |tasks| && OffDevice(c, tasks[t].memCpyBuf)
    ensures Reads(ThreadCall(tasks[t], op, i), a) ==> !InRegion(c, u, a)
  {
    hide TasksFor, Cfg.Slot, Cfg.Region;
    var idx := TargetIsSlot(c, rw, tasks, t, i);
    assert |tasks| == c.threadNum by { TasksCount(c, rw, tasks); }
    SourceOfSlot(c, t, idx, u);
    RegionOnDevice(c, u);
  }

  lemma TasksCount(c: Cfg, rw: RwType, tasks: seq<Task>)
    requires TasksFor(c, rw, tasks)
    ensures |tasks| == c.threadNum && AllValid(tasks)
  {
    forall t | 0 <= t < |tasks| ensures tasks[t].Valid() {
      assert TaskFor(c, rw, tasks[t]);
    }
  }

  lemma RegionOnDevice(c: Cfg, u: nat)
    ensures c.aepBuf <= c.Region(u)
  {
  }

  lemma RegionsDisjoint(c: Cfg, t: nat, u: nat, a: nat)
    requires t != u && InRegion(c, t, a)
    ensures !InRegion(c, u, a)
  {
    if t < u {
      RegionsApart(c, t, u);
    } else {
      RegionsApart(c, u, t);
    }
  }

  lemma CallsApart(c: Cfg, rw: RwType, tasks: seq<Task>, op: Operation, t: nat, u: nat, x: Call, y: Call)
    requires Ready(c, rw, tasks) && Offers(rw, op) && AllValid(tasks) && t < |tasks| && u < |tasks|
    requires x in WorkersOf(tasks, op)[t].calls && y in WorkersOf(tasks, op)[u].calls
    ensures NoClash(t == u, x, y)
  {
    hide VisitsStay, Cfg.RegionsFit, Covers, Reads, InRegion, ThreadCall, Offers, TasksFor;
    var i := CallOf(c, rw, tasks, op, t, x);
    var j := CallOf(c, rw, tasks, op, u, y);
    forall a: nat | Reads(x, a) || (t != u && Covers(x, a)) ensures !Covers(y, a) {
      CallWritesRegion(c, rw, tasks, op, t, i, a);
      CallWritesRegion(c, rw, tasks, op, u, j, a);
      CallReadsOutside(c, rw, tasks, op, t, i, u, a);
      if t != u && InRegion(c, t, a) {
        RegionsDisjoint(c, t, u, a);
      }
    }
  }

  /// No two threads write the same byte, and once they have prepared themselves no thread reads a byte
  /// that any thread writes.
  lemma BenchmarkIsIsolated(c: Cfg, rw: RwType, tasks: seq<Task>, op: Operation)
    requires Ready(c, rw, tasks) && Offers(rw, op)
    ensures Isolated(WorkersOf(tasks, op))
  {
    TasksCount(c, rw, tasks);
    hide Ready, NoClash, Offers, OnlyLoads, Task.WarmUp, AllLegal, ThreadCalls;
    var workers := WorkersOf(tasks, op);
    forall t: nat, u: nat, x, y
      | t < |workers| && u < |workers| && x in workers[t].calls && y in workers[u].calls
      ensures NoClash(t == u, x, y)
    {
      CallsApart(c, rw, tasks, op, t, u, x, y);
    }
    forall t | 0 <= t < |workers| ensures OnlyLoads(workers[t].warmUp) {
      assert workers[t].warmUp == tasks[t].WarmUp();
    }
  }

  /// Legality
  /// --------

  /// Every iteration may run the operation as it is, except that the vector routines need a DRAM block
  /// that is aligned with the slot.
  lemma CallsAreRunnable(c: Cfg, rw: RwType, tasks: seq<Task>, op: Operation, t: nat, i: nat)
    requires Ready(c, rw, tasks) && Offers(rw, op) && t < |tasks| && i < tasks[t].iters
    ensures tasks[t].Target(i) + HALF < WORD
    ensures var d := tasks[t].Target(i);
            Runnable(op, d, tasks[t].SourceFor(d), c.accessSize) <==>
            (rw.Write? && op.VectorCopy? ==> Compatible(d, tasks[t].memCpyBuf, c.accessSize))
  {
    TasksCount(c, rw, tasks);
    assert OffDevice(c, tasks[t].memCpyBuf);
    hide TasksFor, Cfg.Slot, Cfg.Region, Compatible;
    var idx := TargetIsSlot(c, rw, tasks, t, i);
    SlotAfterRegion(c, t, idx);
    RegionOnDevice(c, t);
    SourceOfSlot(c, t, idx, t);
  }

  /// The vector routines and a block in DRAM agree, or there is nothing to agree on.
  ghost predicate BlockFits(task: Task, op: Operation)
    requires task.Valid()
  {
    task.rw.Write? && op.VectorCopy? ==>
      forall i: nat | i < task.iters :: Compatible(task.Target(i), task.memCpyBuf, task.accessSize)
  }

  /// All threads run to their ends, and can be joined, under every schedule that gives each of them enough
  /// turns, if and only if every DRAM block is aligned with the slots of its thread as far as a vector copy
  /// needs it.  Otherwise a thread faults, and the process with it.
  lemma RoundTerminates(c: Cfg, rw: RwType, tasks: seq<Task>, op: Operation, boot: nat -> Cell)
    requires Ready(c, rw, tasks) && Offers(rw, op)
    ensures Terminates(boot, ProgramsOf(WorkersOf(tasks, op))) <==>
            forall t: nat | t < |tasks| :: BlockFits(tasks[t], op)
  {
    assert AllValid(tasks);
    hide Ready, AllLegal, Terminates, BlockFits, Offers, Program.Code;
    var progs := ProgramsOf(WorkersOf(tasks, op));
    TerminatesIffLegal(boot, progs);
    assert |progs| == |tasks|;
    forall t: nat | t < |tasks| ensures AllLegal(progs[t].Code()) <==> BlockFits(tasks[t], op) {
      ThreadIsLegal(c, rw, tasks, op, t);
    }
  }

  /// The code of a thread is free of faults if and only if its block fits.
  lemma ThreadIsLegal(c: Cfg, rw: RwType, tasks: seq<Task>, op: Operation, t: nat)
    requires Ready(c, rw, tasks) && Offers(rw, op) && t < |tasks|
    ensures AllLegal(ProgramsOf(WorkersOf(tasks, op))[t].Code()) <==> BlockFits(tasks[t], op)
  {
    assert AllValid(tasks);
    hide Ready, AllLegal, JobCode, BlockFits, Offers, ThreadCalls;
    var progs := ProgramsOf(WorkersOf(tasks, op));
    assert progs[t].warmUp == tasks[t].WarmUp();
    AllLegalConcat(progs[t].warmUp, progs[t].body);
    IterationsAreLegal(c, rw, tasks, op, t);
  }

  lemma IterationsAreLegal(c: Cfg, rw: RwType, tasks: seq<Task>, op: Operation, t: nat)
    requires Ready(c, rw, tasks) && Offers(rw, op) && t < |tasks| && tasks[t].Valid()
    ensures AllLegal(JobCode(ThreadCalls(tasks[t], op, tasks[t].iters))) <==> BlockFits(tasks[t], op)
  {
    hide Ready, AllLegal, JobCode, CallCode, BlockFits, Offers, IterationFits, ThreadCall;
    var calls := ThreadCalls(tasks[t], op, tasks[t].iters);
    JobIsLegal(calls);
    if BlockFits(tasks[t], op) {
      forall i | 0 <= i < |calls| ensures AllLegal(CallCode(calls[i])) {
        IterationIsLegal(c, rw, tasks, op, t, i);
      }
    }
    if forall i | 0 <= i < |calls| :: AllLegal(CallCode(calls[i])) {
      forall i: nat | i < |calls| ensures IterationFits(tasks[t], op, i) {
        assert AllLegal(CallCode(calls[i]));
        IterationIsLegal(c, rw, tasks, op, t, i);
      }
      BlockFitsAlways(tasks[t], op);
    }
  }

  predicate IterationFits(task: Task, op: Operation, i: nat)
    requires task.Valid()
  {
    task.rw.Write? && op.VectorCopy? ==> Compatible(task.Target(i), task.memCpyBuf, task.accessSize)
  }

  lemma BlockFitsAlways(task: Task, op: Operation)
    requires task.Valid() && forall i: nat | i < task.iters :: IterationFits(task, op, i)
    ensures BlockFits(task, op)
  {
    hide Compatible;
    forall i: nat | i < task.iters && task.rw.Write? && op.VectorCopy?
      ensures Compatible(task.Target(i), task.memCpyBuf, task.accessSize)
    {
      assert IterationFits(task, op, i);
    }
  }

  lemma IterationIsLegal(c: Cfg, rw: RwType, tasks: seq<Task>, op: Operation, t: nat, i: nat)
    requires Ready(c, rw, tasks) && Offers(rw, op) && t < |tasks| && i < tasks[t].iters
    ensures AllLegal(CallCode(ThreadCall(tasks[t], op, i))) <==> IterationFits(tasks[t], op, i)
    ensures BlockFits(tasks[t], op) ==> IterationFits(tasks[t], op, i)
  {
    var d := tasks[t].Target(i);
    OperationIsLegal(op, d, tasks[t].SourceFor(d), tasks[t].accessSize);
    assert TaskFor(c, rw, tasks[t]);
    hide Ready, TasksFor, Compatible, OpCode, AllLegal;
    SlotSource(c, rw, tasks, t, i);
  }

  lemma SlotSource(c: Cfg, rw: RwType, tasks: seq<Task>, t: nat, i: nat)
    requires Ready(c, rw, tasks) && t < |tasks| && i < tasks[t].iters
    ensures Compatible(tasks[t].Target(i), tasks[t].Target(i) + HALF, tasks[t].accessSize)
  {
    hide Compatible, TasksFor, Cfg.Slot, Cfg.Region;
    var idx := TargetIsSlot(c, rw, tasks, t, i);
    SourceOfSlot(c, t, idx, t);
  }

  /// Durability
  /// ----------

  /// Iterations that cover the same byte work on the same slot and want the same byte there.
  lemma SameSlot(c: Cfg, rw: RwType, tasks: seq<Task>, op: Operation, t: nat, i: nat, j: nat, a: nat)
    requires TasksFor(c, rw, tasks) && t < |tasks| && c.accessSize == Pow2(c.accessSizeBits)
    ensures tasks[t].Valid()
    ensures Covers(ThreadCall(tasks[t], op, i), a) && Covers(ThreadCall(tasks[t], op, j), a) ==>
              ThreadCall(tasks[t], op, i) == ThreadCall(tasks[t], op, j)
  {
    hide TasksFor, Cfg.Slot, Pow2;
    var p := TargetIsSlot(c, rw, tasks, t, i);
    var q := TargetIsSlot(c, rw, tasks, t, j);
    if p < q {
      SlotsApart(c, t, p, q);
    } else if q < p {
      SlotsApart(c, t, q, p);
    }
  }

  /// Once an iteration has returned, its slot holds the wanted bytes, and every crash leaves it so,
  /// from then on, under every schedule, however often the thread comes back to the slot.
  lemma BenchmarkDurability(c: Cfg, rw: RwType, tasks: seq<Task>, op: Operation, boot: nat -> Cell,
                            schedule: seq<Step>, t: nat, k: nat, a: nat)
    requires Ready(c, rw, tasks) && Offers(rw, op) && t < |tasks| && k < tasks[t].iters
    requires Finished(tasks, op, boot, schedule, t, k)
    requires Within(a, tasks[t].Target(k), tasks[t].Target(k) + c.accessSize)
    ensures Settled(CellAfter(tasks, op, boot, schedule, a),
                    Wanted(tasks[t], Origin(boot), k, a))
  {
    ReadyTasks(c, rw, tasks);
    hide Ready, TasksFor, Returned, Begun, After, Isolated, Wanted, CallByte, Settled, Covers, ThreadCall, Offers,
      VisitsStay, At;
    BenchmarkIsIsolated(c, rw, tasks, op);
    var workers, image := WorkersOf(tasks, op), Origin(boot);
    IterationCovers(c, rw, tasks, op, t, k, a);
    WantedAgain(c, rw, tasks, op, image, t, k, k, a);
    forall m | k < m < |workers[t].calls| && Covers(workers[t].calls[m], a)
      ensures CallByte(workers[t].calls[m], image, a) == CallByte(workers[t].calls[k], image, a)
    {
      WantedAgain(c, rw, tasks, op, image, t, k, m, a);
    }
    ConcurrentDurability(boot, workers, schedule, t, k, a);
  }

  lemma IterationCovers(c: Cfg, rw: RwType, tasks: seq<Task>, op: Operation, t: nat, k: nat, a: nat)
    requires TasksFor(c, rw, tasks) && t < |tasks| && tasks[t].Valid()
    requires Within(a, tasks[t].Target(k), tasks[t].Target(k) + c.accessSize)
    ensures Covers(ThreadCall(tasks[t], op, k), a)
  {
    assert TaskFor(c, rw, tasks[t]);
  }

  lemma WantedAgain(c: Cfg, rw: RwType, tasks: seq<Task>, op: Operation, image: nat -> byte,
                    t: nat, k: nat, m: nat, a: nat)
    requires TasksFor(c, rw, tasks) && Offers(rw, op) && t < |tasks| && tasks[t].Valid()
    requires c.accessSize == Pow2(c.accessSizeBits)
    requires Covers(ThreadCall(tasks[t], op, k), a) && Covers(ThreadCall(tasks[t], op, m), a)
    ensures CallByte(ThreadCall(tasks[t], op, m), image, a) == Wanted(tasks[t], image, k, a)
  {
    hide Wanted, CallByte, Covers, ThreadCall;
    assert TaskFor(c, rw, tasks[t]);
    SameSlot(c, rw, tasks, op, t, k, m, a);
    WantedIsPromised(tasks[t], op, image, k, a);
  }

  /// Some iteration that has begun, of the thread that owns the byte, wants `w` there.
  ghost predicate WantedHere(c: Cfg, tasks: seq<Task>, op: Operation, boot: nat -> Cell,
                             schedule: seq<Step>, a: nat, w: byte)
    requires AllValid(tasks)
  {
    exists t: nat, i: nat :: t < |tasks| && i < tasks[t].iters && Started(tasks, op, boot, schedule, t, i) &&
      WantedBy(c, tasks[t], t, Origin(boot), i, a, w)
  }

  predicate WantedBy(c: Cfg, task: Task, t: nat, image: nat -> byte, i: nat, a: nat, w: byte)
    requires task.Valid()
  {
    && InRegion(c, t, a) && Within(a, task.Target(i), task.Target(i) + c.accessSize)
    && w == Wanted(task, image, i, a)
  }

  lemma PromisedIsWanted(c: Cfg, rw: RwType, tasks: seq<Task>, op: Operation, t: nat, i: nat,
                         image: nat -> byte, a: nat)
    requires TasksFor(c, rw, tasks) && Offers(rw, op) && AllValid(tasks) && VisitsStay(c, tasks)
    requires t < |tasks| && i < tasks[t].iters && Covers(ThreadCall(tasks[t], op, i), a)
    ensures WantedBy(c, tasks[t], t, image, i, a, CallByte(ThreadCall(tasks[t], op, i), image, a))
  {
    hide Wanted, InRegion, VisitsStay, ThreadCall, Covers, CallByte;
    CallWritesRegion(c, rw, tasks, op, t, i, a);
    assert TaskFor(c, rw, tasks[t]);
    CoveredSlot(tasks[t], op, i, a);
    WantedIsPromised(tasks[t], op, image, i, a);
  }

  lemma CoveredSlot(task: Task, op: Operation, i: nat, a: nat)
    requires task.Valid() && Covers(ThreadCall(task, op, i), a)
    ensures Within(a, task.Target(i), task.Target(i) + task.accessSize)
  {
  }

  /// At every moment a crash leaves a byte as a crash at the start could have, or with what some
  /// iteration that has begun, of the thread that owns the byte, wants there.
  lemma BenchmarkCrash(c: Cfg, rw: RwType, tasks: seq<Task>, op: Operation, boot: nat -> Cell,
                       schedule: seq<Step>, a: nat, w: byte)
    requires Ready(c, rw, tasks) && Offers(rw, op)
    requires Exposes(CellAfter(tasks, op, boot, schedule, a), w)
    ensures Exposes(boot(a), w) || WantedHere(c, tasks, op, boot, schedule, a, w)
  {
    ReadyTasks(c, rw, tasks);
    hide Ready, After, Isolated, TasksFor, Offers, VisitsStay, WantedHere, PromisedByBegun, Exposes, At;
    BenchmarkIsIsolated(c, rw, tasks, op);
    ConcurrentCrash(boot, WorkersOf(tasks, op), schedule, a, w);
    if PromisedByBegun(boot, WorkersOf(tasks, op), schedule, a, w) {
      PromisesAreWanted(c, rw, tasks, op, boot, schedule, a, w);
    }
  }

  lemma PromisesAreWanted(c: Cfg, rw: RwType, tasks: seq<Task>, op: Operation, boot: nat -> Cell,
                          schedule: seq<Step>, a: nat, w: byte)
    requires TasksFor(c, rw, tasks) && Offers(rw, op) && AllValid(tasks) && VisitsStay(c, tasks)
    requires PromisedByBegun(boot, WorkersOf(tasks, op), schedule, a, w)
    ensures WantedHere(c, tasks, op, boot, schedule, a, w)
  {
    hide Covers, CallByte, TasksFor, Offers, Begun, VisitsStay, ThreadCall, WantedHere;
    var workers := WorkersOf(tasks, op);
    var t: nat, m: nat :|
      && t < |workers| && m < |workers[t].calls| && Begun(boot, workers, schedule, t, m)
      && Covers(workers[t].calls[m], a) && w == CallByte(workers[t].calls[m], Origin(boot), a);
    BegunIsWanted(c, rw, tasks, op, boot, schedule, t, m, a);
  }

  lemma BegunIsWanted(c: Cfg, rw: RwType, tasks: seq<Task>, op: Operation, boot: nat -> Cell,
                      schedule: seq<Step>, t: nat, i: nat, a: nat)
    requires TasksFor(c, rw, tasks) && Offers(rw, op) && AllValid(tasks) && VisitsStay(c, tasks)
    requires t < |tasks| && i < tasks[t].iters && Started(tasks, op, boot, schedule, t, i)
    requires Covers(ThreadCall(tasks[t], op, i), a)
    ensures WantedHere(c, tasks, op, boot, schedule, a, CallByte(ThreadCall(tasks[t], op, i), Origin(boot), a))
  {
    hide Started, Covers, CallByte, WantedBy, Offers, ThreadCall, TasksFor, VisitsStay;
    PromisedIsWanted(c, rw, tasks, op, t, i, Origin(boot), a);
  }

  /// No thread stores outside its own region.
  lemma ThreadsKeepToTheirRegions(c: Cfg, rw: RwType, tasks: seq<Task>, op: Operation, boot: nat -> Cell,
                                  schedule: seq<Step>, e: Event, a: nat)
    requires Ready(c, rw, tasks) && Offers(rw, op)
    requires e in LogAfter(tasks, op, boot, schedule) && WritesByte(e, a)
    ensures e.t < c.threadNum && InRegion(c, e.t, a)
  {
    TasksCount(c, rw, tasks);
    BenchmarkIsIsolated(c, rw, tasks, op);
    assert VisitsStay(c, tasks);
    hide Ready, After, Isolated, Covers, Begun, CallByte, VisitsStay, ThreadCall;
    var m := StoresArePromised(boot, WorkersOf(tasks, op), schedule, e, a);
    CallWritesRegion(c, rw, tasks, op, e.t, m, a);
  }

  /// Whole regions
  /// -------------

  lemma ReturnedEarlier(boot: nat -> Cell, workers: seq<Worker>, schedule: seq<Step>, t: nat, k: nat, m: nat)
    requires t < |workers| && k <= m < |workers[t].calls| && Returned(boot, workers, schedule, t, m)
    ensures Returned(boot, workers, schedule, t, k)
  {
    hide JobProgress, JobCode;
    JobSplitsAt(workers[t].calls[..m + 1], k + 1);
    assert workers[t].calls[..m + 1][..k + 1] == workers[t].calls[..k + 1];
  }

  /// The sequential mode starts by visiting the slots in order.
  lemma FirstVisit(c: Cfg, rw: RwType, tasks: seq<Task>, t: nat, i: nat)
    requires TasksFor(c, rw, tasks) && t < |tasks| && c.IsMask()
    requires i <= c.bufSlotsMask
    ensures tasks[t].Valid() && (!tasks[t].random ==> tasks[t].Target(i) == c.Slot(t, i))
  {
    hide Pow2, And, Shl;
    var k: nat :| c.bufSlotsMask + 1 == Pow2(k);
    assert TaskFor(c, rw, tasks[t]);
    VisitedSlot(i, k);
  }

  lemma SlotOf(a: nat, mask: nat, size: nat) returns (i: nat)
    requires 0 < size && a < (mask + 1) * size
    ensures i <= mask && i * size <= a < i * size + size && a - i * size == a % size
  {
    i := a / size;
    if i > mask {
      TimesMonotone(mask + 1, i, size);
    }
  }

  /// What a whole region is meant to hold in the end.
  function WantedInRegion(c: Cfg, task: Task, image: nat -> byte, t: nat, a: nat): byte
    requires c.accessSize > 0 && InRegion(c, t, a)
  {
    match task.rw
    case Write => image(task.memCpyBuf + (a - c.Region(t)) % c.accessSize)
    case Cpy => image(a + HALF)
    case Fill => 1
  }

  lemma ReadyTasks(c: Cfg, rw: RwType, tasks: seq<Task>)
    requires Ready(c, rw, tasks)
    ensures TasksFor(c, rw, tasks) && c.accessSize == Pow2(c.accessSizeBits)
    ensures AllValid(tasks) && VisitsStay(c, tasks)
  {
    TasksCount(c, rw, tasks);
  }

  lemma WhichIteration(c: Cfg, rw: RwType, tasks: seq<Task>, image: nat -> byte, t: nat, a: nat) returns (i: nat)
    requires TasksFor(c, rw, tasks) && c.IsMask() && c.accessSize == Pow2(c.accessSizeBits) && t < |tasks|
    requires tasks[t].Valid() && !tasks[t].random
    requires c.Tiled() && InRegion(c, t, a)
    ensures i <= c.bufSlotsMask && Within(a, tasks[t].Target(i), tasks[t].Target(i) + c.accessSize)
    ensures Wanted(tasks[t], image, i, a) == WantedInRegion(c, tasks[t], image, t, a)
  {
    hide And;
    i := SlotOf(a - c.Region(t), c.bufSlotsMask, c.accessSize);
    FirstVisit(c, rw, tasks, t, i);
    SlotStarts(c, t, i);
  }

  lemma SlotStarts(c: Cfg, t: nat, i: nat)
    requires c.accessSize == Pow2(c.accessSizeBits)
    ensures c.Slot(t, i) == c.Region(t) + i * c.accessSize
  {
  }

  lemma EarlierIteration(c: Cfg, rw: RwType, tasks: seq<Task>, op: Operation, boot: nat -> Cell,
                         schedule: seq<Step>, t: nat, k: nat, a: nat)
    requires Ready(c, rw, tasks) && Offers(rw, op) && t < |tasks| && k < tasks[t].iters
    requires Finished(tasks, op, boot, schedule, t, tasks[t].iters - 1)
    requires Within(a, tasks[t].Target(k), tasks[t].Target(k) + c.accessSize)
    ensures Settled(CellAfter(tasks, op, boot, schedule, a),
                    Wanted(tasks[t], Origin(boot), k, a))
  {
    hide Returned, After, Settled, Offers, Wanted;
    TasksCount(c, rw, tasks);
    ReturnedEarlier(boot, WorkersOf(tasks, op), schedule, t, k, tasks[t].iters - 1);
    BenchmarkDurability(c, rw, tasks, op, boot, schedule, t, k, a);
  }

  /// When a thread has finished a sequential round with at least as many iterations as slots, its
  /// whole region is durable with the wanted bytes, whatever the other threads are still doing.
  lemma RegionDurability(c: Cfg, rw: RwType, tasks: seq<Task>, op: Operation, boot: nat -> Cell,
                         schedule: seq<Step>, t: nat, a: nat)
    requires Ready(c, rw, tasks) && Offers(rw, op) && t < |tasks|
    requires !tasks[t].random && c.bufSlotsMask < tasks[t].iters
    requires c.Tiled() && c.IsMask()
    requires Finished(tasks, op, boot, schedule, t, tasks[t].iters - 1)
    requires InRegion(c, t, a)
    ensures Settled(CellAfter(tasks, op, boot, schedule, a),
                    WantedInRegion(c, tasks[t], Origin(boot), t, a))
  {
    ReadyTasks(c, rw, tasks);
    hide Ready, TasksFor, Finished, CellAfter, Settled, Offers, InRegion, Wanted, WantedInRegion, Cfg.Tiled, Cfg.Region;
    var i := WhichIteration(c, rw, tasks, Origin(boot), t, a);
    EarlierIteration(c, rw, tasks, op, boot, schedule, t, i, a);
  }

  /// Rounds
  /// ------
  ///
  /// `MainJobNormal` runs one round per kind of operation, with the same tasks, and joins all threads
  /// before the next.  A round starts from the memory the one before has left, write-backs that are still
  /// on their way included.

  datatype Round = Round(op: Operation, schedule: seq<Step>)

  ghost function MemoryAfter(tasks: seq<Task>, boot: nat -> Cell, rounds: seq<Round>): nat -> Cell
    requires AllValid(tasks)
  {
    if rounds == [] then boot
    else
      var last := rounds[|rounds| - 1];
      var before := MemoryAfter(tasks, boot, rounds[..|rounds| - 1]);
      (a: nat) => CellAfter(tasks, last.op, before, last.schedule, a)
  }

  ghost predicate AllOffered(rw: RwType, rounds: seq<Round>) {
    forall r | r in rounds :: Offers(rw, r.op)
  }

  /// No round changes a byte outside the regions.
  lemma RoundKeepsRest(c: Cfg, rw: RwType, tasks: seq<Task>, op: Operation, boot: nat -> Cell,
                       schedule: seq<Step>, a: nat)
    requires Ready(c, rw, tasks) && Offers(rw, op) && forall t: nat | t < c.threadNum :: !InRegion(c, t, a)
    ensures Value(CellAfter(tasks, op, boot, schedule, a)) == Value(boot(a))
  {
    hide InRegion, Offers;
    var log := LogAfter(tasks, op, boot, schedule);
    forall e | e in log ensures !WritesByte(e, a) {
      if WritesByte(e, a) {
        ThreadsKeepToTheirRegions(c, rw, tasks, op, boot, schedule, e, a);
      }
    }
    Untouched(boot(a), log, a);
  }

  lemma {:induction false} RoundsKeepRest(c: Cfg, rw: RwType, tasks: seq<Task>, boot: nat -> Cell,
                                          rounds: seq<Round>, a: nat)
    requires Ready(c, rw, tasks) && AllOffered(rw, rounds) && forall t: nat | t < c.threadNum :: !InRegion(c, t, a)
    ensures Value(MemoryAfter(tasks, boot, rounds)(a)) == Value(boot(a))
  {
    hide Ready, InRegion, Offers, CellAfter;
    if rounds != [] {
      var n := |rounds| - 1;
      RoundsKeepRest(c, rw, tasks, boot, rounds[..n], a);
      assert rounds[n] in rounds;
      ReadyTasks(c, rw, tasks);
      RoundKeepsRest(c, rw, tasks, rounds[n].op, MemoryAfter(tasks, boot, rounds[..n]), rounds[n].schedule, a);
    }
  }

  /// The byte an iteration copies to `a`.
  function SourceByte(task: Task, k: nat, a: nat): nat
    requires task.Valid() && task.Target(k) <= a
  {
    if task.rw.Write? then task.memCpyBuf + (a - task.Target(k)) else a + HALF
  }

  lemma WantedIsSource(task: Task, memory: nat -> Cell, k: nat, a: nat)
    requires task.Valid() && task.Target(k) <= a
    ensures Wanted(task, Origin(memory), k, a) == if task.rw.Fill? then 1 else Value(memory(SourceByte(task, k, a)))
  {
  }

  /// What an iteration wants depends only on bytes that no round changes.
  lemma WantedDoesNotChange(c: Cfg, rw: RwType, tasks: seq<Task>, boot: nat -> Cell, rounds: seq<Round>,
                            t: nat, k: nat, a: nat)
    requires Ready(c, rw, tasks) && AllOffered(rw, rounds) && t < |tasks| && k < tasks[t].iters
    requires Within(a, tasks[t].Target(k), tasks[t].Target(k) + c.accessSize)
    ensures Wanted(tasks[t], Origin(MemoryAfter(tasks, boot, rounds)), k, a) == Wanted(tasks[t], Origin(boot), k, a)
  {
    ReadyTasks(c, rw, tasks);
    hide Ready, AllOffered, InRegion, MemoryAfter, Wanted, Origin, SourceByte, TasksFor, VisitsStay;
    var b := SourceByte(tasks[t], k, a);
    forall u: nat | u < c.threadNum && !rw.Fill? ensures !InRegion(c, u, b) {
      SourceOutside(c, rw, tasks, t, k, u, a);
    }
    if !rw.Fill? {
      RoundsKeepRest(c, rw, tasks, boot, rounds, b);
    }
    TargetHasType(c, rw, tasks, t);
    WantedIsSource(tasks[t], boot, k, a);
    WantedIsSource(tasks[t], MemoryAfter(tasks, boot, rounds), k, a);
  }

  lemma TargetHasType(c: Cfg, rw: RwType, tasks: seq<Task>, t: nat)
    requires TasksFor(c, rw, tasks) && t < |tasks|
    ensures tasks[t].rw == rw
  {
    assert TaskFor(c, rw, tasks[t]);
  }

  lemma SourceOutside(c: Cfg, rw: RwType, tasks: seq<Task>, t: nat, k: nat, u: nat, a: nat)
    requires Ready(c, rw, tasks) && !rw.Fill? && t < |tasks| && k < tasks[t].iters && u < c.threadNum
    requires Within(a, tasks[t].Target(k), tasks[t].Target(k) + c.accessSize)
    ensures !InRegion(c, u, SourceByte(tasks[t], k, a))
  {
    hide TasksFor, Cfg.Slot, Cfg.Region;
    assert OffDevice(c, tasks[t].memCpyBuf);
    var idx := TargetIsSlot(c, rw, tasks, t, k);
    SourceOfSlot(c, t, idx, u);
    RegionOnDevice(c, u);
  }

  /// Another round does not disturb a byte that is settled with what its owner wants there, not even
  /// while it stores that byte again.
  lemma RoundKeepsSettled(c: Cfg, rw: RwType, tasks: seq<Task>, op: Operation, boot: nat -> Cell,
                          schedule: seq<Step>, t: nat, k: nat, a: nat)
    requires Ready(c, rw, tasks) && Offers(rw, op) && t < |tasks| && k < tasks[t].iters
    requires Within(a, tasks[t].Target(k), tasks[t].Target(k) + c.accessSize)
    requires Settled(boot(a), Wanted(tasks[t], Origin(boot), k, a))
    ensures Settled(CellAfter(tasks, op, boot, schedule, a), Wanted(tasks[t], Origin(boot), k, a))
  {
    var cell, v := CellAfter(tasks, op, boot, schedule, a), Wanted(tasks[t], Origin(boot), k, a);
    hide *;
    ReadyTasks(c, rw, tasks);
    forall w | Exposes(cell, w) ensures w == v {
      BenchmarkCrash(c, rw, tasks, op, boot, schedule, a, w);
      if WantedHere(c, tasks, op, boot, schedule, a, w) {
        OneWanted(c, rw, tasks, op, boot, schedule, t, k, a, w);
      } else {
        SettledExposes(boot(a), v, w);
      }
    }
    SettledIf(cell, v);
  }

  lemma SettledExposes(cell: Cell, v: byte, w: byte)
    requires Settled(cell, v) && Exposes(cell, w)
    ensures w == v
  {
  }

  lemma SettledIf(cell: Cell, v: byte)
    requires forall w | Exposes(cell, w) :: w == v
    ensures Settled(cell, v)
  {
    assert cell.versions[cell.media..][Newest(cell) - cell.media] == Value(cell);
    assert Exposes(cell, Value(cell));
  }

  /// There is only one byte that iterations of the owner want at `a`.
  lemma OneWanted(c: Cfg, rw: RwType, tasks: seq<Task>, op: Operation, boot: nat -> Cell,
                  schedule: seq<Step>, t: nat, k: nat, a: nat, w: byte)
    requires Ready(c, rw, tasks) && Offers(rw, op) && t < |tasks| && k < tasks[t].iters
    requires Within(a, tasks[t].Target(k), tasks[t].Target(k) + c.accessSize)
    requires WantedHere(c, tasks, op, boot, schedule, a, w)
    ensures w == Wanted(tasks[t], Origin(boot), k, a)
  {
    ReadyTasks(c, rw, tasks);
    hide Ready, Started, TasksFor, VisitsStay, Offers, Wanted, Covers, ThreadCall, CallByte, InRegion;
    var u: nat, i: nat :| u < |tasks| && i < tasks[u].iters && Started(tasks, op, boot, schedule, u, i) &&
      WantedBy(c, tasks[u], u, Origin(boot), i, a, w);
    IterationCovers(c, rw, tasks, op, t, k, a);
    CallWritesRegion(c, rw, tasks, op, t, k, a);
    if u != t {
      RegionsDisjoint(c, u, t, a);
    }
    IterationCovers(c, rw, tasks, op, t, i, a);
    WantedAgain(c, rw, tasks, op, Origin(boot), t, k, i, a);
    WantedAgain(c, rw, tasks, op, Origin(boot), t, i, i, a);
  }

  lemma OfferedParts(rw: RwType, rounds: seq<Round>)
    requires AllOffered(rw, rounds) && rounds != []
    ensures Offers(rw, rounds[|rounds| - 1].op) && AllOffered(rw, rounds[..|rounds| - 1])
  {
    hide Offers;
    assert rounds[|rounds| - 1] in rounds;
  }

  lemma MemorySnoc(tasks: seq<Task>, boot: nat -> Cell, rounds: seq<Round>, a: nat)
    requires AllValid(tasks) && rounds != []
    ensures var last := rounds[|rounds| - 1];
            MemoryAfter(tasks, boot, rounds)(a) ==
            CellAfter(tasks, last.op, MemoryAfter(tasks, boot, rounds[..|rounds| - 1]), last.schedule, a)
  {
    hide CellAfter;
  }

  /// The round in which an iteration returns settles its slot with the bytes wanted at the very beginning.
  lemma SettledInRound(c: Cfg, rw: RwType, tasks: seq<Task>, boot: nat -> Cell, rounds: seq<Round>, last: Round,
                       t: nat, k: nat, a: nat)
    requires Ready(c, rw, tasks) && AllOffered(rw, rounds) && Offers(rw, last.op)
    requires t < |tasks| && k < tasks[t].iters
    requires Finished(tasks, last.op, MemoryAfter(tasks, boot, rounds), last.schedule, t, k)
    requires Within(a, tasks[t].Target(k), tasks[t].Target(k) + c.accessSize)
    ensures Settled(CellAfter(tasks, last.op, MemoryAfter(tasks, boot, rounds), last.schedule, a),
                    Wanted(tasks[t], Origin(boot), k, a))
  {
    ReadyTasks(c, rw, tasks);
    hide Ready, TasksFor, VisitsStay, AllOffered, Offers, Wanted, Settled, CellAfter, Finished, Origin, MemoryAfter;
    WantedDoesNotChange(c, rw, tasks, boot, rounds, t, k, a);
    BenchmarkDurability(c, rw, tasks, last.op, MemoryAfter(tasks, boot, rounds), last.schedule, t, k, a);
  }

  /// A later round keeps what an earlier one has settled.
  lemma SettledStays(c: Cfg, rw: RwType, tasks: seq<Task>, boot: nat -> Cell, rounds: seq<Round>, last: Round,
                     t: nat, k: nat, a: nat)
    requires Ready(c, rw, tasks) && AllOffered(rw, rounds) && Offers(rw, last.op)
    requires t < |tasks| && k < tasks[t].iters
    requires Within(a, tasks[t].Target(k), tasks[t].Target(k) + c.accessSize)
    requires Settled(MemoryAfter(tasks, boot, rounds)(a), Wanted(tasks[t], Origin(boot), k, a))
    ensures Settled(CellAfter(tasks, last.op, MemoryAfter(tasks, boot, rounds), last.schedule, a),
                    Wanted(tasks[t], Origin(boot), k, a))
  {
    ReadyTasks(c, rw, tasks);
    hide Ready, TasksFor, VisitsStay, AllOffered, Offers, Wanted, Settled, CellAfter, Origin, MemoryAfter;
    WantedDoesNotChange(c, rw, tasks, boot, rounds, t, k, a);
    RoundKeepsSettled(c, rw, tasks, last.op, MemoryAfter(tasks, boot, rounds), last.schedule, t, k, a);
  }

  /// Iteration `k` of thread `t` has returned in round `r`.
  ghost predicate ReturnedInRound(tasks: seq<Task>, boot: nat -> Cell, rounds: seq<Round>, r: nat, t: nat, k: nat)
    requires AllValid(tasks) && t < |tasks| && k < tasks[t].iters && r < |rounds|
  {
    Finished(tasks, rounds[r].op, MemoryAfter(tasks, boot, rounds[..r]), rounds[r].schedule, t, k)
  }

  lemma ReturnedInLast(tasks: seq<Task>, boot: nat -> Cell, rounds: seq<Round>, t: nat, k: nat)
    requires AllValid(tasks) && t < |tasks| && k < tasks[t].iters && rounds != []
    requires ReturnedInRound(tasks, boot, rounds, |rounds| - 1, t, k)
    ensures var n := |rounds| - 1;
            Finished(tasks, rounds[n].op, MemoryAfter(tasks, boot, rounds[..n]), rounds[n].schedule, t, k)
  {
    hide Finished, MemoryAfter;
  }

  lemma ReturnedEarlierRound(tasks: seq<Task>, boot: nat -> Cell, rounds: seq<Round>, r: nat, t: nat, k: nat)
    requires AllValid(tasks) && t < |tasks| && k < tasks[t].iters && r < |rounds| - 1
    requires ReturnedInRound(tasks, boot, rounds, r, t, k)
    ensures ReturnedInRound(tasks, boot, rounds[..|rounds| - 1], r, t, k)
  {
    hide Finished, MemoryAfter, AllValid;
    var n := |rounds| - 1;
    assert rounds[..n][r] == rounds[r] && rounds[..n][..r] == rounds[..r];
  }

  /// Once an iteration has returned in some round, its slot stays durable with the bytes wanted at the
  /// very beginning, at every moment of that round and of all later ones, whatever operations they use.
  lemma {:induction false} DurabilityAcrossRounds(c: Cfg, rw: RwType, tasks: seq<Task>, boot: nat -> Cell,
                                                  rounds: seq<Round>, r: nat, t: nat, k: nat, a: nat)
    requires Ready(c, rw, tasks) && AllOffered(rw, rounds) && r < |rounds| && t < |tasks| && k < tasks[t].iters
    requires ReturnedInRound(tasks, boot, rounds, r, t, k)
    requires Within(a, tasks[t].Target(k), tasks[t].Target(k) + c.accessSize)
    ensures Settled(MemoryAfter(tasks, boot, rounds)(a), Wanted(tasks[t], Origin(boot), k, a))
    decreases |rounds|
  {
    hide *;
    ReadyTasks(c, rw, tasks);
    var n := |rounds| - 1;
    var earlier, last := rounds[..n], rounds[n];
    OfferedParts(rw, rounds);
    MemorySnoc(tasks, boot, rounds, a);
    if r == n {
      ReturnedInLast(tasks, boot, rounds, t, k);
      SettledInRound(c, rw, tasks, boot, earlier, last, t, k, a);
    } else {
      ReturnedEarlierRound(tasks, boot, rounds, r, t, k);
      DurabilityAcrossRounds(c, rw, tasks, boot, earlier, r, t, k, a);
      SettledStays(c, rw, tasks, boot, earlier, last, t, k, a);
    }
  }
}
