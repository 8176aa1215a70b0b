/// Where iterations go
/// ===================
///
/// Which slot each iteration of `ThreadJob` works on, in both access modes, what it leaves there, and that
/// no thread touches anything but the device, its block in DRAM and its index array.

module SlotVisits {
  import opened PersistentMemory
  import opened Instructions
  import opened WriteBackPlans
  import opened PersistentCopies
  import opened Bits
  import opened BenchmarkConfig
  import opened Concurrency
  import opened ConcurrentCopies
  import opened Preparation
  import opened ThreadJobs
  import opened Benchmark

  /// The byte wanted at `a` of the slot that starts at `slot`.
  function WantedInSlot(task: Task, image: nat -> byte, slot: nat, a: nat): byte
    requires slot <= a
  {
    match task.rw
    case Write => image(task.memCpyBuf + (a - slot))
    case Cpy => image(a + 0x8_0000_0000)
    case Fill => 1
  }

  /// `a` lies in the slot of iteration `i`: in random mode the one drawn for it, where the numbers are used
  /// again after 10485760 iterations, and in sequential mode the next one, round and round.
  predicate InSlotOf(c: Cfg, task: Task, t: nat, i: nat, a: nat)
    requires |task.idx| == 10485760
  {
    var slot := c.Slot(t, if task.random then task.idx[i % 10485760] else i % (c.bufSlotsMask + 1));
    Within(a, slot, slot + c.accessSize)
  }

  lemma TargetStarts(c: Cfg, rw: RwType, tasks: seq<Task>, t: nat, i: nat)
    requires TasksFor(c, rw, tasks) && c.IsMask() && t < |tasks|
    ensures tasks[t].Valid() && tasks[t].accessSize == c.accessSize && tasks[t].iters == c.iters
    ensures tasks[t].Target(i) ==
            c.Slot(t, if tasks[t].random then tasks[t].idx[i % 10485760] else i % (c.bufSlotsMask + 1))
  {
    hide Pow2, And, Shl;
    assert TaskFor(c, rw, tasks[t]);
    var k: nat :| c.bufSlotsMask + 1 == Pow2(k);
    AndMask(i, k);
  }

  /// Iteration `i` writes its slot and nothing else.
  lemma IterationWritesItsSlot(c: Cfg, rw: RwType, tasks: seq<Task>, op: Operation, t: nat, i: nat, a: nat)
    requires TasksFor(c, rw, tasks) && c.IsMask() && AllValid(tasks) && t < |tasks| && i < tasks[t].iters
    ensures Covers(WorkersOf(tasks, op)[t].calls[i], a) <==> InSlotOf(c, tasks[t], t, i, a)
  {
    hide TasksFor, Cfg.IsMask, Cfg.Slot, Task.Target;
    TargetStarts(c, rw, tasks, t, i);
  }

  /// Every store of a thread goes to the slot of an iteration it has begun, and stores what is wanted there.
  lemma StoresGoToTheirSlots(c: Cfg, rw: RwType, tasks: seq<Task>, op: Operation, boot: nat -> Cell,
                             schedule: seq<Step>, e: Event, a: nat)
    returns (i: nat)
    requires Ready(c, rw, tasks) && c.IsMask() && Offers(rw, op)
    requires e in LogAfter(tasks, op, boot, schedule) && WritesByte(e, a)
    ensures e.t < |tasks| && i < tasks[e.t].iters && Started(tasks, op, boot, schedule, e.t, i)
    ensures InSlotOf(c, tasks[e.t], e.t, i, a)
    ensures WantedBy(c, tasks[e.t], e.t, Origin(boot), i, a, e.data[a - e.addr])
  {
    ReadyTasks(c, rw, tasks);
    hide Ready, TasksFor, After, Isolated, Covers, Begun, CallByte, VisitsStay, ThreadCall, InSlotOf, WantedBy, Offers,
      Cfg.IsMask;
    BenchmarkIsIsolated(c, rw, tasks, op);
    i := StoresArePromised(boot, WorkersOf(tasks, op), schedule, e, a);
    IterationWritesItsSlot(c, rw, tasks, op, e.t, i, a);
    PromisedIsWanted(c, rw, tasks, op, e.t, i, Origin(boot), a);
  }

  /// The byte `a` of the slot of iteration `i` in random mode.
  lemma DrawnSlot(c: Cfg, rw: RwType, tasks: seq<Task>, image: nat -> byte, t: nat, j: nat, a: nat)
    requires TasksFor(c, rw, tasks) && c.IsMask() && t < |tasks| && tasks[t].Valid() && tasks[t].random
    requires j < 10485760 == |tasks[t].idx|
    requires var slot := c.Slot(t, tasks[t].idx[j]); slot <= a < slot + c.accessSize
    ensures Within(a, tasks[t].Target(j), tasks[t].Target(j) + c.accessSize)
    ensures Wanted(tasks[t], image, j, a) == WantedInSlot(tasks[t], image, c.Slot(t, tasks[t].idx[j]), a)
  {
    hide TasksFor, Cfg.IsMask, Cfg.Slot, Task.Target;
    TargetStarts(c, rw, tasks, t, j);
  }

  /// When a thread has finished a random round, every slot drawn for one of its iterations is durable with
  /// the wanted bytes, whatever the other threads are still doing.
  lemma RandomDurability(c: Cfg, rw: RwType, tasks: seq<Task>, op: Operation, boot: nat -> Cell,
                         schedule: seq<Step>, t: nat, j: nat, a: nat)
    requires Ready(c, rw, tasks) && c.IsMask() && Offers(rw, op) && t < |tasks|
    requires tasks[t].random && j < tasks[t].iters && j < 10485760 == |tasks[t].idx|
    requires Finished(tasks, op, boot, schedule, t, tasks[t].iters - 1)
    requires var slot := c.Slot(t, tasks[t].idx[j]); slot <= a < slot + c.accessSize
    ensures Settled(CellAfter(tasks, op, boot, schedule, a),
                    WantedInSlot(tasks[t], Origin(boot), c.Slot(t, tasks[t].idx[j]), a))
  {
    ReadyTasks(c, rw, tasks);
    hide Ready, TasksFor, Finished, CellAfter, Settled, Offers, Wanted, WantedInSlot, Cfg.Slot, Cfg.IsMask, VisitsStay,
      Task.Target, Task.Valid, Origin;
    DrawnSlot(c, rw, tasks, Origin(boot), t, j, a);
    EarlierIteration(c, rw, tasks, op, boot, schedule, t, j, a);
  }

  /// Everything a thread loads or stores lies inside the mapping of the device, in its block in DRAM, or in its
  /// index array and the word after it.
  predicate MayTouch(c: Cfg, task: Task, a: nat) {
    || Within(a, c.aepBuf, c.aepBuf + c.aepBufSize)
    || Within(a, task.memCpyBuf, task.memCpyBuf + c.accessSize)
    || Within(a, task.idxBlock, task.idxBlock + 10485760 * 4 + 8)
  }

  lemma ThreadsStayMapped(c: Cfg, rw: RwType, tasks: seq<Task>, op: Operation, t: nat, i: Instr, a: nat)
    requires Ready(c, rw, tasks) && Offers(rw, op) && t < |tasks|
    requires c.aepBufSize >= 0x10_0000_0000 && c.threadNum <= 32
    requires i in ProgramsOf(WorkersOf(tasks, op))[t].Code() && (Loads(i, a) || Stores(i, a))
    ensures MayTouch(c, tasks[t], a)
  {
    ReadyTasks(c, rw, tasks);
    hide Ready, TasksFor, Offers, VisitsStay, ThreadCall, JobCode, CallCode, MayTouch;
    var worker := WorkersOf(tasks, op)[t];
    if i in worker.warmUp {
      PreparationStaysMapped(c, rw, tasks, t, i, a);
    } else {
      var call := JobFootprint(worker.calls, i);
      CallFootprint(call, i, a);
      var k := CallOf(c, rw, tasks, op, t, call);
      CallStaysMapped(c, rw, tasks, op, t, k, a);
    }
  }

  lemma PreparationStaysMapped(c: Cfg, rw: RwType, tasks: seq<Task>, t: nat, i: Instr, a: nat)
    requires Ready(c, rw, tasks) && t < |tasks| && tasks[t].Valid()
    requires c.aepBufSize >= 0x10_0000_0000 && c.threadNum <= 32
    requires i in tasks[t].WarmUp() && (Loads(i, a) || Stores(i, a))
    ensures MayTouch(c, tasks[t], a)
  {
    var task := tasks[t];
    TasksCount(c, rw, tasks);
    assert TaskFor(c, rw, task) && task.buf == c.Region(t);
    assert c.Region(t) + c.bufferSize <= c.aepBuf + HALF;
    hide Ready, TasksFor, PrepareCode, AllLegal;
    PrepareLoads(task.buf, task.bufSize, task.memCpyBuf, task.accessSize, task.idxBlock);
    PrepareFootprint(task.buf, task.bufSize, task.memCpyBuf, task.accessSize, task.idxBlock, a);
    assert Preparation.Reads(task.WarmUp(), a);
    ReadyFits(c, rw, tasks);
    WarmUpStays(c, t);
    RegionOnDevice(c, t);
  }

  lemma ReadyFits(c: Cfg, rw: RwType, tasks: seq<Task>)
    requires Ready(c, rw, tasks)
    ensures c.RegionsFit() && AllOffDevice(c, tasks)
  {
  }

  lemma CallStaysMapped(c: Cfg, rw: RwType, tasks: seq<Task>, op: Operation, t: nat, k: nat, a: nat)
    requires Ready(c, rw, tasks) && Offers(rw, op) && t < |tasks| && tasks[t].Valid() && k < tasks[t].iters
    requires c.aepBufSize >= 0x10_0000_0000
    requires var call := ThreadCall(tasks[t], op, k); Covers(call, a) || ConcurrentCopies.Reads(call, a)
    ensures MayTouch(c, tasks[t], a)
  {
    assert TaskFor(c, rw, tasks[t]);
    ReadyTasks(c, rw, tasks);
    ReadyFits(c, rw, tasks);
    assert tasks[t].Target(k) + c.accessSize <= c.Region(t) + c.bufferSize;
    hide Ready, TasksFor, Cfg.RegionsFit, VisitsStay, Cfg.Slot, AllOffDevice, Cfg.Region;
    var idx := TargetIsSlot(c, rw, tasks, t, k);
    SlotAfterRegion(c, t, idx);
    RegionOnDevice(c, t);
    SourceOfSlot(c, t, idx, t);
  }

  /// If every DRAM block fits, a thread has finished its round once it has had a turn for each of its
  /// instructions.
  lemma EnoughTurnsFinish(c: Cfg, rw: RwType, tasks: seq<Task>, op: Operation, boot: nat -> Cell,
                          schedule: seq<Step>, t: nat, k: nat)
    requires Ready(c, rw, tasks) && Offers(rw, op) && AllValid(tasks) && t < |tasks| && k < tasks[t].iters
    requires forall u: nat | u < |tasks| :: BlockFits(tasks[u], op)
    requires Turns(schedule, t) >= |ProgramsOf(WorkersOf(tasks, op))[t].Code()|
    ensures Finished(tasks, op, boot, schedule, t, k)
  {
    hide Ready, Offers, BlockFits, AllLegal, JobCode, CallCode, ThreadCalls, Returned, Turns, Begun;
    var workers := WorkersOf(tasks, op);
    forall u: nat | u < |workers| ensures AllLegal(ProgramsOf(workers)[u].Code()) {
      ThreadIsLegal(c, rw, tasks, op, u);
    }
    TurnsReturn(boot, workers, schedule, t, k);
    JobSplits(workers[t].calls, k);
  }
}
