/// Threads of the benchmark
/// ========================
///
/// `Task`, `InitThreadContext` and `ThreadJob` of `bgtest/AEP/aep_study.cc`: which operations a
/// thread performs, on which addresses.

module ThreadJobs {
  import opened Instructions
  import opened WordArithmetic
  import opened PersistentCopies
  import opened ConcurrentCopies
  import opened Machines
  import opened Operations
  import opened Bits
  import opened BenchmarkConfig
  import opened Globals
  import opened Concurrency
  import opened Preparation

  /// `kWrite` copies from the thread's buffer in DRAM, `kCpy` from half a device above the
  /// destination, `kMemset` fills with ones.
  datatype RwType = Write | Cpy | Fill

  datatype Task = Task(buf: nat, bufSize: nat, memCpyBuf: nat, rw: RwType, random: bool, idxBlock: nat, idx: seq<nat>,
                       accessSize: nat, accessSizeBits: nat, mask: nat, iters: nat) {

    ghost predicate Valid() {
      && |idx| == MAX_IDX_SIZE
      && forall i | 0 <= i < |idx| :: idx[i] <= mask
    }

    function SlotIndex(i: nat): (s: nat)
      requires Valid()
      ensures s <= mask
    {
      if random then idx[i % MAX_IDX_SIZE]
      else
        AndAtMost(i, mask);
        And(i, mask)
    }

    /// The address in persistent memory that iteration `i` works on.
    function Target(i: nat): nat
      requires Valid()
    {
      buf + Shl(SlotIndex(i), accessSizeBits)
    }

    /// What the thread loads before its first operation.
    function WarmUp(): (code: seq<Instr>)
      ensures OnlyLoads(code) && AllLegal(code)
    {
      PrepareLoads(buf, bufSize, memCpyBuf, accessSize, idxBlock);
      PrepareCode(buf, bufSize, memCpyBuf, accessSize, idxBlock)
    }

    function SourceFor(dest: nat): nat {
      match rw
      case Write => memCpyBuf
      case Cpy => dest + HALF
      case Fill => dest
    }
  }

  /// The operations a task may be given.
  predicate Offers(rw: RwType, op: Operation) {
    match op
    case Memset(value, _) => rw.Fill? && value == 1
    case VectorCopy(ld, _) => !rw.Fill? && !ld.Scalar?
    case NativeCopy(_) => !rw.Fill?
  }

  function ThreadCall(task: Task, op: Operation, i: nat): Call
    requires task.Valid()
  {
    Call(op, task.Target(i), task.SourceFor(task.Target(i)), task.accessSize)
  }

  function ThreadCalls(task: Task, op: Operation, n: nat): (job: Job)
    requires task.Valid()
    ensures |job| == n && forall i | 0 <= i < n :: job[i] == ThreadCall(task, op, i)
  {
    if n == 0 then [] else ThreadCalls(task, op, n - 1) + [ThreadCall(task, op, n - 1)]
  }

  /// The random slots, drawn before the threads start and filled in from the last to the first.  `rand(n)` is
  /// what the `n`-th call of the generator returns.
  method GenerateIdx(mask: nat, rand: nat -> nat, from: nat) returns (idx: array<nat>)
    ensures fresh(idx) && idx.Length == 10485760
    ensures forall i | 0 <= i < idx.Length :: idx[i] == And(rand(from + (10485759 - i)), mask) <= mask
  {
    idx := new nat[MAX_IDX_SIZE];
    var i := MAX_IDX_SIZE;
    while i > 0
      invariant 0 <= i <= MAX_IDX_SIZE
      invariant forall j | i <= j < MAX_IDX_SIZE :: idx[j] == And(rand(from + (10485759 - j)), mask) <= mask
    {
      i := i - 1;
      var drawn := rand(from + (MAX_IDX_SIZE - 1 - i));
      AndAtMost(drawn, mask);
      idx[i] := And(drawn, mask);
    }
  }

  /// The slots of thread `t` are the `t`-th block of random numbers, masked, in reverse.
  predicate IsDrawn(idx: seq<nat>, mask: nat, rand: nat -> nat, t: nat) {
    |idx| == 10485760 && forall i | 0 <= i < |idx| :: idx[i] == And(rand(10485760 * t + (10485759 - i)), mask)
  }

  /// The task of thread `t`, with everything in it but its random slots.
  ghost predicate IsTask(c: Cfg, rw: RwType, random: bool, t: nat, block: nat, idxBlock: nat, task: Task) {
    task == Task(AddWord(c.aepBuf, MulWord(t, c.bufferSize)), c.bufferSize, block, rw, random, idxBlock, task.idx,
                 c.accessSize, c.accessSizeBits, c.bufSlotsMask, c.iters)
  }

  method MakeTask(g: GlobalCfg, rw: RwType, random: bool, t: nat, block: nat, idxBlock: nat, rand: nat -> nat)
    returns (task: Task)
    requires g.accessSize > 0 && g.accessSizeBits == HighestBit(g.accessSize)
    ensures IsTask(g.View(), rw, random, t, block, idxBlock, task) && TaskFor(g.View(), rw, task)
    ensures IsDrawn(task.idx, g.bufSlotsMask, rand, t)
  {
    hide And, HighestBit;
    var buf := AddWord(g.aepBuf, MulWord(t, g.bufferSize));
    var idx := GenerateIdx(g.bufSlotsMask, rand, MAX_IDX_SIZE * t);
    var accessSizeBits := BitScanReverse(g.accessSize);
    task := Task(buf, g.bufferSize, block, rw, random, idxBlock, idx[..],
                 g.accessSize, accessSizeBits, g.bufSlotsMask, g.iters);
  }

  /// One task per thread.  `buffers` and `idxBlocks` are the blocks `malloc` returned.  The start of a
  /// buffer is computed in words, and is that of the thread's region if the regions fit.
  method InitThreadContext(g: GlobalCfg, rw: RwType, random: bool, buffers: seq<nat>, idxBlocks: seq<nat>,
                           rand: nat -> nat)
    returns (tasks: seq<Task>)
    requires |buffers| == |idxBlocks| == g.threadNum && g.accessSize > 0
    requires g.accessSizeBits == HighestBit(g.accessSize)
    ensures |tasks| == g.threadNum
    ensures forall t: nat | t < |tasks| ::
              && IsTask(g.View(), rw, random, t, buffers[t], idxBlocks[t], tasks[t])
              && TaskFor(g.View(), rw, tasks[t]) && IsDrawn(tasks[t].idx, g.bufSlotsMask, rand, t)
    ensures g.View().RegionsFit() && g.aepBuf + AEP_SIZE < WORD ==> TasksFor(g.View(), rw, tasks)
  {
    hide TaskFor, IsTask, IsDrawn, HighestBit;
    tasks := [];
    for t := 0 to g.threadNum
      invariant |tasks| == t
      invariant forall u: nat | u < t ::
                  && IsTask(g.View(), rw, random, u, buffers[u], idxBlocks[u], tasks[u])
                  && TaskFor(g.View(), rw, tasks[u]) && IsDrawn(tasks[u].idx, g.bufSlotsMask, rand, u)
    {
      var task := MakeTask(g, rw, random, t, buffers[t], idxBlocks[t], rand);
      tasks := tasks + [task];
    }
    if g.View().RegionsFit() && g.aepBuf + AEP_SIZE < WORD {
      forall t: nat | t < |tasks| ensures tasks[t].buf == g.View().Region(t) {
        NoWrap(g.View(), t);
        BufOf(g.View(), rw, random, t, buffers[t], idxBlocks[t], tasks[t]);
      }
    }
  }

  lemma BufOf(c: Cfg, rw: RwType, random: bool, t: nat, block: nat, idxBlock: nat, task: Task)
    requires IsTask(c, rw, random, t, block, idxBlock, task)
    ensures task.buf == AddWord(c.aepBuf, MulWord(t, c.bufferSize)) && task.memCpyBuf == block
  {
  }

  lemma NoWrap(c: Cfg, t: nat)
    requires c.RegionsFit() && c.aepBuf + AEP_SIZE < WORD && t < c.threadNum
    ensures AddWord(c.aepBuf, MulWord(t, c.bufferSize)) == c.Region(t)
  {
    assert c.Region(t) + c.bufferSize <= c.aepBuf + HALF;
  }

  ghost predicate TaskFor(c: Cfg, rw: RwType, task: Task) {
    && task.Valid() && task.rw == rw && task.bufSize == c.bufferSize
    && task.accessSize == c.accessSize && task.accessSizeBits == c.accessSizeBits
    && task.mask == c.bufSlotsMask && task.iters == c.iters
  }

  ghost predicate TasksFor(c: Cfg, rw: RwType, tasks: seq<Task>) {
    |tasks| == c.threadNum && forall t: nat | t < |tasks| :: TaskFor(c, rw, tasks[t]) && tasks[t].buf == c.Region(t)
  }

  /// A thread: the machine executes the loads of its preparation and the code of its calls, in order.
  method ThreadJob(m: Machine, task: Task, op: Operation)
    requires m.Valid() && task.Valid() && Offers(task.rw, op) && task.buf + HALF < WORD
    requires forall i: nat | i < task.iters :: task.Target(i) + HALF < WORD
    requires forall i: nat | i < task.iters ::
               Runnable(op, task.Target(i), task.SourceFor(task.Target(i)), task.accessSize)
    modifies m
    ensures m.Valid() && old(m.log) <= m.log
    ensures m.code == old(m.code) + task.WarmUp() + JobCode(ThreadCalls(task, op, task.iters))
  {
    hide m.Valid, JobCode, CallCode, Runnable, ThreadCall, ThreadCalls, PrepareCode;
    PrepareJob(m, task.buf, task.bufSize, task.memCpyBuf, task.accessSize, task.idxBlock);
    ghost var prepared := m.code;
    NoCalls(task, op);
    assert m.code + [] == m.code;
    for i := 0 to task.iters
      invariant m.Valid() && old(m.log) <= m.log
      invariant m.code == prepared + JobCode(ThreadCalls(task, op, i))
    {
      AndAtMost(i, task.mask);
      var idx := And(i, task.mask);
      if task.random {
        idx := task.idx[i % MAX_IDX_SIZE];
      }
      ThreadStep(m, task, op, i, idx);
      OneMoreCall(task, op, i);
      assert m.code == prepared + (JobCode(ThreadCalls(task, op, i)) + CallCode(ThreadCall(task, op, i)));
    }
  }

  method ThreadStep(m: Machine, task: Task, op: Operation, ghost i: nat, idx: nat)
    requires m.Valid() && task.Valid() && Offers(task.rw, op) && idx == task.SlotIndex(i)
    requires task.Target(i) + HALF < WORD
    requires Runnable(op, task.Target(i), task.SourceFor(task.Target(i)), task.accessSize)
    modifies m
    ensures m.Valid() && old(m.log) <= m.log
    ensures m.code == old(m.code) + CallCode(ThreadCall(task, op, i))
  {
    hide m.Valid, OpCode, Runnable, Shl;
    var addr1 := AddWord(task.buf, Shl(idx, task.accessSizeBits));
    var addr2;
    match task.rw {
      case Write => addr2 := task.memCpyBuf;
      case Cpy => addr2 := AddWord(addr1, HALF);
      case Fill => addr2 := addr1;
    }
    Perform(m, op, addr1, addr2, task.accessSize);
  }

  lemma NoCalls(task: Task, op: Operation)
    requires task.Valid()
    ensures JobCode(ThreadCalls(task, op, 0)) == []
  {
  }

  lemma OneMoreCall(task: Task, op: Operation, i: nat)
    requires task.Valid()
    ensures JobCode(ThreadCalls(task, op, i + 1)) ==
            JobCode(ThreadCalls(task, op, i)) + CallCode(ThreadCall(task, op, i))
  {
    hide CallCode, ThreadCall;
    JobSnoc(ThreadCalls(task, op, i), ThreadCall(task, op, i));
  }

  lemma JobSnoc(job: Job, c: Call)
    ensures JobCode(job + [c]) == JobCode(job) + CallCode(c)
  {
    hide CallCode;
    assert (job + [c])[..|job + [c]| - 1] == job;
  }
}
