/// Persistent copies
/// =================
///
/// The operations of `bgtest/AEP/aep_study.h`: a copy or a fill, write-backs by one of three
/// strategies, and a fence.  Their guarantees hold for every destination, source and length, for
/// every state of the memory, and for every interleaving with evictions and with other threads
/// that leave the destination alone.

module PersistentCopies {
  import opened PersistentMemory
  import opened Instructions
  import opened CopyPlans
  import opened WriteBackPlans
  import opened CopyCode
  import opened CopyMeaning

  datatype Strategy =
    | ByAll        // store, then `clwb_extent`
    | ByCacheline  // write every line back as soon as it is complete
    | NtStores     // non-temporal stores

  datatype Operation =
    | VectorCopy(ld: Kind, strategy: Strategy)  // `ld` tells loads from non-temporal loads
    | NativeCopy(byCacheline: bool)
    | Memset(value: byte, byCacheline: bool)

  function StyleOf(op: Operation): Style {
    match op
    case VectorCopy(ld, strategy) => Vector(ld, if strategy.NtStores? then Streaming else Aligned)
    case NativeCopy(_) => Native
    case Memset(value, _) => Set(value)
  }

  function PlanOf(op: Operation, dest: nat, len: nat): Plan {
    match op
    case VectorCopy(_, ByAll) => ByAllPlan(dest, len)
    case VectorCopy(_, ByCacheline) => FlushPlan(dest, len)
    case VectorCopy(_, NtStores) => NtPlan(dest, len)
    case NativeCopy(byCacheline) => if byCacheline then NativePlan(dest, len) else NativeByAllPlan(dest, len)
    case Memset(_, byCacheline) => if byCacheline then NativePlan(dest, len) else NativeByAllPlan(dest, len)
  }

  function OpCode(op: Operation, dest: nat, src: nat, len: nat): seq<Instr> {
    Code(StyleOf(op), dest, src, PlanOf(op, dest, len)) + [Sfence]
  }

  /// The byte the operation promises at `a`, when `image` is the memory it starts from.
  function Promised(op: Operation, image: nat -> byte, dest: nat, src: nat, a: nat): byte
    requires dest <= a
  {
    Intended(StyleOf(op), image, dest, src, a)
  }

  /// The plans suit their operations
  /// -------------------------------

  lemma {:induction false} NativeChunks(dest: nat, off: nat, len: nat)
    ensures forall act | act in NativeLines(dest, off, len) :: act.Copy? ==> act.n > 0 && !act.flush
    decreases len
  {
    if len >= 64 {
      NativeChunks(dest, off + 64, len - 64);
    }
  }

  lemma PlanIsGood(op: Operation, dest: nat, len: nat)
    ensures Contiguous(PlanOf(op, dest, len), 0, len)
    ensures AllSuit(StyleOf(op), dest, PlanOf(op, dest, len))
  {
    hide Contiguous, NativePlan, NativeByAllPlan;
    match op
    case VectorCopy(_, strategy) =>
      VectorPlanIsGood(op, dest, len);
    case _ =>
      NativePlanIsGood(dest, len);
      NativeByAllPlanIsGood(dest, len);
  }

  lemma NativePlanIsGood(dest: nat, len: nat)
    ensures Contiguous(NativePlan(dest, len), 0, len)
    ensures forall act | act in NativePlan(dest, len) :: act.Copy? ==> act.n > 0 && !act.flush
  {
    hide NativeLines, Contiguous;
    NativePhase(0, dest, len, dest);
    NativeChunks(dest, NativeHead(dest, len), len - NativeHead(dest, len));
  }

  lemma NativeByAllPlanIsGood(dest: nat, len: nat)
    ensures Contiguous(NativeByAllPlan(dest, len), 0, len)
    ensures forall act | act in NativeByAllPlan(dest, len) :: act.Copy? ==> act.n > 0 && !act.flush
  {
    hide WriteBacks, Span;
    ExtentOnlyWritesBack(Span(LineOf(dest), dest + len));
    WriteBacksMoveNothing(ExtentPlan(dest, len), len);
    ContiguousConcat(Chunk(0, len), 0, len, ExtentPlan(dest, len), len);
  }

  lemma VectorPlanIsGood(op: Operation, dest: nat, len: nat)
    requires op.VectorCopy?
    ensures Contiguous(PlanOf(op, dest, len), 0, len)
    ensures AllSuit(StyleOf(op), dest, PlanOf(op, dest, len))
  {
    hide PlainPlan, FlushPlan, NtPlan, WriteBacks, Span, Contiguous;
    match op.strategy
    case ByAll =>
      PlansAreSound(dest, len, PlainPlan(dest, len));
      ExtentOnlyWritesBack(Span(LineOf(dest), dest + len));
      WriteBacksMoveNothing(ExtentPlan(dest, len), len);
      ContiguousConcat(PlainPlan(dest, len), 0, len, ExtentPlan(dest, len), len);
    case ByCacheline =>
      PlansAreSound(dest, len, FlushPlan(dest, len));
    case NtStores =>
      PlansAreSound(dest, len, NtPlan(dest, len));
      NtPlanDoesNotFlush(dest, len);
  }

  lemma NtPlanDoesNotFlush(dest: nat, len: nat)
    ensures forall act | act in NtPlan(dest, len) && act.Copy? :: !act.flush
  {
    hide HeadLen, Body, Ladder, VectorHead, VectorTail, SmallTail, TailPtr, SmallHead, LadderLen,
      Contiguous, AllPlaced, Chunk, LastPtr, Bit;
    HeadShape(dest, len);
    Leftover(dest, len);
    LadderShape(dest, HeadLen(dest, len), len - HeadLen(dest, len), false);
    TailShape(dest, Body(dest, len), len - Body(dest, len));
  }

  lemma PlanSettles(op: Operation, phase: nat, dest: nat, len: nat, a: nat)
    requires Within(a, dest, dest + len)
    ensures PlanPhase(phase, NonTemporal(StyleOf(op)), dest, PlanOf(op, dest, len), a) == 2
  {
    match op
    case VectorCopy(_, ByAll) => ByAllPhase(phase, dest, len, a);
    case VectorCopy(_, ByCacheline) => FlushPhase(phase, dest, len, a);
    case VectorCopy(_, NtStores) => NtPhase(phase, dest, len, a);
    case _ =>
      NativePhase(phase, dest, len, a);
      NativeByAllPhase(phase, dest, len, a);
  }

  /// Whatever the thread did before, the operation ends with every byte of its range fenced.
  lemma OperationSettles(op: Operation, phase: nat, dest: nat, src: nat, len: nat, a: nat)
    requires Within(a, dest, dest + len)
    ensures CodePhase(phase, OpCode(op, dest, src, len), a) == 3
  {
    PlanIsGood(op, dest, len);
    var plan := PlanOf(op, dest, len);
    CodePhaseConcat(phase, Code(StyleOf(op), dest, src, plan), [Sfence], a);
    CodePhaseIsPlanPhase(phase, StyleOf(op), dest, src, plan, a);
    PlanSettles(op, phase, dest, len, a);
  }

  lemma OperationFootprint(op: Operation, dest: nat, src: nat, len: nat)
    ensures LoadsIn(OpCode(op, dest, src, len), src, src + len)
    ensures StoresIn(OpCode(op, dest, src, len), dest, dest + len)
  {
    PlanIsGood(op, dest, len);
    CodeFootprint(StyleOf(op), dest, src, PlanOf(op, dest, len), 0, len);
  }

  lemma OperationWrites(op: Operation, dest: nat, src: nat, len: nat, t: nat, regs: Regs, image: nat -> byte, a: nat)
    requires dest <= a
    ensures WritesOnly(Resolve(OpCode(op, dest, src, len), t, regs, image), a, Promised(op, image, dest, src, a))
  {
    hide Resolve, Code, Contiguous, AllSuit, Intended, StyleOf, PlanOf;
    PlanIsGood(op, dest, len);
    var code := Code(StyleOf(op), dest, src, PlanOf(op, dest, len));
    CodeWrites(StyleOf(op), dest, src, PlanOf(op, dest, len), t, regs, image, a);
    ResolveConcat(code, [Sfence], t, regs, image);
    FenceWrites(t, RegsAfter(code, regs, image), image, a);
  }

  lemma FenceWrites(t: nat, regs: Regs, image: nat -> byte, a: nat)
    ensures forall e | e in Resolve([Sfence], t, regs, image) :: !WritesByte(e, a)
  {
  }

  /// Interleavings
  /// -------------
  ///
  /// `log` interleaves thread `t`'s events with evictions and with the events of other threads,
  /// none of which stores to the destination.

  lemma {:induction false} OwnEvents(log: seq<Event>, t: nat, e: Event)
    requires e in log && By(e, t)
    ensures e in Project(log, t)
  {
    var n := |log| - 1;
    if e != log[n] {
      assert e in log[..n];
      OwnEvents(log[..n], t, e);
    }
  }

  /// The thread running alone, without evictions, is one of the interleavings.
  lemma {:induction false} AloneIsAnInterleaving(log: seq<Event>, t: nat)
    requires forall e | e in log :: By(e, t)
    ensures Project(log, t) == log && forall a :: SoleWriter(log, a, t)
  {
    if log != [] {
      AloneIsAnInterleaving(log[..|log| - 1], t);
      assert log == log[..|log| - 1] + [log[|log| - 1]];
    }
  }

  lemma WritesOnlyByOwner(log: seq<Event>, t: nat, own: seq<Event>, a: nat, v: byte)
    requires Project(log, t) <= own && SoleWriter(log, a, t) && WritesOnly(own, a, v)
    ensures WritesOnly(log, a, v)
  {
    forall e | e in log && WritesByte(e, a) ensures e.data[a - e.addr] == v {
      OwnEvents(log, t, e);
      assert e in own;
    }
  }

  /// At every moment of an operation, under every interleaving, a crash leaves each byte of the
  /// destination either as a crash before the operation could have left it or with its final value,
  /// and does not reach other bytes.
  lemma CrashDuringOperation(op: Operation, dest: nat, src: nat, len: nat, t: nat, regs: Regs,
                             image: nat -> byte, c0: Cell, log: seq<Event>, a: nat, w: byte)
    requires Project(log, t) <= Resolve(OpCode(op, dest, src, len), t, regs, image)
    requires SoleWriter(log, a, t)
    requires Exposes(At(c0, log, a), w)
    ensures Exposes(c0, w) || (Within(a, dest, dest + len) && w == Promised(op, image, dest, src, a))
  {
    var own := Resolve(OpCode(op, dest, src, len), t, regs, image);
    if Within(a, dest, dest + len) {
      OperationWrites(op, dest, src, len, t, regs, image, a);
      WritesOnlyByOwner(log, t, own, a, Promised(op, image, dest, src, a));
      CrashOldOrNew(c0, log, a, Promised(op, image, dest, src, a), w);
    } else {
      OperationFootprint(op, dest, src, len);
      StaysOut(OpCode(op, dest, src, len), t, regs, image, dest, dest + len, a);
      forall e | e in log && By(e, t) ensures e in own {
        OwnEvents(log, t, e);
      }
      assert forall e | e in log && WritesByte(e, a) :: By(e, t);
      Untouched(c0, log, a);
    }
  }

  /// After the operation, under every interleaving, every crash leaves every byte of the destination
  /// with its promised value, and loads see it.
  lemma DurableAfterOperation(op: Operation, dest: nat, src: nat, len: nat, t: nat, regs: Regs,
                              image: nat -> byte, c0: Cell, log: seq<Event>, a: nat)
    requires Project(log, t) == Resolve(OpCode(op, dest, src, len), t, regs, image)
    requires Within(a, dest, dest + len) && SoleWriter(log, a, t)
    ensures Clean(At(c0, log, a)) && Settled(At(c0, log, a), Promised(op, image, dest, src, a))
  {
    var v := Promised(op, image, dest, src, a);
    OperationWrites(op, dest, src, len, t, regs, image, a);
    WritesOnlyByOwner(log, t, Project(log, t), a, v);
    OperationSettles(op, 0, dest, src, len, a);
    CodePhaseIsPhase(0, OpCode(op, dest, src, len), t, regs, image, a);
    PhaseIsSound(c0, log, t, a);
    assert log + [] == log;
    DurableFromThenOn(c0, log, [], t, a, v);
  }

  /// The strategies agree: whichever way the same bytes are written, loads and crashes see the
  /// same destination afterwards.
  lemma StrategiesAgree(op: Operation, op': Operation, dest: nat, src: nat, len: nat, t: nat, t': nat,
                        regs: Regs, regs': Regs, image: nat -> byte,
                        c0: Cell, c0': Cell, log: seq<Event>, log': seq<Event>, a: nat)
    requires if op.Memset? then op'.Memset? && op'.value == op.value else !op'.Memset?
    requires Project(log, t) == Resolve(OpCode(op, dest, src, len), t, regs, image)
    requires Project(log', t') == Resolve(OpCode(op', dest, src, len), t', regs', image)
    requires Within(a, dest, dest + len) && SoleWriter(log, a, t) && SoleWriter(log', a, t')
    ensures Value(At(c0, log, a)) == Value(At(c0', log', a))
    ensures OnMedia(At(c0, log, a)) == OnMedia(At(c0', log', a))
    ensures forall w :: Exposes(At(c0, log, a), w) <==> Exposes(At(c0', log', a), w)
  {
    DurableAfterOperation(op, dest, src, len, t, regs, image, c0, log, a);
    DurableAfterOperation(op', dest, src, len, t', regs', image, c0', log', a);
  }

  /// Alone
  /// -----

  /// `memcpy` wants disjoint ranges, and `cpy_native_flush` calls it with a line at most.
  predicate Disjoint(dest: nat, src: nat, n: nat) {
    dest + n <= src || src + n <= dest
  }

  predicate LinesDisjoint(dest: nat, src: nat, len: nat) {
    Disjoint(dest, src, Min(64, len))
  }

  /// Where the operation copies like `memmove`: the vector routines move forward and allow a
  /// destination that starts before its source, and so does `memcpy` line by line if no line meets
  /// its own source.
  predicate Callable(op: Operation, dest: nat, src: nat, len: nat) {
    match op
    case VectorCopy(_, _) => Forward(dest, src, len)
    case NativeCopy(byCacheline) =>
      if byCacheline then LinesDisjoint(dest, src, len) && Forward(dest, src, len) else Disjoint(dest, src, len)
    case Memset(_, _) => true
  }

  lemma OperationLoadsFirst(op: Operation, dest: nat, src: nat, len: nat)
    requires Callable(op, dest, src, len)
    ensures LoadsBeforeStores(OpCode(op, dest, src, len))
  {
    var plan := PlanOf(op, dest, len);
    PlanIsGood(op, dest, len);
    if op.Memset? {
      MemsetLoadsNothing(op.value, dest, src, plan);
      ThenFence(Code(StyleOf(op), dest, src, plan));
    } else {
      CopiesForward(StyleOf(op), dest, src, plan, 0, len);
      ThenFence(Code(StyleOf(op), dest, src, plan));
    }
  }

  lemma ThenFence(code: seq<Instr>)
    requires LoadsBeforeStores(code) || forall i | i in code :: !i.Load?
    ensures LoadsBeforeStores(code + [Sfence])
  {
    var c := code + [Sfence];
    forall i, j, a | 0 <= i < j < |c| && Stores(c[i], a) ensures !Loads(c[j], a) {
      if j < |code| {
        assert c[i] == code[i] && c[j] == code[j] && c[j] in code;
      }
    }
  }

  lemma {:induction false} MemsetLoadsNothing(value: byte, dest: nat, src: nat, plan: Plan)
    ensures forall i | i in Code(Set(value), dest, src, plan) :: !i.Load?
  {
    if plan != [] {
      MemsetLoadsNothing(value, dest, src, plan[1..]);
    }
  }
}
