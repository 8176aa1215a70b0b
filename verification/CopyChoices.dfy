/// Which kernels a copy chooses
/// ============================
///
/// The alignment steps, the loop, the halving steps and the tail of a vector routine look like a dozen
/// branches.  Together they are one rule: always take the largest kernel that the address and the rest allow.

module CopyChoices {
  import opened PersistentMemory
  import opened Instructions
  import opened CopyPlans
  import opened CopyCode
  import opened PersistentCopies
  import JustAccess

  /// The largest kernel for an address and a rest.  Short of a multiple of 16 it is the small copy up to that.
  function Best(addr: nat, rest: nat): nat {
    if addr % 16 != 0 then Min(16 - addr % 16, rest)
    else if rest < 16 then rest
    else if addr % 32 != 0 || rest < 32 then 16
    else if addr % 64 != 0 || rest < 64 then 32
    else if rest < 128 then 64
    else if rest < 256 then 128
    else if rest < 512 then 256
    else 512
  }

  /// The sizes of the chunks when always the largest is taken.
  function Cuts(dest: nat, off: nat, len: nat): seq<nat>
    decreases len - off
  {
    if off >= len then []
    else if Best(dest + off, len - off) == 0 then []
    else [Best(dest + off, len - off)] + Cuts(dest, off + Best(dest + off, len - off), len)
  }

  function Sizes(plan: Plan): seq<nat> {
    if plan == [] then []
    else (if plan[0].Copy? then [plan[0].n] else []) + Sizes(plan[1..])
  }

  predicate IsBest(dest: nat, len: nat, flush: bool, act: Action) {
    act.Copy? ==>
      act.off < len && act.n == Best(dest + act.off, len - act.off) && (act.flush <==> flush && act.n >= 64)
  }

  predicate AllBest(dest: nat, len: nat, flush: bool, plan: Plan) {
    forall act | act in plan :: IsBest(dest, len, flush, act)
  }

  lemma ChunkIsBest(dest: nat, len: nat, flush: bool, off: nat, n: nat)
    requires n > 0 ==> off < len && n == Best(dest + off, len - off) && n < 64
    ensures AllBest(dest, len, flush, Chunk(off, n))
  {
    hide Best;
  }

  lemma HeadIsBest(dest: nat, len: nat, flush: bool)
    ensures AllBest(dest, len, flush, Chunk(0, SmallHead(dest, len)))
    ensures AllBest(dest, len, flush, VectorHead(dest, len))
  {
    hide Bit, Chunk, AllBest;
    var c0, c1, c2 := SmallHead(dest, len), Head16(dest, len), Head32(dest, len);
    HeadSteps(dest, len);
    if c1 > 0 {
      Bit16(dest + c0);
    }
    if c2 > 0 {
      Bit32(dest + c0 + c1);
      Part16(dest + c0 + c1);
    }
    ChunkIsBest(dest, len, flush, 0, c0);
    ChunkIsBest(dest, len, flush, c0, c1);
    ChunkIsBest(dest, len, flush, c0 + c1, c2);
    BestConcat(dest, len, flush, Chunk(c0, c1), Chunk(c0 + c1, c2));
  }

  lemma BestConcat(dest: nat, len: nat, flush: bool, p: Plan, q: Plan)
    requires AllBest(dest, len, flush, p) && AllBest(dest, len, flush, q)
    ensures AllBest(dest, len, flush, p + q)
  {
    hide IsBest;
  }

  lemma {:induction false} LadderIsBest(dest: nat, len: nat, flush: bool, off: nat, n: nat)
    requires n >= 64 ==> (dest + off) % 64 == 0 && off + n == len
    ensures AllBest(dest, len, flush, Ladder(off, n, flush))
    decreases n
  {
    if n >= 64 {
      var m := Rung(n);
      MultipleOf64(dest + off);
      RungSteps(n);
      NextRung(dest + off, m);
      LadderIsBest(dest, len, flush, off + m, n - m);
    }
  }

  lemma NextRung(d: nat, m: nat)
    requires d % 64 == 0 && m in {64, 128, 256, 512}
    ensures (d + m) % 64 == 0
  {
  }

  lemma TailIsBest(dest: nat, len: nat, flush: bool, b: nat, n: nat)
    requires n < 64 && b + n == len
    requires n > 0 ==> (dest + b) % 16 == 0
    requires n >= 16 ==> (dest + b) % 32 == 0
    requires n >= 32 ==> (dest + b) % 64 == 0
    ensures AllBest(dest, len, flush, VectorTail(b, n)) && AllBest(dest, len, flush, SmallTail(b, n))
  {
    hide Chunk, AllBest;
    if n >= 32 {
      Residues(dest + b, 32);
      After32(dest + b);
    }
    var s := Tail32(n) + Tail16(n);
    if n >= 16 && n > s {
      After16(dest + b + Tail32(n));
    }
    ChunkIsBest(dest, len, flush, b, Tail32(n));
    ChunkIsBest(dest, len, flush, b + Tail32(n), Tail16(n));
    ChunkIsBest(dest, len, flush, b + s, n - s);
    BestConcat(dest, len, flush, Chunk(b, Tail32(n)), Chunk(b + Tail32(n), Tail16(n)));
  }

  lemma After32(d: nat)
    requires d % 64 == 0
    ensures (d + 32) % 32 == 0 && (d + 32) % 16 == 0
  {
    Residues(d, 32);
  }

  lemma After16(d: nat)
    requires d % 32 == 0
    ensures (d + 16) % 16 == 0 && d % 16 == 0
  {
    Part16(d);
  }

  lemma WriteBackIsBest(dest: nat, len: nat, flush: bool, cond: bool, at: nat)
    ensures AllBest(dest, len, flush, OnlyIf(cond, at)) && AllBest(dest, len, flush, [WriteBack(at)])
    ensures AllBest(dest, len, flush, [])
  {
  }

  lemma RoutineIsBest(dest: nat, len: nat, w0: Plan, w1: Plan, flush: bool, w2: Plan)
    requires AllBest(dest, len, flush, w0) && AllBest(dest, len, flush, w1) && AllBest(dest, len, flush, w2)
    ensures AllBest(dest, len, flush, Front(dest, len, w0, w1) + Back(dest, len, flush, w2))
  {
    hide AllBest, HeadLen, Body, Ladder, VectorHead, VectorTail, SmallTail, SmallHead, Chunk;
    var h, b := HeadLen(dest, len), Body(dest, len);
    Leftover(dest, len);
    HeadIsBest(dest, len, flush);
    LadderIsBest(dest, len, flush, h, len - h);
    TailIsBest(dest, len, flush, b, len - b);
    var f0 := Chunk(0, SmallHead(dest, len));
    BestConcat(dest, len, flush, f0, w0);
    BestConcat(dest, len, flush, f0 + w0, VectorHead(dest, len));
    BestConcat(dest, len, flush, f0 + w0 + VectorHead(dest, len), w1);
    var l := Ladder(h, len - h, flush);
    BestConcat(dest, len, flush, l, VectorTail(b, len - b));
    BestConcat(dest, len, flush, l + VectorTail(b, len - b), SmallTail(b, len - b));
    BestConcat(dest, len, flush, l + VectorTail(b, len - b) + SmallTail(b, len - b), w2);
    BestConcat(dest, len, flush, Front(dest, len, w0, w1), Back(dest, len, flush, w2));
  }

  lemma {:induction false} BestIsCuts(dest: nat, len: nat, flush: bool, plan: Plan, lo: nat)
    requires AllBest(dest, len, flush, plan) && Contiguous(plan, lo, len)
    ensures Sizes(plan) == Cuts(dest, lo, len)
    decreases |plan|
  {
    hide Best;
    if plan != [] {
      ContiguousBounds(plan, lo, len);
      assert plan[0] in plan && IsBest(dest, len, flush, plan[0]);
      assert forall act | act in plan[1..] :: act in plan;
      BestIsCuts(dest, len, flush, plan[1..], if plan[0].Copy? then lo + plan[0].n else lo);
    }
  }

  /// Every vector routine cuts its range by that one rule, and uses a kernel that writes back for every chunk
  /// of at least a line, if it is the flushing one, and for no other.
  lemma ChunksAreGreedy(dest: nat, len: nat, flush: bool, plan: Plan)
    requires if flush then plan == FlushPlan(dest, len) else plan in {PlainPlan(dest, len), NtPlan(dest, len)}
    ensures Sizes(plan) == Cuts(dest, 0, len)
    ensures forall act | act in plan && act.Copy? :: act.flush <==> flush && act.n >= 64
  {
    hide AllBest, Contiguous, Front, Back, Sizes, Cuts, Body, HeadLen, LastPtr, AllPlaced;
    PlansAreSound(dest, len, plan);
    var last := LastPtr(dest, len);
    WriteBackIsBest(dest, len, flush, dest % 16 != 0, dest);
    WriteBackIsBest(dest, len, flush, dest % 64 != 0, dest);
    WriteBackIsBest(dest, len, flush, len != Body(dest, len), last);
    RoutineIsBest(dest, len, [], [], flush, []);
    RoutineIsBest(dest, len, OnlyIf(dest % 16 != 0, dest), [], flush, [WriteBack(last)]);
    RoutineIsBest(dest, len, [], OnlyIf(dest % 64 != 0, dest), flush, OnlyIf(len != Body(dest, len), last));
    BestIsCuts(dest, len, flush, plan, 0);
    AllFlush(dest, len, flush, plan);
  }

  lemma AllFlush(dest: nat, len: nat, flush: bool, plan: Plan)
    requires AllBest(dest, len, flush, plan)
    ensures forall act | act in plan && act.Copy? :: act.flush <==> flush && act.n >= 64
  {
    hide Best;
    assert forall act | act in plan :: IsBest(dest, len, flush, act);
  }

  /// Instructions
  /// ------------

  /// Accesses that exist: scalar ones of 1, 2, 4 or 8 bytes, and vector ones of 16 or 32 bytes of the given
  /// kinds.
  predicate Exists(i: Instr, ld: Kind, st: Kind) {
    && (i.Load? ==> (i.kind.Scalar? && i.n in {1, 2, 4, 8}) || (i.kind == ld && i.n in {16, 32}))
    && (i.Store? ==> (i.kind.Scalar? && i.n in {1, 2, 4, 8}) || (i.kind == st && i.n in {16, 32}))
    && (i.Fill? ==> i.n in {1, 2, 4, 8})
  }

  predicate AllExist(code: seq<Instr>, ld: Kind, st: Kind) {
    forall i | i in code :: Exists(i, ld, st)
  }

  lemma {:induction false} KernelsExist(ld: Kind, st: Kind, addr: nat, k: nat)
    ensures AllExist(LoadWords(ld, addr, k), ld, st)
    ensures AllExist(StoreWords(st, addr, k), ld, st) && AllExist(StoreLines(st, addr, k), ld, st)
  {
    if k > 0 {
      KernelsExist(ld, st, addr, k - 1);
    }
  }

  lemma SmallCopyExists(dest: nat, src: nat, n: nat, ld: Kind, st: Kind)
    ensures n < 16 ==> AllExist(SmallCopy(dest, src, n), ld, st)
  {
  }

  lemma {:induction false} CopyExists(ld: Kind, st: Kind, dest: nat, src: nat, plan: Plan)
    ensures AllExist(Code(Vector(ld, st), dest, src, plan), ld, st)
  {
    hide LoadWords, StoreWords, StoreLines, SmallCopy, Exists;
    if plan != [] {
      CopyExists(ld, st, dest, src, plan[1..]);
      if plan[0].Copy? {
        ChunkExists(ld, st, dest + plan[0].off, src + plan[0].off, plan[0].n, plan[0].flush);
      } else {
        ClwbExists(plan[0].addr, ld, st);
      }
    }
  }

  lemma ClwbExists(at: nat, ld: Kind, st: Kind)
    ensures AllExist([Clwb(LineOf(at))], ld, st)
  {
  }

  lemma ChunkExists(ld: Kind, st: Kind, dest: nat, src: nat, n: nat, flush: bool)
    ensures AllExist(ChunkCode(Vector(ld, st), dest, src, n, flush), ld, st)
  {
    hide LoadWords, StoreWords, StoreLines, SmallCopy;
    SmallCopyExists(dest, src, n, ld, st);
    KernelsExist(ld, st, src, n / 32);
    KernelsExist(ld, st, dest, n / 32);
    KernelsExist(ld, st, dest, n / 64);
  }

  /// A vector copy uses the loads it is told to use, and non-temporal stores exactly if that is its strategy.
  lemma OperationExists(op: Operation, dest: nat, src: nat, len: nat)
    requires op.VectorCopy?
    ensures AllExist(OpCode(op, dest, src, len), op.ld, if op.strategy.NtStores? then Streaming else Aligned)
  {
    hide Code, PlanOf;
    CopyExists(op.ld, if op.strategy.NtStores? then Streaming else Aligned, dest, src, PlanOf(op, dest, len));
  }

  /// The load-only and store-only routines use the kernels they are named after.
  lemma {:induction false} AccessExists(access: JustAccess.Access, kind: Kind, addr: nat, plan: Plan)
    requires kind == if access.Loading? then access.ld else access.st
    ensures AllExist(JustAccess.AccessCode(access, addr, plan), kind, kind)
  {
    hide JustAccess.AccessChunk, Exists;
    if plan != [] {
      AccessExists(access, kind, addr, plan[1..]);
      if plan[0].Copy? {
        AccessChunkExists(access, kind, addr + plan[0].off, plan[0].n, plan[0].flush);
      } else {
        ClwbExists(plan[0].addr, kind, kind);
      }
    }
  }

  lemma AccessChunkExists(access: JustAccess.Access, kind: Kind, addr: nat, n: nat, flush: bool)
    requires kind == if access.Loading? then access.ld else access.st
    ensures AllExist(JustAccess.AccessChunk(access, addr, n, flush), kind, kind)
  {
    hide LoadWords, StoreWords, StoreLines;
    KernelsExist(kind, kind, addr, n / 32);
    KernelsExist(kind, kind, addr, n / 64);
  }

  /// Fewer than 16 bytes are touched once or twice, except that 9 to 15 bytes are loaded by four accesses.
  lemma SmallAccesses(access: JustAccess.Access, addr: nat, n: nat)
    requires n < 16
    ensures |JustAccess.SmallAccess(access, addr, n)| ==
            if n == 0 then 0 else if n <= 2 then 1 else if n <= 8 || access.Storing? then 2 else 4
  {
  }

  predicate NoClwb(code: seq<Instr>) {
    forall i | i in code :: !i.Clwb?
  }

  lemma {:induction false} NoClwbInKernels(kind: Kind, addr: nat, k: nat)
    ensures NoClwb(LoadWords(kind, addr, k)) && NoClwb(StoreWords(kind, addr, k))
  {
    if k > 0 {
      NoClwbInKernels(kind, addr, k - 1);
    }
  }

  lemma {:induction false} NoClwbInAccesses(access: JustAccess.Access, addr: nat, plan: Plan)
    requires OnlyCopies(plan)
    ensures NoClwb(JustAccess.AccessCode(access, addr, plan))
  {
    hide JustAccess.AccessChunk;
    if plan != [] {
      assert plan[0] in plan && forall act | act in plan[1..] :: act in plan;
      NoClwbInAccesses(access, addr, plan[1..]);
      NoClwbInChunk(access, addr + plan[0].off, plan[0].n);
    }
  }

  lemma NoClwbInChunk(access: JustAccess.Access, addr: nat, n: nat)
    ensures NoClwb(JustAccess.AccessChunk(access, addr, n, false))
  {
    hide LoadWords, StoreWords, StoreLines;
    NoClwbInKernels(if access.Loading? then access.ld else access.st, addr, n / 32);
  }

  /// The routines that are not to flush write nothing back.
  lemma PlainAccessNeverFlushes(access: JustAccess.Access, addr: nat, len: nat)
    ensures NoClwb(JustAccess.AccessCode(access, addr, JustAccess.PlanFor(JustAccess.Plain, addr, len)))
  {
    hide PlainPlan, JustAccess.AccessCode, NoClwb;
    PlainPlanOnlyCopies(addr, len);
    NoClwbInAccesses(access, addr, PlainPlan(addr, len));
  }

  /// Line by line
  /// ------------

  /// The chunk stays in one line, and that line is written back at once.
  predicate FlushedAtOnce(dest: nat, plan: Plan, j: nat)
    requires j < |plan| && plan[j].Copy?
  {
    && j + 1 < |plan| && plan[j + 1].WriteBack?
    && LineOf(plan[j + 1].addr) <= dest + plan[j].off
    && dest + plan[j].off + plan[j].n <= LineOf(plan[j + 1].addr) + 64
  }

  lemma {:induction false} LinesFlushAtOnce(dest: nat, off: nat, len: nat, j: nat)
    requires len > 0 ==> (dest + off) % 64 == 0
    requires j < |NativeLines(dest, off, len)| && NativeLines(dest, off, len)[j].Copy?
    ensures FlushedAtOnce(dest, NativeLines(dest, off, len), j)
    decreases len
  {
    if len >= 64 && j >= 2 {
      var rest := NativeLines(dest, off + 64, len - 64);
      assert NativeLines(dest, off, len)[j] == rest[j - 2];
      NextRung(dest + off, 64);
      LinesFlushAtOnce(dest, off + 64, len - 64, j - 2);
      assert NativeLines(dest, off, len)[j + 1] == rest[j - 1];
    }
  }

  /// `cpy_native_flush` and `memset_native_flush` write every line back right after the chunk stored to it.
  lemma NativeFlushesAtOnce(dest: nat, len: nat, j: nat)
    requires j < |NativePlan(dest, len)| && NativePlan(dest, len)[j].Copy?
    ensures FlushedAtOnce(dest, NativePlan(dest, len), j)
  {
    hide NativeLines;
    var c := NativeHead(dest, len);
    var lead, rest := Chunk(0, c) + OnlyIf(dest % 64 != 0, dest), NativeLines(dest, c, len - c);
    NativeHeadAligns(dest, len);
    LineSplits(dest);
    if j >= |lead| {
      LinesFlushAtOnce(dest, c, len - c, j - |lead|);
      assert NativePlan(dest, len)[j + 1] == rest[j + 1 - |lead|];
    }
  }
}
