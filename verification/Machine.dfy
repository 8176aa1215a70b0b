/// The machine and the routines of `util/aep.h`
/// =============================================

module Machines {
  import opened Division
  import opened PersistentMemory
  import opened WordArithmetic
  import opened Instructions
  import opened CopyPlans
  import opened WriteBackPlans
  import opened CopyCode
  import opened CopyMeaning
  import opened CopyLegality
  import opened PersistentCopies
  import opened CopyRuns

  /// One thread on one memory.  Before every instruction the cache may evict any lines.
  class Machine {
    ghost const boot: nat -> Cell
    const tid: nat
    var cell: nat -> Cell
    var regs: Regs
    var log: seq<Event>
    ghost var code: seq<Instr>

    ghost predicate Valid()
      reads this
    {
      && Executed(boot, tid, code, log)
      && regs == Run(boot, tid, RESET, code).regs
      && forall a: nat :: cell(a) == At(boot(a), log, a)
    }

    constructor (tid: nat, memory: nat -> Cell)
      ensures Valid() && code == [] && log == []
      ensures forall a: nat :: cell(a) == memory(a)
    {
      boot := memory;
      this.tid := tid;
      cell := memory;
      regs := map[];
      log := [];
      code := [];
    }

    /// Instructions
    /// ------------

    method Observe(e: Event)
      modifies this`cell, this`log
      ensures log == old(log) + [e]
      ensures forall a: nat :: cell(a) == CellStep(old(cell(a)), e, a)
    {
      var memory := cell;
      cell := (a: nat) => CellStep(memory(a), e, a);
      log := log + [e];
    }

    /// Any number of evictions of any lines.
    method Evictions()
      requires Valid()
      modifies this`cell, this`log
      ensures Valid() && old(log) <= log
    {
      var count: nat :| count >= 0;
      for i := 0 to count
        invariant Valid() && old(log) <= log
      {
        var line: nat :| line >= 0;
        ghost var before := log;
        ExecutedEviction(boot, tid, code, log, line);
        Observe(Evicted(line));
        forall a: nat ensures cell(a) == At(boot(a), log, a) {
          AtSnoc(boot(a), before, Evicted(line), a);
        }
      }
    }

    method LoadReg(reg: nat, addr: nat, n: nat, kind: Kind)
      requires Valid() && Legal(Load(reg, addr, n, kind))
      modifies this
      ensures Valid() && old(log) <= log
      ensures code == old(code) + [Load(reg, addr, n, kind)]
    {
      hide Executed, At, Bytes, Value;
      Evictions();
      var memory := cell;
      var data := Bytes(a => Value(memory(a)), addr, n);
      forall a | addr <= a < addr + n ensures Value(memory(a)) == Image(boot, WithoutEvictions(log))(a) {
        SameValues(boot, log, a);
      }
      SameBytes(a => Value(memory(a)), Image(boot, WithoutEvictions(log)), addr, n);
      ExecutedInstr(boot, tid, code, log, Load(reg, addr, n, kind));
      assert log + [] == log;
      regs := regs[reg := data];
      code := code + [Load(reg, addr, n, kind)];
    }

    /// The instructions that memory sees.
    method Issue(i: Instr)
      requires Valid() && Legal(i) && !i.Load?
      modifies this
      ensures Valid() && old(log) <= log
      ensures code == old(code) + [i]
    {
      hide Executed, At, WithoutEvictions, Run;
      Evictions();
      ghost var before := log;
      var e := Emits(i, tid, regs)[0];
      ExecutedInstr(boot, tid, code, log, i);
      assert Emits(i, tid, regs) == [e];
      Observe(e);
      forall a: nat ensures cell(a) == At(boot(a), log, a) {
        AtSnoc(boot(a), before, e, a);
      }
      code := code + [i];
    }

    /// Kernels of `util/instr.h`
    /// -------------------------

    /// `cpy_16b_*`
    method Cpy16(style: Style, dest: nat, src: nat)
      requires Valid() && style.Vector? && dest % 16 == 0 && src % 16 == 0
      modifies this
      ensures Valid() && old(log) <= log
      ensures code == old(code) + ChunkCode(style, dest, src, 16, false)
    {
      hide Valid;
      LoadReg(0, src, 16, style.ld);
      Issue(Store(0, dest, 16, style.st));
    }

    /// `cpy_32b_*_noflush`, `cpy_2x32b_*_noflush` up to `cpy_16x32b_*_noflush`, and their `ntstore`
    /// forms: `k` registers.
    method CpyWords(style: Style, dest: nat, src: nat, k: nat)
      requires Valid() && style.Vector? && dest % 32 == 0 && src % 32 == 0 && k > 0
      modifies this
      ensures Valid() && old(log) <= log
      ensures code == old(code) + ChunkCode(style, dest, src, 32 * k, false)
    {
      hide Valid;
      for i := 0 to k
        invariant Valid() && old(log) <= log
        invariant code == old(code) + LoadWords(style.ld, src, i)
      {
        LoadReg(i, src + 32 * i, 32, style.ld);
      }
      for i := 0 to k
        invariant Valid() && old(log) <= log
        invariant code == old(code) + (LoadWords(style.ld, src, k) + StoreWords(style.st, dest, i))
      {
        Issue(Store(i, dest + 32 * i, 32, style.st));
      }
    }

    /// `cpy_2x32b_*_flush` up to `cpy_16x32b_*_flush`: `j` lines.
    method CpyLinesFlush(style: Style, dest: nat, src: nat, j: nat)
      requires Valid() && style.Vector? && dest % 64 == 0 && src % 32 == 0 && j > 0
      modifies this
      ensures Valid() && old(log) <= log
      ensures code == old(code) + ChunkCode(style, dest, src, 64 * j, true)
    {
      hide Valid;
      for i := 0 to 2 * j
        invariant Valid() && old(log) <= log
        invariant code == old(code) + LoadWords(style.ld, src, i)
      {
        LoadReg(i, src + 32 * i, 32, style.ld);
      }
      for i := 0 to j
        invariant Valid() && old(log) <= log
        invariant code == old(code) + (LoadWords(style.ld, src, 2 * j) + StoreLines(style.st, dest, i))
      {
        StoreLine(style.st, dest, i);
      }
    }

    method StoreLine(st: Kind, dest: nat, i: nat)
      requires Valid() && dest % 64 == 0
      modifies this
      ensures Valid() && old(log) <= log
      ensures code == old(code) + StorePair(st, dest, i)
    {
      hide Valid;
      LineMultiples(dest, i);
      Issue(Store(2 * i, dest + 64 * i, 32, st));
      Issue(Store(2 * i + 1, dest + 64 * i + 32, 32, st));
      Issue(Clwb(dest + 64 * i));
    }

    /// `cpy_less_16b_noflush`
    method CpyLess16(dest: nat, src: nat, len: nat)
      requires Valid() && len < 16
      modifies this
      ensures Valid() && old(log) <= log
      ensures code == old(code) + SmallCopy(dest, src, len)
    {
      hide Valid, Overlapping;
      if len == 0 {
        return;
      }
      if len > 8 {
        CpyTwoWords(dest, src, len, 8);
        return;
      }
      if len > 2 {
        if len > 4 {
          CpyTwoWords(dest, src, len, 4);
          return;
        }
        CpyTwoWords(dest, src, len, 2);
        return;
      }
      LoadReg(0, src, len, Scalar);
      Issue(Store(0, dest, len, Scalar));
    }

    /// The first and the last `w` bytes, both loaded before either is stored.
    method CpyTwoWords(dest: nat, src: nat, len: nat, w: nat)
      requires Valid() && w <= len
      modifies this
      ensures Valid() && old(log) <= log
      ensures code == old(code) + Overlapping(dest, src, len, w)
    {
      hide Valid;
      LoadReg(0, src, w, Scalar);
      LoadReg(1, src + len - w, w, Scalar);
      Issue(Store(0, dest, w, Scalar));
      Issue(Store(1, dest + len - w, w, Scalar));
    }

    /// Routines of `util/aep.h`
    /// ------------------------

    /// `clwb_extent`, in the 64-bit arithmetic of the source, whenever it terminates.  Its lines are
    /// those up to the end it computes, which is the end of the range unless that has wrapped around.
    method ClwbExtent(ghost style: Style, addr: nat, len: nat, ghost src: nat)
      requires Valid() && addr < WORD && len < WORD && AddWord(addr, len) <= WORD - 64
      modifies this
      ensures Valid() && old(log) <= log
      ensures code == old(code) + Code(style, addr, src, WriteBacks(Span(LineOf(addr), AddWord(addr, len))))
      ensures addr + len < WORD ==> code == old(code) + Code(style, addr, src, ExtentPlan(addr, len))
    {
      hide Valid, Code, WriteBacks, Span, LineOf;
      LineBelow(addr);
      var uptr := LineOf(addr);
      var end := AddWord(addr, len);
      ghost var goal := old(code) + Code(style, addr, src, WriteBacks(Span(uptr, end)));
      while uptr < end
        invariant uptr % 64 == 0 && uptr < WORD
        invariant Valid() && old(log) <= log
        invariant code + Code(style, addr, src, WriteBacks(Span(uptr, end))) == goal
        decreases WORD - uptr
      {
        ClwbLine(style, addr, src, uptr, end);
        uptr := AddWord(uptr, 64);
      }
      SpanCode(style, addr, src, uptr, end);
      assert code + [] == code;
    }

    method ClwbLine(ghost style: Style, ghost addr: nat, ghost src: nat, uptr: nat, ghost end: nat)
      requires Valid() && uptr % 64 == 0 && uptr < end
      modifies this
      ensures Valid() && old(log) <= log && (uptr + 64) % 64 == 0
      ensures code + Code(style, addr, src, WriteBacks(Span(uptr + 64, end))) ==
              old(code) + Code(style, addr, src, WriteBacks(Span(uptr, end)))
    {
      hide Valid, Code, WriteBacks, Span, LineOf;
      ghost var rest := Code(style, addr, src, WriteBacks(Span(uptr + 64, end)));
      SpanCode(style, addr, src, uptr, end);
      ghost var before := code;
      Issue(Clwb(uptr));
      assert code + rest == before + ([Clwb(uptr)] + rest);
    }

    /// Bookkeeping for the routines: `code` has grown by the code of `plan`.
    ghost predicate Did(style: Style, dest: nat, src: nat, plan: Plan, before: seq<Instr>)
      reads this
    {
      code == before + Code(style, dest, src, plan)
    }

    /// The small head of every vector routine, and its pointers afterwards.
    method SmallHeadStep(style: Style, dest: nat, src: nat, len: nat) returns (d: nat, s: nat, n: nat)
      requires Valid() && style.Vector?
      modifies this
      ensures Valid() && old(log) <= log
      ensures d == dest + SmallHead(dest, len) && s == src + SmallHead(dest, len) && n == len - SmallHead(dest, len)
      ensures Did(style, dest, src, Chunk(0, SmallHead(dest, len)), old(code))
    {
      hide Valid;
      d, s, n := dest, src, len;
      var cnt := d % 16;
      if cnt > 0 {
        cnt := 16 - cnt;
        if cnt > n {
          cnt := n;
        }
        CpyLess16(d, s, cnt);
        d, s, n := d + cnt, s + cnt, n - cnt;
      }
      ChunkIsCode(style, dest, src, 0, SmallHead(dest, len));
    }

    /// The steps to 32 and 64 bytes.
    method VectorHeadSteps(style: Style, dest: nat, src: nat, len: nat) returns (d: nat, s: nat, n: nat)
      requires Valid() && style.Vector?
      requires Compatible(dest, src, len)
      modifies this
      ensures Valid() && old(log) <= log
      ensures d == dest + HeadLen(dest, len) && s == src + HeadLen(dest, len) && n == len - HeadLen(dest, len)
      ensures Did(style, dest, src, VectorHead(dest, len), old(code))
    {
      hide Valid, Compatible, ChunkCode, Code, SmallHead, Chunk, Bit;
      ghost var c0, c1, c2 := SmallHead(dest, len), Head16(dest, len), Head32(dest, len);
      HeadSteps(dest, len);
      d, s, n := dest + SmallHead(dest, len), src + SmallHead(dest, len), len - SmallHead(dest, len);
      if Bit(d, 16) && n >= 16 {
        Source16(dest, src, len, c0);
        Cpy16(style, d, s);
        d, s, n := d + 16, s + 16, n - 16;
      }
      ChunkIsCode(style, dest, src, c0, c1);
      if Bit(d, 32) && n >= 32 {
        Source32(dest, src, len, c0 + c1);
        CpyWords(style, d, s, 1);
        d, s, n := d + 32, s + 32, n - 32;
      }
      ChunkIsCode(style, dest, src, c0 + c1, c2);
      CodeConcat(style, dest, src, Chunk(c0, c1), Chunk(c0 + c1, c2));
    }

    /// One rung of the ladder: a kernel of `size` bytes.
    method Rungs(style: Style, flush: bool, ghost dest: nat, ghost src: nat, d: nat, s: nat, n: nat, size: nat)
      requires Valid() && style.Vector?
      requires dest <= d && src <= s && d - dest == s - src
      requires n >= 64 && size == Rung(n) && d % 64 == 0 && s % 32 == 0
      modifies this
      ensures Valid() && old(log) <= log
      ensures code + Code(style, dest, src, Ladder(d - dest + size, n - size, flush)) ==
              old(code) + Code(style, dest, src, Ladder(d - dest, n, flush))
      ensures (d + size) % 64 == 0 && (s + size) % 32 == 0
      ensures LadderLen(n) == size + LadderLen(n - size)
    {
      hide Valid, Code, Ladder, LadderLen;
      ghost var rest := Code(style, dest, src, Ladder(d - dest + size, n - size, flush));
      LadderCode(style, dest, src, d - dest, n, flush);
      AfterRung(d, s, n, size);
      ghost var before := code;
      RungKernel(style, flush, d, s, size);
      assert before + ChunkCode(style, d, s, size, flush) + rest ==
             before + (ChunkCode(style, d, s, size, flush) + rest);
    }

    method RungKernel(style: Style, flush: bool, d: nat, s: nat, size: nat)
      requires Valid() && style.Vector? && size in {64, 128, 256, 512} && d % 64 == 0 && s % 32 == 0
      modifies this
      ensures Valid() && old(log) <= log
      ensures code == old(code) + ChunkCode(style, d, s, size, flush)
    {
      hide Valid, ChunkCode;
      if flush {
        CpyLinesFlush(style, d, s, size / 64);
      } else {
        MultipleOf64(d);
        CpyWords(style, d, s, size / 32);
      }
    }

    /// The 512-byte loop and the 256, 128 and 64-byte steps.
    method LadderSteps(style: Style, flush: bool, ghost dest: nat, ghost src: nat, d0: nat, s0: nat, len: nat)
      returns (d: nat, s: nat, n: nat)
      requires Valid() && style.Vector?
      requires dest <= d0 && src <= s0 && d0 - dest == s0 - src
      requires len >= 64 ==> d0 % 64 == 0 && s0 % 32 == 0
      modifies this
      ensures Valid() && old(log) <= log
      ensures d == d0 + LadderLen(len) && s == s0 + LadderLen(len) && n == len - LadderLen(len)
      ensures Did(style, dest, src, Ladder(d0 - dest, len, flush), old(code))
    {
      hide Valid, Code, Ladder, LadderLen;
      d, s, n := d0, s0, len;
      ghost var goal := old(code) + Code(style, dest, src, Ladder(d0 - dest, len, flush));
      while n >= 512
        invariant Valid() && old(log) <= log
        invariant n <= len && d == d0 + (len - n) && s == s0 + (len - n)
        invariant n >= 64 ==> d % 64 == 0 && s % 32 == 0
        invariant LadderLen(len) == len - n + LadderLen(n)
        invariant code + Code(style, dest, src, Ladder(d - dest, n, flush)) == goal
      {
        Rungs(style, flush, dest, src, d, s, n, 512);
        d, s, n := d + 512, s + 512, n - 512;
      }
      d, s, n := HalvingSteps(style, flush, dest, src, d, s, n);
    }

    /// The 256, 128 and 64-byte steps, for what the loop leaves.
    method HalvingSteps(style: Style, flush: bool, ghost dest: nat, ghost src: nat, d0: nat, s0: nat, len: nat)
      returns (d: nat, s: nat, n: nat)
      requires Valid() && style.Vector? && len < 512
      requires dest <= d0 && src <= s0 && d0 - dest == s0 - src
      requires len >= 64 ==> d0 % 64 == 0 && s0 % 32 == 0
      modifies this
      ensures Valid() && old(log) <= log
      ensures d == d0 + LadderLen(len) && s == s0 + LadderLen(len) && n == len - LadderLen(len)
      ensures Did(style, dest, src, Ladder(d0 - dest, len, flush), old(code))
    {
      hide Valid, Code, Ladder, LadderLen;
      d, s, n := d0, s0, len;
      if n >= 256 {
        Rungs(style, flush, dest, src, d, s, n, 256);
        d, s, n := d + 256, s + 256, n - 256;
      }
      if n >= 128 {
        Rungs(style, flush, dest, src, d, s, n, 128);
        d, s, n := d + 128, s + 128, n - 128;
      }
      if n >= 64 {
        Rungs(style, flush, dest, src, d, s, n, 64);
        d, s, n := d + 64, s + 64, n - 64;
      }
      NoLadder(style, dest, src, d - dest, n, flush);
      assert code + [] == code;
    }

    /// The 32 and 16-byte steps of the tail.
    method VectorTailSteps(style: Style, ghost dest: nat, ghost src: nat, d0: nat, s0: nat, len: nat)
      returns (d: nat, s: nat, n: nat)
      requires Valid() && style.Vector? && len < 64
      requires dest <= d0 && src <= s0 && d0 - dest == s0 - src
      requires len >= 16 ==> d0 % 16 == 0 && s0 % 16 == 0
      requires len >= 32 ==> d0 % 32 == 0 && s0 % 32 == 0
      modifies this
      ensures Valid() && old(log) <= log
      ensures d == d0 + TailPtr(len) && s == s0 + TailPtr(len) && n == len - TailPtr(len) && n < 16
      ensures Did(style, dest, src, VectorTail(d0 - dest, len), old(code))
    {
      hide Valid, Code, ChunkCode;
      d, s, n := d0, s0, len;
      ghost var off := d0 - dest;
      if n >= 32 {
        CpyWords(style, d, s, 1);
        d, s, n := d + 32, s + 32, n - 32;
      }
      ChunkIsCode(style, dest, src, off, Tail32(len));
      if n >= 16 {
        Cpy16(style, d, s);
        d, s, n := d + 16, s + 16, n - 16;
      }
      ChunkIsCode(style, dest, src, off + Tail32(len), Tail16(len));
      CodeConcat(style, dest, src, Chunk(off, Tail32(len)), Chunk(off + Tail32(len), Tail16(len)));
    }

    /// `cpy_load_store_noflush`, `cpy_ntload_store_noflush`
    method CpyStoreNoflush(ld: Kind, dest: nat, src: nat, len: nat)
      requires Valid() && Compatible(dest, src, len)
      modifies this
      ensures Valid() && old(log) <= log
      ensures code == old(code) + Code(Vector(ld, Aligned), dest, src, PlainPlan(dest, len))
      ensures Forward(dest, src, len) ==> Copied(Vector(ld, Aligned), dest, src, len, old(cell), cell)
    {
      PlainRoutine(Vector(ld, Aligned), dest, src, len);
      PlansAreSound(dest, len, PlainPlan(dest, len));
      if Forward(dest, src, len) {
        RoutineDone(Vector(ld, Aligned), PlainPlan(dest, len), dest, src, len, boot, tid,
                    old(code), code, old(log), log, old(cell), cell);
      }
    }

    method PlainRoutine(style: Style, dest: nat, src: nat, len: nat)
      requires Valid() && style.Vector? && Compatible(dest, src, len)
      modifies this
      ensures Valid() && old(log) <= log
      ensures Did(style, dest, src, PlainPlan(dest, len), old(code))
    {
      hide Valid, Code, Compatible, SmallHead, HeadLen, Body, LadderLen, TailPtr, Ladder, VectorTail, SmallTail,
        VectorHead, Chunk, PlainPlan, SmallCopy;
      Sources(dest, src, len);
      ghost var b, p := Body(dest, len), Chunk(0, SmallHead(dest, len));
      var d, s, n := SmallHeadStep(style, dest, src, len);
      d, s, n := VectorHeadSteps(style, dest, src, len);
      p := Extend(style, dest, src, old(code), p, VectorHead(dest, len));
      d, s, n := LadderSteps(style, false, dest, src, d, s, n);
      p := Extend(style, dest, src, old(code), p, Ladder(HeadLen(dest, len), len - HeadLen(dest, len), false));
      d, s, n := VectorTailSteps(style, dest, src, d, s, n);
      p := Extend(style, dest, src, old(code), p, VectorTail(b, len - b));
      CpyLess16(d, s, n);
      SmallTailCode(style, dest, src, b, len - b);
      p := Extend(style, dest, src, old(code), p, SmallTail(b, len - b));
      PlainPieces(dest, len, b);
    }

    /// `cpy_load_store_flush`, `cpy_ntload_store_flush`
    method CpyStoreFlush(ld: Kind, dest: nat, src: nat, len: nat)
      requires Valid() && Compatible(dest, src, len)
      modifies this
      ensures Valid() && old(log) <= log
      ensures code == old(code) + Code(Vector(ld, Aligned), dest, src, FlushPlan(dest, len))
      ensures Forward(dest, src, len) ==> Copied(Vector(ld, Aligned), dest, src, len, old(cell), cell)
    {
      FlushRoutine(Vector(ld, Aligned), dest, src, len);
      PlansAreSound(dest, len, FlushPlan(dest, len));
      if Forward(dest, src, len) {
        RoutineDone(Vector(ld, Aligned), FlushPlan(dest, len), dest, src, len, boot, tid,
                    old(code), code, old(log), log, old(cell), cell);
      }
    }

    method FlushRoutine(style: Style, dest: nat, src: nat, len: nat)
      requires Valid() && style.Vector? && Compatible(dest, src, len)
      modifies this
      ensures Valid() && old(log) <= log
      ensures Did(style, dest, src, FlushPlan(dest, len), old(code))
    {
      hide Valid, Code, Compatible, SmallHead, HeadLen, Body, LadderLen, TailPtr, Ladder, VectorTail, SmallTail,
        VectorHead, Chunk, OnlyIf, FlushPlan, SmallCopy, LineOf;
      Sources(dest, src, len);
      ghost var b := Body(dest, len);
      ghost var p := FlushFront(dest, len);
      var d, s, n := FlushHead(style, dest, src, len);
      d, s, n := LadderSteps(style, true, dest, src, d, s, n);
      p := Extend(style, dest, src, old(code), p, Ladder(HeadLen(dest, len), len - HeadLen(dest, len), true));
      var needFlush := n != 0;
      d, s, n := VectorTailSteps(style, dest, src, d, s, n);
      p := Extend(style, dest, src, old(code), p, VectorTail(b, len - b));
      CpyLess16(d, s, n);
      SmallTailCode(style, dest, src, b, len - b);
      p := Extend(style, dest, src, old(code), p, SmallTail(b, len - b));
      if needFlush {
        Issue(Clwb(LineOf(d)));
      }
      WriteBackCode(style, dest, src, needFlush, d);
      p := Extend(style, dest, src, old(code), p, OnlyIf(needFlush, d));
      FlushPieces(dest, len, b);
    }

    method FlushHead(style: Style, dest: nat, src: nat, len: nat) returns (d: nat, s: nat, n: nat)
      requires Valid() && style.Vector? && Compatible(dest, src, len)
      modifies this
      ensures Valid() && old(log) <= log
      ensures d == dest + HeadLen(dest, len) && s == src + HeadLen(dest, len) && n == len - HeadLen(dest, len)
      ensures Did(style, dest, src, FlushFront(dest, len), old(code))
    {
      hide Valid, Code, Compatible, SmallHead, HeadLen, VectorHead, Chunk, OnlyIf, LineOf;
      ghost var p := Chunk(0, SmallHead(dest, len));
      var needFlush := dest % 64 != 0;
      var flushAddr := LineOf(dest);
      d, s, n := SmallHeadStep(style, dest, src, len);
      d, s, n := VectorHeadSteps(style, dest, src, len);
      p := Extend(style, dest, src, old(code), p, VectorHead(dest, len));
      if needFlush {
        Issue(Clwb(flushAddr));
      }
      WriteBackCode(style, dest, src, needFlush, dest);
      p := Extend(style, dest, src, old(code), p, OnlyIf(needFlush, dest));
    }

    /// `cpy_load_ntstore`, `cpy_ntload_ntstore`
    method CpyNtStore(ld: Kind, dest: nat, src: nat, len: nat)
      requires Valid() && Compatible(dest, src, len)
      modifies this
      ensures Valid() && old(log) <= log
      ensures code == old(code) + Code(Vector(ld, Streaming), dest, src, NtPlan(dest, len))
      ensures Forward(dest, src, len) ==> Copied(Vector(ld, Streaming), dest, src, len, old(cell), cell)
    {
      NtRoutine(Vector(ld, Streaming), dest, src, len);
      PlansAreSound(dest, len, NtPlan(dest, len));
      NtPlanDoesNotFlush(dest, len);
      if Forward(dest, src, len) {
        RoutineDone(Vector(ld, Streaming), NtPlan(dest, len), dest, src, len, boot, tid,
                    old(code), code, old(log), log, old(cell), cell);
      }
    }

    method NtRoutine(style: Style, dest: nat, src: nat, len: nat)
      requires Valid() && style.Vector? && Compatible(dest, src, len)
      modifies this
      ensures Valid() && old(log) <= log
      ensures Did(style, dest, src, NtPlan(dest, len), old(code))
    {
      hide Valid, Code, Compatible, SmallHead, HeadLen, Body, LadderLen, TailPtr, Ladder, VectorTail, SmallTail,
        VectorHead, Chunk, OnlyIf, NtPlan, SmallCopy, LineOf;
      Sources(dest, src, len);
      ghost var b := Body(dest, len);
      ghost var p := NtFront(dest, len);
      var d, s, n := NtHead(style, dest, src, len);
      d, s, n := LadderSteps(style, false, dest, src, d, s, n);
      p := Extend(style, dest, src, old(code), p, Ladder(HeadLen(dest, len), len - HeadLen(dest, len), false));
      d, s, n := VectorTailSteps(style, dest, src, d, s, n);
      p := Extend(style, dest, src, old(code), p, VectorTail(b, len - b));
      CpyLess16(d, s, n);
      SmallTailCode(style, dest, src, b, len - b);
      p := Extend(style, dest, src, old(code), p, SmallTail(b, len - b));
      Issue(Clwb(LineOf(d)));
      WriteBackCode(style, dest, src, true, d);
      p := Extend(style, dest, src, old(code), p, OnlyIf(true, d));
      NtPieces(dest, len, b);
    }

    method NtHead(style: Style, dest: nat, src: nat, len: nat) returns (d: nat, s: nat, n: nat)
      requires Valid() && style.Vector? && Compatible(dest, src, len)
      modifies this
      ensures Valid() && old(log) <= log
      ensures d == dest + HeadLen(dest, len) && s == src + HeadLen(dest, len) && n == len - HeadLen(dest, len)
      ensures Did(style, dest, src, NtFront(dest, len), old(code))
    {
      hide Valid, Code, Compatible, SmallHead, HeadLen, VectorHead, Chunk, OnlyIf, LineOf;
      ghost var p := Chunk(0, SmallHead(dest, len));
      d, s, n := SmallHeadStep(style, dest, src, len);
      if dest % 16 > 0 {
        Issue(Clwb(LineOf(dest)));
      }
      WriteBackCode(style, dest, src, dest % 16 != 0, dest);
      p := Extend(style, dest, src, old(code), p, OnlyIf(dest % 16 != 0, dest));
      d, s, n := VectorHeadSteps(style, dest, src, len);
      p := Extend(style, dest, src, old(code), p, VectorHead(dest, len));
    }

    /// The C library's `memcpy` and `memset`.
    method MoveChunk(style: Style, dest: nat, src: nat, n: nat)
      requires Valid() && !style.Vector?
      requires style.Native? ==> Disjoint(dest, src, n)
      modifies this
      ensures Valid() && old(log) <= log
      ensures code == old(code) + if n == 0 then [] else ChunkCode(style, dest, src, n, false)
    {
      hide Valid;
      if n > 0 {
        match style {
          case Native =>
            LoadReg(0, src, n, Scalar);
            Issue(Store(0, dest, n, Scalar));
          case Set(value) =>
            Issue(Fill(dest, n, value));
        }
      }
    }

    /// `cpy_native_noflush`, `memset_native_noflush`
    method NativeNoflush(style: Style, dest: nat, src: nat, len: nat)
      requires Valid() && !style.Vector?
      requires style.Native? ==> Disjoint(dest, src, len)
      modifies this
      ensures Valid() && old(log) <= log
      ensures code == old(code) + Code(style, dest, src, Chunk(0, len))
      ensures Copied(style, dest, src, len, old(cell), cell)
    {
      hide Code, ChunkCode, Contiguous, AllSuit;
      MoveChunk(style, dest, src, len);
      ChunkIsCode(style, dest, src, 0, len);
      OneChunkIsGood(style, dest, len);
      RoutineDone(style, Chunk(0, len), dest, src, len, boot, tid,
                  old(code), code, old(log), log, old(cell), cell);
    }

    /// `cpy_native_flush`, `memset_native_flush`
    method NativeFlush(style: Style, dest: nat, src: nat, len: nat)
      requires Valid() && !style.Vector?
      requires style.Native? ==> LinesDisjoint(dest, src, len)
      modifies this
      ensures Valid() && old(log) <= log
      ensures code == old(code) + Code(style, dest, src, NativePlan(dest, len))
      ensures style.Set? || Forward(dest, src, len) ==> Copied(style, dest, src, len, old(cell), cell)
    {
      NativeRoutine(style, dest, src, len);
      NativePlanIsGood(dest, len);
      if style.Set? || Forward(dest, src, len) {
        RoutineDone(style, NativePlan(dest, len), dest, src, len, boot, tid,
                    old(code), code, old(log), log, old(cell), cell);
      }
    }

    method NativeRoutine(style: Style, dest: nat, src: nat, len: nat)
      requires Valid() && !style.Vector?
      requires style.Native? ==> LinesDisjoint(dest, src, len)
      modifies this
      ensures Valid() && old(log) <= log
      ensures Did(style, dest, src, NativePlan(dest, len), old(code))
    {
      hide Valid, Code, ChunkCode, Chunk, NativeLines, LineOf, OnlyIf;
      ghost var p := Chunk(0, NativeHead(dest, len));
      var d, s, n := dest, src, len;
      var cnt := d % 64;
      if cnt > 0 {
        cnt := 64 - cnt;
        if cnt > n {
          cnt := n;
        }
        MoveChunk(style, d, s, cnt);
        Issue(Clwb(LineOf(d)));
        d, s, n := d + cnt, s + cnt, n - cnt;
      }
      ChunkIsCode(style, dest, src, 0, NativeHead(dest, len));
      WriteBackCode(style, dest, src, dest % 64 != 0, dest);
      p := Extend(style, dest, src, old(code), p, OnlyIf(dest % 64 != 0, dest));
      ghost var c := NativeHead(dest, len);
      assert n > 0 ==> d % 64 == 0 by { NativeHeadAligns(dest, len); }
      NativeLoop(style, dest, src, d, s, n);
      p := Extend(style, dest, src, old(code), p, NativeLines(dest, c, len - c));
    }

    method NativeLoop(style: Style, ghost dest: nat, ghost src: nat, d0: nat, s0: nat, len: nat)
      requires Valid() && !style.Vector?
      requires dest <= d0 && src <= s0 && d0 - dest == s0 - src
      requires len > 0 ==> d0 % 64 == 0
      requires style.Native? ==> LinesDisjoint(d0, s0, len)
      modifies this
      ensures Valid() && old(log) <= log
      ensures Did(style, dest, src, NativeLines(dest, d0 - dest, len), old(code))
    {
      hide Valid, Code, ChunkCode, NativeLines;
      var d, s, n := d0, s0, len;
      ghost var goal := old(code) + Code(style, dest, src, NativeLines(dest, d0 - dest, len));
      while n >= 64
        invariant Valid() && old(log) <= log
        invariant 0 <= n <= len && d == d0 + (len - n) && s == s0 + (len - n)
        invariant n > 0 ==> d % 64 == 0
        invariant style.Native? ==> LinesDisjoint(d, s, n)
        invariant code + Code(style, dest, src, NativeLines(dest, d - dest, n)) == goal
      {
        NativeLine(style, dest, src, d, s, n, 64);
        d, s, n := d + 64, s + 64, n - 64;
      }
      if n == 0 {
        NoNativeLines(style, dest, src, d - dest);
        assert code + [] == code;
        return;
      }
      NativeLine(style, dest, src, d, s, n, n);
      NoNativeLines(style, dest, src, d - dest + n);
      assert code + [] == code;
    }

    method NativeLine(style: Style, ghost dest: nat, ghost src: nat, d: nat, s: nat, n: nat, size: nat)
      requires Valid() && !style.Vector? && d % 64 == 0
      requires dest <= d && src <= s && d - dest == s - src && 0 < size <= n && size == Min(64, n)
      requires style.Native? ==> LinesDisjoint(d, s, n)
      modifies this
      ensures Valid() && old(log) <= log
      ensures code + Code(style, dest, src, NativeLines(dest, d - dest + size, n - size)) ==
              old(code) + Code(style, dest, src, NativeLines(dest, d - dest, n))
      ensures (d + 64) % 64 == 0
    {
      hide Valid, Code, ChunkCode, NativeLines;
      ghost var rest := Code(style, dest, src, NativeLines(dest, d - dest + size, n - size));
      ghost var chunk := ChunkCode(style, d, s, size, false);
      NativeLineCode(style, dest, src, d - dest, n, size);
      ghost var before := code;
      MoveChunk(style, d, s, size);
      Issue(Clwb(d));
      assert before + chunk + [Clwb(d)] + rest == before + (chunk + [Clwb(d)] + rest);
    }
  }

  /// Two plans in a row are the plan put together.
  lemma Extend(style: Style, dest: nat, src: nat, before: seq<Instr>, p: Plan, q: Plan) returns (r: Plan)
    ensures r == p + q
    ensures before + Code(style, dest, src, r) == before + Code(style, dest, src, p) + Code(style, dest, src, q)
  {
    r := p + q;
    CodeConcat(style, dest, src, p, q);
  }

  lemma PlainPieces(dest: nat, len: nat, b: nat)
    requires b == Body(dest, len) <= len && len - b < 64 && HeadLen(dest, len) <= len
    ensures PlainPlan(dest, len) ==
            Chunk(0, SmallHead(dest, len)) + VectorHead(dest, len)
            + Ladder(HeadLen(dest, len), len - HeadLen(dest, len), false)
            + VectorTail(b, len - b) + SmallTail(b, len - b)
  {
    hide SmallHead, HeadLen, Body, Ladder, VectorTail, SmallTail, VectorHead, Chunk;
  }

  function FlushFront(dest: nat, len: nat): Plan {
    Chunk(0, SmallHead(dest, len)) + VectorHead(dest, len) + OnlyIf(dest % 64 != 0, dest)
  }

  lemma FlushPieces(dest: nat, len: nat, b: nat)
    requires b == Body(dest, len) <= len && len - b < 64 && HeadLen(dest, len) <= len
    ensures FlushPlan(dest, len) ==
            FlushFront(dest, len) + Ladder(HeadLen(dest, len), len - HeadLen(dest, len), true)
            + VectorTail(b, len - b) + SmallTail(b, len - b)
            + OnlyIf(len != b, dest + b + TailPtr(len - b))
  {
    hide SmallHead, HeadLen, Body, Ladder, VectorTail, SmallTail, VectorHead, Chunk, OnlyIf;
  }

  function NtFront(dest: nat, len: nat): Plan {
    Chunk(0, SmallHead(dest, len)) + OnlyIf(dest % 16 != 0, dest) + VectorHead(dest, len)
  }

  lemma NtPieces(dest: nat, len: nat, b: nat)
    requires b == Body(dest, len) <= len && len - b < 64 && HeadLen(dest, len) <= len
    ensures NtPlan(dest, len) ==
            NtFront(dest, len) + Ladder(HeadLen(dest, len), len - HeadLen(dest, len), false)
            + VectorTail(b, len - b) + SmallTail(b, len - b)
            + OnlyIf(true, dest + b + TailPtr(len - b))
  {
    hide SmallHead, HeadLen, Body, Ladder, VectorTail, SmallTail, VectorHead, Chunk;
  }

  lemma OneChunkIsGood(style: Style, dest: nat, len: nat)
    requires !style.Vector?
    ensures Contiguous(Chunk(0, len), 0, len) && AllSuit(style, dest, Chunk(0, len))
  {
  }

  lemma NativeLineCode(style: Style, dest: nat, src: nat, off: nat, n: nat, size: nat)
    requires 0 < size <= n && size == Min(64, n) && (dest + off) % 64 == 0
    ensures Code(style, dest, src, NativeLines(dest, off, n)) ==
            ChunkCode(style, dest + off, src + off, size, false) + [Clwb(dest + off)]
            + Code(style, dest, src, NativeLines(dest, off + size, n - size))
  {
    hide ChunkCode;
    var p, q := [Copy(off, size, false), WriteBack(dest + off)], NativeLines(dest, off + size, n - size);
    assert NativeLines(dest, off, n) == p + q by {
      if n < 64 {
        assert q == [];
      }
    }
    CodeConcat(style, dest, src, p, q);
    assert p[1..] == [p[1]] && p[1..][1..] == [];
    assert Code(style, dest, src, [p[1]]) == [Clwb(dest + off)];
  }

  lemma NoNativeLines(style: Style, dest: nat, src: nat, off: nat)
    ensures Code(style, dest, src, NativeLines(dest, off, 0)) == []
  {
  }

  /// The source clears the low bits of the address first, or not; the line is the same.
  lemma WriteBackCode(style: Style, dest: nat, src: nat, cond: bool, addr: nat)
    ensures Code(style, dest, src, OnlyIf(cond, addr)) == if cond then [Clwb(LineOf(addr))] else []
  {
    if cond {
      assert OnlyIf(cond, addr)[1..] == [];
    }
  }

  lemma SmallTailCode(style: Style, dest: nat, src: nat, b: nat, r: nat)
    requires style.Vector? && r < 64
    ensures Code(style, dest, src, SmallTail(b, r)) ==
            SmallCopy(dest + b + TailPtr(r), src + b + TailPtr(r), r - TailPtr(r))
  {
    ChunkIsCode(style, dest, src, b + TailPtr(r), r - TailPtr(r));
  }

  lemma ChunkIsCode(style: Style, dest: nat, src: nat, off: nat, n: nat)
    ensures Code(style, dest, src, Chunk(off, n)) ==
            if n == 0 then [] else ChunkCode(style, dest + off, src + off, n, false)
  {
    if n > 0 {
      var p := Chunk(off, n);
      assert p[1..] == [];
      assert Code(style, dest, src, p) == ActCode(style, dest, src, p[0]) + [];
    }
  }

  lemma LineMultiples(dest: nat, i: nat)
    requires dest % 64 == 0
    ensures (dest + 64 * i) % 32 == 0 && (dest + 64 * i + 32) % 32 == 0
  {
  }

  lemma SpanCode(style: Style, dest: nat, src: nat, lo: nat, hi: nat)
    requires lo % 64 == 0
    ensures Code(style, dest, src, WriteBacks(Span(lo, hi))) ==
            if lo >= hi then [] else [Clwb(lo)] + Code(style, dest, src, WriteBacks(Span(lo + 64, hi)))
  {
    if lo < hi {
      assert Span(lo, hi)[1..] == Span(lo + 64, hi);
      assert WriteBacks(Span(lo, hi))[1..] == WriteBacks(Span(lo + 64, hi));
      assert LineOf(lo) == lo;
    }
  }

  lemma LadderCode(style: Style, dest: nat, src: nat, off: nat, n: nat, flush: bool)
    requires n >= 64
    ensures Code(style, dest, src, Ladder(off, n, flush)) ==
            ChunkCode(style, dest + off, src + off, Rung(n), flush)
            + Code(style, dest, src, Ladder(off + Rung(n), n - Rung(n), flush))
  {
    var p := Ladder(off, n, flush);
    assert p[1..] == Ladder(off + Rung(n), n - Rung(n), flush);
  }

  lemma AfterRung(d: nat, s: nat, n: nat, size: nat)
    requires size in {64, 128, 256, 512} && size <= n && d % 64 == 0 && s % 32 == 0
    ensures (d + size) % 64 == 0 && (s + size) % 32 == 0
    ensures LadderLen(n) == size + LadderLen(n - size)
  {
    RemainderIs(d + size, 64, d / 64 + size / 64, 0);
    RemainderIs(s + size, 32, s / 32 + size / 32, 0);
    RemainderIs(n - size, 64, n / 64 - size / 64, n % 64);
  }

  lemma NoLadder(style: Style, dest: nat, src: nat, off: nat, n: nat, flush: bool)
    requires n < 64
    ensures Code(style, dest, src, Ladder(off, n, flush)) == [] && LadderLen(n) == 0
  {
  }

  /// What the kernels demand of their operands holds where the routines call them.
  lemma Sources(dest: nat, src: nat, len: nat)
    requires Compatible(dest, src, len)
    ensures var h := HeadLen(dest, len);
            h <= len && (len - h >= 64 ==> (dest + h) % 64 == 0 && (src + h) % 32 == 0)
    ensures var b := Body(dest, len);
            && b == HeadLen(dest, len) + LadderLen(len - HeadLen(dest, len)) && len - b < 64
            && (len - b >= 16 ==> (dest + b) % 16 == 0 && (src + b) % 16 == 0)
            && (len - b >= 32 ==> (dest + b) % 32 == 0 && (src + b) % 32 == 0)
  {
    var h, b := HeadLen(dest, len), Body(dest, len);
    Leftover(dest, len);
    if len - h >= 64 {
      MultipleOf64(dest + h);
      Source32(dest, src, len, h);
    }
    if len - b >= 16 {
      Source16(dest, src, len, b);
    }
    if len - b >= 32 {
      Source32(dest, src, len, b);
    }
  }
}
