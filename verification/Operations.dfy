/// The operations of `bgtest/AEP/aep_study.h` on a machine
/// =======================================================
///
/// Each wrapper stores, has the lines written back by its strategy, and fences.  Afterwards the
/// destination holds what the copy or fill promises, nothing else has changed, and every byte of
/// the destination is on the media.

module Operations {
  import opened PersistentMemory
  import opened WordArithmetic
  import opened Instructions
  import opened CopyPlans
  import opened CopyCode
  import opened CopyMeaning
  import opened CopyLegality
  import opened PersistentCopies
  import opened CopyRuns
  import opened Machines

  lemma ValidMachine(m: Machine)
    requires m.Valid()
    ensures Executed(m.boot, m.tid, m.code, m.log) && IsMemory(m.boot, m.log, m.cell)
  {
  }

  /// The fence that ends an operation, which began when the machine had executed `before`.
  method Fence(m: Machine, ghost op: Operation, ghost dest: nat, ghost src: nat, ghost len: nat,
               ghost before: seq<Instr>, ghost log: seq<Event>, ghost memory: nat -> Cell)
    requires m.Valid() && log <= m.log
    requires Executed(m.boot, m.tid, before, log) && IsMemory(m.boot, log, memory)
    requires m.code == before + Code(StyleOf(op), dest, src, PlanOf(op, dest, len))
    modifies m
    ensures m.Valid() && log <= m.log
    ensures m.code == before + OpCode(op, dest, src, len)
    ensures Callable(op, dest, src, len) ==>
              Copied(StyleOf(op), dest, src, len, memory, m.cell) && Persisted(dest, len, m.cell)
  {
    hide Executed, IsMemory, Code, PlanOf, StyleOf, Callable, m.Valid;
    m.Issue(Sfence);
    ValidMachine(m);
    if Callable(op, dest, src, len) {
      OperationDone(op, dest, src, len, m.boot, m.tid, before, m.code, log, m.log, memory, m.cell);
    }
  }

  /// `aep_store_from_dram_flush_by_all`, `aep_cpy_load_store_by_all`, `aep_cpy_ntload_store_by_all`
  method VectorByAll(m: Machine, ld: Kind, dest: nat, src: nat, len: nat)
    requires m.Valid() && Compatible(dest, src, len) && dest + len <= WORD - 64
    modifies m
    ensures m.Valid() && old(m.log) <= m.log
    ensures m.code == old(m.code) + OpCode(VectorCopy(ld, ByAll), dest, src, len)
    ensures Forward(dest, src, len) ==>
              Copied(Vector(ld, Aligned), dest, src, len, old(m.cell), m.cell) && Persisted(dest, len, m.cell)
  {
    hide Executed, IsMemory, Code, Compatible, m.Valid, PlainPlan, ExtentPlan, WriteBacks, Span, LineOf, AddWord;
    ValidMachine(m);
    m.CpyStoreNoflush(ld, dest, src, len);
    m.ClwbExtent(Vector(ld, Aligned), dest, len, src);
    CodeConcat(Vector(ld, Aligned), dest, src, PlainPlan(dest, len), ExtentPlan(dest, len));
    Fence(m, VectorCopy(ld, ByAll), dest, src, len, old(m.code), old(m.log), old(m.cell));
  }

  /// `aep_store_from_dram_flush_by_cacheline`, `aep_cpy_load_store_by_cacheline`,
  /// `aep_cpy_ntload_store_by_cacheline`
  method VectorByCacheline(m: Machine, ld: Kind, dest: nat, src: nat, len: nat)
    requires m.Valid() && Compatible(dest, src, len)
    modifies m
    ensures m.Valid() && old(m.log) <= m.log
    ensures m.code == old(m.code) + OpCode(VectorCopy(ld, ByCacheline), dest, src, len)
    ensures Forward(dest, src, len) ==>
              Copied(Vector(ld, Aligned), dest, src, len, old(m.cell), m.cell) && Persisted(dest, len, m.cell)
  {
    hide Executed, IsMemory, Code, Compatible, m.Valid;
    ValidMachine(m);
    m.CpyStoreFlush(ld, dest, src, len);
    Fence(m, VectorCopy(ld, ByCacheline), dest, src, len, old(m.code), old(m.log), old(m.cell));
  }

  /// `aep_ntstore_from_dram`, `aep_cpy_load_ntstore`, `aep_cpy_ntload_ntstore`
  method VectorNtStore(m: Machine, ld: Kind, dest: nat, src: nat, len: nat)
    requires m.Valid() && Compatible(dest, src, len)
    modifies m
    ensures m.Valid() && old(m.log) <= m.log
    ensures m.code == old(m.code) + OpCode(VectorCopy(ld, NtStores), dest, src, len)
    ensures Forward(dest, src, len) ==>
              Copied(Vector(ld, Streaming), dest, src, len, old(m.cell), m.cell) && Persisted(dest, len, m.cell)
  {
    hide Executed, IsMemory, Code, Compatible, m.Valid;
    ValidMachine(m);
    m.CpyNtStore(ld, dest, src, len);
    Fence(m, VectorCopy(ld, NtStores), dest, src, len, old(m.code), old(m.log), old(m.cell));
  }

  /// `aep_native_cpy_dram_by_all`, `aep_cpy_native_by_all`
  method NativeByAll(m: Machine, dest: nat, src: nat, len: nat)
    requires m.Valid() && dest + len <= WORD - 64
    requires Disjoint(dest, src, len)
    modifies m
    ensures m.Valid() && old(m.log) <= m.log
    ensures m.code == old(m.code) + OpCode(NativeCopy(false), dest, src, len)
    ensures Copied(Native, dest, src, len, old(m.cell), m.cell) && Persisted(dest, len, m.cell)
  {
    hide Executed, IsMemory, Code, Compatible, m.Valid;
    ValidMachine(m);
    m.NativeNoflush(Native, dest, src, len);
    m.ClwbExtent(Native, dest, len, src);
    CodeConcat(Native, dest, src, Chunk(0, len), ExtentPlan(dest, len));
    Fence(m, NativeCopy(false), dest, src, len, old(m.code), old(m.log), old(m.cell));
  }

  /// `aep_native_cpy_dram_by_cacheline`, `aep_cpy_native_by_cacheline`
  method NativeByCacheline(m: Machine, dest: nat, src: nat, len: nat)
    requires m.Valid()
    requires LinesDisjoint(dest, src, len)
    modifies m
    ensures m.Valid() && old(m.log) <= m.log
    ensures m.code == old(m.code) + OpCode(NativeCopy(true), dest, src, len)
    ensures Forward(dest, src, len) ==>
              Copied(Native, dest, src, len, old(m.cell), m.cell) && Persisted(dest, len, m.cell)
  {
    hide Executed, IsMemory, Code, Compatible, m.Valid;
    ValidMachine(m);
    m.NativeFlush(Native, dest, src, len);
    Fence(m, NativeCopy(true), dest, src, len, old(m.code), old(m.log), old(m.cell));
  }

  /// `aep_memset_native_by_all`
  method MemsetByAll(m: Machine, dest: nat, value: byte, len: nat)
    requires m.Valid() && dest + len <= WORD - 64
    modifies m
    ensures m.Valid() && old(m.log) <= m.log
    ensures m.code == old(m.code) + OpCode(Memset(value, false), dest, dest, len)
    ensures Copied(Set(value), dest, dest, len, old(m.cell), m.cell) && Persisted(dest, len, m.cell)
  {
    hide Executed, IsMemory, Code, Compatible, m.Valid;
    ValidMachine(m);
    m.NativeNoflush(Set(value), dest, dest, len);
    m.ClwbExtent(Set(value), dest, len, dest);
    CodeConcat(Set(value), dest, dest, Chunk(0, len), ExtentPlan(dest, len));
    Fence(m, Memset(value, false), dest, dest, len, old(m.code), old(m.log), old(m.cell));
  }

  /// `aep_memset_native_by_cacheline`
  method MemsetByCacheline(m: Machine, dest: nat, value: byte, len: nat)
    requires m.Valid()
    modifies m
    ensures m.Valid() && old(m.log) <= m.log
    ensures m.code == old(m.code) + OpCode(Memset(value, true), dest, dest, len)
    ensures Copied(Set(value), dest, dest, len, old(m.cell), m.cell) && Persisted(dest, len, m.cell)
  {
    hide Executed, IsMemory, Code, Compatible, m.Valid;
    ValidMachine(m);
    m.NativeFlush(Set(value), dest, dest, len);
    Fence(m, Memset(value, true), dest, dest, len, old(m.code), old(m.log), old(m.cell));
  }

  /// What the code of an operation demands of its arguments: aligned vector accesses, disjoint ranges
  /// for `memcpy`, and for `clwb_extent` a range that stops short of the end of the address space.
  predicate Runnable(op: Operation, dest: nat, src: nat, len: nat) {
    match op
    case VectorCopy(_, strategy) => Compatible(dest, src, len) && (strategy.ByAll? ==> dest + len <= WORD - 64)
    case NativeCopy(byCacheline) =>
      if byCacheline then LinesDisjoint(dest, src, len) else Disjoint(dest, src, len) && dest + len <= WORD - 64
    case Memset(_, byCacheline) => src == dest && (!byCacheline ==> dest + len <= WORD - 64)
  }

  /// Calls the operation through the table of functions.
  method Perform(m: Machine, op: Operation, dest: nat, src: nat, len: nat)
    requires m.Valid() && Runnable(op, dest, src, len)
    modifies m
    ensures m.Valid() && old(m.log) <= m.log
    ensures m.code == old(m.code) + OpCode(op, dest, src, len)
    ensures Callable(op, dest, src, len) ==>
              Copied(StyleOf(op), dest, src, len, old(m.cell), m.cell) && Persisted(dest, len, m.cell)
  {
    hide m.Valid, OpCode, Copied, Persisted, Compatible;
    match op {
      case VectorCopy(ld, strategy) =>
        match strategy {
          case ByAll => VectorByAll(m, ld, dest, src, len);
          case ByCacheline => VectorByCacheline(m, ld, dest, src, len);
          case NtStores => VectorNtStore(m, ld, dest, src, len);
        }
      case NativeCopy(byCacheline) =>
        if byCacheline {
          NativeByCacheline(m, dest, src, len);
        } else {
          NativeByAll(m, dest, src, len);
        }
      case Memset(value, byCacheline) =>
        if byCacheline {
          MemsetByCacheline(m, dest, value, len);
        } else {
          MemsetByAll(m, dest, value, len);
        }
    }
  }
}
