/// Before a job
/// ============
///
/// `PrepareJob` of `bgtest/AEP/aep_study.cc`: what a thread loads before its first operation.  Its own
/// part of the device is among that, and in a small configuration also parts that other threads are
/// already storing to; it never uses what it has loaded.

module Preparation {
  import opened WordArithmetic
  import opened Instructions
  import opened CopyPlans
  import opened WriteBackPlans
  import opened CopyCode
  import opened Concurrency
  import opened Machines
  import opened BenchmarkConfig
  import JustAccess

  const SMALL_BUFFER: nat := 64 * 1024 * 1024

  /// `_just_ntload` of two megabytes
  function TailReads(addr: nat): seq<Instr> {
    JustAccess.AccessCode(JustAccess.Loading(Streaming), addr, PlainPlan(addr, AEP_TAIL_READ_SIZE))
  }

  /// The first `n` 64-bit words from `addr` on, upwards and downwards.
  function WordsUp(addr: nat, n: nat): seq<Instr> {
    if n == 0 then [] else WordsUp(addr, n - 1) + [Load(0, addr + 8 * (n - 1), 8, Scalar)]
  }

  function WordsDown(addr: nat, n: nat): seq<Instr> {
    if n == 0 then [] else [Load(0, addr + 8 * (n - 1), 8, Scalar)] + WordsDown(addr, n - 1)
  }

  function BlockReads(buf: nat, bufSize: nat, memCpyBuf: nat, accessSize: nat, idxBlock: nat): seq<Instr> {
    WordsUp(memCpyBuf, accessSize / 8) + WordsDown(idxBlock, MAX_IDX_SIZE / 2 + 1)
    + if bufSize <= SMALL_BUFFER then WordsUp(buf, bufSize / 8) else []
  }

  function PrepareCode(buf: nat, bufSize: nat, memCpyBuf: nat, accessSize: nat, idxBlock: nat): seq<Instr> {
    TailReads(buf) + TailReads(buf + HALF) + BlockReads(buf, bufSize, memCpyBuf, accessSize, idxBlock)
  }

  /// Only loads, and none of them faults
  /// -----------------------------------

  lemma {:induction false} WordsAreLoads(addr: nat, n: nat)
    ensures OnlyLoads(WordsUp(addr, n)) && AllLegal(WordsUp(addr, n))
    ensures OnlyLoads(WordsDown(addr, n)) && AllLegal(WordsDown(addr, n))
  {
    if n > 0 {
      WordsAreLoads(addr, n - 1);
    }
  }

  lemma {:induction false} LoadWordsAreLoads(ld: Kind, addr: nat, k: nat)
    ensures OnlyLoads(LoadWords(ld, addr, k))
  {
    if k > 0 {
      LoadWordsAreLoads(ld, addr, k - 1);
    }
  }

  lemma ChunkIsLoads(ld: Kind, addr: nat, act: Action)
    requires act.Copy?
    ensures OnlyLoads(JustAccess.ActAccess(JustAccess.Loading(ld), addr, act))
  {
    hide LoadWords;
    LoadWordsAreLoads(ld, addr + act.off, act.n / 32);
  }

  lemma {:induction false} AccessesAreLoads(ld: Kind, addr: nat, plan: Plan)
    requires forall act | act in plan :: act.Copy?
    ensures OnlyLoads(JustAccess.AccessCode(JustAccess.Loading(ld), addr, plan))
  {
    hide JustAccess.ActAccess;
    if plan != [] {
      assert plan[0] in plan && forall x | x in plan[1..] :: x in plan;
      ChunkIsLoads(ld, addr, plan[0]);
      AccessesAreLoads(ld, addr, plan[1..]);
    }
  }

  lemma TailReadsAreLoads(addr: nat)
    ensures OnlyLoads(TailReads(addr)) && AllLegal(TailReads(addr))
  {
    hide PlainPlan, OnlyLoads, AllLegal;
    PlainPlanOnlyCopies(addr, AEP_TAIL_READ_SIZE);
    AccessesAreLoads(Streaming, addr, PlainPlan(addr, AEP_TAIL_READ_SIZE));
    JustAccess.AlwaysLegal(JustAccess.Loading(Streaming), JustAccess.Plain, addr, AEP_TAIL_READ_SIZE);
  }

  lemma PrepareLoads(buf: nat, bufSize: nat, memCpyBuf: nat, accessSize: nat, idxBlock: nat)
    ensures OnlyLoads(PrepareCode(buf, bufSize, memCpyBuf, accessSize, idxBlock))
    ensures AllLegal(PrepareCode(buf, bufSize, memCpyBuf, accessSize, idxBlock))
  {
    hide TailReads, WordsUp, WordsDown, Legal;
    TailReadsAreLoads(buf);
    TailReadsAreLoads(buf + HALF);
    WordsAreLoads(memCpyBuf, accessSize / 8);
    WordsAreLoads(idxBlock, MAX_IDX_SIZE / 2 + 1);
    WordsAreLoads(buf, bufSize / 8);
  }

  /// Which bytes are read
  /// --------------------

  ghost predicate Reads(code: seq<Instr>, a: nat) {
    exists i :: i in code && Loads(i, a)
  }

  /// The code reads the bytes from `lo` up to `hi` and no others.
  ghost predicate ReadsJust(code: seq<Instr>, lo: nat, hi: nat) {
    forall a: nat :: Reads(code, a) <==> Within(a, lo, hi)
  }

  lemma ReadsConcat(p: seq<Instr>, q: seq<Instr>, a: nat)
    ensures Reads(p + q, a) <==> Reads(p, a) || Reads(q, a)
  {
    if i :| i in p && Loads(i, a) {
      assert i in p + q;
    }
    if i :| i in q && Loads(i, a) {
      assert i in p + q;
    }
  }

  /// The words are read one by one, upwards or downwards.
  lemma {:induction false} WordsInOrder(addr: nat, n: nat, k: nat)
    requires k < n
    ensures |WordsUp(addr, n)| == |WordsDown(addr, n)| == n
    ensures WordsUp(addr, n)[k] == Load(0, addr + 8 * k, 8, Scalar)
    ensures WordsDown(addr, n)[k] == Load(0, addr + 8 * (n - 1 - k), 8, Scalar)
  {
    WordsCount(addr, n);
    WordsCount(addr, n - 1);
    if k < n - 1 {
      WordsInOrder(addr, n - 1, k);
    }
    if k > 0 {
      WordsInOrder(addr, n - 1, k - 1);
    }
  }

  lemma {:induction false} WordsCount(addr: nat, n: nat)
    ensures |WordsUp(addr, n)| == |WordsDown(addr, n)| == n
  {
    if n > 0 {
      WordsCount(addr, n - 1);
    }
  }

  lemma WordsFootprint(addr: nat, n: nat, a: nat)
    ensures Reads(WordsUp(addr, n), a) <==> Within(a, addr, addr + 8 * n)
    ensures Reads(WordsDown(addr, n), a) <==> Within(a, addr, addr + 8 * n)
  {
    hide WordsUp, WordsDown;
    var up, down := WordsUp(addr, n), WordsDown(addr, n);
    WordsCount(addr, n);
    if Within(a, addr, addr + 8 * n) {
      var k := (a - addr) / 8;
      WordsInOrder(addr, n, k);
      WordsInOrder(addr, n, n - 1 - k);
      assert up[k] in up && down[n - 1 - k] in down;
    }
    if i :| i in up && Loads(i, a) {
      var k: nat :| k < |up| && up[k] == i;
      WordsInOrder(addr, n, k);
    }
    if i :| i in down && Loads(i, a) {
      var k: nat :| k < |down| && down[k] == i;
      WordsInOrder(addr, n, k);
    }
  }

  lemma WordsReadJust(addr: nat, n: nat)
    ensures ReadsJust(WordsUp(addr, n), addr, addr + 8 * n) && ReadsJust(WordsDown(addr, n), addr, addr + 8 * n)
  {
    hide WordsUp, WordsDown, Reads;
    forall a: nat
      ensures Reads(WordsUp(addr, n), a) <==> Within(a, addr, addr + 8 * n)
      ensures Reads(WordsDown(addr, n), a) <==> Within(a, addr, addr + 8 * n)
    {
      WordsFootprint(addr, n, a);
    }
  }

  lemma TailReadsJust(addr: nat)
    ensures ReadsJust(TailReads(addr), addr, addr + 0x20_0000)
  {
    hide PlainPlan, JustAccess.AccessCode;
    var load := JustAccess.Loading(Streaming);
    forall a: nat ensures Reads(TailReads(addr), a) <==> Within(a, addr, addr + 0x20_0000) {
      JustAccess.FootprintIsExact(load, JustAccess.Plain, addr, AEP_TAIL_READ_SIZE, a);
      var code := JustAccess.AccessCode(load, addr, PlainPlan(addr, AEP_TAIL_READ_SIZE));
      assert forall i | i in code && Loads(i, a) :: JustAccess.Touches(load, i, a);
      assert forall i | i in code && JustAccess.Touches(load, i, a) :: Loads(i, a);
    }
  }

  lemma NothingRead(lo: nat)
    ensures ReadsJust([], lo, lo)
  {
  }

  /// The preparation reads, one after the other, two megabytes at the start of the thread's buffer, two megabytes
  /// half a device above, the whole words of the DRAM block, the index array and one word more, and, when it is
  /// small, the whole words of the buffer.
  lemma PrepareInSteps(buf: nat, bufSize: nat, memCpyBuf: nat, accessSize: nat, idxBlock: nat)
    returns (low: seq<Instr>, high: seq<Instr>, block: seq<Instr>, idx: seq<Instr>, rest: seq<Instr>)
    ensures PrepareCode(buf, bufSize, memCpyBuf, accessSize, idxBlock) == low + high + block + idx + rest
    ensures ReadsJust(low, buf, buf + 0x20_0000)
    ensures ReadsJust(high, buf + 0x8_0000_0000, buf + 0x8_0000_0000 + 0x20_0000)
    ensures ReadsJust(block, memCpyBuf, memCpyBuf + accessSize / 8 * 8)
    ensures ReadsJust(idx, idxBlock, idxBlock + 10485760 * 4 + 8)
    ensures ReadsJust(rest, buf, buf + if bufSize <= 64 * 1024 * 1024 then bufSize / 8 * 8 else 0)
  {
    hide TailReads, WordsUp, WordsDown, ReadsJust;
    low, high, block := TailReads(buf), TailReads(buf + HALF), WordsUp(memCpyBuf, accessSize / 8);
    idx := WordsDown(idxBlock, MAX_IDX_SIZE / 2 + 1);
    rest := if bufSize <= SMALL_BUFFER then WordsUp(buf, bufSize / 8) else [];
    assert low + high + (block + idx + rest) == low + high + block + idx + rest;
    TailReadsJust(buf);
    TailReadsJust(buf + HALF);
    WordsReadJust(memCpyBuf, accessSize / 8);
    WordsReadJust(idxBlock, MAX_IDX_SIZE / 2 + 1);
    WordsReadJust(buf, bufSize / 8);
    NothingRead(buf);
  }

  lemma PrepareFootprint(buf: nat, bufSize: nat, memCpyBuf: nat, accessSize: nat, idxBlock: nat, a: nat)
    ensures Reads(PrepareCode(buf, bufSize, memCpyBuf, accessSize, idxBlock), a) <==>
            || Within(a, buf, buf + 0x20_0000)
            || Within(a, buf + 0x8_0000_0000, buf + 0x8_0000_0000 + 0x20_0000)
            || Within(a, memCpyBuf, memCpyBuf + accessSize / 8 * 8)
            || Within(a, idxBlock, idxBlock + 10485760 * 4 + 8)
            || (bufSize <= 64 * 1024 * 1024 && Within(a, buf, buf + bufSize / 8 * 8))
  {
    hide PrepareCode, Reads;
    var low, high, block, idx, rest := PrepareInSteps(buf, bufSize, memCpyBuf, accessSize, idxBlock);
    ReadsConcat(low + high + block + idx, rest, a);
    ReadsConcat(low + high + block, idx, a);
    ReadsConcat(low + high, block, a);
    ReadsConcat(low, high, a);
  }

  /// On the machine
  /// --------------

  method LoadAll(m: Machine, loads: seq<Instr>)
    requires m.Valid() && OnlyLoads(loads) && AllLegal(loads)
    modifies m
    ensures m.Valid() && old(m.log) <= m.log
    ensures m.code == old(m.code) + loads
  {
    hide m.Valid, Legal;
    for k := 0 to |loads|
      invariant m.Valid() && old(m.log) <= m.log
      invariant m.code == old(m.code) + loads[..k]
    {
      var i := loads[k];
      assert i in loads;
      m.LoadReg(i.reg, i.addr, i.n, i.kind);
      assert loads[..k + 1] == loads[..k] + [i];
    }
    assert loads[..|loads|] == loads;
  }

  method JustNtLoad(m: Machine, addr: nat)
    requires m.Valid()
    modifies m
    ensures m.Valid() && old(m.log) <= m.log
    ensures m.code == old(m.code) + TailReads(addr)
  {
    hide m.Valid, OnlyLoads, AllLegal;
    TailReadsAreLoads(addr);
    var loads := JustAccess.JustTouch(JustAccess.Loading(Streaming), JustAccess.Plain, addr, AEP_TAIL_READ_SIZE);
    LoadAll(m, loads);
  }

  method ReadUp(m: Machine, addr: nat, n: nat)
    requires m.Valid()
    modifies m
    ensures m.Valid() && old(m.log) <= m.log
    ensures m.code == old(m.code) + WordsUp(addr, n)
  {
    hide m.Valid;
    for i := 0 to n
      invariant m.Valid() && old(m.log) <= m.log
      invariant m.code == old(m.code) + WordsUp(addr, i)
    {
      m.LoadReg(0, addr + 8 * i, 8, Scalar);
    }
  }

  method ReadDown(m: Machine, addr: nat, n: nat)
    requires m.Valid()
    modifies m
    ensures m.Valid() && old(m.log) <= m.log
    ensures m.code == old(m.code) + WordsDown(addr, n)
  {
    hide m.Valid;
    var i := n;
    while i > 0
      invariant 0 <= i <= n && m.Valid() && old(m.log) <= m.log
      invariant m.code + WordsDown(addr, i) == old(m.code) + WordsDown(addr, n)
    {
      i := i - 1;
      ghost var before := m.code;
      m.LoadReg(0, addr + 8 * i, 8, Scalar);
      assert m.code + WordsDown(addr, i) == before + WordsDown(addr, i + 1);
    }
    assert m.code + [] == m.code;
  }

  method PrepareJob(m: Machine, buf: nat, bufSize: nat, memCpyBuf: nat, accessSize: nat, idxBlock: nat)
    requires m.Valid() && buf + HALF < WORD
    modifies m
    ensures m.Valid() && old(m.log) <= m.log
    ensures m.code == old(m.code) + PrepareCode(buf, bufSize, memCpyBuf, accessSize, idxBlock)
  {
    hide m.Valid, TailReads, WordsUp, WordsDown;
    JustNtLoad(m, buf);
    JustNtLoad(m, AddWord(buf, HALF));
    ReadUp(m, memCpyBuf, accessSize / 8);
    ReadDown(m, idxBlock, MAX_IDX_SIZE / 2 + 1);
    if bufSize <= SMALL_BUFFER {
      ReadUp(m, buf, bufSize / 8);
    }
  }
}
