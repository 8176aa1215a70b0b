/// The globals of the benchmark and who sets them
/// ==============================================

module Globals {
  import opened WordArithmetic
  import opened Division
  import opened Bits
  import opened BenchmarkConfig

  datatype Flags = Flags(threadNum: nat, bufferSize: nat, accessSize: nat, iters: nat)

  /// `__fls`.  The instruction leaves its result undefined for zero.
  method BitScanReverse(word: nat) returns (k: nat)
    ensures word > 0 ==> k == HighestBit(word)
  {
    if word > 0 {
      k := HighestBit(word);
    } else {
      k := *;
    }
  }

  class GlobalCfg {
    const aepBuf: nat
    const aepBufSize: nat
    var threadNum: nat
    var coreNum: nat
    var bufferSize: nat
    var accessSize: nat
    var iters: nat
    var bufSlots: nat
    var bufSlotsMask: nat
    var accessSizeBits: nat

    function View(): Cfg
      reads this
    {
      Cfg(aepBuf, aepBufSize, threadNum, coreNum, bufferSize, accessSize, iters, bufSlots, bufSlotsMask, accessSizeBits)
    }

    /// The device is mapped at `aepBuf`; `coreNum` cores were listed.
    constructor (aepBuf: nat, aepBufSize: nat, coreNum: nat)
      ensures View() == Cfg(aepBuf, aepBufSize, 1, coreNum, 1024, 16, 10, 0, 0, 4)
    {
      this.aepBuf, this.aepBufSize, this.coreNum := aepBuf, aepBufSize, coreNum;
      threadNum, bufferSize, accessSize, iters := 1, 1024, 16, 10;
      bufSlots, bufSlotsMask, accessSizeBits := 0, 0, 4;
    }

    method InitGlobalCfg(firstTime: bool, flags: Flags)
      requires if firstTime then flags.accessSize > 0 else accessSize > 0
      modifies this
      ensures View().Initialised()
      ensures coreNum == old(coreNum)
      ensures (threadNum, bufferSize, accessSize, iters) ==
              if firstTime then (flags.threadNum, flags.bufferSize, flags.accessSize, flags.iters)
              else old((threadNum, bufferSize, accessSize, iters))
    {
      if firstTime {
        threadNum, bufferSize, accessSize, iters := flags.threadNum, flags.bufferSize, flags.accessSize, flags.iters;
      }
      bufSlots := SlotsIn(bufferSize, accessSize);
      var bufSlotsBits := BitScanReverse(bufSlots);
      bufSlotsMask := (Pow2(bufSlotsBits) - 1) % WORD32;
      accessSizeBits := BitScanReverse(accessSize);
    }

    /// The assertions on the sizes; `false` stands for the abort.
    method CheckGlobalCfg() returns (ok: bool)
      requires View().Initialised()
      ensures ok == View().Passes()
      ensures ok <==> coreNum == threadNum && aepBufSize >= 0x10_0000_0000
                      && bufferSize * threadNum % 0x1_0000_0000_0000_0000 <= 0x8_0000_0000
                      && exists a: nat, b: nat :: a <= b && accessSize == Pow2(a) && bufferSize == Pow2(b)
    {
      PassesIff(View());
      if coreNum != threadNum {
        return false;
      }
      if aepBufSize < AEP_SIZE || MulWord(bufferSize, threadNum) > HALF {
        return false;
      }
      var bufSizeBits := BitScanReverse(bufferSize);
      if Pow2(bufSizeBits) != bufferSize || Pow2(accessSizeBits) != accessSize {
        NoEmptyBuffer(bufferSize, accessSize);
        return false;
      }
      NoEmptyBuffer(bufferSize, accessSize);
      if bufSlots == 0 {
        return false;
      }
      var bufSlotsBits := BitScanReverse(bufSlots);
      return Pow2(bufSlotsBits) == bufSlots;
    }

    method ReCfgWhenThreadNumChange()
      requires threadNum > 0 && accessSize > 0
      modifies this`bufferSize, this`iters
      ensures bufferSize == SlotsIn(HALF, threadNum)
      ensures iters == ItersFor(bufferSize, accessSize)
      ensures bufferSize == 0x8_0000_0000 / threadNum
      ensures var n := 0x8_0000_0000 / threadNum / accessSize % 0x1_0000_0000;
              && (n > 2500000 ==> iters == 2500000)
              && (n < 500000 ==> iters == 500000)
              && (500000 <= n <= 2500000 ==> iters == n)
    {
      bufferSize := SlotsIn(HALF, threadNum);
      iters := SlotsIn(bufferSize, accessSize) % WORD32;
      if iters > 2500000 {
        iters := 2500000;
      } else if iters < 500000 {
        iters := 500000;
      }
    }

    /// The configurations under which `MainJobVaryThreadNum` runs its threads, for an access size of
    /// 2^a.  It computes the mask before it shrinks the buffer.
    method VaryThreadNum(ghost a: nat) returns (rounds: seq<Cfg>)
      requires accessSize == Pow2(a) && a <= 31
      modifies this
      ensures |rounds| == 6
      ensures forall k | 0 <= k < 6 :: IsVariedRound(rounds[k], k, a)
    {
      hide Pow2, HighestBit, SlotsIn, IsVariedRound;
      HalfIsPow2();
      bufferSize := HALF;
      coreNum := 32;
      threadNum := 1;
      rounds := [];
      while threadNum <= MAX_THREAD_NUM
        invariant |rounds| <= 6 && threadNum == Pow2(|rounds|) && accessSize == Pow2(a)
        invariant bufferSize == Pow2(if |rounds| == 0 then 35 else 36 - |rounds|) && coreNum == 32
        invariant forall k | 0 <= k < |rounds| :: IsVariedRound(rounds[k], k, a)
        decreases 6 - |rounds|
      {
        ghost var n := |rounds|;
        SmallPowers(n);
        var round := VaryRound(a, n);
        rounds := rounds + [round];
        threadNum := 2 * threadNum;
        Doubled(n);
      }
      SmallPowers(|rounds|);
    }

    method VaryRound(ghost a: nat, ghost n: nat) returns (round: Cfg)
      requires n <= 5 && accessSize == Pow2(a) && a <= 31
      requires threadNum == Pow2(n) && bufferSize == Pow2(if n == 0 then 35 else 36 - n) && coreNum == 32
      modifies this
      ensures coreNum == 32 && threadNum == Pow2(n) && bufferSize == Pow2(35 - n) && accessSize == old(accessSize)
      ensures IsVariedRound(round, n, a)
    {
      hide Pow2, HighestBit, Cfg.SlotsStay, Cfg.SequentialStays, SlotsIn, ItersFor;
      ghost var b := if n == 0 then 35 else 36 - n;
      InitGlobalCfg(false, Flags(0, 0, 0, 0));
      InitialisedSizes(View(), a, b);
      HalfIsPow2();
      ReCfgWhenThreadNumChange();
      Pow2Quotient(n, 35);
      StaleMask(View(), a, n);
      HalvesFit(View(), n);
      VariedIters(a, n);
      round := View();
    }

    /// The configurations under which `MainJobVaryAccessSize` runs its threads, for a configuration that
    /// has passed the check.
    method VaryAccessSize() returns (rounds: seq<Cfg>)
      requires View().Passes() && View().Validated()
      modifies this
      ensures |rounds| == 13
      ensures forall k | 0 <= k < 13 :: IsSizedRound(rounds[k], k, threadNum, old(bufferSize))
      ensures threadNum == old(threadNum)
    {
      hide Pow2, HighestBit, SlotsIn, IsSizedRound, Cfg.Passes;
      SixteenBits();
      CheckedBuffer(View());
      accessSize := 16;
      rounds := [];
      while accessSize <= 64 * 1024
        invariant |rounds| <= 13 && accessSize == Pow2(4 + |rounds|)
        invariant threadNum == old(threadNum) == coreNum && 1 <= threadNum < MAX_THREAD_NUM
        invariant BufferFor(bufferSize, |rounds|, threadNum, old(bufferSize))
        invariant forall k | 0 <= k < |rounds| :: IsSizedRound(rounds[k], k, threadNum, old(bufferSize))
        decreases 13 - |rounds|
      {
        ghost var n := |rounds|;
        UpTo64K(n);
        var round := SizeRound(n, old(bufferSize));
        rounds := rounds + [round];
        accessSize := 2 * accessSize;
        Doubled(4 + n);
      }
      UpTo64K(|rounds|);
    }

    method SizeRound(ghost n: nat, ghost first: nat) returns (round: Cfg)
      requires n <= 12 && accessSize == Pow2(4 + n) && 1 <= threadNum < MAX_THREAD_NUM && coreNum == threadNum
      requires BufferFor(bufferSize, n, threadNum, first)
      modifies this
      ensures threadNum == old(threadNum) == coreNum && accessSize == old(accessSize)
      ensures BufferFor(bufferSize, n + 1, threadNum, first)
      ensures IsSizedRound(round, n, threadNum, first)
    {
      hide Pow2, HighestBit, SlotsIn, Cfg.SlotsStay, Cfg.RegionsFit, Cfg.Initialised, Cfg.IsMask, IsSizedRound;
      InitGlobalCfg(false, Flags(0, 0, 0, 0));
      ghost var before := View();
      if threadNum == 1 {
        iters := GenIters(accessSize);
      } else {
        ReCfgWhenThreadNumChange();
      }
      round := View();
      SizedRound(before, round, n, first);
    }
  }

  /// The buffer size with which round `n` of `MainJobVaryAccessSize` computes its mask, when the checked
  /// size was `first`.  A checked size fits, or is so large that its product wrapped around.
  ghost predicate BufferFor(size: nat, n: nat, threadNum: nat, first: nat)
    requires threadNum > 0
  {
    && ((threadNum * first <= HALF && first <= HALF) || (threadNum > 1 && IsHuge(first)))
    && size == if n == 0 || threadNum == 1 then first else SlotsIn(HALF, threadNum)
  }

  ghost predicate IsHuge(size: nat) {
    exists b: nat :: b >= 60 && size == Pow2(b)
  }

  /// `gen_iters`
  function GenIters(size: nat): nat {
    if size >= 32 * 1024 then 500000
    else if size >= 8 * 1024 then 500000 * 2
    else if size >= 4 * 1024 then 500000 * 2 * 2
    else if size >= 1024 then 4000000
    else 8000000
  }

  /// Round `n` of `MainJobVaryThreadNum`, with an access size of 2^a.  The iterations are the slots brought
  /// between two bounds, except that 2^32 slots or more count as none.  In its first round slots stay in
  /// their regions.  Later the mask can select slots outside unless it has been truncated to 32 bits, and
  /// the sequential mode goes there when the iterations are more than the slots.
  ghost predicate IsVariedRound(c: Cfg, n: nat, a: nat)
    requires n <= 5
  {
    && c.threadNum == Pow2(n) && c.bufferSize == Pow2(35 - n) && c.accessSize == Pow2(a)
    && c.coreNum == 32
    && c.iters == (if 4 <= a + n <= 13 then 2500000
                   else if a + n == 14 then 2097152
                   else if a + n == 15 then 1048576
                   else if a + n == 16 then 524288
                   else 500000)
    && c.accessSizeBits == a && c.RegionsFit() && c.IsMask()
    && (c.SlotsStay() <==> n == 0 || a + n <= 3)
    && (c.SequentialStays() <==> n == 0 || a + n <= 16)
  }

  /// Round `n` of `MainJobVaryAccessSize`, for a checked buffer size `first`.  Its mask is that of the
  /// buffer of the round before.  That one is not larger, so that slots stay in their regions, except
  /// before the first round if the check let too large a buffer pass; and even then the sequential mode
  /// does not get that far.  When the buffer has no room for a single slot the mask is undefined.
  ghost predicate IsSizedRound(c: Cfg, n: nat, threadNum: nat, first: nat) {
    && c.threadNum == threadNum && c.accessSize == Pow2(4 + n) && c.accessSizeBits == 4 + n
    && c.RegionsFit() && c.coreNum == threadNum > 0
    && c.bufferSize == (if threadNum == 1 then first else 0x8_0000_0000 / threadNum)
    && (threadNum == 1 ==>
          c.iters == if n <= 5 then 8000000 else if n <= 7 then 4000000 else if n == 8 then 2000000
                     else if n <= 10 then 1000000 else 500000)
    && (threadNum > 1 ==>
          var slots := 0x8_0000_0000 / threadNum / c.accessSize;
          c.iters == if slots < 500000 then 500000 else if slots > 2500000 then 2500000 else slots)
    && (c.bufSlots > 0 <==> (threadNum > 1 && n > 0) || first >= c.accessSize)
    && (c.bufSlots > 0 ==> c.IsMask() && c.SequentialStays() && (c.SlotsStay() <==> n > 0 || first <= HALF))
  }

  /// `gen_iters` in the rounds
  lemma GenItersIn(n: nat)
    requires n <= 12
    ensures GenIters(Pow2(4 + n)) == if n <= 5 then 8000000 else if n <= 7 then 4000000 else if n == 8 then 2000000
                                     else if n <= 10 then 1000000 else 500000
  {
    assert Pow2(4) == 16 && Pow2(8) == 0x100 && Pow2(12) == 0x1000 && Pow2(16) == 0x1_0000;
    if n <= 4 {
      Pow2Ordered(4 + n, 8);
    } else if n <= 8 {
      assert Pow2(9) == 0x200 && Pow2(10) == 0x400 && Pow2(11) == 0x800;
    } else {
      assert Pow2(13) == 0x2000 && Pow2(14) == 0x4000 && Pow2(15) == 0x8000;
    }
  }

  /// The slots of two threads or more fit in 32 bits.
  lemma SharedItersFor(threadNum: nat, accessSize: nat)
    requires threadNum > 1 && accessSize >= 16
    ensures SlotsIn(HALF, threadNum) == 0x8_0000_0000 / threadNum
    ensures var slots := 0x8_0000_0000 / threadNum / accessSize;
            ItersFor(SlotsIn(HALF, threadNum), accessSize) ==
            if slots < 500000 then 500000 else if slots > 2500000 then 2500000 else slots
  {
    var share := HALF / threadNum;
    QuotientBound(HALF, threadNum, 2);
    QuotientBound(share, accessSize, 16);
    Fits32(share / accessSize);
  }

  lemma QuotientBound(x: nat, d: nat, least: nat)
    requires d >= least > 0
    ensures least * (x / d) <= x
  {
    assert x == d * (x / d) + x % d;
    TimesMonotone(least, d, x / d);
  }

  lemma VariedIters(a: nat, n: nat)
    requires n <= 5 && a <= 31
    ensures ItersFor(Pow2(35 - n), Pow2(a)) ==
            if 4 <= a + n <= 13 then 2500000
            else if a + n == 14 then 2097152
            else if a + n == 15 then 1048576
            else if a + n == 16 then 524288
            else 500000
  {
    hide Pow2, SlotsIn;
    Pow2Quotient(a, 35 - n);
    MidPowers();
    Pow2Of32();
    if a + n <= 3 {
      WholeWords(35 - n - a);
    } else if a + n <= 35 {
      var s := 35 - n - a;
      Pow2Grows(s, 32);
      Fits32(Pow2(s));
      Pow2Ordered(22, s);
      Pow2Ordered(s, 18);
    }
  }

  lemma WholeWords(s: nat)
    requires s >= 32
    ensures Pow2(s) % WORD32 == 0
  {
    hide Pow2;
    Pow2Of32();
    Pow2Add(32, s - 32);
    RemainderIs(Pow2(s), WORD32, Pow2(s - 32), 0);
  }

  lemma NoEmptyBuffer(bufferSize: nat, accessSize: nat)
    requires accessSize > 0
    ensures bufferSize == 0 ==> SlotsIn(bufferSize, accessSize) == 0
  {
  }

  lemma HalfIsPow2()
    ensures HALF == Pow2(35) && Pow2(0) == 1
  {
    Pow2Of32();
    Doubled(32);
    Doubled(33);
    Doubled(34);
  }

  lemma SmallPowers(n: nat)
    ensures Pow2(n) <= MAX_THREAD_NUM <==> n <= 5
  {
    assert Pow2(5) == 32;
    if n < 5 {
      Pow2Grows(n, 5);
    } else if n > 5 {
      Pow2Grows(5, n);
    }
  }

  lemma InitialisedSizes(c: Cfg, a: nat, b: nat)
    requires c.Initialised() && c.accessSize == Pow2(a) && c.bufferSize == Pow2(b) && a <= b
    ensures c.bufSlotsMask + 1 == Pow2(if b - a < 32 then b - a else 32) && c.accessSizeBits == a
  {
    hide Pow2, HighestBit, SlotsIn;
    Pow2Quotient(a, b);
    HighestBitIs(b - a);
    HighestBitIs(a);
    MaskOf(b - a);
  }

  lemma TimesPow2(x: nat, s: nat, a: nat)
    ensures x * Pow2(a) <= Pow2(s + a) <==> x <= Pow2(s)
  {
    hide Pow2;
    Pow2Add(s, a);
    if x <= Pow2(s) {
      TimesMonotone(x, Pow2(s), Pow2(a));
    } else {
      Strictly(Pow2(s), x, Pow2(a));
    }
  }

  lemma Pow2Ordered(i: nat, j: nat)
    ensures Pow2(i) <= Pow2(j) <==> i <= j
  {
    hide Pow2;
    if i < j {
      Pow2Grows(i, j);
    } else if j < i {
      Pow2Grows(j, i);
    }
  }

  /// The number of iterations exceeds the number of slots only when that is small.
  lemma ItersOf(s: nat, n: nat)
    requires n == Pow2(s) && s < 32
    ensures (if n % WORD32 > 2500000 then 2500000 else if n % WORD32 < 500000 then 500000 else n % WORD32) <= n
            <==> s >= 19
  {
    hide Pow2;
    Pow2Of32();
    Pow2Grows(s, 32);
    Fits32(n);
    assert Pow2(18) == 0x4_0000 && Pow2(19) == 0x8_0000 by { MidPowers(); }
    if s >= 19 {
      Pow2Ordered(19, s);
    } else {
      Pow2Ordered(s, 18);
    }
  }

  lemma Fits32(n: nat)
    requires n < WORD32
    ensures n % WORD32 == n
  {
  }

  lemma MidPowers()
    ensures Pow2(18) == 0x4_0000 && Pow2(19) == 0x8_0000 && Pow2(16) == 0x1_0000
    ensures Pow2(20) == 0x10_0000 && Pow2(21) == 0x20_0000 && Pow2(22) == 0x40_0000
  {
    assert Pow2(0) == 1;
    EightMore(0);
    EightMore(8);
    Doubled(16);
    Doubled(17);
    Doubled(18);
    Doubled(19);
    Doubled(20);
    Doubled(21);
  }

  /// The mask belongs to a buffer twice as large, except in the first round.
  lemma StaleMask(c: Cfg, a: nat, n: nat)
    requires n <= 5 && a <= 31
    requires c.threadNum == Pow2(n) && c.accessSizeBits == a && c.accessSize == Pow2(a) && c.bufferSize == Pow2(35 - n)
    requires c.iters == ItersFor(c.bufferSize, c.accessSize)
    requires var b := if n == 0 then 35 else 36 - n;
             c.bufSlotsMask + 1 == Pow2(if b - a < 32 then b - a else 32)
    ensures c.SlotsStay() <==> n == 0 || a + n <= 3
    ensures c.SequentialStays() <==> n == 0 || a + n <= 16
  {
    hide Pow2, Cfg.SlotsStay, Cfg.SequentialStays, SlotsIn, ItersFor;
    var b := if n == 0 then 35 else 36 - n;
    var k := if b - a < 32 then b - a else 32;
    SlotsStayIff(c);
    SequentialStaysIff(c, k);
    if a + n <= 35 {
      var s := 35 - n - a;
      TimesPow2(Pow2(k), s, a);
      TimesPow2(c.Visited(), s, a);
      Pow2Ordered(k, s);
      VisitedFits(c, a, n, s);
    } else {
      assert n == 5 && a == 31 && k == 0;
      TooLarge(c);
    }
  }

  lemma VisitedFits(c: Cfg, a: nat, n: nat, s: nat)
    requires n <= 5 && a <= 31 && s == 35 - n - a
    requires c.accessSize == Pow2(a) && c.bufferSize == Pow2(35 - n)
    requires c.iters == ItersFor(c.bufferSize, c.accessSize)
    requires var b := if n == 0 then 35 else 36 - n;
             c.bufSlotsMask + 1 == Pow2(if b - a < 32 then b - a else 32)
    ensures c.Visited() <= Pow2(s) <==> n == 0 || a + n <= 16
  {
    hide Pow2, SlotsIn;
    var k := if n == 0 then s else s + 1;
    if k <= s || s >= 32 {
      Pow2Ordered(if k < 32 then k else 32, s);
    } else {
      Pow2Quotient(a, 35 - n);
      ItersOf(s, Pow2(s));
      Pow2Ordered(s + 1, s);
    }
  }

  /// One slot is larger than the buffer.
  lemma TooLarge(c: Cfg)
    requires c.accessSize == Pow2(31) && c.bufferSize == Pow2(30) && c.bufSlotsMask + 1 == Pow2(0)
    requires c.iters == ItersFor(c.bufferSize, c.accessSize)
    ensures (c.bufSlotsMask + 1) * c.accessSize > c.bufferSize && c.Visited() * c.accessSize > c.bufferSize
  {
    assert Pow2(0) == 1;
    hide Pow2, SlotsIn;
    Pow2Ordered(31, 30);
    assert c.Visited() == 1;
  }

  lemma HalvesFit(c: Cfg, n: nat)
    requires n <= 5 && c.threadNum == Pow2(n) && c.bufferSize == Pow2(35 - n)
    ensures c.RegionsFit()
  {
    hide Pow2, Cfg.RegionsFit;
    Pow2Add(n, 35 - n);
    HalfIsPow2();
    RegionsFitTogether(c);
  }

  lemma SixteenBits()
    ensures Pow2(4) == 16
  {
  }

  lemma UpTo64K(n: nat)
    ensures Pow2(4 + n) <= 64 * 1024 <==> n <= 12
  {
    MidPowers();
    Pow2Ordered(4 + n, 16);
  }

  /// A thread's share of the lower half, rounded down, fits as often as there are threads, and is no
  /// smaller than any other size that does.
  lemma ShareOfHalf(threadNum: nat)
    requires 1 <= threadNum < MAX_THREAD_NUM
    ensures threadNum * SlotsIn(HALF, threadNum) <= HALF && 64 * 1024 * 1024 <= SlotsIn(HALF, threadNum) <= HALF
    ensures threadNum == 1 ==> SlotsIn(HALF, threadNum) == HALF
  {
    var q := HALF / threadNum;
    assert HALF == threadNum * q + HALF % threadNum;
    Quotient(threadNum, 64 * 1024 * 1024, q);
  }

  lemma LargestShare(threadNum: nat, size: nat)
    requires 1 <= threadNum && threadNum * size <= HALF
    ensures size <= SlotsIn(HALF, threadNum)
  {
    var q := HALF / threadNum;
    assert HALF == threadNum * q + HALF % threadNum;
    Quotient(threadNum, size, q);
  }

  lemma Quotient(t: nat, x: nat, q: nat)
    requires t * x <= HALF < t * q + t
    ensures x <= q
  {
    if x > q {
      TimesMonotone(q + 1, x, t);
    }
  }

  /// What passing the check says about a buffer: it fits, or the product with the thread number wrapped.
  lemma CheckedBuffer(c: Cfg)
    requires c.Passes() && c.Validated()
    ensures 1 <= c.threadNum == c.coreNum < MAX_THREAD_NUM && BufferFor(c.bufferSize, 0, c.threadNum, c.bufferSize)
  {
    hide Pow2, HighestBit, MulWord;
    var b := HighestBit(c.bufferSize);
    if c.bufferSize <= HALF {
      SmallProduct(c.bufferSize, c.threadNum);
    } else {
      WrappedProduct(c.bufferSize, c.threadNum);
      SixtyBits();
      Pow2Ordered(b, 59);
    }
  }

  lemma WrappedProduct(size: nat, threadNum: nat)
    requires HALF < size < WORD && 1 <= threadNum < MAX_THREAD_NUM && MulWord(size, threadNum) <= HALF
    ensures threadNum > 1 && size > 0x800_0000_0000_0000
  {
    TimesMonotone(1, threadNum, size);
    assert size * threadNum == threadNum * size;
    assert size * threadNum >= WORD;
    if size <= 0x800_0000_0000_0000 {
      LargeProduct(size, threadNum);
    }
  }

  lemma SmallProduct(size: nat, threadNum: nat)
    requires size <= HALF && threadNum < MAX_THREAD_NUM && MulWord(size, threadNum) <= HALF
    ensures threadNum * size <= HALF
  {
    TimesMonotone(threadNum, MAX_THREAD_NUM, size);
    assert size * threadNum == threadNum * size;
  }

  lemma LargeProduct(size: nat, threadNum: nat)
    requires size <= 0x800_0000_0000_0000 && threadNum < MAX_THREAD_NUM
    ensures size * threadNum < WORD
  {
    TimesMonotone(threadNum, MAX_THREAD_NUM - 1, size);
    assert size * threadNum == threadNum * size;
  }

  lemma SixtyBits()
    ensures Pow2(59) == 0x800_0000_0000_0000 && Pow2(60) == 0x1000_0000_0000_0000
  {
    Pow2Values();
    Doubled(59);
  }

  lemma HugeIsLarge(size: nat)
    ensures IsHuge(size) ==> size > HALF
  {
    hide Pow2;
    if b: nat :| b >= 60 && size == Pow2(b) {
      Pow2Ordered(60, b);
      SixtyBits();
    }
  }

  lemma SizedRound(before: Cfg, c: Cfg, n: nat, first: nat)
    requires before.Initialised() && before.accessSize == Pow2(4 + n) && n <= 12
    requires c == before.(bufferSize := c.bufferSize, iters := c.iters)
    requires 1 <= c.threadNum < MAX_THREAD_NUM && c.coreNum == c.threadNum
    requires BufferFor(before.bufferSize, n, c.threadNum, first)
    requires c.bufferSize == if c.threadNum == 1 then before.bufferSize else SlotsIn(HALF, c.threadNum)
    requires c.iters == if c.threadNum == 1 then GenIters(c.accessSize) else ItersFor(c.bufferSize, c.accessSize)
    ensures IsSizedRound(c, n, c.threadNum, first)
  {
    hide Pow2, HighestBit, SlotsIn, ItersFor, Cfg.Initialised, Cfg.SlotsStay, Cfg.SequentialStays, Cfg.RegionsFit,
      Cfg.IsMask, IsHuge, GenIters;
    ShareOfHalf(c.threadNum);
    GenItersIn(n);
    AtLeastSixteen(n);
    if c.threadNum > 1 {
      SharedItersFor(c.threadNum, c.accessSize);
    }
    RegionsFitTogether(c);
    SizesOfRound(before, n);
    SomeSlot(before.bufferSize, before.accessSize);
    HugeIsLarge(first);
    if n == 0 && first > HALF {
      assert c.threadNum > 1 && IsHuge(before.bufferSize);
      ItersBounded(c.bufferSize, c.accessSize);
      HugeLeaves(before, c);
    } else if c.bufSlots > 0 {
      FittingStays(before, c);
    }
  }

  lemma AtLeastSixteen(n: nat)
    ensures Pow2(4 + n) >= 16
  {
    SixteenBits();
    Pow2Ordered(4, 4 + n);
  }

  lemma FittingStays(before: Cfg, c: Cfg)
    requires before.Initialised() && before.bufSlots > 0 && c.accessSize == Pow2(c.accessSizeBits)
    requires c == before.(bufferSize := c.bufferSize, iters := c.iters) && c.threadNum > 0
    requires c.threadNum * before.bufferSize <= HALF
    requires c.bufferSize == if c.threadNum == 1 then before.bufferSize else SlotsIn(HALF, c.threadNum)
    ensures c.IsMask() && c.SlotsStay() && c.SequentialStays()
  {
    hide SlotsIn, Cfg.Initialised, Cfg.SlotsStay, Cfg.SequentialStays, Cfg.IsMask;
    LargestShare(c.threadNum, before.bufferSize);
    MaskSuits(before, c);
    StaysSequentially(c);
  }

  lemma SizesOfRound(before: Cfg, n: nat)
    requires before.Initialised() && before.accessSize == Pow2(4 + n) && n <= 12
    ensures before.accessSizeBits == 4 + n && 0 < before.accessSize <= 64 * 1024 && (n == 0 ==> before.accessSize == 16)
    ensures before.bufSlots == SlotsIn(before.bufferSize, before.accessSize)
  {
    hide Pow2, HighestBit, SlotsIn;
    HighestBitIs(4 + n);
    UpTo64K(n);
    SixteenBits();
  }

  lemma ItersBounded(bufferSize: nat, accessSize: nat)
    requires accessSize > 0
    ensures ItersFor(bufferSize, accessSize) <= 2500000
  {
  }

  /// The mask of a buffer whose product wrapped selects slots far beyond a thread's share of the device.
  lemma HugeLeaves(before: Cfg, c: Cfg)
    requires before.Initialised() && before.accessSize == 16 && IsHuge(before.bufferSize)
    requires c == before.(bufferSize := c.bufferSize, iters := c.iters) && c.threadNum > 0
    requires 64 * 1024 * 1024 <= c.bufferSize <= HALF && c.iters <= 2500000
    ensures c.bufSlots > 0 && before.bufferSize >= c.accessSize && before.bufferSize > HALF
    ensures c.IsMask() && !c.SlotsStay() && c.SequentialStays()
  {
    hide Pow2, HighestBit, SlotsIn, Cfg.SlotsStay, Cfg.SequentialStays;
    HugeIsLarge(before.bufferSize);
    var b: nat :| b >= 60 && before.bufferSize == Pow2(b);
    SixteenBits();
    SomeSlot(before.bufferSize, before.accessSize);
    InitialisedSizes(before, 4, b);
    Pow2Of32();
    SlotsStayIff(c);
    SequentialStaysIff(c, 32);
  }

  lemma StaysSequentially(c: Cfg)
    requires c.SlotsStay()
    ensures c.SequentialStays()
  {
    hide And, Cfg.Slot;
    forall t: nat, i: nat | t < c.threadNum && i < c.iters
      ensures c.Slot(t, And(i, c.bufSlotsMask)) + c.accessSize <= c.Region(t) + c.bufferSize
    {
      AndAtMost(i, c.bufSlotsMask);
    }
  }

  lemma SomeSlot(bufferSize: nat, accessSize: nat)
    requires accessSize > 0
    ensures SlotsIn(bufferSize, accessSize) > 0 <==> bufferSize >= accessSize
    ensures SlotsIn(bufferSize, accessSize) * accessSize <= bufferSize
  {
    var q := bufferSize / accessSize;
    assert bufferSize == accessSize * q + bufferSize % accessSize;
    if bufferSize < accessSize {
      RemainderIs(bufferSize, accessSize, 0, bufferSize);
    } else {
      AtLeastOnce(bufferSize, accessSize);
    }
  }

  lemma MaskSuits(before: Cfg, c: Cfg)
    requires before.Initialised() && before.bufSlots > 0 && c.threadNum > 0
    requires c == before.(bufferSize := c.bufferSize, iters := c.iters) && before.bufferSize <= c.bufferSize
    requires c.accessSize == Pow2(c.accessSizeBits)
    ensures c.SlotsStay() && c.IsMask()
  {
    hide Pow2, HighestBit, SlotsIn, Cfg.SlotsStay;
    var k := HighestBit(c.bufSlots);
    MaskOf(k);
    Pow2Ordered(if k < 32 then k else 32, k);
    SomeSlot(before.bufferSize, before.accessSize);
    TimesMonotone(c.bufSlotsMask + 1, c.bufSlots, c.accessSize);
    SlotsStayIff(c);
  }
}
