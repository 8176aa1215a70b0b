/// The configuration of the benchmark
/// ==================================
///
/// `bgtest/AEP/aep_study.cc` divides the lower half of the device into one region per thread and
/// each region into slots of the access size, with a mask and a shift.

module BenchmarkConfig {
  import opened WordArithmetic
  import opened Division
  import opened Bits
  import opened CopyLegality

  const AEP_SIZE: nat := 64 * 1024 * 1024 * 1024
  const HALF: nat := AEP_SIZE / 2
  const MAX_THREAD_NUM: nat := 32
  const AEP_TAIL_READ_SIZE: nat := 2 * 1024 * 1024
  const MAX_IDX_SIZE: nat := 10485760

  /// `buffer_size / access_size`
  function SlotsIn(bufferSize: nat, accessSize: nat): nat
    requires accessSize > 0
  {
    bufferSize / accessSize
  }

  /// The iterations `ReCfgWhenThreadNumChange` sets: the number of slots, cut to 32 bits and then
  /// brought between two bounds.
  function ItersFor(bufferSize: nat, accessSize: nat): nat
    requires accessSize > 0
  {
    var n := SlotsIn(bufferSize, accessSize) % WORD32;
    if n > 2500000 then 2500000 else if n < 500000 then 500000 else n
  }

  /// The globals that decide where operations go.
  datatype Cfg = Cfg(aepBuf: nat, aepBufSize: nat, threadNum: nat, coreNum: nat, bufferSize: nat,
                     accessSize: nat, iters: nat, bufSlots: nat, bufSlotsMask: nat, accessSizeBits: nat) {

    /// What `InitGlobalCfg` computes.
    ghost predicate Initialised() {
      && accessSize > 0
      && bufSlots == SlotsIn(bufferSize, accessSize)
      && (bufSlots > 0 ==> bufSlotsMask == (Pow2(HighestBit(bufSlots)) - 1) % WORD32)
      && accessSizeBits == HighestBit(accessSize)
    }

    /// The assertions of `CheckGlobalCfg`, in the word arithmetic of the source.
    predicate Passes() {
      && coreNum == threadNum
      && aepBufSize >= AEP_SIZE
      && MulWord(bufferSize, threadNum) <= HALF
      && bufferSize > 0 && Pow2(HighestBit(bufferSize)) == bufferSize
      && Pow2(accessSizeBits) == accessSize
      && bufSlots > 0 && Pow2(HighestBit(bufSlots)) == bufSlots
    }

    /// What the flag validators leave.
    predicate Validated() {
      && 1 <= coreNum && threadNum < MAX_THREAD_NUM
      && bufferSize < WORD && accessSize < WORD32
    }

    /// The start of thread `t`'s region, and of one of its slots.
    function Region(t: nat): nat {
      aepBuf + t * bufferSize
    }

    function Slot(t: nat, idx: nat): nat {
      Region(t) + Shl(idx, accessSizeBits)
    }

    /// Every slot the mask can select lies inside its thread's region.
    ghost predicate SlotsStay() {
      forall t: nat, idx: nat | t < threadNum && idx <= bufSlotsMask ::
        Slot(t, idx) + accessSize <= Region(t) + bufferSize
    }

    /// Every slot the sequential mode visits lies inside its thread's region.
    ghost predicate SequentialStays() {
      forall t: nat, i: nat | t < threadNum && i < iters ::
        Slot(t, And(i, bufSlotsMask)) + accessSize <= Region(t) + bufferSize
    }

    /// How many slots the sequential mode visits.
    function Visited(): nat {
      if bufSlotsMask + 1 < iters then bufSlotsMask + 1 else iters
    }

    ghost predicate IsMask() {
      exists k: nat :: bufSlotsMask + 1 == Pow2(k)
    }

    /// The slots the mask can select fill the region, which holds unless it has more than 2^32 of them.
    predicate Tiled() {
      (bufSlotsMask + 1) * accessSize == bufferSize
    }

    /// Every region lies inside the lower half of the device.
    ghost predicate RegionsFit() {
      forall t: nat | t < threadNum :: Region(t) + bufferSize <= aepBuf + HALF
    }
  }

  /// Sizes and masks
  /// ---------------

  lemma Pow2Quotient(a: nat, b: nat)
    ensures SlotsIn(Pow2(b), Pow2(a)) == if a <= b then Pow2(b - a) else 0
  {
    if a <= b {
      Pow2Add(a, b - a);
      RemainderIs(Pow2(b), Pow2(a), Pow2(b - a), 0);
    } else {
      Pow2Grows(b, a);
      RemainderIs(Pow2(b), Pow2(a), 0, Pow2(b));
    }
  }

  lemma Doubled(n: nat)
    ensures Pow2(n + 1) == 2 * Pow2(n)
  {
  }

  lemma EightMore(k: nat)
    ensures Pow2(k + 8) == 0x100 * Pow2(k)
  {
    assert Pow2(k + 8) == 4 * Pow2(k + 6) && Pow2(k + 6) == 4 * Pow2(k + 4);
    assert Pow2(k + 4) == 4 * Pow2(k + 2) && Pow2(k + 2) == 4 * Pow2(k);
  }

  lemma Pow2Of32()
    ensures Pow2(32) == WORD32 && Pow2(24) == 0x100_0000
  {
    assert Pow2(0) == 1;
    hide Pow2;
    EightMore(0);
    EightMore(8);
    EightMore(16);
    EightMore(24);
  }

  lemma FewerSlots(k: nat, n: nat, a: nat)
    requires k <= n
    ensures Pow2(k) * Pow2(a) <= Pow2(n + a)
  {
    if k < n {
      Pow2Grows(k, n);
    }
    Pow2Add(n, a);
    TimesMonotone(Pow2(k), Pow2(n), Pow2(a));
  }

  /// The mask is truncated to 32 bits, which still leaves a mask.
  lemma MaskOf(k: nat)
    ensures (Pow2(k) - 1) % WORD32 == Pow2(if k < 32 then k else 32) - 1
  {
    Pow2Of32();
    if k < 32 {
      Pow2Grows(k, 32);
      RemainderIs(Pow2(k) - 1, WORD32, 0, Pow2(k) - 1);
    } else {
      var m := Pow2(k - 32);
      Pow2Add(32, k - 32);
      assert WORD32 * (m - 1) == WORD32 * m - WORD32;
      RemainderIs(Pow2(k) - 1, WORD32, m - 1, WORD32 - 1);
    }
  }

  lemma CheckedFacts(c: Cfg)
    requires c.Initialised() && c.Passes()
    ensures c.accessSize > 0 && c.bufferSize > 0 && c.bufSlots > 0
    ensures c.accessSize == Pow2(HighestBit(c.accessSize)) && c.bufferSize == Pow2(HighestBit(c.bufferSize))
    ensures c.accessSizeBits == HighestBit(c.accessSize) && c.bufSlots == SlotsIn(c.bufferSize, c.accessSize)
    ensures c.bufSlotsMask == (Pow2(HighestBit(c.bufSlots)) - 1) % WORD32
  {
    hide Pow2, HighestBit, SlotsIn, MulWord;
  }

  /// A configuration that passes has powers of two throughout, and a mask that matches them.
  lemma CheckedSizes(c: Cfg) returns (a: nat, b: nat)
    requires c.Initialised() && c.Passes()
    ensures a <= b && c.accessSize == Pow2(a) && c.bufferSize == Pow2(b) && c.accessSizeBits == a
    ensures c.bufSlotsMask + 1 == Pow2(if b - a < 32 then b - a else 32)
  {
    hide Cfg.Initialised, Cfg.Passes, Pow2, HighestBit, SlotsIn;
    CheckedFacts(c);
    a, b := HighestBit(c.accessSize), HighestBit(c.bufferSize);
    Pow2Quotient(a, b);
    HighestBitIs(b - a);
    MaskOf(b - a);
  }

  /// What the check lets pass, in other words: as many cores as threads, a device of at least 64 GiB, sizes
  /// that are powers of two with a slot that fits in a buffer, and a product that in 64 bits is at most half
  /// the device.
  lemma PassesIff(c: Cfg)
    requires c.Initialised()
    ensures c.Passes() <==>
            && c.coreNum == c.threadNum
            && c.aepBufSize >= 0x10_0000_0000
            && c.bufferSize * c.threadNum % 0x1_0000_0000_0000_0000 <= 0x8_0000_0000
            && exists a: nat, b: nat :: a <= b && c.accessSize == Pow2(a) && c.bufferSize == Pow2(b)
  {
    assert MulWord(c.bufferSize, c.threadNum) == c.bufferSize * c.threadNum % 0x1_0000_0000_0000_0000;
    hide Pow2, HighestBit, SlotsIn, MulWord;
    if c.Passes() {
      var a, b := CheckedSizes(c);
    }
    if a: nat, b: nat :| a <= b && c.accessSize == Pow2(a) && c.bufferSize == Pow2(b) {
      HighestBitIs(a);
      HighestBitIs(b);
      HighestBitIs(b - a);
      Pow2Quotient(a, b);
    }
  }

  /// The mask covers the largest power of two of slots that the buffer has room for, up to 2^32.
  lemma MaskIsLargest(c: Cfg)
    requires c.Initialised() && c.bufSlots > 0
    ensures c.IsMask() && (c.bufSlotsMask + 1) * c.accessSize <= c.bufferSize
    ensures c.bufSlotsMask + 1 == 0x1_0000_0000 || c.bufferSize < 2 * (c.bufSlotsMask + 1) * c.accessSize
  {
    hide Pow2, HighestBit;
    var k := HighestBit(c.bufSlots);
    MaskOf(k);
    Pow2Of32();
    if k > 32 {
      Pow2Grows(32, k);
    }
    Doubled(k);
    Room(c.bufferSize, c.accessSize, c.bufSlotsMask + 1);
  }

  lemma Room(size: nat, slot: nat, n: nat)
    requires slot > 0
    ensures n <= SlotsIn(size, slot) ==> n * slot <= size
    ensures SlotsIn(size, slot) < 2 * n ==> size < 2 * n * slot
  {
    var q := size / slot;
    assert size == slot * q + size % slot;
    if n <= q {
      TimesMonotone(n, q, slot);
    }
    if q < 2 * n {
      TimesMonotone(q + 1, 2 * n, slot);
      assert (q + 1) * slot == slot * q + slot;
    }
  }

  lemma {:induction false} HighestBitIs(k: nat)
    ensures HighestBit(Pow2(k)) == k
  {
    HighestBitOf(Pow2(k), k);
  }

  /// Slots
  /// -----

  lemma SlotOffset(idx: nat, mask: nat, a: nat)
    ensures idx <= mask ==> Shl(idx, a) + Pow2(a) <= (mask + 1) * Pow2(a)
    ensures Shl(mask, a) + Pow2(a) == (mask + 1) * Pow2(a)
  {
    var p := Pow2(a);
    if idx <= mask {
      assert (mask - idx) * p >= 0;
      assert (idx + 1) * p + (mask - idx) * p == (mask + 1) * p;
      assert (idx + 1) * p == idx * p + p;
    }
    assert (mask + 1) * p == mask * p + p;
  }

  /// The slots stay inside the regions if and only if there are not too many of them.  The mask must
  /// have been computed for the present buffer size, or for a smaller one.
  lemma SlotsStayIff(c: Cfg)
    requires c.threadNum > 0 && c.accessSize == Pow2(c.accessSizeBits)
    ensures c.SlotsStay() <==> (c.bufSlotsMask + 1) * c.accessSize <= c.bufferSize
  {
    hide Shl, Pow2;
    var a, mask := c.accessSizeBits, c.bufSlotsMask;
    forall t: nat, idx: nat | t < c.threadNum && idx <= mask && (mask + 1) * c.accessSize <= c.bufferSize
      ensures c.Slot(t, idx) + c.accessSize <= c.Region(t) + c.bufferSize
    {
      SlotOffset(idx, mask, a);
    }
    if c.SlotsStay() {
      assert c.Slot(0, mask) + c.accessSize <= c.Region(0) + c.bufferSize;
      SlotOffset(mask, mask, a);
    }
  }

  /// The sequential mode reaches no slot beyond its iterations, so it stays inside the regions if and
  /// only if the slots it visits are not too many.
  lemma SequentialStaysIff(c: Cfg, k: nat)
    requires c.threadNum > 0 && c.accessSize == Pow2(c.accessSizeBits) && c.bufSlotsMask + 1 == Pow2(k)
    ensures c.SequentialStays() <==> c.Visited() * c.accessSize <= c.bufferSize
  {
    hide Shl, Pow2, And;
    var a, mask, n := c.accessSizeBits, c.bufSlotsMask, c.Visited();
    forall t: nat, i: nat | t < c.threadNum && i < c.iters && n * c.accessSize <= c.bufferSize
      ensures c.Slot(t, And(i, mask)) + c.accessSize <= c.Region(t) + c.bufferSize
    {
      VisitedSlot(i, k);
      SlotOffset(And(i, mask), n - 1, a);
    }
    if c.SequentialStays() && n > 0 {
      VisitedSlot(n - 1, k);
      assert c.Slot(0, And(n - 1, mask)) + c.accessSize <= c.Region(0) + c.bufferSize;
      SlotOffset(n - 1, n - 1, a);
    }
  }

  lemma VisitedSlot(i: nat, k: nat)
    ensures And(i, Pow2(k) - 1) <= i && And(i, Pow2(k) - 1) < Pow2(k)
    ensures i < Pow2(k) ==> And(i, Pow2(k) - 1) == i
  {
    AndMask(i, k);
    RemainderBounds(i, Pow2(k));
  }

  lemma RemainderBounds(i: nat, m: nat)
    requires m > 0
    ensures i % m <= i && i % m < m && (i < m ==> i % m == i)
  {
    if i < m {
      RemainderIs(i, m, 0, i);
    }
  }

  lemma CheckedSlotsStay(c: Cfg)
    requires c.Initialised() && c.Passes() && c.Validated()
    ensures c.SlotsStay()
  {
    assert c.threadNum > 0;
    hide Pow2, Cfg.SlotsStay, Cfg.Passes, Cfg.Initialised;
    var a, b := CheckedSizes(c);
    var k := if b - a < 32 then b - a else 32;
    FewerSlots(k, b - a, a);
    SlotsStayIff(c);
  }

  lemma CheckedIsTiled(c: Cfg)
    requires c.Initialised() && c.Passes()
    ensures c.Tiled() <==> c.bufSlots <= WORD32
  {
    hide Pow2, Cfg.Passes, Cfg.Initialised, HighestBit;
    var a, b := CheckedSizes(c);
    assert c.bufSlots == Pow2(b - a) by { CheckedSlots(c, a, b); }
    Pow2Add(b - a, a);
    Pow2Of32();
    if b - a <= 32 {
      if b - a < 32 {
        Pow2Grows(b - a, 32);
      }
    } else {
      Pow2Grows(32, b - a);
      Strictly(WORD32, Pow2(b - a), Pow2(a));
    }
  }

  lemma CheckedSlots(c: Cfg, a: nat, b: nat)
    requires c.Initialised() && a <= b && c.accessSize == Pow2(a) && c.bufferSize == Pow2(b)
    ensures c.bufSlots == Pow2(b - a)
  {
    Pow2Quotient(a, b);
  }

  lemma Strictly(x: nat, y: nat, z: nat)
    requires x < y && z > 0
    ensures x * z < y * z
  {
  }

  lemma TimesMonotone(x: nat, y: nat, z: nat)
    requires x <= y
    ensures x * z <= y * z
  {
  }

  /// Two slots of a region are the same or do not meet.
  lemma SlotsApart(c: Cfg, t: nat, i: nat, j: nat)
    requires c.accessSize == Pow2(c.accessSizeBits) && i < j
    ensures c.Slot(t, i) + c.accessSize <= c.Slot(t, j)
  {
    SlotOffset(i, j - 1, c.accessSizeBits);
  }

  /// Regions
  /// -------

  lemma RegionsApart(c: Cfg, t: nat, u: nat)
    requires t < u
    ensures c.Region(t) + c.bufferSize <= c.Region(u)
  {
    TimesMonotone(t + 1, u, c.bufferSize);
    assert (t + 1) * c.bufferSize == t * c.bufferSize + c.bufferSize;
  }

  /// The product in the check can wrap around, so passing does not mean that the regions fit.  They
  /// do if and only if one buffer fits.
  lemma RegionsFitIff(c: Cfg)
    requires c.Passes() && c.Validated()
    ensures c.RegionsFit() <==> c.bufferSize <= HALF
  {
    if c.bufferSize <= HALF {
      TimesMonotone(c.threadNum, MAX_THREAD_NUM, c.bufferSize);
      assert c.threadNum * c.bufferSize == c.bufferSize * c.threadNum;
      forall t: nat | t < c.threadNum ensures c.Region(t) + c.bufferSize <= c.aepBuf + HALF {
        RegionsApart(c, t, c.threadNum);
      }
    }
    if c.RegionsFit() {
      assert c.Region(0) + c.bufferSize <= c.aepBuf + HALF;
    }
  }

  lemma RegionsFitTogether(c: Cfg)
    requires c.threadNum * c.bufferSize <= HALF
    ensures c.RegionsFit()
  {
    forall t: nat | t < c.threadNum ensures c.Region(t) + c.bufferSize <= c.aepBuf + HALF {
      RegionsApart(c, t, c.threadNum);
    }
  }

  /// Sixteen buffers of 2^60 bytes pass the check: their product is 2^64, which is zero.
  lemma WrappedCheckPasses() returns (c: Cfg)
    ensures c.Initialised() && c.Passes() && c.Validated() && !c.RegionsFit()
    ensures c.Region(1) == c.aepBuf + 0x1000_0000_0000_0000
  {
    c := Cfg(0x1_0000, AEP_SIZE, 16, 16, 0x1000_0000_0000_0000, 16, 1, 0x100_0000_0000_0000, 0xffff_ffff, 4);
    Pow2Values();
    HighestBitOf(c.bufferSize, 60);
    HighestBitOf(c.accessSize, 4);
    HighestBitOf(c.bufSlots, 56);
    MaskOf(56);
    RegionsFitIff(c);
  }

  lemma Pow2Values()
    ensures Pow2(4) == 16 && Pow2(56) == 0x100_0000_0000_0000 && Pow2(60) == 0x1000_0000_0000_0000
  {
    Pow2Of32();
    EightMore(32);
    EightMore(40);
    EightMore(48);
    assert Pow2(60) == 16 * Pow2(56) by { Pow2Add(4, 56); }
  }

  /// Copy sources lie half a device above their destinations: out of reach of every destination, still
  /// on the device, and aligned with their destination for every vector routine.
  lemma SourceOfSlot(c: Cfg, t: nat, idx: nat, u: nat)
    requires c.RegionsFit() && t < c.threadNum && u < c.threadNum
    requires c.Slot(t, idx) + c.accessSize <= c.Region(t) + c.bufferSize
    ensures c.Region(u) + c.bufferSize <= c.aepBuf + HALF <= c.Slot(t, idx) + HALF
    ensures c.Slot(t, idx) + HALF + c.accessSize <= c.aepBuf + AEP_SIZE
    ensures Compatible(c.Slot(t, idx), c.Slot(t, idx) + HALF, c.accessSize)
  {
    hide Compatible, Shl;
    assert c.Region(u) + c.bufferSize <= c.aepBuf + HALF;
    assert c.Region(t) + c.bufferSize <= c.aepBuf + HALF;
    SameResidue(c.Slot(t, idx));
    CongruentIsCompatible(c.Slot(t, idx), c.Slot(t, idx) + HALF, c.accessSize);
  }

  lemma SameResidue(d: nat)
    ensures d % 32 == (d + HALF) % 32
  {
  }

  /// In a configuration that passes, with buffers that fit, all slots, all copy sources and the reads at the
  /// start of every thread end before the mapping of the device does.
  lemma CheckedStaysMapped(c: Cfg, t: nat, idx: nat)
    requires c.Initialised() && c.Passes() && c.Validated() && c.bufferSize <= HALF
    requires t < c.threadNum && idx <= c.bufSlotsMask
    ensures c.aepBuf <= c.Slot(t, idx)
    ensures c.Slot(t, idx) + c.accessSize <= c.aepBuf + c.aepBufSize
    ensures c.Slot(t, idx) + 0x8_0000_0000 + c.accessSize <= c.aepBuf + c.aepBufSize
    ensures c.Region(t) + 0x20_0000 <= c.aepBuf + c.aepBufSize
    ensures c.Region(t) + 0x8_0000_0000 + 0x20_0000 <= c.aepBuf + c.aepBufSize
  {
    assert c.aepBufSize >= 0x10_0000_0000 && c.threadNum <= MAX_THREAD_NUM;
    hide Cfg.Initialised, Cfg.Passes, Cfg.RegionsFit, Shl;
    RegionsFitIff(c);
    CheckedSlotsStay(c);
    SourceOfSlot(c, t, idx, t);
    WarmUpStays(c, t);
  }

  /// The warm-up reads of `PrepareJob` stay on the device.
  lemma WarmUpStays(c: Cfg, t: nat)
    requires c.RegionsFit() && t < c.threadNum <= MAX_THREAD_NUM
    ensures c.Region(t) + AEP_TAIL_READ_SIZE <= c.aepBuf + HALF
    ensures c.Region(t) + HALF + AEP_TAIL_READ_SIZE <= c.aepBuf + AEP_SIZE
  {
    assert c.Region(t) + c.bufferSize <= c.aepBuf + HALF;
    if c.bufferSize < AEP_TAIL_READ_SIZE {
      TimesMonotone(t, MAX_THREAD_NUM, c.bufferSize);
    }
  }
}
