/// Loads only, stores only
/// =======================
///
/// The `_just_*` routines of `util/aep_just.h` touch a range without copying it.  They cut it up as
/// the copies do, and work at any address and length.  The bytes they store come from registers
/// nobody has set, so only where they store is of interest.

module JustAccess {
  import opened PersistentMemory
  import opened Instructions
  import opened CopyPlans
  import opened WriteBackPlans
  import opened CopyCode
  import opened CopyLegality
  import opened PersistentCopies

  datatype Access = Loading(ld: Kind) | Storing(st: Kind)

  /// `_just_load`, `_just_ntload` and `_just_store_noflush`; `_just_store_flush`; `_just_ntstore`
  datatype Routine = Plain | Flush | Nt

  function PlanFor(r: Routine, addr: nat, len: nat): Plan {
    match r
    case Plain => PlainPlan(addr, len)
    case Flush => FlushPlan(addr, len)
    case Nt => NtPlan(addr, len)
  }

  /// One scalar access of `w` bytes.
  function Word(access: Access, addr: nat, w: nat): Instr {
    if access.Loading? then Load(0, addr, w, Scalar) else Fill(addr, w, 0xff)
  }

  function Ends(access: Access, addr: nat, n: nat, w: nat): seq<Instr>
    requires w <= n
  {
    [Word(access, addr, w), Word(access, addr + n - w, w)]
  }

  /// `_just_less_16b_load` has no return after its 8-byte loads, and goes on with the 4-byte ones.
  function SmallAccess(access: Access, addr: nat, n: nat): seq<Instr> {
    if n == 0 then []
    else if n > 8 then Ends(access, addr, n, 8) + if access.Loading? then Ends(access, addr, n, 4) else []
    else if n <= 2 then [Word(access, addr, n)]
    else if n > 4 then Ends(access, addr, n, 4)
    else Ends(access, addr, n, 2)
  }

  function AccessChunk(access: Access, addr: nat, n: nat, flush: bool): seq<Instr> {
    if n < 16 then SmallAccess(access, addr, n)
    else match access
      case Loading(ld) => if n == 16 then [Load(0, addr, 16, ld)] else LoadWords(ld, addr, n / 32)
      case Storing(st) =>
        if n == 16 then [Store(0, addr, 16, st)]
        else if flush then StoreLines(st, addr, n / 64)
        else StoreWords(st, addr, n / 32)
  }

  function ActAccess(access: Access, addr: nat, act: Action): seq<Instr> {
    match act
    case Copy(off, n, flush) => AccessChunk(access, addr + off, n, flush)
    case WriteBack(at) => [Clwb(LineOf(at))]
  }

  function AccessCode(access: Access, addr: nat, plan: Plan): seq<Instr> {
    if plan == [] then [] else ActAccess(access, addr, plan[0]) + AccessCode(access, addr, plan[1..])
  }

  lemma {:induction false} AccessConcat(access: Access, addr: nat, p: Plan, q: Plan)
    ensures AccessCode(access, addr, p + q) == AccessCode(access, addr, p) + AccessCode(access, addr, q)
  {
    if p == [] {
      assert p + q == q;
    } else {
      assert (p + q)[1..] == p[1..] + q;
      AccessConcat(access, addr, p[1..], q);
    }
  }

  /// Footprints
  /// ----------

  predicate Touches(access: Access, i: Instr, a: nat) {
    if access.Loading? then Loads(i, a) else Stores(i, a)
  }

  ghost predicate Touched(access: Access, code: seq<Instr>, a: nat) {
    exists i :: i in code && Touches(access, i, a)
  }

  lemma TouchedConcat(access: Access, p: seq<Instr>, q: seq<Instr>, a: nat)
    ensures Touched(access, p + q, a) <==> Touched(access, p, a) || Touched(access, q, a)
  {
    if Touched(access, p, a) {
      var i :| i in p && Touches(access, i, a);
      assert i in p + q;
    }
    if Touched(access, q, a) {
      var i :| i in q && Touches(access, i, a);
      assert i in p + q;
    }
  }

  lemma TouchedOne(access: Access, i: Instr, a: nat)
    ensures Touched(access, [i], a) <==> Touches(access, i, a)
  {
    assert i in [i];
  }

  lemma EndsTouch(access: Access, addr: nat, n: nat, w: nat, a: nat)
    requires w <= n
    ensures Touched(access, Ends(access, addr, n, w), a) <==>
            Within(a, addr, addr + w) || Within(a, addr + n - w, addr + n)
  {
    var x, y := Word(access, addr, w), Word(access, addr + n - w, w);
    TouchedOne(access, x, a);
    TouchedOne(access, y, a);
    TouchedConcat(access, [x], [y], a);
    assert [x] + [y] == Ends(access, addr, n, w);
  }

  lemma SmallTouches(access: Access, addr: nat, n: nat, a: nat)
    requires n < 16
    ensures Touched(access, SmallAccess(access, addr, n), a) <==> Within(a, addr, addr + n)
  {
    hide Touched, Ends;
    if n == 0 {
      NothingTouched(access, a);
    } else if n <= 2 {
      TouchedOne(access, Word(access, addr, n), a);
    } else if n <= 8 {
      EndsTouch(access, addr, n, if n > 4 then 4 else 2, a);
    } else {
      EndsTouch(access, addr, n, 8, a);
      EndsTouch(access, addr, n, 4, a);
      TouchedConcat(access, Ends(access, addr, n, 8), Ends(access, addr, n, 4), a);
      assert Ends(access, addr, n, 8) + [] == Ends(access, addr, n, 8);
    }
  }

  lemma NothingTouched(access: Access, a: nat)
    ensures !Touched(access, [], a)
  {
  }

  lemma {:induction false} WordsTouch(kind: Kind, addr: nat, k: nat, a: nat)
    ensures Touched(Loading(kind), LoadWords(kind, addr, k), a) <==> Within(a, addr, addr + 32 * k)
    ensures Touched(Storing(kind), StoreWords(kind, addr, k), a) <==> Within(a, addr, addr + 32 * k)
  {
    hide Touched;
    if k == 0 {
      NothingTouched(Loading(kind), a);
      NothingTouched(Storing(kind), a);
    } else {
      WordsTouch(kind, addr, k - 1, a);
      var load, store := Load(k - 1, addr + 32 * (k - 1), 32, kind), Store(k - 1, addr + 32 * (k - 1), 32, kind);
      TouchedOne(Loading(kind), load, a);
      TouchedOne(Storing(kind), store, a);
      TouchedConcat(Loading(kind), LoadWords(kind, addr, k - 1), [load], a);
      TouchedConcat(Storing(kind), StoreWords(kind, addr, k - 1), [store], a);
    }
  }

  lemma {:induction false} LinesTouch(st: Kind, addr: nat, j: nat, a: nat)
    ensures Touched(Storing(st), StoreLines(st, addr, j), a) <==> Within(a, addr, addr + 64 * j)
  {
    hide Touched;
    if j == 0 {
      NothingTouched(Storing(st), a);
    } else {
      LinesTouch(st, addr, j - 1, a);
      PairTouches(st, addr, j - 1, a);
      TouchedConcat(Storing(st), StoreLines(st, addr, j - 1), StorePair(st, addr, j - 1), a);
    }
  }

  lemma PairTouches(st: Kind, addr: nat, j: nat, a: nat)
    ensures Touched(Storing(st), StorePair(st, addr, j), a) <==> Within(a, addr + 64 * j, addr + 64 * j + 64)
  {
    var p := StorePair(st, addr, j);
    assert p[0] in p && p[1] in p;
    assert forall i | i in p :: i == p[0] || i == p[1] || i == p[2];
  }

  lemma ChunkTouches(access: Access, addr: nat, act: Action, a: nat)
    requires act.Copy? && Placed(addr, act)
    ensures Touched(access, ActAccess(access, addr, act), a) <==>
            Within(a, addr + act.off, addr + act.off + act.n)
  {
    hide Touched, SmallAccess, LoadWords, StoreWords, StoreLines;
    var at, n := addr + act.off, act.n;
    if n < 16 {
      SmallTouches(access, at, n, a);
    } else if n == 16 {
      TouchedOne(access, if access.Loading? then Load(0, at, 16, access.ld) else Store(0, at, 16, access.st), a);
    } else {
      WordsTouch(if access.Loading? then access.ld else access.st, at, n / 32, a);
      if access.Storing? {
        LinesTouch(access.st, at, n / 64, a);
      }
    }
  }

  lemma {:induction false} PlanTouches(access: Access, addr: nat, plan: Plan, lo: nat, hi: nat, a: nat)
    requires Contiguous(plan, lo, hi) && AllPlaced(addr, plan)
    ensures Touched(access, AccessCode(access, addr, plan), a) <==> Within(a, addr + lo, addr + hi)
    decreases plan
  {
    hide Touched, ActAccess;
    if plan == [] {
      NothingTouched(access, a);
    } else {
      var act := plan[0];
      assert act in plan && forall x | x in plan[1..] :: x in plan;
      var mid := if act.Copy? then lo + act.n else lo;
      if act.Copy? {
        ChunkTouches(access, addr, act, a);
      } else {
        WriteBackTouchesNothing(access, addr, act, a);
      }
      ContiguousBounds(plan[1..], mid, hi);
      PlanTouches(access, addr, plan[1..], mid, hi, a);
      TouchedConcat(access, ActAccess(access, addr, act), AccessCode(access, addr, plan[1..]), a);
    }
  }

  lemma WriteBackTouchesNothing(access: Access, addr: nat, act: Action, a: nat)
    requires act.WriteBack?
    ensures !Touched(access, ActAccess(access, addr, act), a)
  {
  }

  /// A load routine reads exactly its range, a store routine writes exactly its range.
  lemma FootprintIsExact(access: Access, r: Routine, addr: nat, len: nat, a: nat)
    ensures Touched(access, AccessCode(access, addr, PlanFor(r, addr, len)), a) <==> Within(a, addr, addr + len)
  {
    PlansAreSound(addr, len, PlanFor(r, addr, len));
    PlanTouches(access, addr, PlanFor(r, addr, len), 0, len, a);
  }

  /// Legality
  /// --------

  lemma ChunkIsLegal(access: Access, addr: nat, act: Action)
    requires Placed(addr, act)
    requires if access.Loading? then !access.ld.Scalar? else !access.st.Scalar?
    ensures AllLegal(ActAccess(access, addr, act))
  {
    hide LoadWords, StoreWords, StoreLines;
    if act.Copy? && act.n >= 32 {
      var at := addr + act.off;
      if act.n > 32 {
        MultipleOf64(at);
      }
      var kind := if access.Loading? then access.ld else access.st;
      WordsLegal(kind, kind, at, at, act.n / 32);
      LinesLegal(kind, at, act.n / 64);
    }
  }

  lemma {:induction false} AccessIsLegal(access: Access, addr: nat, plan: Plan)
    requires AllPlaced(addr, plan)
    requires if access.Loading? then !access.ld.Scalar? else !access.st.Scalar?
    ensures AllLegal(AccessCode(access, addr, plan))
  {
    hide ActAccess, Placed;
    if plan != [] {
      assert plan[0] in plan && forall x | x in plan[1..] :: x in plan;
      ChunkIsLegal(access, addr, plan[0]);
      AccessIsLegal(access, addr, plan[1..]);
      AllLegalConcat(ActAccess(access, addr, plan[0]), AccessCode(access, addr, plan[1..]));
    }
  }

  /// No routine ever makes a misaligned vector access, whatever its address and length.
  lemma AlwaysLegal(access: Access, r: Routine, addr: nat, len: nat)
    requires if access.Loading? then !access.ld.Scalar? else !access.st.Scalar?
    ensures AllLegal(AccessCode(access, addr, PlanFor(r, addr, len)))
  {
    PlansAreSound(addr, len, PlanFor(r, addr, len));
    AccessIsLegal(access, addr, PlanFor(r, addr, len));
  }

  /// Write-backs
  /// -----------

  lemma EndsPhase(phase: nat, st: Kind, addr: nat, n: nat, w: nat, a: nat)
    requires w <= n <= 2 * w
    ensures CodePhase(phase, Ends(Storing(st), addr, n, w), a) == if Within(a, addr, addr + n) then 1 else phase
  {
    var p := Ends(Storing(st), addr, n, w);
    assert p[1..] == [p[1]];
    var p1 := PhaseAfter(phase, p[0], a);
    assert CodePhase(p1, [p[1]], a) == PhaseAfter(p1, p[1], a);
  }

  lemma SmallStorePhase(phase: nat, st: Kind, addr: nat, n: nat, a: nat)
    requires n < 16
    ensures CodePhase(phase, SmallAccess(Storing(st), addr, n), a) == if Within(a, addr, addr + n) then 1 else phase
  {
    hide Ends;
    if n > 2 {
      var w := if n > 8 then 8 else if n > 4 then 4 else 2;
      EndsPhase(phase, st, addr, n, w, a);
      assert Ends(Storing(st), addr, n, w) + [] == Ends(Storing(st), addr, n, w);
    }
  }

  lemma StoreChunkPhase(phase: nat, st: Kind, addr: nat, act: Action, a: nat)
    requires Suits(Vector(st, st), addr, act)
    ensures CodePhase(phase, ActAccess(Storing(st), addr, act), a) == ActPhase(phase, st.Streaming?, addr, act, a)
  {
    hide SmallAccess, StoreWords, StoreLines, CodePhase, LineOf;
    match act
    case WriteBack(at) => ClwbPhase(phase, at, a);
    case Copy(off, n, flush) =>
      if n < 16 {
        SmallStorePhase(phase, st, addr + off, n, a);
      } else if n == 16 {
        OneStorePhase(phase, st, addr + off, a);
      } else if flush {
        StoreLinesPhase(phase, st, addr + off, n / 64, a);
      } else {
        StoreWordsPhase(phase, st, addr + off, n / 32, a);
      }
  }

  lemma OneStorePhase(phase: nat, st: Kind, addr: nat, a: nat)
    ensures CodePhase(phase, [Store(0, addr, 16, st)], a) ==
            if Within(a, addr, addr + 16) then (if st.Streaming? then 2 else 1) else phase
  {
  }

  lemma {:induction false} StorePhase(phase: nat, st: Kind, addr: nat, plan: Plan, a: nat)
    requires AllSuit(Vector(st, st), addr, plan)
    ensures CodePhase(phase, AccessCode(Storing(st), addr, plan), a) == PlanPhase(phase, st.Streaming?, addr, plan, a)
    decreases plan
  {
    hide ActAccess, Suits;
    if plan != [] {
      assert plan[0] in plan && forall act | act in plan[1..] :: act in plan;
      StoreChunkPhase(phase, st, addr, plan[0], a);
      CodePhaseConcat(phase, ActAccess(Storing(st), addr, plan[0]), AccessCode(Storing(st), addr, plan[1..]), a);
      StorePhase(ActPhase(phase, st.Streaming?, addr, plan[0], a), st, addr, plan[1..], a);
    }
  }

  /// `aep_just_store_flush_by_all`, `aep_just_store_flush_by_cacheline` and `aep_just_ntstore`: the
  /// same plans as the copies, and a fence.
  function StoreOperation(strategy: Strategy, addr: nat, len: nat): seq<Instr> {
    AccessCode(Storing(if strategy.NtStores? then Streaming else Aligned), addr,
               PlanOf(VectorCopy(Aligned, strategy), addr, len)) + [Sfence]
  }

  /// Whatever bytes are stored, they are on the media afterwards, under every interleaving.
  lemma JustStoresPersist(strategy: Strategy, addr: nat, len: nat, t: nat, regs: Regs, image: nat -> byte,
                          c0: Cell, log: seq<Event>, a: nat)
    requires Project(log, t) == Resolve(StoreOperation(strategy, addr, len), t, regs, image)
    requires Within(a, addr, addr + len) && SoleWriter(log, a, t)
    ensures Clean(At(c0, log, a)) && |At(c0, log, a).versions| > |c0.versions|
  {
    var op := VectorCopy(Aligned, strategy);
    var plan := PlanOf(op, addr, len);
    var st := if strategy.NtStores? then Streaming else Aligned;
    PlanIsGood(op, addr, len);
    SuitsStores(addr, plan, st);
    hide PlanOf, AccessCode, Contiguous, AllSuit;
    StorePhase(0, st, addr, plan, a);
    PlanSettles(op, 0, addr, len, a);
    CodePhaseConcat(0, AccessCode(Storing(st), addr, plan), [Sfence], a);
    FencePhase(a);
    CodePhaseIsPhase(0, StoreOperation(strategy, addr, len), t, regs, image, a);
    PhaseIsSound(c0, log, t, a);
  }

  lemma SuitsStores(addr: nat, plan: Plan, st: Kind)
    requires AllSuit(Vector(Aligned, st), addr, plan)
    ensures AllSuit(Vector(st, st), addr, plan)
  {
  }

  lemma FencePhase(a: nat)
    ensures CodePhase(2, [Sfence], a) == 3
  {
  }

  /// The routines
  /// ------------
  ///
  /// The methods return the instructions they issue.

  lemma ChunkIsAccess(access: Access, addr: nat, off: nat, n: nat)
    ensures AccessCode(access, addr, Chunk(off, n)) == if n == 0 then [] else AccessChunk(access, addr + off, n, false)
  {
    if n > 0 {
      assert Chunk(off, n)[1..] == [];
    }
  }

  lemma WriteBackAccess(access: Access, addr: nat, cond: bool, at: nat)
    ensures AccessCode(access, addr, OnlyIf(cond, at)) == if cond then [Clwb(LineOf(at))] else []
  {
    if cond {
      assert OnlyIf(cond, at)[1..] == [];
    }
  }

  lemma LadderAccess(access: Access, addr: nat, off: nat, n: nat, flush: bool)
    ensures AccessCode(access, addr, Ladder(off, n, flush)) ==
            if n < 64 then []
            else AccessChunk(access, addr + off, Rung(n), flush)
                 + AccessCode(access, addr, Ladder(off + Rung(n), n - Rung(n), flush))
  {
    hide AccessChunk;
    if n >= 64 {
      assert Ladder(off, n, flush)[1..] == Ladder(off + Rung(n), n - Rung(n), flush);
    }
  }

  function HeadPlan(r: Routine, addr: nat, len: nat): Plan {
    Chunk(0, SmallHead(addr, len)) + OnlyIf(r.Nt? && addr % 16 != 0, addr)
    + VectorHead(addr, len) + OnlyIf(r.Flush? && addr % 64 != 0, addr)
  }

  function TailPlan(r: Routine, addr: nat, b: nat, n: nat): Plan
    requires n < 64
  {
    VectorTail(b, n) + SmallTail(b, n) + OnlyIf(r.Nt? || (r.Flush? && n != 0), addr + b + TailPtr(n))
  }

  lemma PlanPieces(r: Routine, addr: nat, len: nat)
    ensures var h, b := HeadLen(addr, len), Body(addr, len);
            && h <= b <= len && len - b < 64
            && PlanFor(r, addr, len) ==
               HeadPlan(r, addr, len) + Ladder(h, len - h, r.Flush?) + TailPlan(r, addr, b, len - b)
  {
    hide HeadLen, Body, Front, Back, HeadPlan, TailPlan, Ladder;
    Leftover(addr, len);
    FrontIsHead(r, addr, len);
    BackIsTail(r, addr, len);
  }

  lemma FrontIsHead(r: Routine, addr: nat, len: nat)
    ensures HeadPlan(r, addr, len) ==
            Front(addr, len, if r.Nt? then OnlyIf(addr % 16 != 0, addr) else [],
                  if r.Flush? then OnlyIf(addr % 64 != 0, addr) else [])
  {
    hide SmallHead, VectorHead, Chunk;
  }

  lemma BackIsTail(r: Routine, addr: nat, len: nat)
    ensures var h, b := HeadLen(addr, len), Body(addr, len);
            var w2 := match r case Plain => [] case Flush => OnlyIf(len != b, LastPtr(addr, len))
                              case Nt => [WriteBack(LastPtr(addr, len))];
            h <= b <= len && len - b < 64
            && Back(addr, len, r.Flush?, w2) == Ladder(h, len - h, r.Flush?) + TailPlan(r, addr, b, len - b)
  {
    hide HeadLen, Body, Ladder, VectorTail, SmallTail, TailPtr;
    Leftover(addr, len);
  }

  method AccessHead(access: Access, r: Routine, addr0: nat, len0: nat)
    returns (code: seq<Instr>, addr: nat, len: nat)
    ensures addr == addr0 + HeadLen(addr0, len0) && len == len0 - HeadLen(addr0, len0)
    ensures code == AccessCode(access, addr0, HeadPlan(r, addr0, len0))
  {
    hide AccessChunk, AccessCode, Chunk, SmallAccess, OnlyIf;
    ghost var c0, c1, c2 := SmallHead(addr0, len0), Head16(addr0, len0), Head32(addr0, len0);
    HeadSteps(addr0, len0);
    code, addr, len := [], addr0, len0;
    var cnt := addr % 16;
    if cnt > 0 {
      cnt := 16 - cnt;
      if cnt > len {
        cnt := len;
      }
      code := SmallAccess(access, addr, cnt);
      if r.Nt? {
        code := code + [Clwb(LineOf(addr))];
      }
      addr, len := addr + cnt, len - cnt;
    }
    SmallHeadAccess(access, addr0, c0);
    assert SmallAccess(access, addr0, c0) + [] == SmallAccess(access, addr0, c0);
    WriteBackAccess(access, addr0, r.Nt? && addr0 % 16 != 0, addr0);
    ghost var p := Chunk(0, c0) + OnlyIf(r.Nt? && addr0 % 16 != 0, addr0);
    AccessConcat(access, addr0, Chunk(0, c0), OnlyIf(r.Nt? && addr0 % 16 != 0, addr0));
    assert code == AccessCode(access, addr0, p);
    var vector;
    vector, addr, len := AccessVectorHead(access, addr0, len0, addr, len);
    code := code + vector;
    AccessConcat(access, addr0, p, VectorHead(addr0, len0));
    p := p + VectorHead(addr0, len0);
    if r.Flush? && addr0 % 64 != 0 {
      code := code + [Clwb(LineOf(addr0))];
    }
    WriteBackAccess(access, addr0, r.Flush? && addr0 % 64 != 0, addr0);
    AccessConcat(access, addr0, p, OnlyIf(r.Flush? && addr0 % 64 != 0, addr0));
  }

  lemma SmallHeadAccess(access: Access, addr: nat, n: nat)
    requires n < 16
    ensures AccessCode(access, addr, Chunk(0, n)) == SmallAccess(access, addr, n)
    ensures n == 0 ==> SmallAccess(access, addr, n) == []
  {
    ChunkIsAccess(access, addr, 0, n);
  }

  method AccessVectorHead(access: Access, ghost addr0: nat, ghost len0: nat, addr1: nat, len1: nat)
    returns (code: seq<Instr>, addr: nat, len: nat)
    requires addr1 == addr0 + SmallHead(addr0, len0) && len1 == len0 - SmallHead(addr0, len0)
    ensures addr == addr0 + HeadLen(addr0, len0) && len == len0 - HeadLen(addr0, len0)
    ensures code == AccessCode(access, addr0, VectorHead(addr0, len0))
  {
    hide AccessChunk, AccessCode, Chunk, SmallHead, Bit;
    ghost var c0, c1, c2 := SmallHead(addr0, len0), Head16(addr0, len0), Head32(addr0, len0);
    HeadSteps(addr0, len0);
    code, addr, len := [], addr1, len1;
    if Bit(addr, 16) && len >= 16 {
      code := AccessChunk(access, addr, 16, false);
      addr, len := addr + 16, len - 16;
    }
    ChunkIsAccess(access, addr0, c0, c1);
    if Bit(addr, 32) && len >= 32 {
      code := code + AccessChunk(access, addr, 32, false);
      addr, len := addr + 32, len - 32;
    }
    ChunkIsAccess(access, addr0, c0 + c1, c2);
    AccessConcat(access, addr0, Chunk(c0, c1), Chunk(c0 + c1, c2));
  }

  /// One kernel of the ladder, added to the code so far.
  method AccessRung(access: Access, flush: bool, ghost base: nat, sofar: seq<Instr>, addr: nat, len: nat, size: nat)
    returns (code: seq<Instr>)
    requires base <= addr && len >= 64 && size == Rung(len)
    ensures code + AccessCode(access, base, Ladder(addr - base + size, len - size, flush)) ==
            sofar + AccessCode(access, base, Ladder(addr - base, len, flush))
    ensures LadderLen(len) == size + LadderLen(len - size)
  {
    hide AccessChunk, AccessCode, Ladder;
    ghost var chunk := AccessChunk(access, addr, size, flush);
    ghost var rest := AccessCode(access, base, Ladder(addr - base + size, len - size, flush));
    LadderAccess(access, base, addr - base, len, flush);
    assert sofar + (chunk + rest) == sofar + chunk + rest;
    code := sofar + AccessChunk(access, addr, size, flush);
  }

  method AccessLadder(access: Access, flush: bool, ghost base: nat, addr0: nat, len0: nat)
    returns (code: seq<Instr>, addr: nat, len: nat)
    requires base <= addr0
    ensures addr == addr0 + LadderLen(len0) && len == len0 - LadderLen(len0)
    ensures code == AccessCode(access, base, Ladder(addr0 - base, len0, flush))
  {
    hide AccessChunk, AccessCode, Ladder, LadderLen;
    code, addr, len := [], addr0, len0;
    ghost var goal := AccessCode(access, base, Ladder(addr0 - base, len0, flush));
    assert [] + goal == goal;
    while len >= 512
      invariant len <= len0 && addr == addr0 + (len0 - len) && LadderLen(len0) == len0 - len + LadderLen(len)
      invariant code + AccessCode(access, base, Ladder(addr - base, len, flush)) == goal
    {
      code := AccessRung(access, flush, base, code, addr, len, 512);
      addr, len := addr + 512, len - 512;
    }
    if len >= 256 {
      code := AccessRung(access, flush, base, code, addr, len, 256);
      addr, len := addr + 256, len - 256;
    }
    if len >= 128 {
      code := AccessRung(access, flush, base, code, addr, len, 128);
      addr, len := addr + 128, len - 128;
    }
    if len >= 64 {
      code := AccessRung(access, flush, base, code, addr, len, 64);
      addr, len := addr + 64, len - 64;
    }
    LadderAccess(access, base, addr - base, len, flush);
    ShortLadder(len);
    assert code + [] == code;
  }

  lemma ShortLadder(len: nat)
    requires len < 64
    ensures LadderLen(len) == 0
  {
  }

  method AccessTail(access: Access, r: Routine, ghost base: nat, addr0: nat, len0: nat) returns (code: seq<Instr>)
    requires base <= addr0 && len0 < 64
    ensures code == AccessCode(access, base, TailPlan(r, base, addr0 - base, len0))
  {
    hide AccessChunk, AccessCode, Chunk, SmallAccess, OnlyIf, VectorTail;
    ghost var b := addr0 - base;
    var addr, len := addr0, len0;
    var needFlush := r.Nt? || (r.Flush? && len != 0);
    code, addr, len := AccessVectorTail(access, base, addr, len);
    code := code + SmallAccess(access, addr, len);
    LastAccess(access, base, b + TailPtr(len0), len0 - TailPtr(len0));
    AccessConcat(access, base, VectorTail(b, len0), SmallTail(b, len0));
    if needFlush {
      code := code + [Clwb(LineOf(addr))];
    }
    WriteBackAccess(access, base, needFlush, addr);
    AccessConcat(access, base, VectorTail(b, len0) + SmallTail(b, len0), OnlyIf(needFlush, addr));
  }

  method AccessVectorTail(access: Access, ghost base: nat, addr0: nat, len0: nat)
    returns (code: seq<Instr>, addr: nat, len: nat)
    requires base <= addr0 && len0 < 64
    ensures addr == addr0 + TailPtr(len0) && len == len0 - TailPtr(len0)
    ensures code == AccessCode(access, base, VectorTail(addr0 - base, len0))
  {
    hide AccessChunk, AccessCode, Chunk;
    ghost var b := addr0 - base;
    code, addr, len := [], addr0, len0;
    if len >= 32 {
      code := AccessChunk(access, addr, 32, false);
      addr, len := addr + 32, len - 32;
    }
    ghost var first := code;
    ChunkIsAccess(access, base, b, Tail32(len0));
    if len >= 16 {
      code := code + AccessChunk(access, addr, 16, false);
      addr, len := addr + 16, len - 16;
    }
    ChunkIsAccess(access, base, b + Tail32(len0), Tail16(len0));
    AccessConcat(access, base, Chunk(b, Tail32(len0)), Chunk(b + Tail32(len0), Tail16(len0)));
    assert first + [] == first;
  }

  lemma LastAccess(access: Access, base: nat, off: nat, n: nat)
    requires n < 16
    ensures AccessCode(access, base, Chunk(off, n)) == SmallAccess(access, base + off, n)
  {
    ChunkIsAccess(access, base, off, n);
  }

  /// `_just_load`, `_just_ntload`, `_just_store_noflush`, `_just_store_flush`, `_just_ntstore`
  method JustTouch(access: Access, r: Routine, addr0: nat, len0: nat) returns (code: seq<Instr>)
    requires if access.Loading? then !access.ld.Scalar? else !access.st.Scalar?
    ensures code == AccessCode(access, addr0, PlanFor(r, addr0, len0))
    ensures AllLegal(code) && forall a: nat :: Touched(access, code, a) <==> Within(a, addr0, addr0 + len0)
  {
    hide AccessCode, HeadPlan, TailPlan, Ladder, Body, HeadLen, PlanFor, AllLegal, Touched;
    PlanPieces(r, addr0, len0);
    BodyIs(addr0, len0);
    Leftover(addr0, len0);
    ghost var h, b := HeadLen(addr0, len0), Body(addr0, len0);
    var head, addr, len := AccessHead(access, r, addr0, len0);
    var ladder;
    ladder, addr, len := AccessLadder(access, r.Flush?, addr0, addr, len);
    var tail := AccessTail(access, r, addr0, addr, len);
    code := head + ladder + tail;
    AccessConcat(access, addr0, HeadPlan(r, addr0, len0), Ladder(h, len0 - h, r.Flush?));
    AccessConcat(access, addr0, HeadPlan(r, addr0, len0) + Ladder(h, len0 - h, r.Flush?),
                 TailPlan(r, addr0, b, len0 - b));
    AlwaysLegal(access, r, addr0, len0);
    forall a: nat ensures Touched(access, code, a) <==> Within(a, addr0, addr0 + len0) {
      FootprintIsExact(access, r, addr0, len0, a);
    }
  }
}
