/// Copy code
/// =========
///
/// The instructions of `util/instr.h` and of the small copies in `util/aep.h`, and what a plan
/// turns into.

module CopyCode {
  import opened PersistentMemory
  import opened Instructions
  import opened CopyPlans
  import opened WriteBackPlans

  /// Kernels
  /// -------
  ///
  /// The kernels load `k` 32-byte registers and then store them; the flushing ones write a line
  /// back after every second store.

  function LoadWords(ld: Kind, src: nat, k: nat): seq<Instr> {
    if k == 0 then [] else LoadWords(ld, src, k - 1) + [Load(k - 1, src + 32 * (k - 1), 32, ld)]
  }

  function StoreWords(st: Kind, dest: nat, k: nat): seq<Instr> {
    if k == 0 then [] else StoreWords(st, dest, k - 1) + [Store(k - 1, dest + 32 * (k - 1), 32, st)]
  }

  function StorePair(st: Kind, dest: nat, j: nat): seq<Instr> {
    [Store(2 * j, dest + 64 * j, 32, st), Store(2 * j + 1, dest + 64 * j + 32, 32, st), Clwb(dest + 64 * j)]
  }

  function StoreLines(st: Kind, dest: nat, j: nat): seq<Instr> {
    if j == 0 then [] else StoreLines(st, dest, j - 1) + StorePair(st, dest, j - 1)
  }

  /// `cpy_less_16b_noflush`: two overlapping words, both loaded before either is stored.
  function Overlapping(dest: nat, src: nat, n: nat, w: nat): seq<Instr>
    requires w <= n
  {
    [Load(0, src, w, Scalar), Load(1, src + n - w, w, Scalar),
     Store(0, dest, w, Scalar), Store(1, dest + n - w, w, Scalar)]
  }

  function Single(dest: nat, src: nat, n: nat, ld: Kind, st: Kind): seq<Instr> {
    [Load(0, src, n, ld), Store(0, dest, n, st)]
  }

  function SmallCopy(dest: nat, src: nat, n: nat): seq<Instr> {
    if n == 0 then []
    else if n > 8 then Overlapping(dest, src, n, 8)
    else if n <= 2 then Single(dest, src, n, Scalar, Scalar)
    else if n > 4 then Overlapping(dest, src, n, 4)
    else Overlapping(dest, src, n, 2)
  }

  /// How chunks are moved: with vector kernels, with the C library's `memcpy`, or by `memset`.
  datatype Style = Vector(ld: Kind, st: Kind) | Native | Set(value: byte)

  predicate NonTemporal(style: Style) {
    style.Vector? && style.st.Streaming?
  }

  function ChunkCode(style: Style, dest: nat, src: nat, n: nat, flush: bool): seq<Instr> {
    match style
    case Native => Single(dest, src, n, Scalar, Scalar)
    case Set(value) => [Fill(dest, n, value)]
    case Vector(ld, st) =>
      if n < 16 then SmallCopy(dest, src, n)
      else if n == 16 then Single(dest, src, 16, ld, st)
      else if flush then LoadWords(ld, src, n / 32) + StoreLines(st, dest, n / 64)
      else LoadWords(ld, src, n / 32) + StoreWords(st, dest, n / 32)
  }

  function ActCode(style: Style, dest: nat, src: nat, act: Action): seq<Instr> {
    match act
    case Copy(off, n, flush) => ChunkCode(style, dest + off, src + off, n, flush)
    case WriteBack(addr) => [Clwb(LineOf(addr))]
  }

  function Code(style: Style, dest: nat, src: nat, plan: Plan): seq<Instr> {
    if plan == [] then []
    else ActCode(style, dest, src, plan[0]) + Code(style, dest, src, plan[1..])
  }

  lemma {:induction false} CodeConcat(style: Style, dest: nat, src: nat, p: Plan, q: Plan)
    ensures Code(style, dest, src, p + q) == Code(style, dest, src, p) + Code(style, dest, src, q)
  {
    if p == [] {
      assert p + q == q;
    } else {
      assert (p + q)[1..] == p[1..] + q;
      CodeConcat(style, dest, src, p[1..], q);
    }
  }

  /// What a plan can be made of for a style to have code for it.
  predicate Suits(style: Style, dest: nat, act: Action) {
    match act
    case Copy(_, n, flush) =>
      if style.Vector? then Placed(dest, act) && (flush ==> !style.st.Streaming?) else n > 0 && !flush
    case WriteBack(_) => true
  }

  predicate AllSuit(style: Style, dest: nat, plan: Plan) {
    forall act | act in plan :: Suits(style, dest, act)
  }

  /// Code and phases
  /// ---------------

  lemma {:induction false} LoadWordsPhase(phase: nat, ld: Kind, src: nat, k: nat, a: nat)
    ensures CodePhase(phase, LoadWords(ld, src, k), a) == phase
  {
    if k > 0 {
      LoadWordsPhase(phase, ld, src, k - 1, a);
      CodePhaseConcat(phase, LoadWords(ld, src, k - 1), [Load(k - 1, src + 32 * (k - 1), 32, ld)], a);
    }
  }

  lemma {:induction false} StoreWordsPhase(phase: nat, st: Kind, dest: nat, k: nat, a: nat)
    ensures CodePhase(phase, StoreWords(st, dest, k), a) ==
            if Within(a, dest, dest + 32 * k) then (if st.Streaming? then 2 else 1) else phase
  {
    if k > 0 {
      StoreWordsPhase(phase, st, dest, k - 1, a);
      var last := Store(k - 1, dest + 32 * (k - 1), 32, st);
      CodePhaseConcat(phase, StoreWords(st, dest, k - 1), [last], a);
    }
  }

  /// Each write-back of a flushing kernel names the line its two stores just filled; this is where
  /// the 64-byte alignment of `dest` is needed.
  lemma {:induction false} StoreLinesPhase(phase: nat, st: Kind, dest: nat, j: nat, a: nat)
    requires dest % 64 == 0 && !st.Streaming?
    ensures CodePhase(phase, StoreLines(st, dest, j), a) == if Within(a, dest, dest + 64 * j) then 2 else phase
  {
    if j > 0 {
      StoreLinesPhase(phase, st, dest, j - 1, a);
      CodePhaseConcat(phase, StoreLines(st, dest, j - 1), StorePair(st, dest, j - 1), a);
      StorePairPhase(CodePhase(phase, StoreLines(st, dest, j - 1), a), st, dest, j - 1, a);
    }
  }

  lemma StorePairPhase(phase: nat, st: Kind, dest: nat, j: nat, a: nat)
    requires dest % 64 == 0 && !st.Streaming?
    ensures CodePhase(phase, StorePair(st, dest, j), a) ==
            if Within(a, dest + 64 * j, dest + 64 * j + 64) then 2 else phase
  {
    var p := StorePair(st, dest, j);
    assert p[1..] == [p[1], p[2]] && p[1..][1..] == [p[2]];
    assert LineOf(dest + 64 * j) == dest + 64 * j;
    var p1 := PhaseAfter(phase, p[0], a);
    var p2 := PhaseAfter(p1, p[1], a);
    assert CodePhase(p2, [p[2]], a) == PhaseAfter(p2, p[2], a);
    if !Within(a, dest + 64 * j, dest + 64 * j + 64) {
      assert p2 == phase && !InLine(dest + 64 * j, a);
    }
  }

  lemma SinglePhase(phase: nat, dest: nat, src: nat, n: nat, ld: Kind, st: Kind, a: nat)
    ensures CodePhase(phase, Single(dest, src, n, ld, st), a) ==
            if Within(a, dest, dest + n) then (if st.Streaming? then 2 else 1) else phase
  {
    var p := Single(dest, src, n, ld, st);
    assert p[1..] == [p[1]];
    assert CodePhase(phase, p, a) == CodePhase(phase, [p[1]], a) == PhaseAfter(phase, p[1], a);
  }

  lemma OverlappingPhase(phase: nat, dest: nat, src: nat, n: nat, w: nat, a: nat)
    requires w <= n <= 2 * w
    ensures CodePhase(phase, Overlapping(dest, src, n, w), a) ==
            if Within(a, dest, dest + n) then 1 else phase
  {
    var p := Overlapping(dest, src, n, w);
    assert p[1..] == [p[1], p[2], p[3]] && p[1..][1..] == [p[2], p[3]] && p[1..][1..][1..] == [p[3]];
    assert CodePhase(phase, p, a) == CodePhase(phase, p[1..], a) == CodePhase(phase, [p[2], p[3]], a);
    assert [p[2], p[3]][1..] == [p[3]];
    var p1 := PhaseAfter(phase, p[2], a);
    assert CodePhase(phase, [p[2], p[3]], a) == CodePhase(p1, [p[3]], a) == PhaseAfter(p1, p[3], a);
  }

  lemma SmallCopyPhase(phase: nat, dest: nat, src: nat, n: nat, a: nat)
    requires n < 16
    ensures CodePhase(phase, SmallCopy(dest, src, n), a) == if Within(a, dest, dest + n) then 1 else phase
  {
    hide Overlapping, Single;
    if n > 2 {
      OverlappingPhase(phase, dest, src, n, if n > 8 then 8 else if n > 4 then 4 else 2, a);
    } else if n > 0 {
      SinglePhase(phase, dest, src, n, Scalar, Scalar, a);
    }
  }

  lemma KernelPhase(phase: nat, ld: Kind, st: Kind, dest: nat, src: nat, n: nat, flush: bool, a: nat)
    requires n in {32, 64, 128, 256, 512}
    requires flush ==> n >= 64 && dest % 64 == 0 && !st.Streaming?
    ensures CodePhase(phase, ChunkCode(Vector(ld, st), dest, src, n, flush), a) ==
            if Within(a, dest, dest + n) then (if flush || st.Streaming? then 2 else 1) else phase
  {
    hide LoadWords, StoreWords, StoreLines, CodePhase;
    LoadWordsPhase(phase, ld, src, n / 32, a);
    if flush {
      CodePhaseConcat(phase, LoadWords(ld, src, n / 32), StoreLines(st, dest, n / 64), a);
      StoreLinesPhase(phase, st, dest, n / 64, a);
    } else {
      CodePhaseConcat(phase, LoadWords(ld, src, n / 32), StoreWords(st, dest, n / 32), a);
      StoreWordsPhase(phase, st, dest, n / 32, a);
    }
  }

  lemma ActCodePhase(phase: nat, style: Style, dest: nat, src: nat, act: Action, a: nat)
    requires Suits(style, dest, act)
    ensures CodePhase(phase, ActCode(style, dest, src, act), a) ==
            ActPhase(phase, NonTemporal(style), dest, act, a)
  {
    hide CodePhase, ChunkCode, LineOf;
    match act
    case WriteBack(addr) => ClwbPhase(phase, addr, a);
    case Copy(off, n, flush) => ChunkPhase(phase, style, dest, src, off, n, flush, a);
  }

  lemma ClwbPhase(phase: nat, addr: nat, a: nat)
    ensures CodePhase(phase, [Clwb(LineOf(addr))], a) == if InLine(LineOf(addr), a) && phase == 1 then 2 else phase
  {
    assert LineOf(LineOf(addr)) == LineOf(addr);
  }

  lemma ChunkPhase(phase: nat, style: Style, dest: nat, src: nat, off: nat, n: nat, flush: bool, a: nat)
    requires Suits(style, dest, Copy(off, n, flush))
    ensures CodePhase(phase, ChunkCode(style, dest + off, src + off, n, flush), a) ==
            ActPhase(phase, NonTemporal(style), dest, Copy(off, n, flush), a)
  {
    hide SmallCopy, Single, CodePhase, LoadWords, StoreWords, StoreLines;
    var d, s := dest + off, src + off;
    match style
    case Native => SinglePhase(phase, d, s, n, Scalar, Scalar, a);
    case Set(value) => FillPhase(phase, d, n, value, a);
    case Vector(ld, st) =>
      if n < 16 {
        SmallCopyPhase(phase, d, s, n, a);
      } else if n == 16 {
        SinglePhase(phase, d, s, n, ld, st, a);
      } else {
        KernelPhase(phase, ld, st, d, s, n, flush, a);
      }
  }

  lemma FillPhase(phase: nat, dest: nat, n: nat, value: byte, a: nat)
    ensures CodePhase(phase, [Fill(dest, n, value)], a) == if Within(a, dest, dest + n) then 1 else phase
  {
  }

  lemma {:induction false} CodePhaseIsPlanPhase(phase: nat, style: Style, dest: nat, src: nat, plan: Plan, a: nat)
    requires AllSuit(style, dest, plan)
    ensures CodePhase(phase, Code(style, dest, src, plan), a) ==
            PlanPhase(phase, NonTemporal(style), dest, plan, a)
    decreases plan
  {
    if plan != [] {
      assert plan[0] in plan;
      assert forall act | act in plan[1..] :: act in plan;
      ActCodePhase(phase, style, dest, src, plan[0], a);
      CodePhaseConcat(phase, ActCode(style, dest, src, plan[0]), Code(style, dest, src, plan[1..]), a);
      CodePhaseIsPlanPhase(ActPhase(phase, NonTemporal(style), dest, plan[0], a), style, dest, src, plan[1..], a);
    }
  }
}
