/// When a vector copy is legal
/// ===========================
///
/// The kernels fault on misaligned addresses.  The plan makes every destination aligned; whether
/// the sources are aligned too depends on the distance between the two ranges.

module CopyLegality {
  import opened Division
  import opened Instructions
  import opened CopyPlans
  import opened CopyCode

  function AlignUp(d: nat, w: nat): nat
    requires w > 0
  {
    if d % w == 0 then d else d + (w - d % w)
  }

  /// The destination range holds a whole aligned block of `w` bytes.
  predicate HasBlock(dest: nat, len: nat, w: nat)
    requires w > 0
  {
    AlignUp(dest, w) + w <= dest + len
  }

  /// The distance between the ranges suits every block the destination holds.
  predicate Compatible(dest: nat, src: nat, len: nat) {
    && (HasBlock(dest, len, 16) ==> dest % 16 == src % 16)
    && (HasBlock(dest, len, 32) ==> dest % 32 == src % 32)
  }

  predicate Uses(plan: Plan, w: nat) {
    exists act | act in plan :: act.Copy? && act.n >= w
  }

  lemma UsesConcat(p: Plan, q: Plan, w: nat)
    ensures Uses(p + q, w) <==> Uses(p, w) || Uses(q, w)
  {
    if Uses(p, w) {
      var act :| act in p && act.Copy? && act.n >= w;
      assert act in p + q;
    }
    if Uses(q, w) {
      var act :| act in q && act.Copy? && act.n >= w;
      assert act in p + q;
    }
  }

  lemma UsesChunk(off: nat, n: nat, w: nat)
    requires w > 0
    ensures Uses(Chunk(off, n), w) <==> n >= w
  {
    if n >= w {
      assert Copy(off, n, false) in Chunk(off, n);
    }
  }

  lemma FrontUses(dest: nat, len: nat, w0: Plan, w1: Plan, w: nat)
    requires OnlyWriteBacks(w0) && OnlyWriteBacks(w1) && w in {16, 32}
    ensures Uses(Front(dest, len, w0, w1), w) <==> Head16(dest, len) >= w || Head32(dest, len) >= w
  {
    HeadSteps(dest, len);
    var c0, c1, c2 := SmallHead(dest, len), Head16(dest, len), Head32(dest, len);
    var p, v := Chunk(0, c0), VectorHead(dest, len);
    UsesChunk(0, c0, w);
    UsesChunk(c0, c1, w);
    UsesChunk(c0 + c1, c2, w);
    UsesConcat(Chunk(c0, c1), Chunk(c0 + c1, c2), w);
    UsesConcat(p, w0, w);
    UsesConcat(p + w0, v, w);
    UsesConcat(p + w0 + v, w1, w);
  }

  lemma LadderUses(off: nat, len: nat, flush: bool, w: nat)
    requires w <= 64
    ensures Uses(Ladder(off, len, flush), w) <==> len >= 64
  {
    if len >= 64 {
      assert Copy(off, Rung(len), flush) in Ladder(off, len, flush);
    }
  }

  lemma BackUses(dest: nat, len: nat, flush: bool, w2: Plan, w: nat)
    requires OnlyWriteBacks(w2) && w in {16, 32}
    ensures Uses(Back(dest, len, flush, w2), w) <==> len - HeadLen(dest, len) >= w
  {
    hide HeadLen, Ladder, VectorTail, SmallTail;
    Leftover(dest, len);
    var h, b := HeadLen(dest, len), Body(dest, len);
    PiecesUse(h, len - h, b, len - b, flush, w2, w);
  }

  lemma PiecesUse(h: nat, n: nat, b: nat, r: nat, flush: bool, w2: Plan, w: nat)
    requires OnlyWriteBacks(w2) && w in {16, 32}
    requires r < 64 && (n < 64 ==> r == n)
    ensures Uses(Ladder(h, n, flush) + VectorTail(b, r) + SmallTail(b, r) + w2, w) <==> n >= w
  {
    var l, t, s := Ladder(h, n, flush), VectorTail(b, r), SmallTail(b, r);
    LadderUses(h, n, flush, w);
    UsesChunk(b, Tail32(r), w);
    UsesChunk(b + Tail32(r), Tail16(r), w);
    UsesChunk(b + TailPtr(r), r - TailPtr(r), w);
    UsesConcat(Chunk(b, Tail32(r)), Chunk(b + Tail32(r), Tail16(r)), w);
    UsesConcat(l, t, w);
    UsesConcat(l + t, s, w);
    UsesConcat(l + t + s, w2, w);
  }

  /// A routine runs a kernel of at least `w` bytes exactly when its destination holds an aligned
  /// block of that size.
  lemma UsesBlock(dest: nat, len: nat, w0: Plan, w1: Plan, flush: bool, w2: Plan, w: nat)
    requires OnlyWriteBacks(w0) && OnlyWriteBacks(w1) && OnlyWriteBacks(w2) && w in {16, 32}
    ensures Uses(Front(dest, len, w0, w1) + Back(dest, len, flush, w2), w) <==> HasBlock(dest, len, w)
  {
    FrontUses(dest, len, w0, w1, w);
    BackUses(dest, len, flush, w2, w);
    UsesConcat(Front(dest, len, w0, w1), Back(dest, len, flush, w2), w);
    HeadSteps(dest, len);
    HeadAligns(dest, len);
    if w == 16 {
      BlockAfterHead16(dest, len, SmallHead(dest, len));
    } else {
      BlockAfterHead32(dest, len, SmallHead(dest, len), Head16(dest, len));
    }
  }

  lemma AlignUpIs16(dest: nat, x: nat)
    requires x % 16 == 0 && dest <= x < dest + 16
    ensures AlignUp(dest, 16) == x
  {
  }

  lemma AlignUpIs32(dest: nat, x: nat)
    requires x % 32 == 0 && dest <= x < dest + 32
    ensures AlignUp(dest, 32) == x
  {
  }

  lemma AlignUpMonotone(dest: nat)
    ensures AlignUp(dest, 16) <= AlignUp(dest, 32)
  {
    var base, x := dest - dest % 32, dest % 32;
    assert dest % 16 == x % 16;
  }

  lemma BlockAfterHead16(dest: nat, len: nat, c0: nat)
    requires c0 == SmallHead(dest, len)
    ensures HasBlock(dest, len, 16) <==> len - c0 >= 16
  {
    SmallStep(dest, len);
    if len > c0 {
      AlignUpIs16(dest, dest + c0);
    }
  }

  lemma BlockAfterHead32(dest: nat, len: nat, c0: nat, c1: nat)
    requires c0 == SmallHead(dest, len) && c1 == Head16(dest, len)
    ensures HasBlock(dest, len, 32) <==> len - c0 - c1 >= 32
  {
    hide SmallHead, Head16, AlignUp;
    HeadSteps(dest, len);
    if len - c0 - c1 >= 16 {
      AlignUpIs32(dest, dest + c0 + c1);
    } else if HasBlock(dest, len, 32) {
      AlignUpMonotone(dest);
      BlockAfterHead16(dest, len, c0);
      AlignUpIs16(dest, dest + c0);
      assert false;
    }
  }

  /// The source of the chunk is aligned as its kernel demands.
  predicate SourceFits(act: Action, src: nat) {
    act.Copy? ==>
      && (act.n == 16 ==> (src + act.off) % 16 == 0)
      && (act.n >= 32 ==> (src + act.off) % 32 == 0)
  }

  lemma AllLegalConcat(p: seq<Instr>, q: seq<Instr>)
    ensures AllLegal(p + q) <==> AllLegal(p) && AllLegal(q)
  {
    assert forall i | i in p :: i in p + q;
    assert forall i | i in q :: i in p + q;
  }

  lemma {:induction false} WordsLegal(ld: Kind, st: Kind, dest: nat, src: nat, k: nat)
    requires !ld.Scalar? && !st.Scalar? && dest % 32 == 0
    ensures k > 0 ==> (AllLegal(LoadWords(ld, src, k)) <==> src % 32 == 0)
    ensures AllLegal(StoreWords(st, dest, k))
  {
    if k > 0 {
      WordsLegal(ld, st, dest, src, k - 1);
      var load, store := Load(k - 1, src + 32 * (k - 1), 32, ld), Store(k - 1, dest + 32 * (k - 1), 32, st);
      AllLegalConcat(LoadWords(ld, src, k - 1), [load]);
      AllLegalConcat(StoreWords(st, dest, k - 1), [store]);
      WordResidue(src, k - 1);
      WordResidue(dest, k - 1);
      assert load in [load] && store in [store];
    }
  }

  lemma WordResidue(d: nat, j: nat)
    ensures (d + 32 * j) % 32 == d % 32
  {
    RemainderIs(d + 32 * j, 32, d / 32 + j, d % 32);
  }

  lemma {:induction false} LinesLegal(st: Kind, dest: nat, j: nat)
    requires dest % 32 == 0
    ensures AllLegal(StoreLines(st, dest, j))
  {
    if j > 0 {
      LinesLegal(st, dest, j - 1);
      PairLegal(st, dest, j - 1);
      AllLegalConcat(StoreLines(st, dest, j - 1), StorePair(st, dest, j - 1));
    }
  }

  lemma PairLegal(st: Kind, dest: nat, j: nat)
    requires dest % 32 == 0
    ensures AllLegal(StorePair(st, dest, j))
  {
    Residue32(dest / 32 + 2 * j, 0);
    Residue32(dest / 32 + 2 * j + 1, 0);
  }

  lemma KernelLegal(ld: Kind, st: Kind, dest: nat, src: nat, n: nat, flush: bool)
    requires !ld.Scalar? && !st.Scalar? && dest % 32 == 0 && n >= 32
    ensures AllLegal(ChunkCode(Vector(ld, st), dest, src, n, flush)) <==> src % 32 == 0
  {
    hide LoadWords, StoreWords, StoreLines, AllLegal;
    WordsLegal(ld, st, dest, src, n / 32);
    LinesLegal(st, dest, n / 64);
    AllLegalConcat(LoadWords(ld, src, n / 32),
                   if flush then StoreLines(st, dest, n / 64) else StoreWords(st, dest, n / 32));
  }

  lemma ActLegal(ld: Kind, st: Kind, dest: nat, src: nat, act: Action)
    requires !ld.Scalar? && !st.Scalar? && Placed(dest, act)
    ensures AllLegal(ActCode(Vector(ld, st), dest, src, act)) <==> SourceFits(act, src)
  {
    var code := ActCode(Vector(ld, st), dest, src, act);
    if act.Copy? {
      if act.n == 16 {
        assert code[0] in code;
      } else if act.n >= 32 {
        if act.n > 32 {
          MultipleOf64(dest + act.off);
        }
        KernelLegal(ld, st, dest + act.off, src + act.off, act.n, act.flush);
      }
    }
  }

  lemma {:induction false} CodeLegal(ld: Kind, st: Kind, dest: nat, src: nat, plan: Plan)
    requires !ld.Scalar? && !st.Scalar? && AllPlaced(dest, plan)
    ensures AllLegal(Code(Vector(ld, st), dest, src, plan)) <==> forall act | act in plan :: SourceFits(act, src)
  {
    if plan != [] {
      assert plan[0] in plan;
      assert forall act | act in plan[1..] :: act in plan;
      assert plan == [plan[0]] + plan[1..];
      ActLegal(ld, st, dest, src, plan[0]);
      CodeLegal(ld, st, dest, src, plan[1..]);
      AllLegalConcat(ActCode(Vector(ld, st), dest, src, plan[0]), Code(Vector(ld, st), dest, src, plan[1..]));
    }
  }

  lemma FitsIffCongruent(dest: nat, src: nat, act: Action)
    requires act.Copy? && Placed(dest, act)
    ensures act.n == 16 ==> (SourceFits(act, src) <==> dest % 16 == src % 16)
    ensures act.n >= 32 ==> (SourceFits(act, src) <==> dest % 32 == src % 32)
  {
    if act.n == 16 {
      Congruent16(dest, src, act.off);
    } else if act.n >= 32 {
      if act.n > 32 {
        MultipleOf64(dest + act.off);
      }
      Congruent32(dest, src, act.off);
    }
  }

  lemma Congruent16(dest: nat, src: nat, off: nat)
    requires (dest + off) % 16 == 0
    ensures (src + off) % 16 == 0 <==> dest % 16 == src % 16
  {
  }

  lemma Congruent32(dest: nat, src: nat, off: nat)
    requires (dest + off) % 32 == 0
    ensures (src + off) % 32 == 0 <==> dest % 32 == src % 32
  {
  }

  lemma UsesAtLeast(plan: Plan, act: Action, w: nat)
    requires act in plan && act.Copy? && act.n >= w
    ensures Uses(plan, w)
  {
  }

  lemma FitsIffCompatible(dest: nat, src: nat, len: nat, plan: Plan)
    requires AllPlaced(dest, plan)
    requires Uses(plan, 16) <==> HasBlock(dest, len, 16)
    requires Uses(plan, 32) <==> HasBlock(dest, len, 32)
    ensures (forall act | act in plan :: SourceFits(act, src)) <==> Compatible(dest, src, len)
  {
    hide HasBlock, Placed;
    if Compatible(dest, src, len) {
      forall act | act in plan ensures SourceFits(act, src) {
        CompatibleFits(dest, src, len, plan, act);
      }
    }
    if forall act | act in plan :: SourceFits(act, src) {
      if Uses(plan, 16) {
        var act :| act in plan && act.Copy? && act.n >= 16;
        FitsCongruent(dest, src, act);
      }
      if Uses(plan, 32) {
        var act :| act in plan && act.Copy? && act.n >= 32;
        FitsCongruent(dest, src, act);
      }
    }
  }

  lemma CompatibleFits(dest: nat, src: nat, len: nat, plan: Plan, act: Action)
    requires act in plan && Placed(dest, act)
    requires Compatible(dest, src, len)
    requires Uses(plan, 16) <==> HasBlock(dest, len, 16)
    requires Uses(plan, 32) <==> HasBlock(dest, len, 32)
    ensures SourceFits(act, src)
  {
    hide HasBlock, Uses;
    if act.Copy? {
      if act.n >= 32 {
        UsesAtLeast(plan, act, 32);
        FitsIffCongruent(dest, src, act);
      } else if act.n == 16 {
        UsesAtLeast(plan, act, 16);
        FitsIffCongruent(dest, src, act);
      }
    }
  }

  lemma FitsCongruent(dest: nat, src: nat, act: Action)
    requires act.Copy? && Placed(dest, act) && SourceFits(act, src)
    ensures act.n >= 16 ==> dest % 16 == src % 16
    ensures act.n >= 32 ==> dest % 32 == src % 32
  {
    hide SourceFits;
    FitsIffCongruent(dest, src, act);
    if act.n >= 32 {
      Coarser(dest, src);
    }
  }

  lemma Coarser(d: nat, s: nat)
    requires d % 32 == s % 32
    ensures d % 16 == s % 16
  {
    Residue16(2 * (d / 32), d % 32);
    Residue16(2 * (s / 32), s % 32);
  }

  /// A vector routine runs without a misaligned access if and only if the ranges are aligned to
  /// each other as far as the destination holds whole blocks.
  lemma LegalIffCompatible(ld: Kind, st: Kind, dest: nat, src: nat, len: nat, plan: Plan)
    requires !ld.Scalar? && !st.Scalar?
    requires plan in {PlainPlan(dest, len), FlushPlan(dest, len), NtPlan(dest, len)}
    ensures AllLegal(Code(Vector(ld, st), dest, src, plan)) <==> Compatible(dest, src, len)
  {
    PlansAreSound(dest, len, plan);
    CodeLegal(ld, st, dest, src, plan);
    PlanUses(dest, len, plan, 16);
    PlanUses(dest, len, plan, 32);
    FitsIffCompatible(dest, src, len, plan);
  }

  lemma PlanUses(dest: nat, len: nat, plan: Plan, w: nat)
    requires plan in {PlainPlan(dest, len), FlushPlan(dest, len), NtPlan(dest, len)} && w in {16, 32}
    ensures Uses(plan, w) <==> HasBlock(dest, len, w)
  {
    UsesBlock(dest, len, [], [], false, [], w);
    UsesBlock(dest, len, [], OnlyIf(dest % 64 != 0, dest), true,
              OnlyIf(len != Body(dest, len), LastPtr(dest, len)), w);
    UsesBlock(dest, len, OnlyIf(dest % 16 != 0, dest), [], false, [WriteBack(LastPtr(dest, len))], w);
  }

  /// In particular, ranges that agree modulo 32 are always fine, for every length.
  lemma CongruentIsCompatible(dest: nat, src: nat, len: nat)
    requires dest % 32 == src % 32
    ensures Compatible(dest, src, len)
  {
    hide HasBlock;
    Coarser(dest, src);
  }

  /// Where the routine runs a 16-byte kernel, or larger ones, its source is aligned.
  lemma Source16(dest: nat, src: nat, len: nat, off: nat)
    requires Compatible(dest, src, len) && (dest + off) % 16 == 0
    requires len - SmallHead(dest, len) >= 16
    ensures (src + off) % 16 == 0
  {
    BlockAfterHead16(dest, len, SmallHead(dest, len));
    Congruent16(dest, src, off);
  }

  lemma Source32(dest: nat, src: nat, len: nat, off: nat)
    requires Compatible(dest, src, len) && (dest + off) % 32 == 0
    requires len - SmallHead(dest, len) - Head16(dest, len) >= 32
    ensures (src + off) % 32 == 0
  {
    BlockAfterHead32(dest, len, SmallHead(dest, len), Head16(dest, len));
    Congruent32(dest, src, off);
  }
}
