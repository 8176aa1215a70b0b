/// What a plan does to each byte, and which lines it writes back
/// =============================================================

module WriteBackPlans {
  import opened Division
  import opened PersistentMemory
  import opened CopyPlans

  /// Phases
  /// ------
  ///
  /// The phase a chunk leaves its bytes in (see `PersistentMemory.Phase`).  Chunks below 16 bytes
  /// always go through the cache.
  function Mark(nt: bool, act: Action): nat
    requires act.Copy?
  {
    if act.flush || (nt && act.n >= 16) then 2 else 1
  }

  predicate Within(a: nat, lo: nat, hi: nat) {
    lo <= a < hi
  }

  function ActPhase(phase: nat, nt: bool, dest: nat, act: Action, a: nat): nat {
    match act
    case Copy(off, n, _) => if Within(a, dest + off, dest + off + n) then Mark(nt, act) else phase
    case WriteBack(addr) => if InLine(LineOf(addr), a) && phase == 1 then 2 else phase
  }

  function PlanPhase(phase: nat, nt: bool, dest: nat, plan: Plan, a: nat): nat
    decreases plan
  {
    if plan == [] then phase
    else PlanPhase(ActPhase(phase, nt, dest, plan[0], a), nt, dest, plan[1..], a)
  }

  lemma {:induction false} PlanPhaseConcat(phase: nat, nt: bool, dest: nat, p: Plan, q: Plan, a: nat)
    ensures PlanPhase(phase, nt, dest, p + q, a) ==
            PlanPhase(PlanPhase(phase, nt, dest, p, a), nt, dest, q, a)
    decreases p
  {
    if p == [] {
      assert p + q == q;
    } else {
      assert (p + q)[1..] == p[1..] + q;
      PlanPhaseConcat(ActPhase(phase, nt, dest, p[0], a), nt, dest, p[1..], q, a);
    }
  }

  predicate AllMark(plan: Plan, nt: bool, k: nat) {
    forall act | act in plan :: act.Copy? && Mark(nt, act) == k
  }

  /// Contiguous chunks of one kind put exactly their range into that phase.
  lemma {:induction false} MarkedRange(phase: nat, nt: bool, dest: nat, plan: Plan, lo: nat, hi: nat, a: nat, k: nat)
    requires Contiguous(plan, lo, hi) && AllMark(plan, nt, k)
    ensures PlanPhase(phase, nt, dest, plan, a) == if Within(a, dest + lo, dest + hi) then k else phase
    decreases plan
  {
    if plan != [] {
      assert plan[0] in plan;
      ContiguousBounds(plan, lo, hi);
      ContiguousBounds(plan[1..], lo + plan[0].n, hi);
      MarkedRange(ActPhase(phase, nt, dest, plan[0], a), nt, dest, plan[1..], lo + plan[0].n, hi, a, k);
    }
  }

  /// Write-backs of lines that all contain `a`, or of any lines when `a` is not waiting.
  lemma {:induction false} Waiting(phase: nat, nt: bool, dest: nat, plan: Plan, a: nat)
    requires OnlyWriteBacks(plan)
    ensures phase != 1 ==> PlanPhase(phase, nt, dest, plan, a) == phase
    ensures phase == 1 && (exists act | act in plan :: InLine(LineOf(act.addr), a)) ==>
              PlanPhase(phase, nt, dest, plan, a) == 2
    ensures phase == 1 ==> PlanPhase(phase, nt, dest, plan, a) in {1, 2}
    decreases plan
  {
    if plan != [] {
      assert plan[0] in plan;
      assert plan == [plan[0]] + plan[1..];
      Waiting(ActPhase(phase, nt, dest, plan[0], a), nt, dest, plan[1..], a);
    }
  }

  /// The plan `small + w0 + vec + w1` followed by `ladder + tail + last + w2`, as the routines
  /// build it, for any pieces and any boundaries `0 <= c0 <= h <= b <= ptr <= len`.
  lemma FrontPhase(phase: nat, nt: bool, dest: nat, small: Plan, w0: Plan, vec: Plan, w1: Plan,
                   c0: nat, h: nat, a: nat)
    requires Contiguous(small, 0, c0) && AllMark(small, nt, 1)
    requires Contiguous(vec, c0, h) && AllMark(vec, nt, if nt then 2 else 1)
    ensures var p0 := PlanPhase(if Within(a, dest, dest + c0) then 1 else phase, nt, dest, w0, a);
            var p1 := if Within(a, dest + c0, dest + h) then (if nt then 2 else 1) else p0;
            PlanPhase(phase, nt, dest, small + w0 + vec + w1, a) == PlanPhase(p1, nt, dest, w1, a)
  {
    MarkedRange(phase, nt, dest, small, 0, c0, a, 1);
    PlanPhaseConcat(phase, nt, dest, small, w0, a);
    PlanPhaseConcat(phase, nt, dest, small + w0, vec, a);
    MarkedRange(PlanPhase(phase, nt, dest, small + w0, a), nt, dest, vec, c0, h, a, if nt then 2 else 1);
    PlanPhaseConcat(phase, nt, dest, small + w0 + vec, w1, a);
  }

  lemma BackPhase(phase: nat, nt: bool, dest: nat, ladder: Plan, tail: Plan, last: Plan, w2: Plan,
                  k: nat, h: nat, b: nat, ptr: nat, len: nat, a: nat)
    requires Contiguous(ladder, h, b) && AllMark(ladder, nt, k)
    requires Contiguous(tail, b, ptr) && AllMark(tail, nt, if nt then 2 else 1)
    requires Contiguous(last, ptr, len) && AllMark(last, nt, 1)
    ensures var p0 := if Within(a, dest + h, dest + b) then k else phase;
            var p1 := if Within(a, dest + b, dest + ptr) then (if nt then 2 else 1) else p0;
            var p2 := if Within(a, dest + ptr, dest + len) then 1 else p1;
            PlanPhase(phase, nt, dest, ladder + tail + last + w2, a) == PlanPhase(p2, nt, dest, w2, a)
  {
    MarkedRange(phase, nt, dest, ladder, h, b, a, k);
    PlanPhaseConcat(phase, nt, dest, ladder, tail, a);
    MarkedRange(PlanPhase(phase, nt, dest, ladder, a), nt, dest, tail, b, ptr, a, if nt then 2 else 1);
    PlanPhaseConcat(phase, nt, dest, ladder + tail, last, a);
    MarkedRange(PlanPhase(phase, nt, dest, ladder + tail, a), nt, dest, last, ptr, len, a, 1);
    PlanPhaseConcat(phase, nt, dest, ladder + tail + last, w2, a);
  }

  lemma PieceMarks(nt: bool, dest: nat, len: nat, flush: bool, c0: nat, h: nat, b: nat, ptr: nat)
    requires c0 == SmallHead(dest, len) && h == HeadLen(dest, len) && b == Body(dest, len)
    requires ptr == b + TailPtr(len - b)
    ensures c0 <= h <= b <= ptr <= len
    ensures var k := if nt then 2 else 1;
            && Contiguous(Chunk(0, c0), 0, c0) && AllMark(Chunk(0, c0), nt, 1)
            && Contiguous(VectorHead(dest, len), c0, h) && AllMark(VectorHead(dest, len), nt, k)
            && Contiguous(Ladder(h, len - h, flush), h, b)
            && AllMark(Ladder(h, len - h, flush), nt, if nt || flush then 2 else 1)
            && Contiguous(VectorTail(b, len - b), b, ptr) && AllMark(VectorTail(b, len - b), nt, k)
            && Contiguous(SmallTail(b, len - b), ptr, len) && AllMark(SmallTail(b, len - b), nt, 1)
  {
    hide SmallHead, Head16, Head32, LadderLen, Ladder, VectorHead, VectorTail, SmallTail, Contiguous, AllPlaced,
      TailPtr, Body;
    Leftover(dest, len);
    BodyIs(dest, len);
    TailPtrFits(len - b);
    HeadShape(dest, len);
    LadderShape(dest, h, len - h, flush);
    TailShape(dest, b, len - b);
  }

  /// The same for the pieces of a routine.
  lemma RoutinePhase(phase: nat, nt: bool, dest: nat, len: nat, w0: Plan, w1: Plan, flush: bool, w2: Plan, a: nat,
                     c0: nat, h: nat, b: nat, ptr: nat)
    requires c0 == SmallHead(dest, len) && h == HeadLen(dest, len) && b == Body(dest, len)
    requires ptr == b + TailPtr(len - b)
    ensures c0 <= h <= b <= ptr <= len
    ensures var vector := if nt then 2 else 1;
            var p0 := PlanPhase(if Within(a, dest, dest + c0) then 1 else phase, nt, dest, w0, a);
            var p1 := if Within(a, dest + c0, dest + h) then vector else p0;
            var p2 := PlanPhase(p1, nt, dest, w1, a);
            var p3 := if Within(a, dest + h, dest + b) then (if nt || flush then 2 else 1) else p2;
            var p4 := if Within(a, dest + b, dest + ptr) then vector else p3;
            var p5 := if Within(a, dest + ptr, dest + len) then 1 else p4;
            PlanPhase(phase, nt, dest, Front(dest, len, w0, w1) + Back(dest, len, flush, w2), a) ==
            PlanPhase(p5, nt, dest, w2, a)
  {
    hide HeadLen, SmallHead, TailPtr, Ladder, VectorHead, VectorTail, SmallTail, Contiguous, AllMark, PlanPhase;
    var k := if nt || flush then 2 else 1;
    PieceMarks(nt, dest, len, flush, c0, h, b, ptr);
    FrontPhase(phase, nt, dest, Chunk(0, c0), w0, VectorHead(dest, len), w1, c0, h, a);
    var f := Front(dest, len, w0, w1);
    BackPhase(PlanPhase(phase, nt, dest, f, a), nt, dest,
              Ladder(h, len - h, flush), VectorTail(b, len - b), SmallTail(b, len - b), w2, k, h, b, ptr, len, a);
    PlanPhaseConcat(phase, nt, dest, f, Back(dest, len, flush, w2), a);
  }

  /// Copying without flushing leaves the range in the cache.
  lemma PlainPhase(phase: nat, dest: nat, len: nat, a: nat)
    ensures PlanPhase(phase, false, dest, PlainPlan(dest, len), a) ==
            if Within(a, dest, dest + len) then 1 else phase
  {
    var b := Body(dest, len);
    RoutinePhase(phase, false, dest, len, [], [], false, [], a,
                 SmallHead(dest, len), HeadLen(dest, len), b, b + TailPtr(len - b));
  }

  /// Where the lines of the head and of the tail are.
  lemma HeadIsInLine(dest: nat, len: nat, a: nat)
    requires Within(a, dest, dest + HeadLen(dest, len))
    ensures InLine(LineOf(dest), a) && dest % 64 != 0
    ensures a < dest + SmallHead(dest, len) ==> dest % 16 != 0
  {
    HeadAligns(dest, len);
    HeadStaysInLine(dest, len);
  }

  lemma TailIsInLine(dest: nat, len: nat, a: nat)
    requires Within(a, dest + Body(dest, len), dest + len)
    ensures InLine(LineOf(LastPtr(dest, len)), a)
  {
    hide HeadLen, Body, TailPtr, LadderLen, LineOf;
    var d, n := dest + Body(dest, len), len - Body(dest, len);
    Leftover(dest, len);
    TailLine(d, n);
    LineBelow(d);
  }

  /// The flushing routine issues a write-back of every byte after its last store, although the
  /// last one names the pointer as it stands before the small tail.
  lemma FlushPhase(phase: nat, dest: nat, len: nat, a: nat)
    requires Within(a, dest, dest + len)
    ensures PlanPhase(phase, false, dest, FlushPlan(dest, len), a) == 2
  {
    var h, b := HeadLen(dest, len), Body(dest, len);
    var w1, w2 := OnlyIf(dest % 64 != 0, dest), OnlyIf(len != b, LastPtr(dest, len));
    RoutinePhase(phase, false, dest, len, [], w1, true, w2, a,
                 SmallHead(dest, len), h, b, b + TailPtr(len - b));
    if a < dest + h {
      HeadIsInLine(dest, len, a);
    } else if a >= dest + b {
      TailIsInLine(dest, len, a);
    }
    OneWriteBack(false, dest, dest, a);
    OneWriteBack(false, dest, LastPtr(dest, len), a);
  }

  lemma OneWriteBack(nt: bool, dest: nat, addr: nat, a: nat)
    ensures forall phase: nat :: PlanPhase(phase, nt, dest, [WriteBack(addr)], a) ==
              if InLine(LineOf(addr), a) && phase == 1 then 2 else phase
  {
  }

  /// The non-temporal routine sends only its small head and small tail through the cache, and
  /// writes both back.
  lemma NtPhase(phase: nat, dest: nat, len: nat, a: nat)
    requires Within(a, dest, dest + len)
    ensures PlanPhase(phase, true, dest, NtPlan(dest, len), a) == 2
  {
    var h, b := HeadLen(dest, len), Body(dest, len);
    var w0, w2 := OnlyIf(dest % 16 != 0, dest), [WriteBack(LastPtr(dest, len))];
    RoutinePhase(phase, true, dest, len, w0, [], false, w2, a,
                 SmallHead(dest, len), h, b, b + TailPtr(len - b));
    if a < dest + h {
      HeadIsInLine(dest, len, a);
    } else if a >= dest + b {
      TailIsInLine(dest, len, a);
    }
    OneWriteBack(true, dest, dest, a);
    OneWriteBack(true, dest, LastPtr(dest, len), a);
  }

  /// Flush by all
  /// ------------

  lemma {:induction false} ExtentOnlyWritesBack(lines: seq<nat>)
    ensures OnlyWriteBacks(WriteBacks(lines))
    ensures forall line | line in lines :: WriteBack(line) in WriteBacks(lines)
  {
    if lines != [] {
      ExtentOnlyWritesBack(lines[1..]);
    }
  }

  /// `Span` visits exactly the lines that meet the range.
  lemma {:induction false} SpanMeets(lo: nat, hi: nat, line: nat)
    requires lo % 64 == 0
    ensures line in Span(lo, hi) <==> line % 64 == 0 && lo <= line < hi
    decreases hi - lo
  {
    if lo < hi {
      SpanMeets(lo + 64, hi, line);
    }
  }

  lemma ExtentPhase(phase: nat, nt: bool, dest: nat, at: nat, len: nat, a: nat)
    ensures phase != 1 ==> PlanPhase(phase, nt, at, ExtentPlan(dest, len), a) == phase
    ensures phase == 1 && Within(a, dest, dest + len) ==>
              PlanPhase(phase, nt, at, ExtentPlan(dest, len), a) == 2
  {
    var lines := Span(LineOf(dest), dest + len);
    ExtentOnlyWritesBack(lines);
    Waiting(phase, nt, at, ExtentPlan(dest, len), a);
    if Within(a, dest, dest + len) {
      SpanMeets(LineOf(dest), dest + len, LineOf(a));
      assert WriteBack(LineOf(a)) in ExtentPlan(dest, len);
    }
  }

  lemma ByAllPhase(phase: nat, dest: nat, len: nat, a: nat)
    requires Within(a, dest, dest + len)
    ensures PlanPhase(phase, false, dest, ByAllPlan(dest, len), a) == 2
  {
    PlainPhase(phase, dest, len, a);
    PlanPhaseConcat(phase, false, dest, PlainPlan(dest, len), ExtentPlan(dest, len), a);
    ExtentPhase(1, false, dest, dest, len, a);
  }

  lemma NativeByAllPhase(phase: nat, dest: nat, len: nat, a: nat)
    requires Within(a, dest, dest + len)
    ensures PlanPhase(phase, false, dest, NativeByAllPlan(dest, len), a) == 2
  {
    MarkedRange(phase, false, dest, Chunk(0, len), 0, len, a, 1);
    PlanPhaseConcat(phase, false, dest, Chunk(0, len), ExtentPlan(dest, len), a);
    ExtentPhase(1, false, dest, dest, len, a);
  }

  /// Native flush
  /// ------------

  lemma {:induction false} NativeLinesPhase(phase: nat, dest: nat, off: nat, len: nat, a: nat)
    requires len > 0 ==> (dest + off) % 64 == 0
    ensures Contiguous(NativeLines(dest, off, len), off, off + len)
    ensures Within(a, dest + off, dest + off + len) ==>
              PlanPhase(phase, false, dest, NativeLines(dest, off, len), a) == 2
    ensures phase == 2 ==> PlanPhase(phase, false, dest, NativeLines(dest, off, len), a) == 2
    decreases len
  {
    if len > 0 {
      var n := Min(64, len);
      var first := [Copy(off, n, false), WriteBack(dest + off)];
      assert NativeLines(dest, off, len) == first + NativeLines(dest, off + n, len - n);
      PlanPhaseConcat(phase, false, dest, first, NativeLines(dest, off + n, len - n), a);
      var p := PlanPhase(phase, false, dest, first, a);
      assert first[1..] == [first[1]];
      OneWriteBack(false, dest, dest + off, a);
      NativeLinesPhase(p, dest, off + n, len - n, a);
    }
  }

  lemma NativePhase(phase: nat, dest: nat, len: nat, a: nat)
    ensures Contiguous(NativePlan(dest, len), 0, len)
    ensures Within(a, dest, dest + len) ==>
              PlanPhase(phase, false, dest, NativePlan(dest, len), a) == 2
  {
    var c, wb := NativeHead(dest, len), OnlyIf(dest % 64 != 0, dest);
    var rest := NativeLines(dest, c, len - c);
    MarkedRange(phase, false, dest, Chunk(0, c), 0, c, a, 1);
    PlanPhaseConcat(phase, false, dest, Chunk(0, c), wb, a);
    OneWriteBack(false, dest, dest, a);
    var p := PlanPhase(phase, false, dest, Chunk(0, c) + wb, a);
    PlanPhaseConcat(phase, false, dest, Chunk(0, c) + wb, rest, a);
    NativeLinesPhase(p, dest, c, len - c, a);
    WriteBacksMoveNothing(wb, c);
    ContiguousConcat(Chunk(0, c), 0, c, wb, c);
    ContiguousConcat(Chunk(0, c) + wb, 0, c, rest, len);
  }

  /// Write-back traces
  /// -----------------
  ///
  /// The lines that a plan writes back, in order.

  function ActLines(dest: nat, act: Action): seq<nat> {
    match act
    case Copy(off, n, flush) => if flush then Span(dest + off, dest + off + n) else []
    case WriteBack(addr) => [LineOf(addr)]
  }

  function PlanLines(dest: nat, plan: Plan): seq<nat> {
    if plan == [] then [] else ActLines(dest, plan[0]) + PlanLines(dest, plan[1..])
  }

  lemma {:induction false} PlanLinesConcat(dest: nat, p: Plan, q: Plan)
    ensures PlanLines(dest, p + q) == PlanLines(dest, p) + PlanLines(dest, q)
  {
    if p == [] {
      assert p + q == q;
    } else {
      assert (p + q)[1..] == p[1..] + q;
      PlanLinesConcat(dest, p[1..], q);
    }
  }

  lemma {:induction false} SpanConcat(lo: nat, mid: nat, hi: nat)
    requires lo <= mid <= hi && (mid - lo) % 64 == 0
    ensures Span(lo, hi) == Span(lo, mid) + Span(mid, hi)
    decreases mid - lo
  {
    if lo < mid {
      SpanConcat(lo + 64, mid, hi);
    }
  }

  lemma {:induction false} QuietLines(dest: nat, plan: Plan)
    requires forall act | act in plan :: act.Copy? && !act.flush
    ensures PlanLines(dest, plan) == []
  {
    if plan != [] {
      assert plan[0] in plan;
      QuietLines(dest, plan[1..]);
    }
  }

  lemma LadderTail(off: nat, len: nat, flush: bool)
    requires len >= 64
    ensures var ladder := Ladder(off, len, flush);
            && ladder != [] && ladder[0] == Copy(off, Rung(len), flush)
            && ladder[1..] == Ladder(off + Rung(len), len - Rung(len), flush)
  {
    hide Rung;
  }

  lemma {:induction false} LadderLines(dest: nat, off: nat, len: nat)
    ensures PlanLines(dest, Ladder(off, len, true)) == Span(dest + off, dest + off + LadderLen(len))
    ensures PlanLines(dest, Ladder(off, len, false)) == []
    decreases len
  {
    hide Span, Rung, LadderLen;
    if len < 64 {
      NoLadderLen(len);
      SpanIsEmpty(dest + off, dest + off);
    } else {
      var n := Rung(len);
      RungSteps(len);
      LadderLines(dest, off + n, len - n);
      SpanConcat(dest + off, dest + off + n, dest + off + LadderLen(len));
      LadderTail(off, len, true);
      LadderTail(off, len, false);
    }
  }

  lemma {:induction false} ExtentLines(dest: nat, lines: seq<nat>)
    requires forall line | line in lines :: line % 64 == 0
    ensures PlanLines(dest, WriteBacks(lines)) == lines
  {
    if lines != [] {
      assert lines[0] in lines;
      assert forall line | line in lines[1..] :: line in lines;
      ExtentLines(dest, lines[1..]);
    }
  }

  lemma RoutineLines(dest: nat, len: nat, w0: Plan, w1: Plan, flush: bool, w2: Plan)
    ensures PlanLines(dest, Front(dest, len, w0, w1) + Back(dest, len, flush, w2)) ==
            PlanLines(dest, w0) + PlanLines(dest, w1)
            + (if flush then Span(dest + HeadLen(dest, len), dest + Body(dest, len)) else [])
            + PlanLines(dest, w2)
  {
    hide PlanLines, HeadLen, Body, Front, Back, Span;
    var f, k := Front(dest, len, w0, w1), Back(dest, len, flush, w2);
    FrontLines(dest, len, w0, w1);
    BackLines(dest, len, flush, w2);
    PlanLinesConcat(dest, f, k);
  }

  lemma FrontLines(dest: nat, len: nat, w0: Plan, w1: Plan)
    ensures PlanLines(dest, Front(dest, len, w0, w1)) == PlanLines(dest, w0) + PlanLines(dest, w1)
  {
    var p, v := Chunk(0, SmallHead(dest, len)), VectorHead(dest, len);
    HeadShape(dest, len);
    QuietFirst(dest, p, w0);
    QuietLast(dest, p + w0, v);
    PlanLinesConcat(dest, p + w0 + v, w1);
  }

  lemma BackLines(dest: nat, len: nat, flush: bool, w2: Plan)
    ensures PlanLines(dest, Back(dest, len, flush, w2)) ==
            (if flush then Span(dest + HeadLen(dest, len), dest + Body(dest, len)) else []) + PlanLines(dest, w2)
  {
    hide PlanLines, HeadLen, Ladder, VectorTail, SmallTail, Span, LadderLen, TailPtr, Contiguous, AllPlaced, Bit;
    var h, b := HeadLen(dest, len), Body(dest, len);
    Leftover(dest, len);
    TailShape(dest, b, len - b);
    var l, t, s := Ladder(h, len - h, flush), VectorTail(b, len - b), SmallTail(b, len - b);
    LadderLines(dest, h, len - h);
    QuietLast(dest, l, t);
    QuietLast(dest, l + t, s);
    PlanLinesConcat(dest, l + t + s, w2);
  }

  lemma QuietFirst(dest: nat, p: Plan, q: Plan)
    requires forall act | act in p :: act.Copy? && !act.flush
    ensures PlanLines(dest, p + q) == PlanLines(dest, q)
  {
    QuietLines(dest, p);
    PlanLinesConcat(dest, p, q);
  }

  lemma QuietLast(dest: nat, p: Plan, q: Plan)
    requires forall act | act in q :: act.Copy? && !act.flush
    ensures PlanLines(dest, p + q) == PlanLines(dest, p)
  {
    QuietLines(dest, q);
    PlanLinesConcat(dest, p, q);
  }

  /// The one case in which the flushing routine writes a line back twice: it starts inside a line,
  /// ends before that line does, and the alignment steps leave something for the tail.
  predicate TwiceInFirstLine(dest: nat, len: nat) {
    dest % 64 != 0 && HeadLen(dest, len) < len && dest + len < LineOf(dest) + 64
  }

  /// The exact write-back trace of the flushing routine: `clwb_extent`'s, up to that case.
  lemma FlushLines(dest: nat, len: nat)
    ensures PlanLines(dest, FlushPlan(dest, len)) ==
            (if TwiceInFirstLine(dest, len) then [LineOf(dest)] else []) + Span(LineOf(dest), dest + len)
  {
    var h, b := HeadLen(dest, len), Body(dest, len);
    FlushRoutineLines(dest, len, h, b);
    FlushLinesFacts(dest, len, h, b);
    FlushLinesAre(dest, h, b, len, LineOf(LastPtr(dest, len)));
  }

  lemma FlushRoutineLines(dest: nat, len: nat, h: nat, b: nat)
    requires h == HeadLen(dest, len) && b == Body(dest, len)
    ensures PlanLines(dest, FlushPlan(dest, len)) ==
            (if dest % 64 != 0 then [LineOf(dest)] else []) + Span(dest + h, dest + b)
            + (if len != b then [LineOf(LastPtr(dest, len))] else [])
  {
    hide PlanLines, HeadLen, Body, Front, Back, Span, LastPtr, LineOf, OnlyIf;
    var last := LastPtr(dest, len);
    OneLine(dest, dest % 64 != 0, dest);
    OneLine(dest, len != b, last);
    FrontLines(dest, len, [], OnlyIf(dest % 64 != 0, dest));
    BackLines(dest, len, true, OnlyIf(len != b, last));
    JoinLines(dest, Front(dest, len, [], OnlyIf(dest % 64 != 0, dest)), Back(dest, len, true, OnlyIf(len != b, last)),
              if dest % 64 != 0 then [LineOf(dest)] else [], Span(dest + h, dest + b),
              if len != b then [LineOf(last)] else []);
  }

  lemma NoLines(dest: nat)
    ensures PlanLines(dest, []) == []
  {
  }

  lemma JoinLines(dest: nat, p: Plan, q: Plan, x: seq<nat>, y: seq<nat>, z: seq<nat>)
    requires PlanLines(dest, p) == PlanLines(dest, []) + x
    requires PlanLines(dest, q) == y + z
    ensures PlanLines(dest, p + q) == x + y + z
  {
    hide PlanLines;
    NoLines(dest);
    PlanLinesConcat(dest, p, q);
  }

  lemma FlushLinesFacts(dest: nat, len: nat, h: nat, b: nat)
    requires h == HeadLen(dest, len) && b == Body(dest, len)
    ensures h <= b <= len < b + 64
    ensures dest % 64 == 0 ==> h == 0
    ensures dest + h <= LineOf(dest) + 64
    ensures len > h ==> (dest + h) % 16 == 0
    ensures len - h >= 16 ==> (dest + h) % 32 == 0
    ensures len - h >= 32 ==> (dest + h) % 64 == 0
    ensures b == h + LadderLen(len - h)
    ensures len > b ==> LineOf(LastPtr(dest, len)) == LineOf(dest + b)
  {
    hide HeadLen, LadderLen, TailPtr, LineOf;
    Leftover(dest, len);
    HeadAligns(dest, len);
    HeadStaysInLine(dest, len);
    if len > b {
      TailLine(dest + b, len - b);
    }
  }

  lemma OneLine(dest: nat, cond: bool, addr: nat)
    ensures PlanLines(dest, OnlyIf(cond, addr)) == if cond then [LineOf(addr)] else []
  {
  }

  lemma LinesFrom(d: nat, mid: nat, hi: nat)
    requires d % 64 == 0 && mid % 64 == 0 && d <= mid <= hi < mid + 64
    ensures Span(d, hi) == Span(d, mid) + if mid != hi then [mid] else []
  {
    SpanConcat(d, mid, hi);
  }

  lemma FlushLinesAre(dest: nat, h: nat, b: nat, len: nat, last: nat)
    requires h <= b <= len < b + 64
    requires dest % 64 == 0 ==> h == 0
    requires dest + h <= LineOf(dest) + 64
    requires len > h ==> (dest + h) % 16 == 0
    requires len - h >= 16 ==> (dest + h) % 32 == 0
    requires len - h >= 32 ==> (dest + h) % 64 == 0
    requires b == h + LadderLen(len - h)
    requires len > b ==> last == LineOf(dest + b)
    ensures (if dest % 64 != 0 then [LineOf(dest)] else []) + Span(dest + h, dest + b)
            + (if len != b then [last] else []) ==
            (if dest % 64 != 0 && h < len && dest + len < LineOf(dest) + 64 then [LineOf(dest)] else [])
            + Span(LineOf(dest), dest + len)
  {
    hide LadderLen, Span, LineOf;
    LineBelow(dest);
    if dest % 64 == 0 || dest + h == LineOf(dest) + 64 {
      AtLine(dest, h);
      StepsOf64(dest + h, len - h);
      AtLine(dest + b, 0);
      LinesFrom(dest + h, dest + b, dest + len);
      if dest % 64 != 0 {
        SpanUnfolds(LineOf(dest), dest + len);
      }
    } else {
      ShortRange(dest, h, len);
      NoLadderLen(len - h);
      SpanUnfolds(LineOf(dest), dest + len);
      SpanIsEmpty(LineOf(dest) + 64, dest + len);
      SpanIsEmpty(dest + h, dest + b);
    }
  }

  /// A line starts at its own address, and the next line 64 bytes on.
  lemma AtLine(dest: nat, h: nat)
    requires (dest % 64 == 0 && h == 0) || dest + h == LineOf(dest) + 64
    ensures (dest + h) % 64 == 0
    ensures dest % 64 == 0 ==> LineOf(dest) == dest
    ensures LineOf(dest) <= dest
  {
  }

  lemma LineBelow(dest: nat)
    ensures LineOf(dest) % 64 == 0 && LineOf(dest) <= dest < LineOf(dest) + 64
    ensures dest % 64 != 0 ==> LineOf(dest) < dest
  {
  }

  lemma SpanIsEmpty(lo: nat, hi: nat)
    requires lo >= hi
    ensures Span(lo, hi) == []
  {
  }

  lemma SpanUnfolds(lo: nat, hi: nat)
    requires lo < hi
    ensures Span(lo, hi) == [lo] + Span(lo + 64, hi)
  {
  }

  lemma NoLadderLen(n: nat)
    requires n < 64
    ensures LadderLen(n) == 0
  {
  }

  /// When the alignment steps stop short of the next line, the range does too.
  lemma ShortRange(dest: nat, h: nat, len: nat)
    requires h <= len
    requires dest + h < LineOf(dest) + 64
    requires dest % 64 != 0
    requires len > h ==> (dest + h) % 16 == 0
    requires len - h >= 16 ==> (dest + h) % 32 == 0
    requires len - h >= 32 ==> (dest + h) % 64 == 0
    ensures len - h < 32 && dest + len < LineOf(dest) + 64
    ensures LineOf(dest + h) == LineOf(dest)
  {
    var base, x := LineOf(dest), dest % 64 + h;
    LineBelow(dest);
    assert dest + h == base + x;
    ShortAt(base, x, dest + h, len - h);
  }

  lemma ShortAt(base: nat, x: nat, d: nat, r: nat)
    requires base % 64 == 0 && 0 < x < 64 && d == base + x
    requires r > 0 ==> d % 16 == 0
    requires r >= 16 ==> d % 32 == 0
    requires r >= 32 ==> d % 64 == 0
    ensures r < 32 && x + r < 64 && LineOf(d) == base
  {
    Residues(base, x);
    ShortTail(x, r);
  }

  lemma ShortTail(x: nat, r: nat)
    requires 0 < x < 64
    requires r > 0 ==> x % 16 == 0
    requires r >= 16 ==> x % 32 == 0
    requires r < 32
    ensures x + r < 64
  {
  }

  /// The exact write-back trace of the non-temporal routine: the line of the head if there is one,
  /// and the line of the end pointer, which lies past the range when the range ends on a line.
  lemma NtLines(dest: nat, len: nat)
    ensures PlanLines(dest, NtPlan(dest, len)) ==
            (if dest % 16 != 0 then [LineOf(dest)] else []) + [LineOf(dest + len)]
  {
    var last := LastPtr(dest, len);
    RoutineLines(dest, len, OnlyIf(dest % 16 != 0, dest), [], false, [WriteBack(last)]);
    OneLine(dest, dest % 16 != 0, dest);
    EndLine(dest, len);
    assert PlanLines(dest, [WriteBack(last)]) == [LineOf(last)];
  }

  lemma EndLine(dest: nat, len: nat)
    ensures LineOf(LastPtr(dest, len)) == LineOf(dest + len)
  {
    hide HeadLen, Body, TailPtr, LadderLen, LineOf;
    var b := Body(dest, len);
    Leftover(dest, len);
    LastChunkLine(dest + b, len - b);
  }

  lemma LastChunkLine(d: nat, rest: nat)
    requires rest < 64
    requires rest > 0 ==> d % 16 == 0
    ensures LineOf(d + TailPtr(rest)) == LineOf(d + rest)
  {
    if rest > 0 {
      SameBlock(d + TailPtr(rest), rest - TailPtr(rest));
    }
  }

  lemma SameBlock(ptr: nat, n: nat)
    requires ptr % 16 == 0 && n < 16
    ensures LineOf(ptr + n) == LineOf(ptr)
  {
    var base, x := LineOf(ptr), ptr % 64;
    LineSplits(ptr);
    Residues(base, x);
    assert x + n < 64;
    SameLine(base, x + n);
  }

  lemma NativeLinesUnfold(dest: nat, off: nat, len: nat)
    requires len > 0
    ensures var n := Min(64, len);
            n <= len && NativeLines(dest, off, len) ==
            [Copy(off, n, false), WriteBack(dest + off)] + NativeLines(dest, off + n, len - n)
  {
  }

  lemma OneNativeLine(dest: nat, off: nat, n: nat)
    requires (dest + off) % 64 == 0
    ensures PlanLines(dest, [Copy(off, n, false), WriteBack(dest + off)]) == [dest + off]
  {
    var first := [Copy(off, n, false), WriteBack(dest + off)];
    assert first[1..] == [first[1]];
    assert PlanLines(dest, [first[1]]) == [dest + off];
  }

  lemma {:induction false} NativeLinesTrace(dest: nat, off: nat, len: nat)
    requires len > 0 ==> (dest + off) % 64 == 0
    ensures PlanLines(dest, NativeLines(dest, off, len)) == Span(dest + off, dest + off + len)
    decreases len
  {
    hide LineOf;
    if len > 0 {
      hide NativeLines, PlanLines, Span;
      var d, n := dest + off, Min(64, len);
      NativeLinesUnfold(dest, off, len);
      OneNativeLine(dest, off, n);
      PlanLinesConcat(dest, [Copy(off, n, false), WriteBack(d)], NativeLines(dest, off + n, len - n));
      NextMultiple(d);
      NativeLinesTrace(dest, off + n, len - n);
      SpanUnfolds(d, d + len);
      if len < 64 {
        SpanIsEmpty(d + n, d + len);
        SpanIsEmpty(d + 64, d + len);
      }
    }
  }

  lemma NextMultiple(d: nat)
    requires d % 64 == 0
    ensures (d + 64) % 64 == 0
  {
    RemainderIs(d + 64, 64, d / 64 + 1, 0);
  }

  /// The native routines write back exactly the lines `clwb_extent` would, for every `len`.
  lemma NativeTrace(dest: nat, len: nat)
    ensures PlanLines(dest, NativePlan(dest, len)) == Span(LineOf(dest), dest + len)
  {
    hide LineOf, Span, PlanLines, NativeLines, NativeHead, Chunk, OnlyIf;
    var c, wb := NativeHead(dest, len), OnlyIf(dest % 64 != 0, dest);
    NativeHeadAligns(dest, len);
    QuietChunk(c);
    QuietFirst(dest, Chunk(0, c), wb);
    OneLine(dest, dest % 64 != 0, dest);
    PlanLinesConcat(dest, Chunk(0, c) + wb, NativeLines(dest, c, len - c));
    NativeLinesTrace(dest, c, len - c);
    NativeSpan(dest, len, c);
  }

  lemma QuietChunk(n: nat)
    ensures forall act | act in Chunk(0, n) :: act.Copy? && !act.flush
  {
  }

  lemma NativeSpan(dest: nat, len: nat, c: nat)
    requires c == NativeHead(dest, len)
    ensures (if dest % 64 != 0 then [LineOf(dest)] else []) + Span(dest + c, dest + len) ==
            Span(LineOf(dest), dest + len)
  {
    if dest % 64 != 0 {
      assert Span(LineOf(dest), dest + len) == [LineOf(dest)] + Span(LineOf(dest) + 64, dest + len);
    }
  }

  lemma PlainLines(dest: nat, len: nat)
    ensures PlanLines(dest, PlainPlan(dest, len)) == []
  {
    RoutineLines(dest, len, [], [], false, []);
  }

  lemma OneChunkLines(dest: nat, len: nat)
    ensures PlanLines(dest, Chunk(0, len)) == []
  {
    QuietLines(dest, Chunk(0, len));
  }

  lemma ByAllLines(dest: nat, len: nat)
    ensures PlanLines(dest, ByAllPlan(dest, len)) == Span(LineOf(dest), dest + len)
    ensures PlanLines(dest, NativeByAllPlan(dest, len)) == Span(LineOf(dest), dest + len)
  {
    hide PlainPlan, LineOf, Span, PlanLines, WriteBacks, Chunk;
    var lines := Span(LineOf(dest), dest + len);
    LineBelow(dest);
    forall line | line in lines ensures line % 64 == 0 {
      SpanMeets(LineOf(dest), dest + len, line);
    }
    ExtentLines(dest, lines);
    PlainLines(dest, len);
    PlanLinesConcat(dest, PlainPlan(dest, len), ExtentPlan(dest, len));
    OneChunkLines(dest, len);
    PlanLinesConcat(dest, Chunk(0, len), ExtentPlan(dest, len));
  }
}
