/// Copy plans
/// ==========
///
/// Every routine of `util/aep.h` cuts its range into chunks and decides when to write lines
/// back.  Which chunks, and when, depends on `dest` and `len` alone; a plan lists these decisions
/// in order.  Chunk offsets are relative to `dest` (and to `src`), write-back addresses are
/// absolute.

module CopyPlans {
  import opened Division
  import opened PersistentMemory

  datatype Action =
    | Copy(off: nat, n: nat, flush: bool)  // `flush`: the kernel writes its own lines back
    | WriteBack(addr: nat)

  type Plan = seq<Action>

  function Min(x: nat, y: nat): nat {
    if x < y then x else y
  }

  /// Is the bit of weight `b` set in the address?
  predicate Bit(d: nat, b: nat)
    requires b > 0
  {
    d / b % 2 == 1
  }

  function Chunk(off: nat, n: nat): Plan {
    if n == 0 then [] else [Copy(off, n, false)]
  }

  /// The alignment steps
  /// -------------------

  function SmallHead(dest: nat, len: nat): nat {
    if dest % 16 == 0 then 0 else Min(16 - dest % 16, len)
  }

  function Head16(dest: nat, len: nat): nat {
    var c0 := SmallHead(dest, len);
    if Bit(dest + c0, 16) && len - c0 >= 16 then 16 else 0
  }

  function Head32(dest: nat, len: nat): nat {
    var c := SmallHead(dest, len) + Head16(dest, len);
    if Bit(dest + c, 32) && len - c >= 32 then 32 else 0
  }

  function HeadLen(dest: nat, len: nat): nat {
    SmallHead(dest, len) + Head16(dest, len) + Head32(dest, len)
  }

  function VectorHead(dest: nat, len: nat): Plan {
    var c0, c1 := SmallHead(dest, len), Head16(dest, len);
    Chunk(c0, c1) + Chunk(c0 + c1, Head32(dest, len))
  }

  /// The ladder
  /// ----------

  function Rung(len: nat): nat
    requires len >= 64
  {
    if len >= 512 then 512 else if len >= 256 then 256 else if len >= 128 then 128 else 64
  }

  function Ladder(off: nat, len: nat, flush: bool): Plan
    decreases len
  {
    if len < 64 then []
    else [Copy(off, Rung(len), flush)] + Ladder(off + Rung(len), len - Rung(len), flush)
  }

  function LadderLen(len: nat): nat {
    len - len % 64
  }

  lemma RungSteps(len: nat)
    requires len >= 64
    ensures 0 < Rung(len) <= len && Rung(len) % 64 == 0
    ensures LadderLen(len) == Rung(len) + LadderLen(len - Rung(len))
  {
    var n := Rung(len);
    RemainderIs(len - n, 64, len / 64 - n / 64, len % 64);
  }

  /// The tail
  /// --------

  function Tail32(len: nat): nat {
    if len >= 32 then 32 else 0
  }

  function Tail16(len: nat): nat {
    if len - Tail32(len) >= 16 then 16 else 0
  }

  /// How far the pointer has moved when the last, small chunk is copied.
  function TailPtr(len: nat): nat {
    Tail32(len) + Tail16(len)
  }

  function VectorTail(off: nat, len: nat): Plan {
    Chunk(off, Tail32(len)) + Chunk(off + Tail32(len), Tail16(len))
  }

  function SmallTail(off: nat, len: nat): Plan
    requires len < 64
  {
    Chunk(off + TailPtr(len), len - TailPtr(len))
  }

  /// The routines
  /// ------------

  function Body(dest: nat, len: nat): nat {
    HeadLen(dest, len) + LadderLen(len - HeadLen(dest, len))
  }

  /// The six vector routines differ only in the kernels they call and in where they write back:
  /// after the small head (`w0`), after the alignment steps (`w1`), and at the end (`w2`).

  function Front(dest: nat, len: nat, w0: Plan, w1: Plan): Plan {
    Chunk(0, SmallHead(dest, len)) + w0 + VectorHead(dest, len) + w1
  }

  function Back(dest: nat, len: nat, flush: bool, w2: Plan): Plan {
    var h, b := HeadLen(dest, len), Body(dest, len);
    Ladder(h, len - h, flush) + VectorTail(b, len - b) + SmallTail(b, len - b) + w2
  }

  function OnlyIf(cond: bool, addr: nat): Plan {
    if cond then [WriteBack(addr)] else []
  }

  /// The pointer when the small tail is copied.
  function LastPtr(dest: nat, len: nat): nat {
    dest + Body(dest, len) + TailPtr(len - Body(dest, len))
  }

  function PlainPlan(dest: nat, len: nat): Plan {
    Front(dest, len, [], []) + Back(dest, len, false, [])
  }

  function FlushPlan(dest: nat, len: nat): Plan {
    Front(dest, len, [], OnlyIf(dest % 64 != 0, dest))
    + Back(dest, len, true, OnlyIf(len != Body(dest, len), LastPtr(dest, len)))
  }

  function NtPlan(dest: nat, len: nat): Plan {
    Front(dest, len, OnlyIf(dest % 16 != 0, dest), [])
    + Back(dest, len, false, [WriteBack(LastPtr(dest, len))])
  }

  /// The lines from `lo` on that start before `hi`.
  function Span(lo: nat, hi: nat): seq<nat>
    decreases hi - lo
  {
    if lo >= hi then [] else [lo] + Span(lo + 64, hi)
  }

  function WriteBacks(lines: seq<nat>): Plan {
    if lines == [] then [] else [WriteBack(lines[0])] + WriteBacks(lines[1..])
  }

  /// `clwb_extent`
  function ExtentPlan(dest: nat, len: nat): Plan {
    WriteBacks(Span(LineOf(dest), dest + len))
  }

  function ByAllPlan(dest: nat, len: nat): Plan {
    PlainPlan(dest, len) + ExtentPlan(dest, len)
  }

  /// `cpy_native_flush` and `memset_native_flush`: a line at a time, each followed by its own
  /// write-back.

  function NativeHead(dest: nat, len: nat): nat {
    if dest % 64 == 0 then 0 else Min(64 - dest % 64, len)
  }

  function NativeLines(dest: nat, off: nat, len: nat): Plan
    decreases len
  {
    if len == 0 then []
    else if len < 64 then [Copy(off, len, false), WriteBack(dest + off)]
    else [Copy(off, 64, false), WriteBack(dest + off)] + NativeLines(dest, off + 64, len - 64)
  }

  function NativePlan(dest: nat, len: nat): Plan {
    var c := NativeHead(dest, len);
    Chunk(0, c) + OnlyIf(dest % 64 != 0, dest) + NativeLines(dest, c, len - c)
  }

  /// `cpy_native_noflush` and `memset_native_noflush` followed by `clwb_extent`
  function NativeByAllPlan(dest: nat, len: nat): Plan {
    Chunk(0, len) + ExtentPlan(dest, len)
  }

  lemma NativeHeadAligns(dest: nat, len: nat)
    ensures var c := NativeHead(dest, len); c <= len && (len - c > 0 ==> (dest + c) % 64 == 0)
  {
    if dest % 64 != 0 && 64 - dest % 64 <= len {
      RemainderIs(dest + (64 - dest % 64), 64, dest / 64 + 1, 0);
    }
  }

  /// Shape
  /// -----

  /// The chunks of the plan are non-empty and follow one another from `lo` to `hi`.
  predicate Contiguous(plan: Plan, lo: nat, hi: nat) {
    if plan == [] then lo == hi
    else match plan[0]
      case Copy(off, n, _) => off == lo && n > 0 && Contiguous(plan[1..], lo + n, hi)
      case WriteBack(_) => Contiguous(plan[1..], lo, hi)
  }

  lemma {:induction false} ContiguousConcat(p: Plan, lo: nat, mid: nat, q: Plan, hi: nat)
    requires Contiguous(p, lo, mid) && Contiguous(q, mid, hi)
    ensures Contiguous(p + q, lo, hi)
  {
    if p == [] {
      assert p + q == q;
    } else {
      assert (p + q)[1..] == p[1..] + q;
      ContiguousConcat(p[1..], if p[0].Copy? then lo + p[0].n else lo, mid, q, hi);
    }
  }

  lemma {:induction false} ContiguousBounds(plan: Plan, lo: nat, hi: nat)
    requires Contiguous(plan, lo, hi)
    ensures lo <= hi
    ensures forall act | act in plan && act.Copy? :: lo <= act.off && act.off + act.n <= hi
  {
    if plan != [] {
      ContiguousBounds(plan[1..], if plan[0].Copy? then lo + plan[0].n else lo, hi);
      assert plan == [plan[0]] + plan[1..];
    }
  }

  /// The chunk has a size for which there is a kernel, and its destination is aligned as that
  /// kernel demands.  Kernels that write back must start on a line.
  predicate Placed(dest: nat, act: Action) {
    match act
    case Copy(off, n, flush) =>
      || (n < 16 && !flush)
      || (n == 16 && (dest + off) % 16 == 0 && !flush)
      || (n == 32 && (dest + off) % 32 == 0 && !flush)
      || (n in {64, 128, 256, 512} && (dest + off) % 64 == 0)
    case WriteBack(_) => true
  }

  predicate AllPlaced(dest: nat, plan: Plan) {
    forall act | act in plan :: Placed(dest, act)
  }

  /// Residues modulo a line determine the residues modulo its parts.
  lemma Residues(base: nat, x: nat)
    requires base % 64 == 0 && x < 64
    ensures (base + x) % 64 == x && (base + x) % 32 == x % 32 && (base + x) % 16 == x % 16
  {
    var k := base / 64;
    RemainderIs(base + x, 64, k, x);
    Residue32(2 * k, x);
    Residue16(4 * k, x);
  }

  lemma Residue32(k: nat, x: nat)
    ensures (32 * k + x) % 32 == x % 32
  {
    RemainderIs(32 * k + x, 32, k + x / 32, x % 32);
  }

  lemma Residue16(k: nat, x: nat)
    ensures (16 * k + x) % 16 == x % 16
  {
    RemainderIs(16 * k + x, 16, k + x / 16, x % 16);
  }

  lemma Bit16(d: nat)
    requires d % 16 == 0
    ensures d % 32 == if Bit(d, 16) then 16 else 0
  {
    var k := d / 16;
    RemainderIs(d, 32, k / 2, 16 * (k % 2));
  }

  lemma SmallStep(d: nat, len: nat)
    ensures var c := SmallHead(d, len);
            c <= len && c < 16 && (len - c > 0 ==> (d + c) % 16 == 0) && (d % 16 == 0 ==> c == 0)
  {
    if d % 16 != 0 && 16 - d % 16 <= len {
      RemainderIs(d + (16 - d % 16), 16, d / 16 + 1, 0);
    }
  }

  lemma Step16(d: nat, rest: nat)
    requires rest > 0 ==> d % 16 == 0
    ensures var s := if Bit(d, 16) && rest >= 16 then 16 else 0;
            && s <= rest
            && (rest - s > 0 ==> (d + s) % 16 == 0)
            && (rest - s >= 16 ==> (d + s) % 32 == 0)
            && (d % 32 == 0 ==> s == 0)
  {
    if d % 16 == 0 {
      Bit16(d);
      if d % 32 == 16 {
        Add16(d);
      }
    }
    if d % 32 == 0 {
      Part16(d);
    }
  }

  lemma Add16(d: nat)
    requires d % 32 == 16
    ensures (d + 16) % 32 == 0 && (d + 16) % 16 == 0
  {
    RemainderIs(d + 16, 32, d / 32 + 1, 0);
    RemainderIs(d + 16, 16, 2 * (d / 32) + 2, 0);
  }

  lemma Part16(d: nat)
    requires d % 32 == 0
    ensures d % 16 == 0 && !Bit(d, 16)
  {
    var k := d / 32;
    RemainderIs(d, 16, 2 * k, 0);
    RemainderIs(2 * k, 2, k, 0);
  }

  /// Where the alignment steps leave the pointer.
  lemma HeadSteps(dest: nat, len: nat)
    ensures var c0 := SmallHead(dest, len);
            && c0 <= len && c0 < 16
            && (len - c0 > 0 ==> (dest + c0) % 16 == 0)
            && (dest % 16 == 0 ==> c0 == 0)
    ensures var c := SmallHead(dest, len) + Head16(dest, len);
            && c <= len && c <= 16 + SmallHead(dest, len)
            && (len - c > 0 ==> (dest + c) % 16 == 0)
            && (len - c >= 16 ==> (dest + c) % 32 == 0)
            && (dest % 32 == 0 ==> c == 0)
  {
    hide SmallHead, Bit;
    var c0 := SmallHead(dest, len);
    SmallStep(dest, len);
    Step16(dest + c0, len - c0);
    if dest % 32 == 0 {
      Part16(dest);
    }
  }

  /// The cross-branch invariant: what the alignment steps have achieved for the rest.
  lemma HeadAligns(dest: nat, len: nat)
    ensures var h := HeadLen(dest, len);
            && h <= len
            && (len - h > 0 ==> (dest + h) % 16 == 0)
            && (len - h >= 16 ==> (dest + h) % 32 == 0)
            && (len - h >= 32 ==> (dest + h) % 64 == 0)
    ensures dest % 64 == 0 ==> HeadLen(dest, len) == 0
  {
    hide SmallHead, Head16, Bit;
    HeadSteps(dest, len);
    var c := SmallHead(dest, len) + Head16(dest, len);
    Step32(dest + c, len - c);
    if dest % 64 == 0 {
      MultipleOf64(dest);
    }
  }

  lemma Step32(d: nat, rest: nat)
    requires rest > 0 ==> d % 16 == 0
    requires rest >= 16 ==> d % 32 == 0
    ensures var s := if Bit(d, 32) && rest >= 32 then 32 else 0;
            && s <= rest
            && (rest - s > 0 ==> (d + s) % 16 == 0)
            && (rest - s >= 16 ==> (d + s) % 32 == 0)
            && (rest - s >= 32 ==> (d + s) % 64 == 0)
            && (d % 64 == 0 ==> s == 0)
  {
    if rest >= 32 {
      Bit32(d);
      if d % 64 == 32 {
        Add32(d);
      }
    }
  }

  lemma Add32(d: nat)
    requires d % 64 == 32
    ensures (d + 32) % 64 == 0 && (d + 32) % 32 == 0 && (d + 32) % 16 == 0
  {
    var k := d / 64;
    RemainderIs(d + 32, 64, k + 1, 0);
    RemainderIs(d + 32, 32, 2 * k + 2, 0);
    RemainderIs(d + 32, 16, 4 * k + 4, 0);
  }

  lemma Bit32(d: nat)
    requires d % 32 == 0
    ensures d % 64 == if Bit(d, 32) then 32 else 0
  {
    var k := d / 32;
    RemainderIs(d, 64, k / 2, 32 * (k % 2));
  }

  lemma MultipleOf64(d: nat)
    requires d % 64 == 0
    ensures d % 32 == 0 && d % 16 == 0
  {
    var k := d / 64;
    RemainderIs(d, 32, 2 * k, 0);
    RemainderIs(d, 16, 4 * k, 0);
  }

  /// The address splits into the start of its line and an offset.
  lemma LineSplits(d: nat)
    ensures LineOf(d) % 64 == 0 && d == LineOf(d) + d % 64
  {
    RemainderIs(LineOf(d), 64, d / 64, 0);
  }

  lemma HeadStaysInLine(dest: nat, len: nat)
    ensures dest + HeadLen(dest, len) <= LineOf(dest) + 64
  {
    hide Bit, LineOf, SmallHead;
    var base, x := LineOf(dest), dest % 64;
    LineSplits(dest);
    HeadSteps(dest, len);
    var c0, c1 := SmallHead(dest, len), Head16(dest, len);
    SmallHeadStays(base, x, len);
    if c1 > 0 {
      Step16Stays(base, x + c0);
    }
    if Head32(dest, len) > 0 {
      Step32Stays(base, x + c0 + c1);
    }
  }

  lemma SmallHeadStays(base: nat, x: nat, len: nat)
    requires base % 64 == 0 && x < 64
    ensures x + SmallHead(base + x, len) <= 64
  {
    Residues(base, x);
  }

  lemma Step16Stays(base: nat, x: nat)
    requires base % 64 == 0 && x <= 64 && (base + x) % 16 == 0 && Bit(base + x, 16)
    ensures x + 16 <= 64
  {
    hide Bit;
    NotAtLine(base, x);
    Residues(base, x);
    Bit16(base + x);
  }

  lemma Step32Stays(base: nat, x: nat)
    requires base % 64 == 0 && x <= 64 && (base + x) % 32 == 0 && Bit(base + x, 32)
    ensures x + 32 <= 64
  {
    hide Bit;
    NotAtLine(base, x);
    Residues(base, x);
    Bit32(base + x);
  }

  lemma NotAtLine(base: nat, x: nat)
    requires base % 64 == 0 && x <= 64 && (Bit(base + x, 16) || Bit(base + x, 32))
    ensures x < 64
  {
    if x == 64 {
      LineHasNoBits(base + 64);
    }
  }

  lemma LineHasNoBits(d: nat)
    requires d % 64 == 0
    ensures !Bit(d, 16) && !Bit(d, 32)
  {
    var k := d / 64;
    RemainderIs(d, 16, 4 * k, 0);
    RemainderIs(4 * k, 2, 2 * k, 0);
    RemainderIs(d, 32, 2 * k, 0);
    RemainderIs(2 * k, 2, k, 0);
  }

  lemma HeadShape(dest: nat, len: nat)
    ensures Contiguous(Chunk(0, SmallHead(dest, len)), 0, SmallHead(dest, len))
    ensures Contiguous(VectorHead(dest, len), SmallHead(dest, len), HeadLen(dest, len))
    ensures AllPlaced(dest, VectorHead(dest, len)) && AllPlaced(dest, Chunk(0, SmallHead(dest, len)))
    ensures forall act | act in VectorHead(dest, len) :: act.Copy? && !act.flush && 16 <= act.n <= 32
    ensures forall act | act in Chunk(0, SmallHead(dest, len)) :: act.Copy? && !act.flush && act.n < 16
  {
    HeadSteps(dest, len);
    var c0, c1, c2 := SmallHead(dest, len), Head16(dest, len), Head32(dest, len);
    ContiguousConcat(Chunk(c0, c1), c0, c0 + c1, Chunk(c0 + c1, c2), c0 + c1 + c2);
  }

  lemma {:induction false} LadderShape(dest: nat, off: nat, len: nat, flush: bool)
    requires len >= 64 ==> (dest + off) % 64 == 0
    ensures Contiguous(Ladder(off, len, flush), off, off + LadderLen(len))
    ensures AllPlaced(dest, Ladder(off, len, flush))
    ensures forall act | act in Ladder(off, len, flush) :: act.Copy? && act.flush == flush && act.n >= 64
    decreases len
  {
    if len >= 64 {
      LadderShape(dest, off + Rung(len), len - Rung(len), flush);
    }
  }

  lemma TailPtrIs(len: nat)
    ensures TailPtr(len) == Tail32(len) + Tail16(len)
  {
  }

  lemma TailPlaced(dest: nat, off: nat, len: nat)
    requires len < 64
    requires len >= 16 ==> (dest + off) % 32 == 0
    requires len >= 32 ==> (dest + off) % 64 == 0
    ensures AllPlaced(dest, VectorTail(off, len)) && AllPlaced(dest, SmallTail(off, len))
  {
    if len >= 16 {
      Part16(dest + off);
    }
    if len >= 32 {
      Residues(dest + off, 32);
    }
  }

  lemma TailShape(dest: nat, off: nat, len: nat)
    requires len < 64
    requires len > 0 ==> (dest + off) % 16 == 0
    requires len >= 16 ==> (dest + off) % 32 == 0
    requires len >= 32 ==> (dest + off) % 64 == 0
    ensures Contiguous(VectorTail(off, len), off, off + TailPtr(len)) && AllPlaced(dest, VectorTail(off, len))
    ensures Contiguous(SmallTail(off, len), off + TailPtr(len), off + len) && AllPlaced(dest, SmallTail(off, len))
    ensures forall act | act in VectorTail(off, len) :: act.Copy? && !act.flush && act.n >= 16
    ensures forall act | act in SmallTail(off, len) :: act.Copy? && !act.flush && act.n < 16
  {
    hide Placed, TailPtr;
    TailPtrFits(len);
    TailPtrIs(len);
    var mid := off + Tail32(len);
    TailPlaced(dest, off, len);
    ContiguousConcat(Chunk(off, Tail32(len)), off, mid, Chunk(mid, Tail16(len)), off + TailPtr(len));
  }

  /// The tail lies in one line, and so does the pointer at which its last chunk starts.
  lemma TailLine(d: nat, len: nat)
    requires 0 < len < 64
    requires d % 16 == 0
    requires len >= 16 ==> d % 32 == 0
    requires len >= 32 ==> d % 64 == 0
    ensures LineOf(d + TailPtr(len)) == LineOf(d) && d + len <= LineOf(d) + 64
  {
    hide LineOf, TailPtr;
    var base, x := LineOf(d), d % 64;
    LineSplits(d);
    Residues(base, x);
    TailStays(x, len);
    SameLine(base, x + TailPtr(len));
    SameLine(base, x);
  }

  lemma TailStays(x: nat, len: nat)
    requires x < 64 && 0 < len < 64
    requires x % 16 == 0
    requires len >= 16 ==> x % 32 == 0
    requires len >= 32 ==> x == 0
    ensures x + len <= 64 && x + TailPtr(len) < 64
  {
    if len < 16 {
      assert x <= 48;
    } else if len < 32 {
      assert x <= 32;
    }
  }

  lemma SameLine(base: nat, x: nat)
    requires base % 64 == 0 && x < 64
    ensures LineOf(base + x) == base
  {
    Residues(base, x);
  }

  /// Chunk conservation
  /// ------------------

  lemma Leftover(dest: nat, len: nat)
    ensures var h, b := HeadLen(dest, len), Body(dest, len);
            && h <= b <= len && len - b < 64
            && (len - h >= 64 ==> (dest + h) % 64 == 0)
            && (len - b > 0 ==> (dest + b) % 16 == 0)
            && (len - b >= 16 ==> (dest + b) % 32 == 0)
            && (len - b >= 32 ==> (dest + b) % 64 == 0)
            && (b > h ==> (dest + b) % 64 == 0)
  {
    hide HeadLen, LadderLen, Bit;
    HeadAligns(dest, len);
    var h, b := HeadLen(dest, len), Body(dest, len);
    LadderRest(len - h);
    if b > h {
      StepsOf64(dest + h, len - h);
      MultipleOf64(dest + b);
    }
  }

  lemma LadderRest(len: nat)
    ensures LadderLen(len) <= len < LadderLen(len) + 64
    ensures LadderLen(len) > 0 <==> len >= 64
  {
  }

  lemma TailPtrFits(len: nat)
    ensures TailPtr(len) <= len && (len < 64 ==> len < TailPtr(len) + 16)
  {
  }

  lemma StepsOf64(d: nat, len: nat)
    requires d % 64 == 0
    ensures (d + LadderLen(len)) % 64 == 0
  {
    RemainderIs(d + LadderLen(len), 64, d / 64 + len / 64, 0);
  }

  predicate OnlyWriteBacks(plan: Plan) {
    forall act | act in plan :: act.WriteBack?
  }

  lemma {:induction false} WriteBacksMoveNothing(plan: Plan, at: nat)
    requires OnlyWriteBacks(plan)
    ensures Contiguous(plan, at, at)
  {
    if plan != [] {
      assert plan[0] in plan;
      WriteBacksMoveNothing(plan[1..], at);
    }
  }

  lemma WriteBacksArePlaced(dest: nat, plan: Plan)
    requires OnlyWriteBacks(plan)
    ensures AllPlaced(dest, plan)
  {
  }

  lemma PlacedConcat(dest: nat, p: Plan, q: Plan)
    requires AllPlaced(dest, p) && AllPlaced(dest, q)
    ensures AllPlaced(dest, p + q)
  {
  }

  lemma FrontIsSound(dest: nat, len: nat, w0: Plan, w1: Plan)
    requires OnlyWriteBacks(w0) && OnlyWriteBacks(w1)
    ensures Contiguous(Front(dest, len, w0, w1), 0, HeadLen(dest, len))
    ensures AllPlaced(dest, Front(dest, len, w0, w1))
  {
    HeadShape(dest, len);
    var c0, h := SmallHead(dest, len), HeadLen(dest, len);
    var p := Chunk(0, c0);
    WriteBacksMoveNothing(w0, c0);
    WriteBacksMoveNothing(w1, h);
    ContiguousConcat(p, 0, c0, w0, c0);
    ContiguousConcat(p + w0, 0, c0, VectorHead(dest, len), h);
    ContiguousConcat(p + w0 + VectorHead(dest, len), 0, h, w1, h);
  }

  lemma BackIsSound(dest: nat, len: nat, flush: bool, w2: Plan)
    requires OnlyWriteBacks(w2)
    ensures Contiguous(Back(dest, len, flush, w2), HeadLen(dest, len), len)
    ensures AllPlaced(dest, Back(dest, len, flush, w2))
  {
    hide HeadLen, Body, Ladder, VectorTail, SmallTail, Contiguous, AllPlaced, LadderLen, TailPtr, OnlyWriteBacks;
    Leftover(dest, len);
    var h, b := HeadLen(dest, len), Body(dest, len);
    BodyIs(dest, len);
    TailPtrFits(len - b);
    LadderShape(dest, h, len - h, flush);
    TailShape(dest, b, len - b);
    WriteBacksMoveNothing(w2, len);
    WriteBacksArePlaced(dest, w2);
    var p, q, r := Ladder(h, len - h, flush), VectorTail(b, len - b), SmallTail(b, len - b);
    JoinBack(h, b, b + TailPtr(len - b), len, p, q, r, w2);
    JoinPlaced(dest, p, q, r, w2);
  }

  lemma BodyIs(dest: nat, len: nat)
    ensures HeadLen(dest, len) <= len && Body(dest, len) == HeadLen(dest, len) + LadderLen(len - HeadLen(dest, len))
  {
    hide HeadLen, LadderLen, Bit;
    HeadAligns(dest, len);
  }

  lemma JoinBack(h: nat, b: nat, ptr: nat, len: nat, p: Plan, q: Plan, r: Plan, w: Plan)
    requires Contiguous(p, h, b) && Contiguous(q, b, ptr) && Contiguous(r, ptr, len) && Contiguous(w, len, len)
    ensures Contiguous(p + q + r + w, h, len)
  {
    hide Contiguous;
    ContiguousConcat(p, h, b, q, ptr);
    ContiguousConcat(p + q, h, ptr, r, len);
    ContiguousConcat(p + q + r, h, len, w, len);
  }

  lemma JoinPlaced(dest: nat, p: Plan, q: Plan, r: Plan, w: Plan)
    requires AllPlaced(dest, p) && AllPlaced(dest, q) && AllPlaced(dest, r) && AllPlaced(dest, w)
    ensures AllPlaced(dest, p + q + r + w)
  {
    hide AllPlaced;
    PlacedConcat(dest, p, q);
    PlacedConcat(dest, p + q, r);
    PlacedConcat(dest, p + q + r, w);
  }

  /// The chunks of each routine tile the range, in order, with nothing left over, and each one is
  /// aligned as its kernel demands.
  lemma PlansAreSound(dest: nat, len: nat, plan: Plan)
    requires plan in {PlainPlan(dest, len), FlushPlan(dest, len), NtPlan(dest, len)}
    ensures Contiguous(plan, 0, len) && AllPlaced(dest, plan)
  {
    var h := HeadLen(dest, len);
    var (w0, w1, flush, w2) :=
      if plan == PlainPlan(dest, len) then ([], [], false, [])
      else if plan == FlushPlan(dest, len) then
        ([], OnlyIf(dest % 64 != 0, dest), true, OnlyIf(len != Body(dest, len), LastPtr(dest, len)))
      else (OnlyIf(dest % 16 != 0, dest), [], false, [WriteBack(LastPtr(dest, len))]);
    FrontIsSound(dest, len, w0, w1);
    BackIsSound(dest, len, flush, w2);
    ContiguousConcat(Front(dest, len, w0, w1), 0, h, Back(dest, len, flush, w2), len);
    PlacedConcat(dest, Front(dest, len, w0, w1), Back(dest, len, flush, w2));
  }

  /// A plan that writes nothing back.
  predicate OnlyCopies(plan: Plan) {
    forall act | act in plan :: act.Copy? && !act.flush
  }

  lemma PlainPlanOnlyCopies(addr: nat, len: nat)
    ensures OnlyCopies(PlainPlan(addr, len))
  {
    hide HeadLen, Body, Ladder, VectorHead, VectorTail, SmallTail, TailPtr, SmallHead, LadderLen,
      Contiguous, AllPlaced, Chunk, Bit;
    HeadShape(addr, len);
    Leftover(addr, len);
    LadderShape(addr, HeadLen(addr, len), len - HeadLen(addr, len), false);
    TailShape(addr, Body(addr, len), len - Body(addr, len));
  }
}
