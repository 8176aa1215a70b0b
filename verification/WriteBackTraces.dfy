/// Write-back traces of the operations
/// ===================================
///
/// The lines an operation writes back, in the order of its `clwb` instructions.

module WriteBackTraces {
  import opened PersistentMemory
  import opened Instructions
  import opened CopyPlans
  import opened WriteBackPlans
  import opened CopyCode
  import opened PersistentCopies

  function ClwbLines(code: seq<Instr>): seq<nat> {
    if code == [] then []
    else (if code[0].Clwb? then [LineOf(code[0].addr)] else []) + ClwbLines(code[1..])
  }

  lemma {:induction false} ClwbLinesConcat(p: seq<Instr>, q: seq<Instr>)
    ensures ClwbLines(p + q) == ClwbLines(p) + ClwbLines(q)
  {
    hide LineOf;
    if p == [] {
      assert p + q == q;
    } else {
      assert (p + q)[1..] == p[1..] + q && (p + q)[0] == p[0];
      ClwbLinesConcat(p[1..], q);
      var first := if p[0].Clwb? then [LineOf(p[0].addr)] else [];
      assert ClwbLines(p) == first + ClwbLines(p[1..]);
      assert ClwbLines(p + q) == first + (ClwbLines(p[1..]) + ClwbLines(q));
    }
  }

  predicate NoClwb(code: seq<Instr>) {
    forall i | i in code :: !i.Clwb?
  }

  lemma {:induction false} QuietCode(code: seq<Instr>)
    requires NoClwb(code)
    ensures ClwbLines(code) == []
  {
    if code != [] {
      assert code[0] in code;
      QuietCode(code[1..]);
    }
  }

  lemma {:induction false} WordsAreQuiet(kind: Kind, addr: nat, k: nat)
    ensures NoClwb(LoadWords(kind, addr, k)) && NoClwb(StoreWords(kind, addr, k))
  {
    if k > 0 {
      WordsAreQuiet(kind, addr, k - 1);
    }
  }

  lemma {:induction false} LinesTrace(st: Kind, dest: nat, j: nat)
    requires dest % 64 == 0
    ensures ClwbLines(StoreLines(st, dest, j)) == Span(dest, dest + 64 * j)
  {
    if j > 0 {
      LinesTrace(st, dest, j - 1);
      ClwbLinesConcat(StoreLines(st, dest, j - 1), StorePair(st, dest, j - 1));
      PairTrace(st, dest, j - 1);
      SpanConcat(dest, dest + 64 * (j - 1), dest + 64 * j);
      assert Span(dest + 64 * (j - 1), dest + 64 * j) == [dest + 64 * (j - 1)];
    }
  }

  lemma PairTrace(st: Kind, dest: nat, j: nat)
    requires dest % 64 == 0
    ensures ClwbLines(StorePair(st, dest, j)) == [dest + 64 * j]
  {
    var p := StorePair(st, dest, j);
    assert p == [p[0], p[1]] + [p[2]];
    QuietCode([p[0], p[1]]);
    ClwbLinesConcat([p[0], p[1]], [p[2]]);
    assert LineOf(dest + 64 * j) == dest + 64 * j;
    assert ClwbLines([p[2]]) == [dest + 64 * j];
  }

  lemma ActTrace(style: Style, dest: nat, src: nat, act: Action)
    requires Suits(style, dest, act)
    ensures ClwbLines(ActCode(style, dest, src, act)) == ActLines(dest, act)
  {
    hide LoadWords, StoreWords, StoreLines, ClwbLines, Span;
    match act
    case WriteBack(addr) => OneClwb(addr);
    case Copy(off, n, flush) =>
      if style.Vector? && n > 16 {
        var d, s := dest + off, src + off;
        WordsAreQuiet(style.ld, s, n / 32);
        QuietCode(LoadWords(style.ld, s, n / 32));
        if flush {
          LinesTrace(style.st, d, n / 64);
          ClwbLinesConcat(LoadWords(style.ld, s, n / 32), StoreLines(style.st, d, n / 64));
        } else {
          WordsAreQuiet(style.st, d, n / 32);
          QuietCode(StoreWords(style.st, d, n / 32));
          ClwbLinesConcat(LoadWords(style.ld, s, n / 32), StoreWords(style.st, d, n / 32));
        }
      } else {
        QuietCode(ActCode(style, dest, src, act));
      }
  }

  lemma OneClwb(addr: nat)
    ensures ClwbLines([Clwb(LineOf(addr))]) == [LineOf(addr)]
  {
    assert LineOf(LineOf(addr)) == LineOf(addr);
  }

  lemma {:induction false} CodeTrace(style: Style, dest: nat, src: nat, plan: Plan)
    requires AllSuit(style, dest, plan)
    ensures ClwbLines(Code(style, dest, src, plan)) == PlanLines(dest, plan)
  {
    hide ActCode, Suits;
    if plan != [] {
      assert plan[0] in plan && forall act | act in plan[1..] :: act in plan;
      ActTrace(style, dest, src, plan[0]);
      CodeTrace(style, dest, src, plan[1..]);
      ClwbLinesConcat(ActCode(style, dest, src, plan[0]), Code(style, dest, src, plan[1..]));
    }
  }

  /// The lines `clwb_extent` writes back.
  function ExtentTrace(dest: nat, len: nat): seq<nat> {
    Span(LineOf(dest), dest + len)
  }

  /// These are exactly the lines that meet the range, each once and in order.  For an empty range it
  /// is the line that `dest` lies inside of, if any.
  lemma ExtentIsExact(dest: nat, len: nat)
    ensures forall line: nat :: line in ExtentTrace(dest, len) <==>
              line % 64 == 0 && line < dest + len && dest < line + 64
    ensures Increasing(ExtentTrace(dest, len))
  {
    var lines := ExtentTrace(dest, len);
    forall line: nat ensures line in lines <==> line % 64 == 0 && line < dest + len && dest < line + 64 {
      SpanMeets(LineOf(dest), dest + len, line);
      FirstLine(dest, line);
    }
    forall i: nat, j: nat | i < j < |lines| ensures lines[i] < lines[j] {
      SpanAt(LineOf(dest), dest + len, i);
      SpanAt(LineOf(dest), dest + len, j);
    }
  }

  predicate Increasing(lines: seq<nat>) {
    forall i: nat, j: nat | i < j < |lines| :: lines[i] < lines[j]
  }

  lemma FirstLine(dest: nat, line: nat)
    ensures line % 64 == 0 ==> (LineOf(dest) <= line <==> dest < line + 64)
  {
  }

  lemma {:induction false} SpanAt(lo: nat, hi: nat, i: nat)
    requires i < |Span(lo, hi)|
    ensures Span(lo, hi)[i] == lo + 64 * i
    decreases i
  {
    if i > 0 {
      SpanAt(lo + 64, hi, i - 1);
    }
  }

  /// The exact write-back trace of every operation.
  function TraceOf(op: Operation, dest: nat, len: nat): seq<nat> {
    match op
    case VectorCopy(_, ByCacheline) =>
      (if TwiceInFirstLine(dest, len) then [LineOf(dest)] else []) + ExtentTrace(dest, len)
    case VectorCopy(_, NtStores) =>
      (if dest % 16 != 0 then [LineOf(dest)] else []) + [LineOf(dest + len)]
    case _ => ExtentTrace(dest, len)
  }

  lemma OperationTrace(op: Operation, dest: nat, src: nat, len: nat)
    ensures ClwbLines(OpCode(op, dest, src, len)) == TraceOf(op, dest, len)
  {
    hide Code, PlanLines, Span, TwiceInFirstLine, LineOf;
    var plan := PlanOf(op, dest, len);
    PlanIsGood(op, dest, len);
    CodeTrace(StyleOf(op), dest, src, plan);
    ClwbLinesConcat(Code(StyleOf(op), dest, src, plan), [Sfence]);
    QuietCode([Sfence]);
    hide StyleOf, ClwbLines;
    PlanTrace(op, dest, len);
  }

  lemma PlanTrace(op: Operation, dest: nat, len: nat)
    ensures PlanLines(dest, PlanOf(op, dest, len)) == TraceOf(op, dest, len)
  {
    match op
    case VectorCopy(_, ByAll) => ByAllLines(dest, len);
    case VectorCopy(_, ByCacheline) => FlushLines(dest, len);
    case VectorCopy(_, NtStores) => NtLines(dest, len);
    case _ =>
      NativeTrace(dest, len);
      ByAllLines(dest, len);
  }

  /// The last write-back of the non-temporal routines names a line of the range unless the range ends
  /// on a line.
  lemma LastLineInRange(dest: nat, len: nat)
    requires len > 0
    ensures LineOf(dest + len) in ExtentTrace(dest, len) <==> (dest + len) % 64 != 0
  {
    SpanMeets(LineOf(dest), dest + len, LineOf(dest + len));
    FirstLine(dest, LineOf(dest + len));
    assert LineOf(dest + len) % 64 == 0;
  }
}
