/// Copies on a machine
/// ===================
///
/// A machine has one running thread and a cache that evicts lines behind its back.  This module
/// turns "the machine has executed the code of the routine" into what memory then holds.

module CopyRuns {
  import opened PersistentMemory
  import opened Instructions
  import opened CopyPlans
  import opened WriteBackPlans
  import opened CopyCode
  import opened CopyMeaning
  import opened PersistentCopies

  const RESET := Core(map[], [])

  /// `log` is what memory saw while thread `t` executed `code`, with any evictions in between.
  ghost predicate Executed(boot: nat -> Cell, t: nat, code: seq<Instr>, log: seq<Event>) {
    && (forall e | e in log :: e.Evicted? || e.t == t)
    && WithoutEvictions(log) == Run(boot, t, RESET, code).log
  }

  lemma {:induction false} WithoutEvictionsConcat(p: seq<Event>, q: seq<Event>)
    ensures WithoutEvictions(p + q) == WithoutEvictions(p) + WithoutEvictions(q)
  {
    if q == [] {
      assert p + q == p;
    } else {
      var n := |q| - 1;
      assert (p + q)[..|p + q| - 1] == p + q[..n];
      WithoutEvictionsConcat(p, q[..n]);
    }
  }

  lemma {:induction false} ProjectIsWithoutEvictions(log: seq<Event>, t: nat)
    requires forall e | e in log :: e.Evicted? || e.t == t
    ensures Project(log, t) == WithoutEvictions(log)
    ensures forall a :: SoleWriter(log, a, t)
  {
    if log != [] {
      var n := |log| - 1;
      assert log[n] in log;
      ProjectIsWithoutEvictions(log[..n], t);
    }
  }

  /// Evictions do not change what loads see.
  lemma SameValues(boot: nat -> Cell, log: seq<Event>, a: nat)
    ensures Image(boot, WithoutEvictions(log))(a) == Image(boot, log)(a)
  {
    EvictionsOnlyAdvance(boot(a), log, a);
    AheadSameValue(At(boot(a), log, a), At(boot(a), WithoutEvictions(log), a));
  }

  /// Code that loads before it stores has the events of `Resolve`, with the image it started from.
  lemma {:induction false} NewEvents(boot: nat -> Cell, t: nat, before: seq<Instr>, code: seq<Instr>,
                                     log: seq<Event>, more: seq<Event>)
    requires Executed(boot, t, before, log) && Executed(boot, t, before + code, log + more)
    requires LoadsBeforeStores(code)
    ensures Project(more, t) == Resolve(code, t, Run(boot, t, RESET, before).regs, Image(boot, log))
    ensures forall a :: SoleWriter(more, a, t)
  {
    assert forall e | e in more :: e in log + more;
    ProjectIsWithoutEvictions(more, t);
    var core := Run(boot, t, RESET, before);
    forall i, a | i in code && Loads(i, a) ensures Image(boot, core.log)(a) == Image(boot, log)(a) {
      SameValues(boot, log, a);
    }
    RunIsResolve(boot, t, core, code, Image(boot, log));
    RunConcat(boot, t, RESET, before, code);
    WithoutEvictionsConcat(log, more);
    SameRest(core.log, WithoutEvictions(more), Resolve(code, t, core.regs, Image(boot, log)));
  }

  lemma ExecutedEviction(boot: nat -> Cell, t: nat, code: seq<Instr>, log: seq<Event>, line: nat)
    requires Executed(boot, t, code, log)
    ensures Executed(boot, t, code, log + [Evicted(line)])
  {
    WithoutEvictionsConcat(log, [Evicted(line)]);
    assert WithoutEvictions([Evicted(line)]) == [];
  }

  lemma ExecutedInstr(boot: nat -> Cell, t: nat, code: seq<Instr>, log: seq<Event>, i: Instr)
    requires Executed(boot, t, code, log)
    ensures var regs := Run(boot, t, RESET, code).regs;
            && Executed(boot, t, code + [i], log + Emits(i, t, regs))
            && Run(boot, t, RESET, code + [i]).regs == NextRegs(i, regs, Image(boot, WithoutEvictions(log)))
  {
    hide Run;
    RunSnoc(boot, t, RESET, code, i);
    var events := Emits(i, t, Run(boot, t, RESET, code).regs);
    WithoutEvictionsConcat(log, events);
    if events != [] {
      assert events == [events[0]] && By(events[0], t);
      assert WithoutEvictions([events[0]]) == [events[0]] by { assert [events[0]][..0] == []; }
    }
  }

  /// Every byte of a contiguous plan is stored.
  lemma {:induction false} RangeIsStored(phase: nat, nt: bool, dest: nat, plan: Plan, lo: nat, hi: nat, a: nat)
    requires Contiguous(plan, lo, hi)
    requires phase > 0 || Within(a, dest + lo, dest + hi)
    ensures PlanPhase(phase, nt, dest, plan, a) > 0
    decreases plan
  {
    if plan != [] {
      var mid := if plan[0].Copy? then lo + plan[0].n else lo;
      RangeIsStored(ActPhase(phase, nt, dest, plan[0], a), nt, dest, plan[1..], mid, hi, a);
    }
  }

  /// A routine without its fence copies like `memmove`, or fills like `memset`.
  lemma RoutineCopies(style: Style, plan: Plan, dest: nat, src: nat, len: nat, boot: nat -> Cell, t: nat,
                      before: seq<Instr>, log: seq<Event>, more: seq<Event>, a: nat)
    requires Contiguous(plan, 0, len) && AllSuit(style, dest, plan)
    requires LoadsBeforeStores(Code(style, dest, src, plan))
    requires Executed(boot, t, before, log)
    requires Executed(boot, t, before + Code(style, dest, src, plan), log + more)
    ensures Within(a, dest, dest + len) ==>
              Value(At(boot(a), log + more, a)) == Intended(style, Image(boot, log), dest, src, a)
    ensures !Within(a, dest, dest + len) ==> At(boot(a), log + more, a).versions == At(boot(a), log, a).versions
  {
    var code := Code(style, dest, src, plan);
    var regs, image := Run(boot, t, RESET, before).regs, Image(boot, log);
    NewEvents(boot, t, before, code, log, more);
    var own := Resolve(code, t, regs, image);
    var c0 := At(boot(a), log, a);
    AtConcat(boot(a), log, more, a);
    if Within(a, dest, dest + len) {
      var v := Intended(style, image, dest, src, a);
      CodeWrites(style, dest, src, plan, t, regs, image, a);
      WritesOnlyByOwner(more, t, own, a, v);
      VersionsGrow(c0, more, a, v);
      CodePhaseIsPhase(0, code, t, regs, image, a);
      CodePhaseIsPlanPhase(0, style, dest, src, plan, a);
      RangeIsStored(0, NonTemporal(style), dest, plan, 0, len, a);
      PhaseIsSound(c0, more, t, a);
    } else {
      CodeFootprint(style, dest, src, plan, 0, len);
      StaysOut(code, t, regs, image, dest, dest + len, a);
      NobodyStores(more, t, own, a);
      Untouched(c0, more, a);
    }
  }

  lemma NobodyStores(log: seq<Event>, t: nat, own: seq<Event>, a: nat)
    requires Project(log, t) == own && SoleWriter(log, a, t)
    requires forall e | e in own :: !WritesByte(e, a)
    ensures forall e | e in log :: !WritesByte(e, a)
  {
    forall e | e in log && By(e, t) ensures e in own {
      OwnEvents(log, t, e);
    }
    assert forall e | e in log && WritesByte(e, a) :: By(e, t);
  }

  /// A whole operation copies or fills, changes nothing else, and leaves its range clean.
  lemma OperationCopies(op: Operation, dest: nat, src: nat, len: nat, boot: nat -> Cell, t: nat,
                        before: seq<Instr>, log: seq<Event>, more: seq<Event>, a: nat)
    requires Callable(op, dest, src, len)
    requires Executed(boot, t, before, log)
    requires Executed(boot, t, before + OpCode(op, dest, src, len), log + more)
    ensures Within(a, dest, dest + len) ==>
              && Value(At(boot(a), log + more, a)) == Promised(op, Image(boot, log), dest, src, a)
              && Clean(At(boot(a), log + more, a))
    ensures !Within(a, dest, dest + len) ==> At(boot(a), log + more, a).versions == At(boot(a), log, a).versions
  {
    var code := OpCode(op, dest, src, len);
    var regs, image := Run(boot, t, RESET, before).regs, Image(boot, log);
    OperationLoadsFirst(op, dest, src, len);
    NewEvents(boot, t, before, code, log, more);
    AtConcat(boot(a), log, more, a);
    if Within(a, dest, dest + len) {
      DurableAfterOperation(op, dest, src, len, t, regs, image, At(boot(a), log, a), more, a);
    } else {
      OperationFootprint(op, dest, src, len);
      StaysOut(code, t, regs, image, dest, dest + len, a);
      NobodyStores(more, t, Resolve(code, t, regs, image), a);
      Untouched(At(boot(a), log, a), more, a);
    }
  }

  /// In the middle of an operation
  /// -----------------------------

  lemma PrefixLoadsFirst(code: seq<Instr>, n: nat)
    requires n <= |code| && LoadsBeforeStores(code)
    ensures LoadsBeforeStores(code[..n])
  {
    forall i, j, a | 0 <= i < j < n && Stores(code[..n][i], a) ensures !Loads(code[..n][j], a) {
      assert code[i] == code[..n][i] && code[j] == code[..n][j];
    }
  }

  /// When a machine has executed any part of an operation, with any evictions in between, a crash
  /// leaves each byte of the destination as before or with its final value, and other bytes as before.
  /// The ranges may overlap as `Callable` allows.
  lemma CrashInMidOperation(op: Operation, dest: nat, src: nat, len: nat, n: nat, boot: nat -> Cell, t: nat,
                            before: seq<Instr>, log: seq<Event>, more: seq<Event>, a: nat, w: byte)
    requires Callable(op, dest, src, len) && n <= |OpCode(op, dest, src, len)|
    requires Executed(boot, t, before, log)
    requires Executed(boot, t, before + OpCode(op, dest, src, len)[..n], log + more)
    requires Exposes(At(boot(a), log + more, a), w)
    ensures Exposes(At(boot(a), log, a), w) ||
            (Within(a, dest, dest + len) && w == Promised(op, Image(boot, log), dest, src, a))
  {
    hide Executed, OpCode, Callable, LoadsBeforeStores, Resolve, Exposes, Promised;
    var code := OpCode(op, dest, src, len);
    var regs, image := Run(boot, t, RESET, before).regs, Image(boot, log);
    OperationLoadsFirst(op, dest, src, len);
    PrefixLoadsFirst(code, n);
    NewEvents(boot, t, before, code[..n], log, more);
    ResolvePrefix(code, n, t, regs, image);
    AtConcat(boot(a), log, more, a);
    CrashDuringOperation(op, dest, src, len, t, regs, image, At(boot(a), log, a), more, a, w);
  }

  /// What a caller sees
  /// ------------------

  /// The copy is `memmove`, the fill is `memset`, and no other byte changes.
  ghost predicate CopiedAt(style: Style, dest: nat, src: nat, len: nat,
                           memory: nat -> Cell, memory': nat -> Cell, a: nat) {
    if Within(a, dest, dest + len) then
      Value(memory'(a)) == if style.Set? then style.value else Value(memory(a - dest + src))
    else
      memory'(a).versions == memory(a).versions
  }

  ghost predicate Copied(style: Style, dest: nat, src: nat, len: nat, memory: nat -> Cell, memory': nat -> Cell) {
    forall a: nat :: CopiedAt(style, dest, src, len, memory, memory', a)
  }

  ghost predicate Persisted(dest: nat, len: nat, memory: nat -> Cell) {
    forall a: nat | Within(a, dest, dest + len) :: Clean(memory(a))
  }

  ghost predicate IsMemory(boot: nat -> Cell, log: seq<Event>, memory: nat -> Cell) {
    forall a: nat :: memory(a) == At(boot(a), log, a)
  }

  lemma IntendedIsCopied(style: Style, boot: nat -> Cell, log: seq<Event>, memory: nat -> Cell,
                         dest: nat, src: nat, a: nat)
    requires IsMemory(boot, log, memory) && dest <= a
    ensures Intended(style, Image(boot, log), dest, src, a) ==
            if style.Set? then style.value else Value(memory(a - dest + src))
  {
  }

  lemma RoutineDone(style: Style, plan: Plan, dest: nat, src: nat, len: nat, boot: nat -> Cell, t: nat,
                    before: seq<Instr>, after: seq<Instr>, log: seq<Event>, log': seq<Event>,
                    memory: nat -> Cell, memory': nat -> Cell)
    requires Executed(boot, t, before, log) && IsMemory(boot, log, memory)
    requires Executed(boot, t, after, log') && IsMemory(boot, log', memory')
    requires log <= log' && after == before + Code(style, dest, src, plan)
    requires Contiguous(plan, 0, len) && AllSuit(style, dest, plan)
    requires style.Set? || dest <= src || src + len <= dest
    ensures Copied(style, dest, src, len, memory, memory')
  {
    hide Executed, At, Code;
    var more := log'[|log|..];
    assert log' == log + more;
    NoStoreBeforeLoad(style, dest, src, plan, len);
    forall a: nat ensures CopiedAt(style, dest, src, len, memory, memory', a) {
      RoutineCopies(style, plan, dest, src, len, boot, t, before, log, more, a);
      if Within(a, dest, dest + len) {
        IntendedIsCopied(style, boot, log, memory, dest, src, a);
      }
    }
  }

  lemma OperationDone(op: Operation, dest: nat, src: nat, len: nat, boot: nat -> Cell, t: nat,
                      before: seq<Instr>, after: seq<Instr>, log: seq<Event>, log': seq<Event>,
                      memory: nat -> Cell, memory': nat -> Cell)
    requires Executed(boot, t, before, log) && IsMemory(boot, log, memory)
    requires Executed(boot, t, after, log') && IsMemory(boot, log', memory')
    requires log <= log' && after == before + OpCode(op, dest, src, len)
    requires Callable(op, dest, src, len)
    ensures Copied(StyleOf(op), dest, src, len, memory, memory') && Persisted(dest, len, memory')
  {
    hide Executed, At, OpCode, CopyMeaning.Intended, Callable, StyleOf;
    var style := StyleOf(op);
    var more := log'[|log|..];
    assert log' == log + more;
    forall a: nat
      ensures CopiedAt(style, dest, src, len, memory, memory', a)
      ensures Within(a, dest, dest + len) ==> Clean(memory'(a))
    {
      OperationCopies(op, dest, src, len, boot, t, before, log, more, a);
      if Within(a, dest, dest + len) {
        IntendedIsCopied(style, boot, log, memory, dest, src, a);
      }
    }
  }

  lemma NoStoreBeforeLoad(style: Style, dest: nat, src: nat, plan: Plan, len: nat)
    requires Contiguous(plan, 0, len) && AllSuit(style, dest, plan)
    requires style.Set? || dest <= src || src + len <= dest
    ensures LoadsBeforeStores(Code(style, dest, src, plan))
  {
    if style.Set? {
      MemsetLoadsNothing(style.value, dest, src, plan);
      NeverLoads(Code(style, dest, src, plan));
    } else {
      CopiesForward(style, dest, src, plan, 0, len);
    }
  }

  lemma NeverLoads(code: seq<Instr>)
    requires forall i | i in code :: !i.Load?
    ensures LoadsBeforeStores(code)
  {
    forall i, j, a | 0 <= i < j < |code| && Stores(code[i], a) ensures !Loads(code[j], a) {
      assert code[j] in code;
    }
  }
}
