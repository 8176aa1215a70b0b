/// Why every part of an operation is needed
/// ========================================
///
/// A copy is durable once its stores, its write-backs and its fence have been executed
/// (`PersistentCopies`).  Short of that it is not: until the fence a crash may leave any byte as it was,
/// and without write-backs no fence helps.

module Necessity {
  import opened PersistentMemory
  import opened Instructions
  import opened CopyPlans
  import opened WriteBackPlans
  import opened CopyCode
  import opened PersistentCopies

  /// No event starts a write-back of the byte that a later fence of the same thread could complete.
  ghost predicate NothingFenced(log: seq<Event>, t: nat, a: nat) {
    forall i: nat, j: nat | i < j < |log| && Asks(log[i], t, a) :: log[j] != Fenced(t)
  }

  /// Then a crash may leave the byte as it was in the beginning, whatever has been stored since.
  lemma OldValueRemains(c0: Cell, log: seq<Event>, t: nat, a: nat)
    requires Clean(c0)
    requires SoleWriter(log, a, t) && OnItsOwn(log, t, a) && NothingFenced(log, t, a)
    ensures Exposes(At(c0, log, a), Value(c0))
  {
    hide At, Stored, InLine;
    forall i: nat ensures !Reaches(log, i, a) {
      NothingReaches(log, t, i, a);
    }
    CrashLaw(c0, log, a, Value(c0));
    assert Remains(c0, log, a, Value(c0), Newest(c0));
  }

  lemma NothingReaches(log: seq<Event>, t: nat, i: nat, a: nat)
    requires SoleWriter(log, a, t) && OnItsOwn(log, t, a) && NothingFenced(log, t, a)
    ensures !Reaches(log, i, a)
  {
    hide InLine;
    if i < |log| {
      assert log[i] in log;
      forall j: nat | i < j < |log| && log[j].Fenced? ensures !Asks(log[i], log[j].t, a) {
        assert log[j] == Fenced(log[j].t);
      }
    }
  }

  /// What code leaves out
  /// --------------------

  predicate NoFences(code: seq<Instr>) {
    forall i | i in code :: !i.Sfence?
  }

  /// Nothing in the code starts a write-back.
  predicate NoWriteBacks(code: seq<Instr>) {
    forall i | i in code :: !i.Clwb? && !(i.Store? && i.kind.Streaming?)
  }

  lemma {:induction false} LoadsAndStores(kind: Kind, addr: nat, k: nat)
    ensures NoFences(LoadWords(kind, addr, k)) && NoWriteBacks(LoadWords(kind, addr, k))
    ensures NoFences(StoreWords(kind, addr, k)) && NoFences(StoreLines(kind, addr, k))
    ensures !kind.Streaming? ==> NoWriteBacks(StoreWords(kind, addr, k))
  {
    if k > 0 {
      LoadsAndStores(kind, addr, k - 1);
    }
  }

  lemma ChunkHasNoFence(style: Style, dest: nat, src: nat, n: nat, flush: bool)
    ensures NoFences(ChunkCode(style, dest, src, n, flush))
    ensures !flush && !NonTemporal(style) ==> NoWriteBacks(ChunkCode(style, dest, src, n, flush))
  {
    hide LoadWords, StoreWords, StoreLines;
    if style.Vector? {
      LoadsAndStores(style.ld, src, n / 32);
      LoadsAndStores(style.st, dest, n / 32);
      LoadsAndStores(style.st, dest, n / 64);
    }
  }

  lemma {:induction false} CodeHasNoFence(style: Style, dest: nat, src: nat, plan: Plan)
    ensures NoFences(Code(style, dest, src, plan))
    ensures !NonTemporal(style) && OnlyCopies(plan) ==> NoWriteBacks(Code(style, dest, src, plan))
  {
    hide ChunkCode;
    if plan != [] {
      CodeHasNoFence(style, dest, src, plan[1..]);
      assert plan[0] in plan && forall act | act in plan[1..] :: act in plan;
      if plan[0].Copy? {
        ChunkHasNoFence(style, dest + plan[0].off, src + plan[0].off, plan[0].n, plan[0].flush);
      }
    }
  }

  /// What is not in the code is not in its events.
  lemma {:induction false} EventsOf(code: seq<Instr>, t: nat, regs: Regs, image: nat -> byte, e: Event, a: nat)
    requires e in Resolve(code, t, regs, image)
    ensures NoFences(code) ==> !e.Fenced?
    ensures NoWriteBacks(code) ==> !Asks(e, t, a)
  {
    hide NextRegs, Contents, InLine;
    assert code[0] in code && forall i | i in code[1..] :: i in code;
    if e !in Emits(code[0], t, regs) {
      EventsOf(code[1..], t, NextRegs(code[0], regs, image), image, e, a);
    }
  }

  /// A thread that has not yet executed a fence, or starts no write-backs at all.
  lemma Unfenced(code: seq<Instr>, t: nat, regs: Regs, image: nat -> byte, log: seq<Event>, a: nat)
    requires NoFences(code) || NoWriteBacks(code)
    requires Project(log, t) <= Resolve(code, t, regs, image)
    ensures NothingFenced(log, t, a)
  {
    hide Resolve, Project, Asks, NoFences, NoWriteBacks;
    var own := Resolve(code, t, regs, image);
    forall i: nat, j: nat | i < j < |log| && Asks(log[i], t, a) ensures log[j] != Fenced(t) {
      AsksNoFence(log[i], t, a);
      OwnEvents(log, t, log[i]);
      EventsOf(code, t, regs, image, log[i], a);
      if log[j] == Fenced(t) {
        OwnEvents(log, t, log[j]);
        EventsOf(code, t, regs, image, log[j], a);
      }
    }
  }

  /// The fence decides
  /// -----------------

  lemma FenceIsLast(op: Operation, dest: nat, src: nat, len: nat, t: nat, regs: Regs, image: nat -> byte)
    ensures Resolve(OpCode(op, dest, src, len), t, regs, image) ==
            Resolve(Code(StyleOf(op), dest, src, PlanOf(op, dest, len)), t, regs, image) + [Fenced(t)]
  {
    hide Code, StyleOf, PlanOf;
    var code := Code(StyleOf(op), dest, src, PlanOf(op, dest, len));
    ResolveConcat(code, [Sfence], t, regs, image);
    assert [Sfence][1..] == [];
    var after := RegsAfter(code, regs, image);
    assert Resolve([], t, NextRegs(Sfence, after, image), image) == [];
  }

  /// While an operation is under way, alone with its bytes and without evictions, a crash may leave every
  /// byte of the destination as it was.  That ends with the fence and not before.
  lemma FenceDecides(op: Operation, dest: nat, src: nat, len: nat, t: nat, regs: Regs, image: nat -> byte,
                     c0: Cell, log: seq<Event>, a: nat)
    requires Clean(c0) && Within(a, dest, dest + len)
    requires SoleWriter(log, a, t) && OnItsOwn(log, t, a)
    requires Project(log, t) <= Resolve(OpCode(op, dest, src, len), t, regs, image)
    requires Value(c0) != Promised(op, image, dest, src, a)
    ensures Exposes(At(c0, log, a), Value(c0)) <==>
            Project(log, t) != Resolve(OpCode(op, dest, src, len), t, regs, image)
  {
    hide At, OpCode, Project, Resolve, Promised, SoleWriter, OnItsOwn, Exposes, NothingFenced, NoFences, Code;
    var own := Resolve(OpCode(op, dest, src, len), t, regs, image);
    if Project(log, t) == own {
      DurableAfterOperation(op, dest, src, len, t, regs, image, c0, log, a);
    } else {
      FenceIsLast(op, dest, src, len, t, regs, image);
      var code := Code(StyleOf(op), dest, src, PlanOf(op, dest, len));
      assert Project(log, t) <= Resolve(code, t, regs, image);
      CodeHasNoFence(StyleOf(op), dest, src, PlanOf(op, dest, len));
      Unfenced(code, t, regs, image, log, a);
      OldValueRemains(c0, log, t, a);
    }
  }

  /// Stores alone
  /// ------------

  /// The routines that only store: the vector copy with cached stores, `memcpy` and `memset`.
  predicate StoresOnly(style: Style, dest: nat, len: nat, plan: Plan) {
    if style.Vector? then !style.st.Streaming? && plan == PlainPlan(dest, len) else plan == Chunk(0, len)
  }

  /// They are not durable, not even after a fence: without write-backs a crash may leave every byte as it
  /// was.
  lemma StoresNeedWriteBacks(style: Style, dest: nat, src: nat, len: nat, plan: Plan, t: nat, regs: Regs,
                             image: nat -> byte, c0: Cell, log: seq<Event>, a: nat)
    requires StoresOnly(style, dest, len, plan)
    requires Clean(c0) && SoleWriter(log, a, t) && OnItsOwn(log, t, a)
    requires Project(log, t) <= Resolve(Code(style, dest, src, plan) + [Sfence], t, regs, image)
    ensures Exposes(At(c0, log, a), Value(c0))
  {
    hide At, Project, Resolve, SoleWriter, OnItsOwn, Exposes, NothingFenced, Code, PlainPlan, Clean;
    PlainPlanOnlyCopies(dest, len);
    CodeHasNoFence(style, dest, src, plan);
    var code := Code(style, dest, src, plan) + [Sfence];
    assert NoWriteBacks(code);
    Unfenced(code, t, regs, image, log, a);
    OldValueRemains(c0, log, t, a);
  }
}
