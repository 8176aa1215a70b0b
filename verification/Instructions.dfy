/// Instructions
/// ============
///
/// The copy routines are straight-line instruction sequences once their addresses are known:
/// none of their branches looks at the bytes being copied.  This module says what the
/// instructions do, for one thread among others.

module Instructions {
  import opened PersistentMemory

  /// `Scalar` accesses are ordinary moves of 1 to 8 bytes, `Aligned` is `vmovdqa`, `Streaming`
  /// is `vmovntdqa` for a load and `vmovntpd` for a store.
  datatype Kind = Scalar | Aligned | Streaming

  datatype Instr =
    | Load(reg: nat, addr: nat, n: nat, kind: Kind)
    | Store(reg: nat, addr: nat, n: nat, kind: Kind)
    | Fill(addr: nat, n: nat, value: byte)  // what `memset` stores
    | Clwb(addr: nat)
    | Sfence

  /// Vector accesses fault unless their address is a multiple of their width.
  predicate Legal(i: Instr) {
    (i.Load? || i.Store?) && !i.kind.Scalar? ==> i.n > 0 && i.addr % i.n == 0
  }

  predicate AllLegal(code: seq<Instr>) {
    forall i | i in code :: Legal(i)
  }

  predicate Stores(i: Instr, a: nat) {
    (i.Store? || i.Fill?) && i.addr <= a < i.addr + i.n
  }

  predicate Loads(i: Instr, a: nat) {
    i.Load? && i.addr <= a < i.addr + i.n
  }

  /// Registers
  /// ---------

  type Regs = map<nat, seq<byte>>

  /// The `n` bytes a store takes from a register.  A register that was never loaded with that
  /// many bytes supplies zeros; no routine below depends on one.
  function Contents(regs: Regs, reg: nat, n: nat): (data: seq<byte>)
    ensures |data| == n
  {
    if reg in regs && |regs[reg]| == n then regs[reg] else seq(n, _ => 0)
  }

  function Bytes(image: nat -> byte, addr: nat, n: nat): (data: seq<byte>)
    ensures |data| == n
    ensures forall i | 0 <= i < n :: data[i] == image(addr + i)
  {
    seq(n, i requires 0 <= i < n => image(addr + i))
  }

  lemma SameBytes(image: nat -> byte, other: nat -> byte, addr: nat, n: nat)
    requires forall a | addr <= a < addr + n :: image(a) == other(a)
    ensures Bytes(image, addr, n) == Bytes(other, addr, n)
  {
    forall i | 0 <= i < n ensures Bytes(image, addr, n)[i] == Bytes(other, addr, n)[i] {
      assert image(addr + i) == other(addr + i);
    }
  }

  function NextRegs(i: Instr, regs: Regs, image: nat -> byte): Regs {
    if i.Load? then regs[i.reg := Bytes(image, i.addr, i.n)] else regs
  }

  /// What the instruction makes the memory see.
  function Emits(i: Instr, t: nat, regs: Regs): (events: seq<Event>)
    ensures |events| <= 1
    ensures forall e | e in events :: By(e, t)
  {
    match i
    case Load(_, _, _, _) => []
    case Store(reg, addr, n, kind) => [Wrote(t, addr, Contents(regs, reg, n), kind.Streaming?)]
    case Fill(addr, n, value) => [Wrote(t, addr, seq(n, _ => value), false)]
    case Clwb(addr) => [WroteBack(t, LineOf(addr))]
    case Sfence => [Fenced(t)]
  }

  /// Running against memory
  /// ----------------------
  ///
  /// `boot` is the memory before the first event of `log`; together they determine every byte.

  datatype Core = Core(regs: Regs, log: seq<Event>)

  function Image(boot: nat -> Cell, log: seq<Event>): nat -> byte {
    (a: nat) => Value(At(boot(a), log, a))
  }

  function Exec(boot: nat -> Cell, t: nat, core: Core, i: Instr): Core {
    Core(NextRegs(i, core.regs, Image(boot, core.log)), core.log + Emits(i, t, core.regs))
  }

  function Run(boot: nat -> Cell, t: nat, core: Core, code: seq<Instr>): Core {
    if code == [] then core
    else Exec(boot, t, Run(boot, t, core, code[..|code| - 1]), code[|code| - 1])
  }

  lemma RunSnoc(boot: nat -> Cell, t: nat, core: Core, p: seq<Instr>, i: Instr)
    ensures Run(boot, t, core, p + [i]) == Exec(boot, t, Run(boot, t, core, p), i)
  {
    assert (p + [i])[..|p + [i]| - 1] == p;
  }

  lemma {:induction false} RunConcat(boot: nat -> Cell, t: nat, core: Core, p: seq<Instr>, q: seq<Instr>)
    ensures Run(boot, t, core, p + q) == Run(boot, t, Run(boot, t, core, p), q)
  {
    if q == [] {
      assert p + q == p;
    } else {
      var n := |q| - 1;
      assert (p + q)[..|p + q| - 1] == p + q[..n];
      RunConcat(boot, t, core, p, q[..n]);
    }
  }

  /// Running against a fixed image
  /// -----------------------------
  ///
  /// The events the code would produce if every load saw `image`, no matter what was stored in
  /// the meantime.  That is what `memmove` promises, and what a copy among other threads needs.

  function RegsAfter(code: seq<Instr>, regs: Regs, image: nat -> byte): Regs {
    if code == [] then regs else RegsAfter(code[1..], NextRegs(code[0], regs, image), image)
  }

  function Resolve(code: seq<Instr>, t: nat, regs: Regs, image: nat -> byte): (events: seq<Event>)
    ensures forall e | e in events :: By(e, t)
  {
    if code == [] then []
    else Emits(code[0], t, regs) + Resolve(code[1..], t, NextRegs(code[0], regs, image), image)
  }

  lemma {:induction false} ResolveConcat(p: seq<Instr>, q: seq<Instr>, t: nat, regs: Regs, image: nat -> byte)
    ensures RegsAfter(p + q, regs, image) == RegsAfter(q, RegsAfter(p, regs, image), image)
    ensures Resolve(p + q, t, regs, image) ==
            Resolve(p, t, regs, image) + Resolve(q, t, RegsAfter(p, regs, image), image)
  {
    if p == [] {
      assert p + q == q;
    } else {
      assert (p + q)[1..] == p[1..] + q;
      ResolveConcat(p[1..], q, t, NextRegs(p[0], regs, image), image);
    }
  }

  lemma ResolvePrefix(code: seq<Instr>, n: nat, t: nat, regs: Regs, image: nat -> byte)
    requires n <= |code|
    ensures Resolve(code[..n], t, regs, image) <= Resolve(code, t, regs, image)
  {
    assert code == code[..n] + code[n..];
    ResolveConcat(code[..n], code[n..], t, regs, image);
  }

  lemma SameRest<T>(p: seq<T>, q: seq<T>, r: seq<T>)
    requires p + q == p + r
    ensures q == r
  {
    assert q == (p + q)[|p|..];
    assert r == (p + r)[|p|..];
  }

  /// No load reads a byte that an earlier instruction of the same code stored.
  ghost predicate LoadsBeforeStores(code: seq<Instr>) {
    forall i, j, a | 0 <= i < j < |code| && Stores(code[i], a) :: !Loads(code[j], a)
  }

  /// Code that loads every byte before storing to it runs as if memory never changed under it.
  lemma {:induction false} RunIsResolve(boot: nat -> Cell, t: nat, core: Core, code: seq<Instr>, image: nat -> byte)
    requires LoadsBeforeStores(code)
    requires forall i, a | i in code && Loads(i, a) :: Image(boot, core.log)(a) == image(a)
    ensures Run(boot, t, core, code) == Core(RegsAfter(code, core.regs, image),
                                             core.log + Resolve(code, t, core.regs, image))
    decreases code
  {
    hide Emits, NextRegs, LoadsBeforeStores, Run, Exec;
    RunNothing(boot, t, core);
    if code == [] {
      assert core.log + [] == core.log;
    } else {
      var i, rest := code[0], code[1..];
      var next := Exec(boot, t, core, i);
      ExecIs(boot, t, core, i);
      LoadsSee(boot, core, i, image) by {
        assert i in code;
      }
      forall j, a | j in rest && Loads(j, a) ensures Image(boot, next.log)(a) == image(a) {
        LaterLoad(code, j, a);
        ExecKeepsValue(boot, t, core, i, a);
      }
      TailLoadsFirst(code);
      RunIsResolve(boot, t, next, rest, image);
      RunCons(boot, t, core, i, rest);
      assert code == [i] + rest;
      assert next.log + Resolve(rest, t, next.regs, image) ==
             core.log + (Emits(i, t, core.regs) + Resolve(rest, t, next.regs, image));
    }
  }

  lemma RunNothing(boot: nat -> Cell, t: nat, core: Core)
    ensures Run(boot, t, core, []) == core
  {
  }

  lemma ExecIs(boot: nat -> Cell, t: nat, core: Core, i: Instr)
    ensures Exec(boot, t, core, i) ==
            Core(NextRegs(i, core.regs, Image(boot, core.log)), core.log + Emits(i, t, core.regs))
  {
  }

  lemma LoadsSee(boot: nat -> Cell, core: Core, i: Instr, image: nat -> byte)
    requires forall a | Loads(i, a) :: Image(boot, core.log)(a) == image(a)
    ensures NextRegs(i, core.regs, Image(boot, core.log)) == NextRegs(i, core.regs, image)
  {
    if i.Load? {
      forall a | i.addr <= a < i.addr + i.n ensures Image(boot, core.log)(a) == image(a) {
        assert Loads(i, a);
      }
      SameBytes(Image(boot, core.log), image, i.addr, i.n);
    }
  }

  lemma LaterLoad(code: seq<Instr>, j: Instr, a: nat)
    requires LoadsBeforeStores(code) && code != [] && j in code[1..] && Loads(j, a)
    ensures j in code && !Stores(code[0], a)
  {
    var m :| 0 <= m < |code| - 1 && code[1..][m] == j;
    assert code[m + 1] == j;
  }

  lemma TailLoadsFirst(code: seq<Instr>)
    requires LoadsBeforeStores(code) && code != []
    ensures LoadsBeforeStores(code[1..])
  {
    var rest := code[1..];
    forall k, m, a | 0 <= k < m < |rest| && Stores(rest[k], a) ensures !Loads(rest[m], a) {
      assert code[k + 1] == rest[k] && code[m + 1] == rest[m];
    }
  }

  lemma RunCons(boot: nat -> Cell, t: nat, core: Core, i: Instr, rest: seq<Instr>)
    ensures Run(boot, t, core, [i] + rest) == Run(boot, t, Exec(boot, t, core, i), rest)
  {
    RunConcat(boot, t, core, [i], rest);
    RunSnoc(boot, t, core, [], i);
    assert [] + [i] == [i];
  }

  lemma ExecKeepsValue(boot: nat -> Cell, t: nat, core: Core, i: Instr, a: nat)
    requires !Stores(i, a)
    ensures Value(At(boot(a), Exec(boot, t, core, i).log, a)) == Value(At(boot(a), core.log, a))
  {
    hide At, Contents;
    var events := Emits(i, t, core.regs);
    if events == [] {
      assert core.log + events == core.log;
    } else {
      assert core.log + events == core.log + [events[0]];
      AtSnoc(boot(a), core.log, events[0], a);
      StepKeepsValue(At(boot(a), core.log, a), events[0], a);
    }
  }

  /// Phases without data
  /// -------------------
  ///
  /// Which phase a byte reaches depends on the addresses alone.

  function PhaseAfter(phase: nat, i: Instr, a: nat): nat {
    match i
    case Load(_, _, _, _) => phase
    case Store(_, addr, n, kind) =>
      if addr <= a < addr + n then (if kind.Streaming? then 2 else 1) else phase
    case Fill(addr, n, _) => if addr <= a < addr + n then 1 else phase
    case Clwb(addr) => if InLine(LineOf(addr), a) && phase == 1 then 2 else phase
    case Sfence => if phase == 2 then 3 else phase
  }

  function CodePhase(phase: nat, code: seq<Instr>, a: nat): nat
    decreases code
  {
    if code == [] then phase else CodePhase(PhaseAfter(phase, code[0], a), code[1..], a)
  }

  lemma {:induction false} CodePhaseConcat(phase: nat, p: seq<Instr>, q: seq<Instr>, a: nat)
    ensures CodePhase(phase, p + q, a) == CodePhase(CodePhase(phase, p, a), q, a)
    decreases p
  {
    if p == [] {
      assert p + q == q;
    } else {
      assert (p + q)[1..] == p[1..] + q;
      CodePhaseConcat(PhaseAfter(phase, p[0], a), p[1..], q, a);
    }
  }

  lemma {:induction false} CodePhaseIsPhase(phase: nat, code: seq<Instr>, t: nat, regs: Regs,
                                            image: nat -> byte, a: nat)
    ensures Phase(phase, Resolve(code, t, regs, image), a) == CodePhase(phase, code, a)
    decreases code
  {
    if code != [] {
      var first := Emits(code[0], t, regs);
      var regs' := NextRegs(code[0], regs, image);
      assert Phase(phase, first, a) == PhaseAfter(phase, code[0], a);
      PhaseConcat(phase, first, Resolve(code[1..], t, regs', image), a);
      CodePhaseIsPhase(PhaseAfter(phase, code[0], a), code[1..], t, regs', image, a);
    }
  }
}
