/// Threads and evictions in any order
/// ==================================
///
/// Several threads run their instructions against one memory.  A schedule says which thread takes
/// the next step, or which line the cache evicts.

module Concurrency {
  import opened PersistentMemory
  import opened Instructions
  import opened PersistentCopies

  /// A thread first warms up, with loads whose values it never uses, and then does its work.
  datatype Program = Program(warmUp: seq<Instr>, body: seq<Instr>) {
    function Code(): seq<Instr> {
      warmUp + body
    }
  }

  type Programs = seq<Program>

  datatype Thread = Thread(regs: Regs, pc: nat)

  /// The process dies as a whole when one of its threads executes an instruction that faults.
  datatype Sys = Sys(log: seq<Event>, threads: seq<Thread>, dead: bool)

  datatype Step = Evict(line: nat) | Turn(t: nat)

  function Start(progs: Programs): (s: Sys)
    ensures |s.threads| == |progs|
  {
    Sys([], seq(|progs|, _ => Thread(map[], 0)), false)
  }

  /// The process lives, and the thread has an instruction to execute.
  predicate HasTurn(progs: Programs, s: Sys, t: nat)
    requires |s.threads| == |progs|
  {
    !s.dead && t < |progs| && s.threads[t].pc < |progs[t].Code()|
  }

  /// Furthermore, that instruction does not fault.
  predicate CanStep(progs: Programs, s: Sys, t: nat)
    requires |s.threads| == |progs|
  {
    HasTurn(progs, s, t) && Legal(progs[t].Code()[s.threads[t].pc])
  }

  /// A turn of a thread that has finished or does not exist changes nothing, and nor does any turn once
  /// the process is dead.  The cache goes on evicting lines.
  function Next(boot: nat -> Cell, progs: Programs, s: Sys, step: Step): (s': Sys)
    requires |s.threads| == |progs|
    ensures |s'.threads| == |progs|
  {
    match step
    case Evict(line) => s.(log := s.log + [Evicted(line)])
    case Turn(t) =>
      if CanStep(progs, s, t) then
        var thread := s.threads[t];
        var i := progs[t].Code()[thread.pc];
        s.(log := s.log + Emits(i, t, thread.regs),
           threads := s.threads[t := Thread(NextRegs(i, thread.regs, Image(boot, s.log)), thread.pc + 1)])
      else if HasTurn(progs, s, t) then s.(dead := true)
      else s
  }

  function After(boot: nat -> Cell, progs: Programs, schedule: seq<Step>): (s: Sys)
    ensures |s.threads| == |progs|
  {
    if schedule == [] then Start(progs)
    else Next(boot, progs, After(boot, progs, schedule[..|schedule| - 1]), schedule[|schedule| - 1])
  }

  predicate OnlyLoads(code: seq<Instr>) {
    forall i | i in code :: i.Load?
  }

  /// The threads warm up with loads only, which may read anything, also what other threads are storing
  /// at the time.  After that no thread loads a byte that any thread stores.
  ghost predicate Apart(progs: Programs) {
    && (forall t | 0 <= t < |progs| :: OnlyLoads(progs[t].warmUp))
    && forall t: nat, u: nat, i, j, a: nat ::
         t < |progs| && u < |progs| && i in progs[t].body && j in progs[u].body && Loads(i, a) ==> !Stores(j, a)
  }

  /// Memory before the first step.
  function Origin(boot: nat -> Cell): nat -> byte {
    Image(boot, [])
  }

  /// How much of its work thread `t` has done.
  function Progress(progs: Programs, s: Sys, t: nat): (n: nat)
    requires |s.threads| == |progs| && t < |progs|
    ensures n == 0 <==> s.threads[t].pc <= |progs[t].warmUp|
  {
    if s.threads[t].pc <= |progs[t].warmUp| then 0 else s.threads[t].pc - |progs[t].warmUp|
  }

  /// Thread `t` has done with its work what it would have done alone on the original memory, starting
  /// from the registers its warm-up left.
  ghost predicate InStepFrom(boot: nat -> Cell, progs: Programs, s: Sys, t: nat, regs: Regs)
    requires |s.threads| == |progs| && t < |progs|
  {
    var n := Progress(progs, s, t);
    && s.threads[t].pc <= |progs[t].Code()|
    && Project(s.log, t) == Resolve(progs[t].body[..n], t, regs, Origin(boot))
    && (s.threads[t].pc >= |progs[t].warmUp| ==>
          s.threads[t].regs == RegsAfter(progs[t].body[..n], regs, Origin(boot)))
  }

  ghost predicate InStep(boot: nat -> Cell, progs: Programs, s: Sys, t: nat)
    requires |s.threads| == |progs| && t < |progs|
  {
    exists regs :: InStepFrom(boot, progs, s, t, regs)
  }

  ghost predicate KnownThreads(log: seq<Event>, n: nat) {
    forall e | e in log :: e.Evicted? || e.t < n
  }

  lemma {:induction false} ResolveStores(code: seq<Instr>, t: nat, regs: Regs, image: nat -> byte, e: Event, a: nat)
    requires e in Resolve(code, t, regs, image) && WritesByte(e, a)
    ensures exists i :: i in code && Stores(i, a)
  {
    if e in Emits(code[0], t, regs) {
      assert code[0] in code && Stores(code[0], a);
    } else {
      ResolveStores(code[1..], t, NextRegs(code[0], regs, image), image, e, a);
      var i :| i in code[1..] && Stores(i, a);
      assert i in code;
    }
  }

  lemma StoredByProgram(boot: nat -> Cell, progs: Programs, s: Sys, e: Event, a: nat)
    requires |s.threads| == |progs| && KnownThreads(s.log, |progs|)
    requires forall u: nat | u < |progs| :: InStep(boot, progs, s, u)
    requires e in s.log && WritesByte(e, a)
    ensures e.t < |progs| && exists j :: j in progs[e.t].body && Stores(j, a)
  {
    assert e.t < |progs|;
    assert InStep(boot, progs, s, e.t);
    var regs :| InStepFrom(boot, progs, s, e.t, regs);
    OwnEvents(s.log, e.t, e);
    var done := progs[e.t].body[..Progress(progs, s, e.t)];
    ResolveStores(done, e.t, regs, Origin(boot), e, a);
    var j :| j in done && Stores(j, a);
    assert j in progs[e.t].body;
  }

  lemma NeverStored(progs: Programs, t: nat, u: nat, i: Instr, a: nat)
    requires Apart(progs) && t < |progs| && u < |progs| && i in progs[t].body && Loads(i, a)
    ensures forall j | j in progs[u].body :: !Stores(j, a)
  {
    hide Stores, Loads;
  }

  lemma LoadsSeeOrigin(boot: nat -> Cell, progs: Programs, s: Sys, t: nat, i: Instr, a: nat)
    requires |s.threads| == |progs| && KnownThreads(s.log, |progs|) && Apart(progs)
    requires forall u: nat | u < |progs| :: InStep(boot, progs, s, u)
    requires t < |progs| && i in progs[t].body && Loads(i, a)
    ensures Image(boot, s.log)(a) == Origin(boot)(a)
  {
    hide InStep, Apart, CellStep;
    forall e | e in s.log ensures !WritesByte(e, a) {
      if WritesByte(e, a) {
        StoredByProgram(boot, progs, s, e, a);
        NeverStored(progs, t, e.t, i, a);
      }
    }
    Untouched(boot(a), s.log, a);
  }

  lemma ProjectEmits(log: seq<Event>, i: Instr, u: nat, regs: Regs, t: nat)
    ensures Project(log + Emits(i, u, regs), t) == Project(log, t) + if u == t then Emits(i, u, regs) else []
  {
    var events := Emits(i, u, regs);
    if events == [] {
      assert log + events == log;
    } else {
      assert events == [events[0]] && By(events[0], u);
      ProjectSnoc(log, events[0], t);
    }
  }

  /// A step of the cache or of another thread.
  lemma OtherStep(boot: nat -> Cell, progs: Programs, s: Sys, step: Step, t: nat)
    requires |s.threads| == |progs| && t < |progs| && InStep(boot, progs, s, t)
    requires step.Turn? ==> step.t != t
    ensures InStep(boot, progs, Next(boot, progs, s, step), t)
  {
    hide Emits, NextRegs, RegsAfter, Resolve, CanStep, Project, Origin, Program.Code;
    var regs :| InStepFrom(boot, progs, s, t, regs);
    match step {
      case Evict(line) => ProjectSnoc(s.log, Evicted(line), t);
      case Turn(u) =>
        if CanStep(progs, s, u) {
          StepsInTurn(progs, s, u);
          ProjectEmits(s.log, progs[u].Code()[s.threads[u].pc], u, s.threads[u].regs, t);
        }
    }
    assert InStepFrom(boot, progs, Next(boot, progs, s, step), t, regs);
  }

  lemma StepsInTurn(progs: Programs, s: Sys, u: nat)
    requires |s.threads| == |progs| && CanStep(progs, s, u)
    ensures u < |progs| && s.threads[u].pc < |progs[u].Code()|
  {
  }

  lemma NoStep(boot: nat -> Cell, progs: Programs, s: Sys, s': Sys, t: nat)
    requires |s.threads| == |progs| && t < |progs| && InStep(boot, progs, s, t)
    requires s'.log == s.log && s'.threads == s.threads
    ensures InStep(boot, progs, s', t)
  {
    var regs :| InStepFrom(boot, progs, s, t, regs);
    assert InStepFrom(boot, progs, s', t, regs);
  }

  /// A load of the thread's own warm-up: whatever it sees, nothing reaches memory.
  lemma WarmUpStep(boot: nat -> Cell, progs: Programs, s: Sys, t: nat)
    requires |s.threads| == |progs| && CanStep(progs, s, t) && InStep(boot, progs, s, t)
    requires OnlyLoads(progs[t].warmUp) && s.threads[t].pc < |progs[t].warmUp|
    ensures InStep(boot, progs, Next(boot, progs, s, Turn(t)), t)
  {
    var s' := Next(boot, progs, s, Turn(t));
    var i := progs[t].Code()[s.threads[t].pc];
    assert i == progs[t].warmUp[s.threads[t].pc] && i in progs[t].warmUp;
    assert s.log + [] == s.log;
    var regs :| InStepFrom(boot, progs, s, t, regs);
    assert InStepFrom(boot, progs, s', t, s'.threads[t].regs);
  }

  lemma BodyStep(boot: nat -> Cell, progs: Programs, s: Sys, t: nat)
    requires |s.threads| == |progs| && KnownThreads(s.log, |progs|) && Apart(progs)
    requires forall u: nat | u < |progs| :: InStep(boot, progs, s, u)
    requires CanStep(progs, s, t) && s.threads[t].pc >= |progs[t].warmUp|
    ensures InStep(boot, progs, Next(boot, progs, s, Turn(t)), t)
  {
    hide Emits, NextRegs, Apart, Origin, RegsAfter, Resolve, Legal, InStepFrom;
    var n, thread := Progress(progs, s, t), s.threads[t];
    var i := progs[t].body[n];
    assert i == progs[t].Code()[thread.pc] && i in progs[t].body;
    assert InStep(boot, progs, s, t);
    var regs :| InStepFrom(boot, progs, s, t, regs);
    forall a | Loads(i, a) ensures Image(boot, s.log)(a) == Origin(boot)(a) {
      LoadsSeeOrigin(boot, progs, s, t, i, a);
    }
    var s' := Next(boot, progs, s, Turn(t));
    assert s'.log == s.log + Emits(i, t, thread.regs);
    assert s'.threads[t] == Thread(NextRegs(i, thread.regs, Image(boot, s.log)), thread.pc + 1);
    BodyInStep(boot, progs, s, s', t, regs);
  }

  lemma BodyInStep(boot: nat -> Cell, progs: Programs, s: Sys, s': Sys, t: nat, regs: Regs)
    requires |s.threads| == |s'.threads| == |progs| && t < |progs| && InStepFrom(boot, progs, s, t, regs)
    requires var n, thread := Progress(progs, s, t), s.threads[t];
             && n < |progs[t].body| && thread.pc == |progs[t].warmUp| + n
             && (forall a | Loads(progs[t].body[n], a) :: Image(boot, s.log)(a) == Origin(boot)(a))
             && s'.log == s.log + Emits(progs[t].body[n], t, thread.regs)
             && s'.threads[t] == Thread(NextRegs(progs[t].body[n], thread.regs, Image(boot, s.log)), thread.pc + 1)
    ensures InStepFrom(boot, progs, s', t, regs)
  {
    hide Emits, NextRegs, Origin, RegsAfter, Resolve, Project;
    var n, thread := Progress(progs, s, t), s.threads[t];
    ProjectEmits(s.log, progs[t].body[n], t, thread.regs, t);
    OneMore(boot, s.log, progs[t].body, n, t, regs, thread.regs, Origin(boot));
  }

  lemma OneMore(boot: nat -> Cell, log: seq<Event>, code: seq<Instr>, n: nat, t: nat,
                from: Regs, regs: Regs, image: nat -> byte)
    requires n < |code| && regs == RegsAfter(code[..n], from, image)
    requires forall a | Loads(code[n], a) :: Image(boot, log)(a) == image(a)
    ensures NextRegs(code[n], regs, Image(boot, log)) == RegsAfter(code[..n + 1], from, image)
    ensures Resolve(code[..n + 1], t, from, image) ==
            Resolve(code[..n], t, from, image) + Emits(code[n], t, regs)
  {
    hide Emits, NextRegs;
    LoadsSee(boot, Core(regs, log), code[n], image);
    assert code[..n + 1] == code[..n] + [code[n]];
    ResolveConcat(code[..n], [code[n]], t, from, image);
    ResolveOne(code[n], t, regs, image);
  }

  lemma ResolveOne(i: Instr, t: nat, regs: Regs, image: nat -> byte)
    ensures Resolve([i], t, regs, image) == Emits(i, t, regs)
    ensures RegsAfter([i], regs, image) == NextRegs(i, regs, image)
  {
    hide Emits, NextRegs;
    assert [i][1..] == [];
    assert RegsAfter([], NextRegs(i, regs, image), image) == NextRegs(i, regs, image);
    assert Resolve([], t, NextRegs(i, regs, image), image) == [];
  }

  /// Whatever the schedule, every thread does exactly what it would have done alone.
  lemma {:induction false} Lockstep(boot: nat -> Cell, progs: Programs, schedule: seq<Step>)
    requires Apart(progs)
    ensures var s := After(boot, progs, schedule);
            KnownThreads(s.log, |progs|) && forall t: nat | t < |progs| :: InStep(boot, progs, s, t)
  {
    hide InStep, Emits, CanStep;
    if schedule == [] {
      forall t: nat | t < |progs| ensures InStep(boot, progs, Start(progs), t) {
        StartsInStep(boot, progs, t);
      }
    } else {
      var n := |schedule| - 1;
      Lockstep(boot, progs, schedule[..n]);
      var s, step := After(boot, progs, schedule[..n]), schedule[n];
      NextKnowsThreads(boot, progs, s, step);
      forall t: nat | t < |progs| ensures InStep(boot, progs, After(boot, progs, schedule), t) {
        StepKeepsInStep(boot, progs, s, step, t);
      }
    }
  }

  lemma NextKnowsThreads(boot: nat -> Cell, progs: Programs, s: Sys, step: Step)
    requires |s.threads| == |progs| && KnownThreads(s.log, |progs|)
    ensures KnownThreads(Next(boot, progs, s, step).log, |progs|)
  {
    hide Emits, NextRegs;
  }

  lemma StepKeepsInStep(boot: nat -> Cell, progs: Programs, s: Sys, step: Step, t: nat)
    requires |s.threads| == |progs| && KnownThreads(s.log, |progs|) && Apart(progs)
    requires forall u: nat | u < |progs| :: InStep(boot, progs, s, u)
    requires t < |progs|
    ensures InStep(boot, progs, Next(boot, progs, s, step), t)
  {
    hide InStep, Emits, NextRegs, CanStep, Legal;
    assert InStep(boot, progs, s, t);
    if step == Turn(t) {
      if CanStep(progs, s, t) {
        if s.threads[t].pc < |progs[t].warmUp| {
          WarmUpStep(boot, progs, s, t);
        } else {
          BodyStep(boot, progs, s, t);
        }
      } else {
        NoStep(boot, progs, s, Next(boot, progs, s, step), t);
      }
    } else {
      OtherStep(boot, progs, s, step, t);
    }
  }

  lemma StartsInStep(boot: nat -> Cell, progs: Programs, t: nat)
    requires t < |progs|
    ensures InStep(boot, progs, Start(progs), t)
  {
    assert progs[t].body[..0] == [];
    assert InStepFrom(boot, progs, Start(progs), t, map[]);
  }

  /// The log
  /// -------

  /// Nothing that has reached the log is ever taken back.
  lemma {:induction false} LogGrows(boot: nat -> Cell, progs: Programs, schedule: seq<Step>, i: nat)
    requires i <= |schedule|
    ensures After(boot, progs, schedule[..i]).log <= After(boot, progs, schedule).log
  {
    hide Emits, NextRegs, CanStep, HasTurn;
    if i == |schedule| {
      assert schedule[..i] == schedule;
    } else {
      var n := |schedule| - 1;
      LogGrows(boot, progs, schedule[..n], i);
      assert schedule[..n][..i] == schedule[..i];
    }
  }

  /// Every step adds its events at the end of the log of its time: an eviction takes place at once, also when
  /// the process is dead, and a turn adds at most one event, of the thread whose turn it is.
  lemma OrderIsKept(boot: nat -> Cell, progs: Programs, schedule: seq<Step>, i: nat)
    requires i < |schedule|
    ensures var before, log := After(boot, progs, schedule[..i]).log, After(boot, progs, schedule).log;
            && before <= log
            && (schedule[i].Evict? ==> before + [Evicted(schedule[i].line)] <= log)
            && (schedule[i].Turn? ==>
                  exists own :: |own| <= 1 && Project(own, schedule[i].t) == own && before + own <= log
                                && After(boot, progs, schedule[..i + 1]).log == before + own)
  {
    hide Emits, NextRegs, Image;
    LogGrows(boot, progs, schedule, i);
    LogGrows(boot, progs, schedule, i + 1);
    var s := After(boot, progs, schedule[..i]);
    assert schedule[..i + 1][..i] == schedule[..i];
    if schedule[i].Turn? {
      var own := OwnStep(boot, progs, s, schedule[i].t);
      assert s.log + own <= After(boot, progs, schedule).log;
    }
  }

  /// Once the process is dead no thread executes anything, and only evictions reach the memory.
  lemma {:induction false} DeadStaysDead(boot: nat -> Cell, progs: Programs, schedule: seq<Step>, i: nat)
    requires i <= |schedule| && After(boot, progs, schedule[..i]).dead
    ensures var dying, now := After(boot, progs, schedule[..i]), After(boot, progs, schedule);
            && now.dead && now.threads == dying.threads && dying.log <= now.log
            && forall e | e in now.log[|dying.log|..] :: e.Evicted?
  {
    if i == |schedule| {
      assert schedule[..i] == schedule;
    } else {
      var n := |schedule| - 1;
      assert schedule[..n][..i] == schedule[..i];
      DeadStaysDead(boot, progs, schedule[..n], i);
      OnlyEvictions(boot, progs, After(boot, progs, schedule[..n]), schedule[n]);
    }
  }

  lemma OnlyEvictions(boot: nat -> Cell, progs: Programs, s: Sys, step: Step)
    requires |s.threads| == |progs| && s.dead
    ensures var s' := Next(boot, progs, s, step);
            s'.dead && s'.threads == s.threads && (s'.log == s.log || exists line :: s'.log == s.log + [Evicted(line)])
  {
    hide Emits, NextRegs, Legal;
  }

  /// A step of a thread is the execution of its next instruction against the memory of that moment.
  lemma StepsExecute(boot: nat -> Cell, progs: Programs, s: Sys, t: nat)
    requires |s.threads| == |progs| && CanStep(progs, s, t)
    ensures var s' := Next(boot, progs, s, Turn(t));
            && s'.threads[t].pc == s.threads[t].pc + 1 && s'.dead == s.dead
            && Core(s'.threads[t].regs, s'.log) ==
               Exec(boot, t, Core(s.threads[t].regs, s.log), progs[t].Code()[s.threads[t].pc])
  {
    hide Emits, NextRegs, Legal;
  }

  /// So a program that is alone runs as its code does, whatever it loads and stores.
  lemma {:induction false} AloneRuns(boot: nat -> Cell, prog: Program, n: nat)
    requires n <= |prog.Code()| && AllLegal(prog.Code())
    ensures var s := After(boot, [prog], seq(n, _ => Turn(0)));
            && !s.dead && s.threads[0].pc == n
            && Core(s.threads[0].regs, s.log) == Run(boot, 0, Core(map[], []), prog.Code()[..n])
  {
    hide Exec, Legal, Program.Code;
    var turns: seq<Step> := seq(n, _ => Turn(0));
    if n == 0 {
      assert turns == [] && prog.Code()[..0] == [];
    } else {
      AloneRuns(boot, prog, n - 1);
      assert turns[..n - 1] == seq(n - 1, _ => Turn(0)) && turns[n - 1] == Turn(0);
      var s := After(boot, [prog], turns[..n - 1]);
      assert CanStep([prog], s, 0);
      StepsExecute(boot, [prog], s, 0);
      RunSnoc(boot, 0, Core(map[], []), prog.Code()[..n - 1], prog.Code()[n - 1]);
      assert prog.Code()[..n] == prog.Code()[..n - 1] + [prog.Code()[n - 1]];
    }
  }

  lemma OwnStep(boot: nat -> Cell, progs: Programs, s: Sys, t: nat) returns (own: seq<Event>)
    requires |s.threads| == |progs|
    ensures |own| <= 1 && Project(own, t) == own && Next(boot, progs, s, Turn(t)).log == s.log + own
  {
    hide Legal, NextRegs;
    own := [];
    assert s.log + own == s.log;
    if CanStep(progs, s, t) {
      own := Emits(progs[t].Code()[s.threads[t].pc], t, s.threads[t].regs);
    }
    if own != [] {
      assert own == [own[0]] && own[..0] == [] && Project([], t) == [];
    }
  }

  /// Progress
  /// --------

  function Turns(schedule: seq<Step>, t: nat): nat {
    if schedule == [] then 0
    else (if schedule[|schedule| - 1] == Turn(t) then 1 else 0) + Turns(schedule[..|schedule| - 1], t)
  }

  /// The number of instructions a thread executes before one that faults.
  function UntilFault(code: seq<Instr>): (n: nat)
    ensures n <= |code| && (n < |code| ==> !Legal(code[n])) && forall k | 0 <= k < n :: Legal(code[k])
  {
    if code == [] || !Legal(code[0]) then 0 else 1 + UntilFault(code[1..])
  }

  /// Some thread has had the turn at which its code faults.
  ghost predicate HasFaulted(progs: Programs, schedule: seq<Step>) {
    exists t: nat :: t < |progs| && FaultReached(progs[t].Code(), Turns(schedule, t))
  }

  predicate FaultReached(code: seq<Instr>, turns: nat) {
    UntilFault(code) < |code| && UntilFault(code) < turns
  }

  /// Where every thread is while the process lives, and that no thread gets past a fault.
  ghost predicate InTurn(progs: Programs, schedule: seq<Step>, s: Sys)
    requires |s.threads| == |progs|
  {
    && (s.dead <==> HasFaulted(progs, schedule))
    && forall t: nat | t < |progs| :: OnTime(progs[t].Code(), Turns(schedule, t), s.threads[t].pc, s.dead)
  }

  predicate OnTime(code: seq<Instr>, turns: nat, pc: nat, dead: bool) {
    var n := UntilFault(code);
    pc <= n && (!dead ==> pc == if turns < n then turns else n)
  }

  /// No thread ever waits for another: how far a thread has got depends only on how many turns it had,
  /// as long as the process lives.  It is dead exactly when some thread has reached an instruction of
  /// its own that faults.
  lemma {:induction false} TurnsDecide(boot: nat -> Cell, progs: Programs, schedule: seq<Step>)
    ensures InTurn(progs, schedule, After(boot, progs, schedule))
  {
    hide InTurn, Next;
    if schedule == [] {
      StartInTurn(progs);
    } else {
      var n := |schedule| - 1;
      TurnsDecide(boot, progs, schedule[..n]);
      NextInTurn(boot, progs, schedule[..n], After(boot, progs, schedule[..n]), schedule[n]);
      assert schedule == schedule[..n] + [schedule[n]];
    }
  }

  lemma StartInTurn(progs: Programs)
    ensures InTurn(progs, [], Start(progs))
  {
    hide UntilFault, Program.Code;
  }

  lemma TurnsSnoc(schedule: seq<Step>, step: Step, t: nat)
    ensures Turns(schedule + [step], t) == Turns(schedule, t) + if step == Turn(t) then 1 else 0
  {
    assert (schedule + [step])[..|schedule + [step]| - 1] == schedule;
  }

  /// Turns that are not taken by a thread that can use them decide nothing.
  lemma NextInTurn(boot: nat -> Cell, progs: Programs, schedule: seq<Step>, s: Sys, step: Step)
    requires |s.threads| == |progs| && InTurn(progs, schedule, s)
    ensures InTurn(progs, schedule + [step], Next(boot, progs, s, step))
  {
    hide Emits, NextRegs, Legal, Program.Code, UntilFault, Turns, HasFaulted;
    var s' := Next(boot, progs, s, step);
    forall t: nat | t < |progs|
      ensures OnTime(progs[t].Code(), Turns(schedule + [step], t), s'.threads[t].pc, s'.dead)
    {
      TurnsSnoc(schedule, step, t);
      assert OnTime(progs[t].Code(), Turns(schedule, t), s.threads[t].pc, s.dead);
      FaultIsThere(progs[t].Code());
    }
    FaultsSnoc(progs, schedule, step);
    if step.Turn? && step.t < |progs| {
      var code := progs[step.t].Code();
      assert OnTime(code, Turns(schedule, step.t), s.threads[step.t].pc, s.dead);
      TurnsSnoc(schedule, step, step.t);
      FaultIsThere(code);
      if !s.dead {
        NotYet(progs, schedule, step.t);
      }
    }
  }

  lemma FaultIsThere(code: seq<Instr>)
    ensures UntilFault(code) <= |code| && forall k | 0 <= k < |code| ::
              (k < UntilFault(code) ==> Legal(code[k])) && (k == UntilFault(code) ==> !Legal(code[k]))
  {
    hide Legal;
  }

  lemma NotYet(progs: Programs, schedule: seq<Step>, t: nat)
    requires !HasFaulted(progs, schedule) && t < |progs|
    ensures !FaultReached(progs[t].Code(), Turns(schedule, t))
  {
  }

  lemma FaultsSnoc(progs: Programs, schedule: seq<Step>, step: Step)
    ensures HasFaulted(progs, schedule + [step]) <==>
            HasFaulted(progs, schedule) ||
            (step.Turn? && step.t < |progs| && FaultReached(progs[step.t].Code(), Turns(schedule + [step], step.t)))
  {
    hide UntilFault, Program.Code, Turns;
    if HasFaulted(progs, schedule) {
      var t: nat :| t < |progs| && FaultReached(progs[t].Code(), Turns(schedule, t));
      TurnsSnoc(schedule, step, t);
      assert FaultReached(progs[t].Code(), Turns(schedule + [step], t));
    }
    if HasFaulted(progs, schedule + [step]) {
      var t: nat :| t < |progs| && FaultReached(progs[t].Code(), Turns(schedule + [step], t));
      TurnsSnoc(schedule, step, t);
      assert step == Turn(t) || FaultReached(progs[t].Code(), Turns(schedule, t));
    }
  }

  ghost predicate AtEnd(progs: Programs, s: Sys, t: nat)
    requires |s.threads| == |progs| && t < |progs|
  {
    s.threads[t].pc == |progs[t].Code()|
  }

  /// Every thread gets at least as many turns as it has instructions.
  ghost predicate EnoughTurns(progs: Programs, schedule: seq<Step>) {
    forall t: nat | t < |progs| :: Turns(schedule, t) >= |progs[t].Code()|
  }

  /// Every schedule with enough turns runs all threads to their ends.
  ghost predicate Terminates(boot: nat -> Cell, progs: Programs) {
    forall schedule: seq<Step> | EnoughTurns(progs, schedule) ::
      forall t: nat | t < |progs| :: AtEnd(progs, After(boot, progs, schedule), t)
  }

  /// That is so if and only if no instruction of any thread faults.
  lemma TerminatesIffLegal(boot: nat -> Cell, progs: Programs)
    ensures Terminates(boot, progs) <==> forall t: nat | t < |progs| :: AllLegal(progs[t].Code())
  {
    hide After, Legal, Program.Code, UntilFault, Turns, AllLegal;
    if forall t: nat | t < |progs| :: AllLegal(progs[t].Code()) {
      forall schedule: seq<Step>, t: nat | EnoughTurns(progs, schedule) && t < |progs|
        ensures AtEnd(progs, After(boot, progs, schedule), t)
      {
        LegalReachesEnd(boot, progs, schedule, t);
      }
    }
    if Terminates(boot, progs) {
      var schedule := ManyTurnsForAll(progs, |progs|);
      TurnsDecide(boot, progs, schedule);
      forall t: nat | t < |progs| ensures AllLegal(progs[t].Code()) {
        var code := progs[t].Code();
        assert AtEnd(progs, After(boot, progs, schedule), t);
        assert OnTime(code, Turns(schedule, t), After(boot, progs, schedule).threads[t].pc,
                      After(boot, progs, schedule).dead);
        NoFault(code);
      }
    }
  }

  lemma NoFault(code: seq<Instr>)
    ensures UntilFault(code) <= |code|
    ensures AllLegal(code) <==> UntilFault(code) == |code|
  {
    hide Legal;
    FaultIsThere(code);
  }

  lemma LegalReachesEnd(boot: nat -> Cell, progs: Programs, schedule: seq<Step>, t: nat)
    requires EnoughTurns(progs, schedule) && t < |progs|
    requires forall u: nat | u < |progs| :: AllLegal(progs[u].Code())
    ensures AtEnd(progs, After(boot, progs, schedule), t)
  {
    hide After, Legal, Program.Code, UntilFault, Turns, AllLegal;
    TurnsDecide(boot, progs, schedule);
    forall u: nat | u < |progs| ensures !FaultReached(progs[u].Code(), Turns(schedule, u)) {
      NoFault(progs[u].Code());
    }
    NoFault(progs[t].Code());
    var s := After(boot, progs, schedule);
    assert OnTime(progs[t].Code(), Turns(schedule, t), s.threads[t].pc, s.dead);
  }

  lemma {:induction false} ManyTurnsForAll(progs: Programs, n: nat) returns (schedule: seq<Step>)
    requires n <= |progs|
    ensures forall t: nat | t < n :: Turns(schedule, t) >= |progs[t].Code()|
  {
    hide Turns, Program.Code;
    schedule := [];
    if n > 0 {
      var earlier := ManyTurnsForAll(progs, n - 1);
      schedule := MoreTurns(earlier, n - 1, |progs[n - 1].Code()|);
    }
  }

  lemma {:induction false} MoreTurns(earlier: seq<Step>, t: nat, n: nat) returns (schedule: seq<Step>)
    ensures Turns(schedule, t) >= n && forall u :: Turns(schedule, u) >= Turns(earlier, u)
  {
    hide Turns;
    schedule := earlier;
    if n > 0 {
      var shorter := MoreTurns(earlier, t, n - 1);
      schedule := shorter + [Turn(t)];
      forall u ensures Turns(schedule, u) >= Turns(shorter, u) {
        TurnsSnoc(shorter, Turn(t), u);
      }
      TurnsSnoc(shorter, Turn(t), t);
    }
  }
}
