/// Many threads copying at once
/// ============================
///
/// A job is the list of operations one thread performs, each with its own fence.  Before its job a
/// thread may load whatever it likes.

module ConcurrentCopies {
  import opened PersistentMemory
  import opened Instructions
  import opened WriteBackPlans
  import opened CopyCode
  import opened PersistentCopies
  import opened Concurrency

  datatype Call = Call(op: Operation, dest: nat, src: nat, len: nat)

  type Job = seq<Call>

  function CallCode(c: Call): seq<Instr> {
    OpCode(c.op, c.dest, c.src, c.len)
  }

  function JobCode(job: Job): seq<Instr> {
    if job == [] then [] else JobCode(job[..|job| - 1]) + CallCode(job[|job| - 1])
  }

  /// A thread's loads before it starts, and its job.
  datatype Worker = Worker(warmUp: seq<Instr>, calls: Job)

  function ProgramsOf(workers: seq<Worker>): (progs: Programs)
    ensures |progs| == |workers|
    ensures forall t | 0 <= t < |workers| :: progs[t] == Program(workers[t].warmUp, JobCode(workers[t].calls))
  {
    seq(|workers|, t requires 0 <= t < |workers| => Program(workers[t].warmUp, JobCode(workers[t].calls)))
  }

  predicate Covers(c: Call, a: nat) {
    Within(a, c.dest, c.dest + c.len)
  }

  /// A fill reads no memory.
  predicate Reads(c: Call, a: nat) {
    !c.op.Memset? && Within(a, c.src, c.src + c.len)
  }

  function CallByte(c: Call, image: nat -> byte, a: nat): byte
    requires Covers(c, a)
  {
    Promised(c.op, image, c.dest, c.src, a)
  }

  /// `d` writes nothing that `c` reads, nor, unless both are calls of the same thread, that `c` writes.
  ghost predicate NoClash(sameThread: bool, c: Call, d: Call) {
    forall a: nat | Reads(c, a) || (!sameThread && Covers(c, a)) :: !Covers(d, a)
  }

  /// Destinations of different threads are disjoint, and no destination is also a source.  The loads of
  /// the warm-up are free to read destinations.
  ghost predicate Isolated(workers: seq<Worker>) {
    && (forall t | 0 <= t < |workers| :: OnlyLoads(workers[t].warmUp))
    && forall t: nat, u: nat, c, d | t < |workers| && u < |workers| && c in workers[t].calls && d in workers[u].calls ::
         NoClash(t == u, c, d)
  }

  lemma IsolatedCalls(workers: seq<Worker>, t: nat, u: nat, c: Call, d: Call)
    requires Isolated(workers) && t < |workers| && u < |workers| && c in workers[t].calls && d in workers[u].calls
    ensures NoClash(t == u, c, d)
  {
    hide NoClash;
  }

  lemma {:induction false} JobCodeConcat(p: Job, q: Job)
    ensures JobCode(p + q) == JobCode(p) + JobCode(q)
  {
    hide CallCode;
    if q == [] {
      assert p + q == p;
    } else {
      var n := |q| - 1;
      assert (p + q)[..|p + q| - 1] == p + q[..n];
      JobCodeConcat(p, q[..n]);
      assert JobCode(p + q) == JobCode(p) + JobCode(q[..n]) + CallCode(q[n]);
    }
  }

  /// What a call loads and stores
  /// ----------------------------

  lemma CallFootprint(c: Call, i: Instr, a: nat)
    requires i in CallCode(c)
    ensures Stores(i, a) ==> Covers(c, a)
    ensures Loads(i, a) ==> Reads(c, a)
  {
    hide Code, PlanOf, StyleOf;
    OperationFootprint(c.op, c.dest, c.src, c.len);
    if c.op.Memset? {
      MemsetLoadsNothing(c.op.value, c.dest, c.src, PlanOf(c.op, c.dest, c.len));
      assert StyleOf(c.op) == Set(c.op.value) by { MemsetStyle(c.op); }
    }
  }

  lemma MemsetStyle(op: Operation)
    requires op.Memset?
    ensures StyleOf(op) == Set(op.value)
  {
  }

  lemma {:induction false} JobFootprint(job: Job, i: Instr) returns (c: Call)
    requires i in JobCode(job)
    ensures c in job && i in CallCode(c)
  {
    var n := |job| - 1;
    if i in CallCode(job[n]) {
      c := job[n];
    } else {
      c := JobFootprint(job[..n], i);
    }
  }

  lemma IsolatedIsApart(workers: seq<Worker>)
    requires Isolated(workers)
    ensures Apart(ProgramsOf(workers))
  {
    hide CallCode, JobCode;
    var progs := ProgramsOf(workers);
    forall t: nat, u: nat, i, j, a: nat
      | t < |progs| && u < |progs| && i in progs[t].body && j in progs[u].body && Loads(i, a)
      ensures !Stores(j, a)
    {
      var c := JobFootprint(workers[t].calls, i);
      var d := JobFootprint(workers[u].calls, j);
      assert NoClash(t == u, c, d);
      CallFootprint(c, i, a);
      CallFootprint(d, j, a);
    }
  }

  /// What a job writes
  /// -----------------

  lemma CallWrites(c: Call, t: nat, regs: Regs, image: nat -> byte, e: Event, a: nat)
    requires e in Resolve(CallCode(c), t, regs, image) && WritesByte(e, a)
    ensures Covers(c, a) && e.data[a - e.addr] == CallByte(c, image, a)
  {
    hide Resolve, OpCode, Promised;
    ResolveStores(CallCode(c), t, regs, image, e, a);
    var i :| i in CallCode(c) && Stores(i, a);
    CallFootprint(c, i, a);
    OperationWrites(c.op, c.dest, c.src, c.len, t, regs, image, a);
  }

  /// Every store of the first `n` instructions of a job comes from a call that begins among them and
  /// covers the byte, and stores what that call promises.
  lemma {:induction false} JobWrites(job: Job, n: nat, t: nat, regs: Regs, image: nat -> byte, e: Event, a: nat)
    returns (m: nat)
    requires n <= |JobCode(job)|
    requires e in Resolve(JobCode(job)[..n], t, regs, image) && WritesByte(e, a)
    ensures m < |job| && |JobCode(job[..m])| < n
    ensures Covers(job[m], a) && e.data[a - e.addr] == CallByte(job[m], image, a)
    decreases |job|
  {
    hide Resolve, CallCode, Covers, CallByte, WritesByte;
    if job == [] {
      assert JobCode(job)[..n] == [];
      NothingFrom(t, regs, image, e);
    } else {
      var last := |job| - 1;
      var p, q := JobCode(job[..last]), CallCode(job[last]);
      assert JobCode(job) == p + q;
      if n <= |p| {
        assert (p + q)[..n] == p[..n];
        m := JobWrites(job[..last], n, t, regs, image, e, a);
        assert job[..last][..m] == job[..m];
      } else {
        assert (p + q)[..n] == p + q[..n - |p|];
        ResolveConcat(p, q[..n - |p|], t, regs, image);
        if e in Resolve(p, t, regs, image) {
          assert p[..|p|] == p;
          m := JobWrites(job[..last], |p|, t, regs, image, e, a);
          assert job[..last][..m] == job[..m];
        } else {
          m := last;
          var regs' := RegsAfter(p, regs, image);
          ResolvePrefix(q, n - |p|, t, regs', image);
          CallWrites(job[last], t, regs', image, e, a);
        }
      }
    }
  }

  lemma NothingFrom(t: nat, regs: Regs, image: nat -> byte, e: Event)
    ensures e !in Resolve([], t, regs, image)
  {
  }

  /// Logs and prefixes
  /// -----------------

  lemma {:induction false} ProjectConcat(p: seq<Event>, q: seq<Event>, t: nat)
    ensures Project(p + q, t) == Project(p, t) + Project(q, t)
  {
    if q == [] {
      assert p + q == p;
    } else {
      var n := |q| - 1;
      assert (p + q)[..|p + q| - 1] == p + q[..n];
      ProjectConcat(p, q[..n], t);
    }
  }

  /// The moment when thread `t` had done just `own`.
  lemma {:induction false} CutLog(log: seq<Event>, t: nat, own: seq<Event>) returns (n: nat)
    requires own <= Project(log, t)
    ensures n <= |log| && Project(log[..n], t) == own
  {
    if own == Project(log, t) {
      n := |log|;
      assert log[..n] == log;
    } else {
      var m := |log| - 1;
      n := CutLog(log[..m], t, own);
      assert log[..m][..n] == log[..n];
    }
  }

  lemma {:induction false} ExposedIsWritten(c0: Cell, log: seq<Event>, a: nat, w: byte)
    requires Exposes(At(c0, log, a), w)
    ensures Exposes(c0, w) || exists e :: e in log && WritesByte(e, a) && e.data[a - e.addr] == w
  {
    if log != [] {
      var n := |log| - 1;
      var c := At(c0, log[..n], a);
      ExposedByStep(c, log[n], a, w);
      if Exposes(c, w) {
        ExposedIsWritten(c0, log[..n], a, w);
        if e :| e in log[..n] && WritesByte(e, a) && e.data[a - e.addr] == w {
          assert e in log;
        }
      } else {
        assert log[n] in log;
      }
    }
  }

  lemma ExposedByStep(c: Cell, e: Event, a: nat, w: byte)
    requires Exposes(CellStep(c, e, a), w)
    ensures Exposes(c, w) || (WritesByte(e, a) && e.data[a - e.addr] == w)
  {
    var d := CellStep(c, e, a);
    var i :| 0 <= i < |d.versions[d.media..]| && d.versions[d.media..][i] == w;
    var k := d.media + i;
    if k < |c.versions| {
      assert c.versions[c.media..][k - c.media] == w;
    }
  }

  /// What holds at every moment
  /// --------------------------

  /// How many instructions of its job thread `t` has executed.
  ghost function JobProgress(boot: nat -> Cell, workers: seq<Worker>, schedule: seq<Step>, t: nat): nat
    requires t < |workers|
  {
    Progress(ProgramsOf(workers), After(boot, ProgramsOf(workers), schedule), t)
  }

  /// Thread `t` has executed part of its call number `m`, or all of it.
  ghost predicate Begun(boot: nat -> Cell, workers: seq<Worker>, schedule: seq<Step>, t: nat, m: nat)
    requires t < |workers| && m < |workers[t].calls|
  {
    |JobCode(workers[t].calls[..m])| < JobProgress(boot, workers, schedule, t)
  }

  /// Thread `t` has returned from its call number `k`.
  ghost predicate Returned(boot: nat -> Cell, workers: seq<Worker>, schedule: seq<Step>, t: nat, k: nat)
    requires t < |workers| && k < |workers[t].calls|
  {
    |JobCode(workers[t].calls[..k + 1])| <= JobProgress(boot, workers, schedule, t)
  }

  /// If nothing faults, a thread has begun a call when it has had more turns than there are instructions
  /// before the call, and has returned from it when it has had a turn for each instruction up to its fence.
  lemma TurnsReturn(boot: nat -> Cell, workers: seq<Worker>, schedule: seq<Step>, t: nat, k: nat)
    requires forall u: nat | u < |workers| :: AllLegal(ProgramsOf(workers)[u].Code())
    requires t < |workers| && k < |workers[t].calls|
    ensures var before := |workers[t].warmUp| + |JobCode(workers[t].calls[..k])|;
            && (Begun(boot, workers, schedule, t, k) <==> Turns(schedule, t) > before)
            && (Returned(boot, workers, schedule, t, k) <==>
                  Turns(schedule, t) >= before + |CallCode(workers[t].calls[k])|)
  {
    hide After, Legal, Turns, UntilFault, JobCode, CallCode, AllLegal, HasFaulted;
    var progs, job := ProgramsOf(workers), workers[t].calls;
    TurnsDecide(boot, progs, schedule);
    NobodyFaults(progs, schedule);
    NoFault(progs[t].Code());
    var s := After(boot, progs, schedule);
    assert OnTime(progs[t].Code(), Turns(schedule, t), s.threads[t].pc, s.dead);
    JobSplits(job, k);
    CallHasFence(job[k]);
  }

  lemma NobodyFaults(progs: Programs, schedule: seq<Step>)
    requires forall u: nat | u < |progs| :: AllLegal(progs[u].Code())
    ensures !HasFaulted(progs, schedule)
  {
    hide Legal, Turns, UntilFault, AllLegal, Program.Code;
    forall u: nat | u < |progs| ensures !FaultReached(progs[u].Code(), Turns(schedule, u)) {
      NoFault(progs[u].Code());
    }
  }

  lemma CallHasFence(c: Call)
    ensures |CallCode(c)| > 0 && CallCode(c)[|CallCode(c)| - 1] == Sfence
  {
  }

  /// The thread has done exactly the first instructions of its job, from some registers.
  lemma OwnIsJob(boot: nat -> Cell, workers: seq<Worker>, schedule: seq<Step>, t: nat) returns (regs: Regs)
    requires Isolated(workers) && t < |workers|
    ensures var code, n := JobCode(workers[t].calls), JobProgress(boot, workers, schedule, t);
            && n <= |code|
            && Project(After(boot, ProgramsOf(workers), schedule).log, t) ==
               Resolve(code[..n], t, regs, Origin(boot))
  {
    hide Resolve, RegsAfter;
    var progs := ProgramsOf(workers);
    IsolatedIsApart(workers);
    Lockstep(boot, progs, schedule);
    var s := After(boot, progs, schedule);
    assert InStep(boot, progs, s, t);
    regs :| InStepFrom(boot, progs, s, t, regs);
  }

  /// Every store ever seen comes from a call that the thread that issued it has begun, which covers the
  /// byte, and stores the byte that call promises: threads stay out of each other's destinations.
  lemma StoresArePromised(boot: nat -> Cell, workers: seq<Worker>, schedule: seq<Step>, e: Event, a: nat)
    returns (m: nat)
    requires Isolated(workers)
    requires e in After(boot, ProgramsOf(workers), schedule).log && WritesByte(e, a)
    ensures e.t < |workers| && m < |workers[e.t].calls| && Begun(boot, workers, schedule, e.t, m)
    ensures Covers(workers[e.t].calls[m], a)
    ensures e.data[a - e.addr] == CallByte(workers[e.t].calls[m], Origin(boot), a)
  {
    hide After, Isolated, Covers, CallByte, JobProgress;
    var progs := ProgramsOf(workers);
    IsolatedIsApart(workers);
    Lockstep(boot, progs, schedule);
    var log := After(boot, progs, schedule).log;
    var regs := OwnIsJob(boot, workers, schedule, e.t);
    OwnEvents(log, e.t, e);
    m := JobWrites(workers[e.t].calls, JobProgress(boot, workers, schedule, e.t), e.t, regs, Origin(boot), e, a);
  }

  /// Some call that has begun covers the byte and promises `w` there.
  ghost predicate PromisedByBegun(boot: nat -> Cell, workers: seq<Worker>, schedule: seq<Step>, a: nat, w: byte) {
    exists t: nat, m: nat :: t < |workers| && m < |workers[t].calls| && Begun(boot, workers, schedule, t, m) &&
      Covers(workers[t].calls[m], a) && w == CallByte(workers[t].calls[m], Origin(boot), a)
  }

  /// At every moment of every schedule, a crash leaves a byte as a crash at the start could have, or
  /// with what some call that has begun and covers it promises.
  lemma {:induction false} ConcurrentCrash(boot: nat -> Cell, workers: seq<Worker>, schedule: seq<Step>,
                                           a: nat, w: byte)
    requires Isolated(workers)
    requires Exposes(At(boot(a), After(boot, ProgramsOf(workers), schedule).log, a), w)
    ensures Exposes(boot(a), w) || PromisedByBegun(boot, workers, schedule, a, w)
  {
    hide After, Isolated, Covers, CallByte, Begun;
    var log := After(boot, ProgramsOf(workers), schedule).log;
    ExposedIsWritten(boot(a), log, a, w);
    if e :| e in log && WritesByte(e, a) && e.data[a - e.addr] == w {
      var m := StoresArePromised(boot, workers, schedule, e, a);
      assert e.t < |workers| && m < |workers[e.t].calls| && Begun(boot, workers, schedule, e.t, m);
    }
  }

  /// The calls after number `k` that have begun promise the same byte at `a` as that one, if they cover it.
  ghost predicate LaterCallsAgree(boot: nat -> Cell, workers: seq<Worker>, schedule: seq<Step>, t: nat, k: nat, a: nat)
    requires t < |workers| && k < |workers[t].calls| && Covers(workers[t].calls[k], a)
  {
    var calls, image := workers[t].calls, Origin(boot);
    forall m: nat | k < m < |calls| && Begun(boot, workers, schedule, t, m) && Covers(calls[m], a) ::
      CallByte(calls[m], image, a) == CallByte(calls[k], image, a)
  }

  /// Once a call has returned, every byte of its destination holds what the call promised, and
  /// every crash leaves it so, whatever the other threads and the cache are doing, until a later
  /// call of the same thread that promises something else there begins.
  lemma ConcurrentDurability(boot: nat -> Cell, workers: seq<Worker>, schedule: seq<Step>, t: nat, k: nat, a: nat)
    requires Isolated(workers) && t < |workers| && k < |workers[t].calls|
    requires Returned(boot, workers, schedule, t, k)
    requires Covers(workers[t].calls[k], a)
    requires LaterCallsAgree(boot, workers, schedule, t, k, a)
    ensures Settled(At(boot(a), After(boot, ProgramsOf(workers), schedule).log, a),
                    CallByte(workers[t].calls[k], Origin(boot), a))
  {
    hide After, Isolated, Resolve, CallByte, Covers, JobCode, CallCode, Settled, JobProgress, Returned, Begun,
      RegsAfter;
    var job, image := workers[t].calls, Origin(boot);
    var v := CallByte(job[k], image, a);
    var log := After(boot, ProgramsOf(workers), schedule).log;
    var n, regs, own := CallBegan(boot, workers, schedule, t, k);
    var before, rest := log[..n], log[n..];
    assert log == before + rest;
    var m := CutLog(rest, t, own);
    var during, later := rest[..m], rest[m..];
    assert rest == during + later;
    forall e | e in rest && WritesByte(e, a) ensures e.t == t && e.data[a - e.addr] == v {
      assert e in log;
      LaterStore(boot, workers, schedule, t, k, n, regs, e, a);
    }
    assert forall e | e in during :: e in rest;
    OperationSettles(job[k].op, 0, job[k].dest, job[k].src, job[k].len, a) by { CoversMeans(job[k], a); }
    CallCodeIs(job[k]);
    CodePhaseIsPhase(0, CallCode(job[k]), t, regs, image, a);
    DurableFromThenOn(At(boot(a), before, a), during, later, t, a, v);
    AtConcat(boot(a), before, rest, a);
  }

  /// A store after call number `k` began is its own, or that of a later call that has begun.
  lemma LaterStore(boot: nat -> Cell, workers: seq<Worker>, schedule: seq<Step>, t: nat, k: nat,
                   n: nat, regs: Regs, e: Event, a: nat)
    requires Isolated(workers) && t < |workers| && k < |workers[t].calls|
    requires Covers(workers[t].calls[k], a)
    requires LaterCallsAgree(boot, workers, schedule, t, k, a)
    requires var log, job := After(boot, ProgramsOf(workers), schedule).log, workers[t].calls;
             var done, started := JobProgress(boot, workers, schedule, t), |JobCode(job[..k])|;
             && n <= |log| && e in log[n..] && WritesByte(e, a)
             && started <= done <= started + |JobCode(job[k..])|
             && Project(log[n..], t) == Resolve(JobCode(job[k..])[..done - started], t, regs, Origin(boot))
    ensures e.t == t && e.data[a - e.addr] == CallByte(workers[t].calls[k], Origin(boot), a)
  {
    hide After, Isolated, Resolve, CallByte, Covers, JobCode, CallCode, JobProgress;
    var job, rest := workers[t].calls, After(boot, ProgramsOf(workers), schedule).log[n..];
    var done, started := JobProgress(boot, workers, schedule, t), |JobCode(job[..k])|;
    assert e in After(boot, ProgramsOf(workers), schedule).log;
    OnlyWriter(boot, workers, schedule, t, job[k], e, a);
    OwnEvents(rest, t, e);
    var j := JobWrites(job[k..], done - started, t, regs, Origin(boot), e, a);
    var m := k + j;
    assert job[k..][j] == job[m];
    JobSplitsAt(job[..m], k);
    assert job[..m][..k] == job[..k] && job[..m][k..] == job[k..][..j];
    assert Begun(boot, workers, schedule, t, m);
  }

  lemma CoversMeans(c: Call, a: nat)
    requires Covers(c, a)
    ensures Within(a, c.dest, c.dest + c.len)
  {
  }

  lemma CallCodeIs(c: Call)
    ensures CallCode(c) == OpCode(c.op, c.dest, c.src, c.len)
  {
  }

  lemma JobSplits(job: Job, k: nat)
    requires k < |job|
    ensures JobCode(job) == JobCode(job[..k]) + JobCode(job[k..])
    ensures JobCode(job[..k + 1]) == JobCode(job[..k]) + CallCode(job[k])
    ensures CallCode(job[k]) <= JobCode(job[k..])
  {
    hide CallCode, JobCode;
    JobSplitsAt(job, k);
    JobSplitsAt(job[..k + 1], k);
    assert job[..k + 1][..k] == job[..k] && job[..k + 1][k..] == [job[k]];
    JobSplitsAt(job[k..], 1);
    assert job[k..][..1] == [job[k]];
    OneCall(job[k]);
  }

  lemma JobSplitsAt(job: Job, k: nat)
    requires k <= |job|
    ensures JobCode(job) == JobCode(job[..k]) + JobCode(job[k..])
  {
    hide CallCode, JobCode;
    assert job == job[..k] + job[k..];
    JobCodeConcat(job[..k], job[k..]);
  }

  lemma OneCall(c: Call)
    ensures JobCode([c]) == CallCode(c)
  {
    hide CallCode;
    assert [c][..0] == [] && JobCode([]) == [];
    assert [] + CallCode(c) == CallCode(c);
  }

  /// The moment when thread `t` was about to begin its call number `k`, what it did in that call, and
  /// what it has done since.
  lemma CallBegan(boot: nat -> Cell, workers: seq<Worker>, schedule: seq<Step>, t: nat, k: nat)
    returns (n: nat, regs: Regs, own: seq<Event>)
    requires Isolated(workers) && t < |workers| && k < |workers[t].calls|
    requires Returned(boot, workers, schedule, t, k)
    ensures var log, job := After(boot, ProgramsOf(workers), schedule).log, workers[t].calls;
            var done, started := JobProgress(boot, workers, schedule, t), |JobCode(job[..k])|;
            && n <= |log| && started <= done <= started + |JobCode(job[k..])|
            && own == Resolve(CallCode(job[k]), t, regs, Origin(boot))
            && own <= Project(log[n..], t)
            && Project(log[n..], t) == Resolve(JobCode(job[k..])[..done - started], t, regs, Origin(boot))
  {
    hide After, Isolated, Resolve, JobCode, CallCode, RegsAfter, JobProgress;
    var job, image := workers[t].calls, Origin(boot);
    var log := After(boot, ProgramsOf(workers), schedule).log;
    var p, q, r := JobCode(job[..k]), CallCode(job[k]), JobCode(job[k..]);
    var start := OwnIsJob(boot, workers, schedule, t);
    JobSplits(job, k);
    var done := JobProgress(boot, workers, schedule, t);
    var since := r[..done - |p|];
    assert JobCode(job)[..done] == p + since;
    ResolveConcat(p, since, t, start, image);
    regs := RegsAfter(p, start, image);
    var first := Resolve(p, t, start, image);
    n := CutLog(log, t, first);
    assert log == log[..n] + log[n..];
    ProjectConcat(log[..n], log[n..], t);
    SameRest(first, Project(log[n..], t), Resolve(since, t, regs, image));
    own := Resolve(q, t, regs, image);
    assert since[..|q|] == q;
    ResolvePrefix(since, |q|, t, regs, image);
  }

  lemma OnlyWriter(boot: nat -> Cell, workers: seq<Worker>, schedule: seq<Step>, t: nat, c: Call, e: Event, a: nat)
    requires Isolated(workers) && t < |workers| && c in workers[t].calls && Covers(c, a)
    requires e in After(boot, ProgramsOf(workers), schedule).log && WritesByte(e, a)
    ensures e.t == t
  {
    hide After, CallByte, Isolated, Begun, Covers, Reads;
    var m := StoresArePromised(boot, workers, schedule, e, a);
    IsolatedCalls(workers, t, e.t, c, workers[e.t].calls[m]);
  }
}
