/// Persistent memory, one byte at a time
/// =====================================
///
/// A byte of persistent memory is a cell that remembers every value it has held.  The newest
/// version is what loads see.  The media is known to hold some version at least as new as
/// `media`; a power failure may leave any version from there up, because the cache may write a
/// line back whenever it likes and because a write-back that was started need not have finished.
/// `clwb` and non-temporal stores start write-backs, and the `sfence` of the thread that started
/// them makes them certain.

module PersistentMemory {

  type byte = b: int | 0 <= b < 256

  const CACHELINE_SIZE: nat := 64

  /// The address of the cache line holding `a`: the source's `a & CACHELINE_UNMASK`.
  function LineOf(a: nat): nat {
    a - a % CACHELINE_SIZE
  }

  predicate InLine(line: nat, a: nat) {
    line <= a < line + CACHELINE_SIZE
  }

  /// Cells
  /// -----
  ///
  /// `issued[t]` is the newest version that thread `t` has asked to be written back and has not
  /// fenced yet.

  datatype RawCell = Cell(versions: seq<byte>, media: nat, issued: map<nat, nat>)

  predicate WellFormed(c: RawCell) {
    && c.media < |c.versions|
    && forall t | t in c.issued :: c.issued[t] < |c.versions|
  }

  type Cell = c: RawCell | WellFormed(c) witness Cell([0], 0, map[])

  function Newest(c: Cell): nat {
    |c.versions| - 1
  }

  /// The volatile value: what a load returns.
  function Value(c: Cell): byte {
    c.versions[Newest(c)]
  }

  /// A crash may leave the value `v` in this byte.
  predicate Exposes(c: Cell, v: byte) {
    v in c.versions[c.media..]
  }

  /// What the media is known to hold.
  function OnMedia(c: Cell): byte {
    c.versions[c.media]
  }

  /// The media certainly holds the newest version.
  predicate Clean(c: Cell) {
    c.media == Newest(c)
  }

  /// Loads see `v`, and a crash leaves `v` and nothing else.
  ghost predicate Settled(c: Cell, v: byte) {
    Value(c) == v && forall w :: Exposes(c, w) <==> w == v
  }

  /// Events
  /// ------
  ///
  /// What reaches the memory: stores with their data, write-backs of a line, fences, and
  /// evictions, which belong to no thread and may happen at any moment.

  datatype Event =
    | Wrote(t: nat, addr: nat, data: seq<byte>, nt: bool)
    | WroteBack(t: nat, line: nat)
    | Fenced(t: nat)
    | Evicted(line: nat)

  predicate WritesByte(e: Event, a: nat) {
    e.Wrote? && e.addr <= a < e.addr + |e.data|
  }

  predicate By(e: Event, t: nat) {
    !e.Evicted? && e.t == t
  }

  function Max(x: nat, y: nat): nat {
    if x < y then y else x
  }

  /// What one event does to the byte at `a`.
  function CellStep(c: Cell, e: Event, a: nat): Cell {
    match e
    case Wrote(t, addr, data, nt) =>
      if addr <= a < addr + |data| then
        Cell(c.versions + [data[a - addr]], c.media,
             if nt then c.issued[t := |c.versions|] else c.issued)
      else c
    case WroteBack(t, line) =>
      if InLine(line, a) then c.(issued := c.issued[t := Newest(c)]) else c
    case Fenced(t) =>
      if t in c.issued then Cell(c.versions, Max(c.media, c.issued[t]), c.issued - {t}) else c
    case Evicted(line) =>
      if InLine(line, a) then c.(media := Newest(c)) else c
  }

  /// The byte at `a` after the events of `log`, starting from `c0`.
  function At(c0: Cell, log: seq<Event>, a: nat): Cell {
    if log == [] then c0
    else CellStep(At(c0, log[..|log| - 1], a), log[|log| - 1], a)
  }

  /// An event that does not store to `a` leaves its value alone.
  lemma StepKeepsValue(c: Cell, e: Event, a: nat)
    requires !WritesByte(e, a)
    ensures CellStep(c, e, a).versions == c.versions && Value(CellStep(c, e, a)) == Value(c)
  {
  }

  lemma AtSnoc(c0: Cell, p: seq<Event>, e: Event, a: nat)
    ensures At(c0, p + [e], a) == CellStep(At(c0, p, a), e, a)
  {
    assert (p + [e])[..|p + [e]| - 1] == p;
  }

  lemma {:induction false} AtConcat(c0: Cell, p: seq<Event>, q: seq<Event>, a: nat)
    ensures At(c0, p + q, a) == At(At(c0, p, a), q, a)
  {
    if q == [] {
      assert p + q == p;
    } else {
      var n := |q| - 1;
      assert (p + q)[..|p + q| - 1] == p + q[..n];
      AtConcat(c0, p, q[..n], a);
    }
  }

  /// What a crash may leave
  /// ----------------------
  ///
  /// The same without cells: a version is on the media for certain if the line was evicted when it was
  /// there, or if some thread asked for a write-back when it was there and fenced later.  A write-back
  /// without a fence makes nothing certain, and nor does a fence of another thread.

  /// The values stored to `a`, in order.
  function Stored(log: seq<Event>, a: nat): seq<byte> {
    if log == [] then []
    else
      var e := log[|log| - 1];
      Stored(log[..|log| - 1], a) + if WritesByte(e, a) then [e.data[a - e.addr]] else []
  }

  /// Thread `t` starts a write-back of the byte, by `clwb` or by a non-temporal store to it.
  predicate Asks(e: Event, t: nat, a: nat) {
    || (e.WroteBack? && e.t == t && InLine(e.line, a))
    || (WritesByte(e, a) && e.t == t && e.nt)
  }

  /// What had been stored to `a` by event `i` has reached the media.
  ghost predicate Reaches(log: seq<Event>, i: nat, a: nat) {
    && i < |log|
    && ((log[i].Evicted? && InLine(log[i].line, a))
        || exists j: nat :: i < j < |log| && log[j].Fenced? && Asks(log[i], log[j].t, a))
  }

  /// Version `k` of the byte, or a newer one, is on the media for certain: since the beginning, or by what is
  /// in the log, or because a write-back that was under way in the beginning has been fenced.
  ghost predicate ForCertain(c0: Cell, log: seq<Event>, a: nat, k: nat) {
    k <= c0.media || HasReached(c0, log, a, k) || FencedSince(c0, log, k)
  }

  ghost predicate HasReached(c0: Cell, log: seq<Event>, a: nat, k: nat) {
    exists i: nat :: Reaches(log, i, a) && k <= Newest(c0) + |Stored(log[..i + 1], a)|
  }

  ghost predicate FencedSince(c0: Cell, log: seq<Event>, k: nat) {
    exists e :: e in log && e.Fenced? && e.t in c0.issued && k <= c0.issued[e.t]
  }

  /// Version `k`, or a newer one, was there when thread `t` asked for a write-back it has not fenced since.
  ghost predicate Awaits(c0: Cell, log: seq<Event>, a: nat, t: nat, k: nat) {
    HasAsked(c0, log, a, t, k) || (t in c0.issued && k <= c0.issued[t] && Fenced(t) !in log)
  }

  ghost predicate HasAsked(c0: Cell, log: seq<Event>, a: nat, t: nat, k: nat) {
    exists i: nat :: AsksAt(log, i, a, t) && k <= Newest(c0) + |Stored(log[..i + 1], a)|
  }

  ghost predicate AsksAt(log: seq<Event>, i: nat, a: nat, t: nat) {
    i < |log| && Asks(log[i], t, a) && forall j: nat | i < j < |log| :: log[j] != Fenced(t)
  }

  /// The cell says what the log says.
  ghost predicate Agrees(c0: Cell, log: seq<Event>, a: nat, c: Cell) {
    && c.versions == c0.versions + Stored(log, a)
    && (forall k: nat :: k <= c.media <==> ForCertain(c0, log, a, k))
    && forall t: nat, k: nat :: (t in c.issued && k <= c.issued[t]) <==> Awaits(c0, log, a, t, k)
  }

  lemma StoredSnoc(p: seq<Event>, e: Event, a: nat)
    ensures Stored(p + [e], a) == Stored(p, a) + if WritesByte(e, a) then [e.data[a - e.addr]] else []
  {
    assert (p + [e])[..|p|] == p;
  }

  lemma SoFar(p: seq<Event>, e: Event, i: nat)
    requires i <= |p|
    ensures (p + [e])[..i] == p[..i] && (i < |p| ==> (p + [e])[i] == p[i])
  {
  }

  lemma CertainSnoc(c0: Cell, p: seq<Event>, e: Event, a: nat, k: nat)
    ensures ForCertain(c0, p + [e], a, k) <==>
            || ForCertain(c0, p, a, k)
            || (e.Evicted? && InLine(e.line, a) && k <= Newest(c0) + |Stored(p + [e], a)|)
            || (e.Fenced? && Awaits(c0, p, a, e.t, k))
  {
    hide HasReached, FencedSince, HasAsked, Stored, InLine, Newest;
    ReachedSnoc(c0, p, e, a, k);
    FencedSinceSnoc(c0, p, e, k);
  }

  lemma FencedSinceSnoc(c0: Cell, p: seq<Event>, e: Event, k: nat)
    ensures FencedSince(c0, p + [e], k) <==>
            FencedSince(c0, p, k) || (e.Fenced? && e.t in c0.issued && k <= c0.issued[e.t])
    ensures e.Fenced? && e in p && e.t in c0.issued && k <= c0.issued[e.t] ==> FencedSince(c0, p, k)
    ensures e.Fenced? ==> e == Fenced(e.t)
  {
    if d :| d in p && d.Fenced? && d.t in c0.issued && k <= c0.issued[d.t] {
      assert d in p + [e];
    }
    if e.Fenced? && e.t in c0.issued && k <= c0.issued[e.t] {
      assert e in p + [e];
    }
  }

  lemma ReachedSnoc(c0: Cell, p: seq<Event>, e: Event, a: nat, k: nat)
    ensures HasReached(c0, p + [e], a, k) <==>
            || HasReached(c0, p, a, k)
            || (e.Evicted? && InLine(e.line, a) && k <= Newest(c0) + |Stored(p + [e], a)|)
            || (e.Fenced? && HasAsked(c0, p, a, e.t, k))
  {
    hide Stored, Asks, InLine, Newest;
    var log, n := p + [e], |p|;
    assert log[..n + 1] == log && log[n] == e;
    if HasReached(c0, log, a, k) {
      var i: nat :| Reaches(log, i, a) && k <= Newest(c0) + |Stored(log[..i + 1], a)|;
      if i < n {
        SoFar(p, e, i + 1);
        SoFar(p, e, i);
        if !Reaches(p, i, a) {
          FencedLast(p, e, i, a);
          assert AsksAt(p, i, a, e.t);
        }
      }
    }
    if HasReached(c0, p, a, k) {
      var i: nat :| Reaches(p, i, a) && k <= Newest(c0) + |Stored(p[..i + 1], a)|;
      SoFar(p, e, i + 1);
      ReachesStays(p, e, i, a);
    }
    if e.Fenced? && HasAsked(c0, p, a, e.t, k) {
      var i: nat :| AsksAt(p, i, a, e.t) && k <= Newest(c0) + |Stored(p[..i + 1], a)|;
      SoFar(p, e, i + 1);
      SoFar(p, e, i);
      assert i < n < |log| && log[n].Fenced? && Asks(log[i], log[n].t, a);
      assert Reaches(log, i, a);
    }
    if e.Evicted? && InLine(e.line, a) {
      assert Reaches(log, n, a);
    }
  }

  lemma ReachesStays(p: seq<Event>, e: Event, i: nat, a: nat)
    requires Reaches(p, i, a)
    ensures Reaches(p + [e], i, a)
  {
    hide Asks, InLine;
    var log := p + [e];
    SoFar(p, e, i);
    if !log[i].Evicted? || !InLine(log[i].line, a) {
      var j: nat :| i < j < |p| && p[j].Fenced? && Asks(p[i], p[j].t, a);
      assert log[j] == p[j];
    }
  }

  /// If it took the last event to bring a version to the media, that was the fence it had waited for.
  lemma FencedLast(p: seq<Event>, e: Event, i: nat, a: nat)
    requires i < |p| && Reaches(p + [e], i, a) && !Reaches(p, i, a)
    ensures e.Fenced? && Asks(p[i], e.t, a) && forall j: nat | i < j < |p| :: p[j] != Fenced(e.t)
  {
    hide Asks, InLine;
    var log := p + [e];
    assert log[i] == p[i];
    var j: nat :| i < j < |log| && log[j].Fenced? && Asks(log[i], log[j].t, a);
    SoFar(p, e, j);
  }

  lemma AwaitsSnoc(c0: Cell, p: seq<Event>, e: Event, a: nat, t: nat, k: nat)
    ensures Awaits(c0, p + [e], a, t, k) <==>
            || (Asks(e, t, a) && k <= Newest(c0) + |Stored(p + [e], a)|)
            || (Awaits(c0, p, a, t, k) && e != Fenced(t))
  {
    hide HasAsked, Stored, Asks, Newest;
    AskedSnoc(c0, p, e, a, t, k);
    if Asks(e, t, a) {
      AsksNoFence(e, t, a);
    }
  }

  lemma AsksNoFence(e: Event, t: nat, a: nat)
    requires Asks(e, t, a)
    ensures By(e, t) && !e.Fenced?
  {
  }

  lemma AskedSnoc(c0: Cell, p: seq<Event>, e: Event, a: nat, t: nat, k: nat)
    ensures HasAsked(c0, p + [e], a, t, k) <==>
            || (Asks(e, t, a) && k <= Newest(c0) + |Stored(p + [e], a)|)
            || (HasAsked(c0, p, a, t, k) && e != Fenced(t))
  {
    hide Stored, Asks, InLine, Newest;
    var log, n := p + [e], |p|;
    assert log[..n + 1] == log && log[n] == e;
    if HasAsked(c0, log, a, t, k) {
      var i: nat :| AsksAt(log, i, a, t) && k <= Newest(c0) + |Stored(log[..i + 1], a)|;
      if i < n {
        SoFar(p, e, i + 1);
        forall j: nat | i < j < n ensures p[j] != Fenced(t) {
          assert log[j] == p[j];
        }
        assert AsksAt(p, i, a, t);
      }
    }
    if HasAsked(c0, p, a, t, k) && e != Fenced(t) {
      var i: nat :| AsksAt(p, i, a, t) && k <= Newest(c0) + |Stored(p[..i + 1], a)|;
      SoFar(p, e, i + 1);
      SoFar(p, e, i);
      assert AsksAt(log, i, a, t);
    }
    if Asks(e, t, a) {
      assert AsksAt(log, n, a, t);
    }
  }

  lemma StepAgrees(c0: Cell, p: seq<Event>, e: Event, a: nat, c: Cell)
    requires Agrees(c0, p, a, c)
    ensures Agrees(c0, p + [e], a, CellStep(c, e, a))
  {
    hide Stored, ForCertain, Awaits, InLine;
    var d := CellStep(c, e, a);
    StoredSnoc(p, e, a);
    forall k: nat ensures k <= d.media <==> ForCertain(c0, p + [e], a, k) {
      CertainSnoc(c0, p, e, a, k);
      assert e.Fenced? ==> ((e.t in c.issued && k <= c.issued[e.t]) <==> Awaits(c0, p, a, e.t, k));
    }
    forall t: nat, k: nat ensures (t in d.issued && k <= d.issued[t]) <==> Awaits(c0, p + [e], a, t, k) {
      AwaitsSnoc(c0, p, e, a, t, k);
    }
  }

  lemma {:induction false} LogDecides(c0: Cell, log: seq<Event>, a: nat)
    ensures Agrees(c0, log, a, At(c0, log, a))
  {
    hide Agrees;
    if log == [] {
      StartAgrees(c0, a);
    } else {
      var n := |log| - 1;
      LogDecides(c0, log[..n], a);
      StepAgrees(c0, log[..n], log[n], a, At(c0, log[..n], a));
      assert log[..n] + [log[n]] == log;
    }
  }

  lemma StartAgrees(c0: Cell, a: nat)
    ensures Agrees(c0, [], a, c0)
  {
    assert c0.versions + [] == c0.versions;
  }

  /// Version `k` of the byte is `v`, and it is not certain that a newer one is on the media.
  ghost predicate Remains(c0: Cell, log: seq<Event>, a: nat, v: byte, k: nat) {
    var versions := c0.versions + Stored(log, a);
    k < |versions| && versions[k] == v && !ForCertain(c0, log, a, k + 1)
  }

  /// A crash may leave the value `v` if and only if it has been there, and no newer version is on the
  /// media for certain.
  lemma CrashLaw(c0: Cell, log: seq<Event>, a: nat, v: byte)
    ensures Exposes(At(c0, log, a), v) <==> exists k: nat :: Remains(c0, log, a, v, k)
  {
    hide Stored, ForCertain, Awaits, At;
    LogDecides(c0, log, a);
    var c := At(c0, log, a);
    if Exposes(c, v) {
      var i: nat :| i < |c.versions[c.media..]| && c.versions[c.media..][i] == v;
      assert Remains(c0, log, a, v, c.media + i);
    }
    if k: nat :| Remains(c0, log, a, v, k) {
      assert c.versions[c.media..][k - c.media] == v;
    }
  }

  /// Crash exposure is exact
  /// -----------------------
  ///
  /// `Exposes` is not merely a safe guess.  The values a crash may leave are exactly those that
  /// some schedule of additional evictions would have put on the media by that moment.

  function WithoutEvictions(log: seq<Event>): seq<Event> {
    if log == [] then []
    else
      var rest := WithoutEvictions(log[..|log| - 1]);
      if log[|log| - 1].Evicted? then rest else rest + [log[|log| - 1]]
  }

  /// `c` differs from `d` at most in that more of it has reached the media.
  ghost predicate Ahead(c: Cell, d: Cell) {
    c.versions == d.versions && d.media <= c.media && c.issued == d.issued
  }

  lemma AheadSameValue(c: Cell, d: Cell)
    requires Ahead(c, d)
    ensures Value(c) == Value(d)
  {
  }

  lemma StepKeepsAhead(c: Cell, d: Cell, e: Event, a: nat)
    requires Ahead(c, d)
    ensures Ahead(CellStep(c, e, a), CellStep(d, e, a))
    ensures e.Evicted? ==> Ahead(CellStep(c, e, a), d)
  {
  }

  lemma {:induction false} EvictionsOnlyAdvance(c0: Cell, p: seq<Event>, a: nat)
    ensures Ahead(At(c0, p, a), At(c0, WithoutEvictions(p), a))
  {
    if p != [] {
      var n := |p| - 1;
      EvictionsOnlyAdvance(c0, p[..n], a);
      StepKeepsAhead(At(c0, p[..n], a), At(c0, WithoutEvictions(p[..n]), a), p[n], a);
      AtSnoc(c0, WithoutEvictions(p[..n]), p[n], a);
    }
  }

  /// A step does not touch a version that is neither what it leaves on the media nor the newest.
  lemma StepOnMedia(d: Cell, e: Event, a: nat, k: nat)
    requires CellStep(d, e, a).media <= k < Newest(CellStep(d, e, a))
    ensures d.media <= k <= Newest(d)
    ensures CellStep(d.(media := k), e, a) == CellStep(d, e, a).(media := k)
  {
  }

  lemma {:induction false} ScheduleFor(c0: Cell, log: seq<Event>, a: nat, k: nat) returns (sched: seq<Event>)
    requires Clean(c0)
    requires At(c0, log, a).media <= k <= Newest(At(c0, log, a))
    ensures WithoutEvictions(sched) == WithoutEvictions(log)
    ensures At(c0, sched, a) == At(c0, log, a).(media := k)
  {
    var c := At(c0, log, a);
    if k == c.media {
      sched := log;
    } else if k == Newest(c) {
      sched := log + [Evicted(LineOf(a))];
      assert sched[..|sched| - 1] == log;
    } else {
      var n := |log| - 1;
      var d := At(c0, log[..n], a);
      StepOnMedia(d, log[n], a, k);
      var s := ScheduleFor(c0, log[..n], a, k);
      sched := s + [log[n]];
      AtSnoc(c0, s, log[n], a);
      assert sched[..|sched| - 1] == s;
    }
  }

  lemma ExposureIsExact(c0: Cell, log: seq<Event>, a: nat, v: byte)
    requires Clean(c0)
    requires WithoutEvictions(log) == log
    ensures Exposes(At(c0, log, a), v) <==>
            exists sched :: WithoutEvictions(sched) == log && OnMedia(At(c0, sched, a)) == v
  {
    hide At, WithoutEvictions, Exposes, OnMedia, Clean;
    if Exposes(At(c0, log, a), v) {
      var sched := ExposedHasSchedule(c0, log, a, v);
    }
    forall sched | WithoutEvictions(sched) == log && OnMedia(At(c0, sched, a)) == v
      ensures Exposes(At(c0, log, a), v)
    {
      ScheduleExposes(c0, sched, a);
    }
  }

  lemma ExposedHasSchedule(c0: Cell, log: seq<Event>, a: nat, v: byte) returns (sched: seq<Event>)
    requires Clean(c0) && Exposes(At(c0, log, a), v)
    ensures WithoutEvictions(sched) == WithoutEvictions(log) && OnMedia(At(c0, sched, a)) == v
  {
    hide At, WithoutEvictions, Clean;
    var c := At(c0, log, a);
    var i :| 0 <= i < |c.versions[c.media..]| && c.versions[c.media..][i] == v;
    sched := ScheduleFor(c0, log, a, c.media + i);
  }

  lemma ScheduleExposes(c0: Cell, sched: seq<Event>, a: nat)
    ensures Exposes(At(c0, WithoutEvictions(sched), a), OnMedia(At(c0, sched, a)))
  {
    hide At, WithoutEvictions;
    EvictionsOnlyAdvance(c0, sched, a);
    var c, k := At(c0, WithoutEvictions(sched), a), At(c0, sched, a).media;
    assert c.versions[c.media..][k - c.media] == OnMedia(At(c0, sched, a));
  }

  /// Crash images of a whole line
  /// ----------------------------
  ///
  /// An eviction takes a whole line.  So a crash leaves all bytes of a line as of one and the same
  /// moment, except those that are known to be newer on the media.

  predicate IsLine(line: nat) {
    line % CACHELINE_SIZE == 0
  }

  /// Evictions are of whole cache lines.
  predicate EvictsLines(log: seq<Event>) {
    forall e | e in log && e.Evicted? :: IsLine(e.line)
  }

  /// The byte at `a` after `log` and, in addition, an eviction of its line after the first `m` events.
  ghost function CutAt(c0: Cell, log: seq<Event>, m: nat, a: nat): Cell
    requires m <= |log|
  {
    AtLeast(At(c0, log, a), Newest(At(c0, log[..m], a)))
  }

  /// `c` when the media holds version `k` or a newer one.
  function AtLeast(c: Cell, k: nat): Cell {
    if k < |c.versions| then c.(media := Max(c.media, k)) else c
  }

  /// `image` is what the media holds of `line` after the events of `sched`.
  ghost predicate Leaves(boot: nat -> Cell, sched: seq<Event>, line: nat, image: nat -> byte) {
    forall a | InLine(line, a) :: OnMedia(At(boot(a), sched, a)) == image(a)
  }

  /// `image` shows all bytes of `line` as of the first `m` events of `log`, or as known to be newer.
  ghost predicate IsCut(boot: nat -> Cell, log: seq<Event>, m: nat, line: nat, image: nat -> byte) {
    m <= |log| && forall a | InLine(line, a) :: OnMedia(CutAt(boot(a), log, m, a)) == image(a)
  }

  lemma StepAtLeast(c: Cell, k: nat, e: Event, a: nat)
    requires k <= Newest(c)
    ensures k <= Newest(CellStep(c, e, a))
    ensures CellStep(AtLeast(c, k), e, a) == AtLeast(CellStep(c, e, a), k)
  {
  }

  lemma {:induction false} NewestGrows(c0: Cell, p: seq<Event>, q: seq<Event>, a: nat)
    ensures Newest(At(c0, p, a)) <= Newest(At(c0, p + q, a))
  {
    if q == [] {
      assert p + q == p;
    } else {
      var n := |q| - 1;
      assert p + q == (p + q[..n]) + [q[n]];
      NewestGrows(c0, p, q[..n], a);
      AtSnoc(c0, p + q[..n], q[n], a);
    }
  }

  /// An eviction of the line of `a` in between.
  lemma {:induction false} EvictionInBetween(c0: Cell, p: seq<Event>, q: seq<Event>, line: nat, a: nat)
    requires InLine(line, a)
    ensures At(c0, p + [Evicted(line)] + q, a) == AtLeast(At(c0, p + q, a), Newest(At(c0, p, a)))
  {
    if q == [] {
      assert p + q == p && p + [Evicted(line)] + q == p + [Evicted(line)];
      AtSnoc(c0, p, Evicted(line), a);
    } else {
      var n, e := |q| - 1, q[|q| - 1];
      assert p + q == (p + q[..n]) + [e];
      assert p + [Evicted(line)] + q == (p + [Evicted(line)] + q[..n]) + [e];
      EvictionInBetween(c0, p, q[..n], line, a);
      AtSnoc(c0, p + q[..n], e, a);
      AtSnoc(c0, p + [Evicted(line)] + q[..n], e, a);
      NewestGrows(c0, p, q[..n], a);
      StepAtLeast(At(c0, p + q[..n], a), Newest(At(c0, p, a)), e, a);
    }
  }

  lemma {:induction false} WithEviction(p: seq<Event>, q: seq<Event>, line: nat)
    ensures WithoutEvictions(p + [Evicted(line)] + q) == WithoutEvictions(p + q)
  {
    if q == [] {
      assert p + q == p && p + [Evicted(line)] + q == p + [Evicted(line)];
      assert (p + [Evicted(line)])[..|p|] == p;
    } else {
      var n := |q| - 1;
      WithEviction(p, q[..n], line);
      assert (p + q)[..|p + q| - 1] == p + q[..n];
      assert (p + [Evicted(line)] + q)[..|p + q|] == p + [Evicted(line)] + q[..n];
    }
  }

  lemma {:induction false} NoEvictionLeft(log: seq<Event>)
    ensures forall e | e in WithoutEvictions(log) :: !e.Evicted?
  {
    if log != [] {
      NoEvictionLeft(log[..|log| - 1]);
    }
  }

  lemma CutHasSchedule(boot: nat -> Cell, log: seq<Event>, m: nat, line: nat, image: nat -> byte)
    returns (sched: seq<Event>)
    requires IsLine(line) && WithoutEvictions(log) == log && IsCut(boot, log, m, line, image)
    ensures WithoutEvictions(sched) == log && EvictsLines(sched) && Leaves(boot, sched, line, image)
  {
    hide At, WithoutEvictions, OnMedia;
    sched := log[..m] + [Evicted(line)] + log[m..];
    assert log[..m] + log[m..] == log;
    NoEvictionLeft(log);
    WithEviction(log[..m], log[m..], line);
    forall a | InLine(line, a) ensures OnMedia(At(boot(a), sched, a)) == image(a) {
      EvictionInBetween(boot(a), log[..m], log[m..], line, a);
    }
  }

  /// Of all the evictions in a schedule, the last one of a line decides.
  lemma {:induction false} LastEvictionDecides(boot: nat -> Cell, sched: seq<Event>, line: nat) returns (m: nat)
    requires IsLine(line) && EvictsLines(sched)
    requires forall a | InLine(line, a) :: Clean(boot(a))
    ensures m <= |WithoutEvictions(sched)|
    ensures forall a | InLine(line, a) ::
              At(boot(a), sched, a) == CutAt(boot(a), WithoutEvictions(sched), m, a)
  {
    if sched == [] {
      m := 0;
    } else {
      hide At, CutAt, WithoutEvictions, Clean, IsLine, InLine;
      var n, e := |sched| - 1, sched[|sched| - 1];
      assert sched[..n] + [e] == sched;
      m := LastEvictionDecides(boot, sched[..n], line);
      if e == Evicted(line) {
        forall a | InLine(line, a)
          ensures At(boot(a), sched, a) == CutAt(boot(a), WithoutEvictions(sched), |WithoutEvictions(sched)|, a)
        {
          CutNow(boot(a), sched[..n], m, line, a);
        }
        m := |WithoutEvictions(sched)|;
      } else {
        WithoutEvictionsSnoc(sched[..n], e);
        forall a | InLine(line, a)
          ensures At(boot(a), sched, a) == CutAt(boot(a), WithoutEvictions(sched), m, a)
        {
          CutStep(boot(a), sched[..n], m, e, line, a);
        }
      }
    }
  }

  lemma CutNow(c0: Cell, sched: seq<Event>, m: nat, line: nat, a: nat)
    requires InLine(line, a)
    requires m <= |WithoutEvictions(sched)| && At(c0, sched, a) == CutAt(c0, WithoutEvictions(sched), m, a)
    ensures var log := WithoutEvictions(sched + [Evicted(line)]);
            At(c0, sched + [Evicted(line)], a) == CutAt(c0, log, |log|, a)
  {
    hide At, WithoutEvictions;
    var log := WithoutEvictions(sched);
    WithoutEvictionsSnoc(sched, Evicted(line));
    AtSnoc(c0, sched, Evicted(line), a);
    assert log + [] == log && log[..|log|] == log;
  }

  lemma CutStep(c0: Cell, sched: seq<Event>, m: nat, e: Event, line: nat, a: nat)
    requires IsLine(line) && InLine(line, a) && e != Evicted(line) && (e.Evicted? ==> IsLine(e.line))
    requires m <= |WithoutEvictions(sched)| && At(c0, sched, a) == CutAt(c0, WithoutEvictions(sched), m, a)
    ensures m <= |WithoutEvictions(sched + [e])|
    ensures At(c0, sched + [e], a) == CutAt(c0, WithoutEvictions(sched + [e]), m, a)
  {
    hide At, CutAt, IsLine, WithoutEvictions, InLine, AtLeast;
    WithoutEvictionsSnoc(sched, e);
    AtSnoc(c0, sched, e, a);
    if e.Evicted? {
      assert WithoutEvictions(sched) + [] == WithoutEvictions(sched);
      OtherLine(e.line, line, a);
    } else {
      StepOfCut(c0, WithoutEvictions(sched), m, e, a);
    }
  }

  lemma WithoutEvictionsSnoc(sched: seq<Event>, e: Event)
    ensures WithoutEvictions(sched + [e]) == WithoutEvictions(sched) + if e.Evicted? then [] else [e]
  {
    assert (sched + [e])[..|sched|] == sched;
  }

  lemma StepOfCut(c0: Cell, log: seq<Event>, m: nat, e: Event, a: nat)
    requires m <= |log|
    ensures CellStep(CutAt(c0, log, m, a), e, a) == CutAt(c0, log + [e], m, a)
  {
    hide At, CellStep, AtLeast, IsLine, InLine;
    assert (log + [e])[..m] == log[..m] && log[..m] + log[m..] == log;
    NewestGrows(c0, log[..m], log[m..], a);
    AtSnoc(c0, log, e, a);
    StepAtLeast(At(c0, log, a), Newest(At(c0, log[..m], a)), e, a);
  }

  lemma OtherLine(line: nat, other: nat, a: nat)
    requires IsLine(line) && IsLine(other) && line != other && InLine(other, a)
    ensures !InLine(line, a)
  {
  }

  /// The images of a line that evictions can cause are exactly those with one cut for the whole line.
  lemma LineImagesAreCuts(boot: nat -> Cell, log: seq<Event>, line: nat, image: nat -> byte)
    requires IsLine(line) && WithoutEvictions(log) == log
    requires forall a | InLine(line, a) :: Clean(boot(a))
    ensures (exists m: nat :: IsCut(boot, log, m, line, image)) <==>
            exists sched :: WithoutEvictions(sched) == log && EvictsLines(sched) && Leaves(boot, sched, line, image)
  {
    hide At, WithoutEvictions, OnMedia, Clean, EvictsLines, CutAt;
    forall m: nat | IsCut(boot, log, m, line, image)
      ensures exists sched ::
                WithoutEvictions(sched) == log && EvictsLines(sched) && Leaves(boot, sched, line, image)
    {
      var sched := CutHasSchedule(boot, log, m, line, image);
    }
    forall sched | WithoutEvictions(sched) == log && EvictsLines(sched) && Leaves(boot, sched, line, image)
      ensures exists m: nat :: IsCut(boot, log, m, line, image)
    {
      var m := LastEvictionDecides(boot, sched, line);
      assert IsCut(boot, log, m, line, image);
    }
  }

  /// Threads
  /// -------
  ///
  /// `log` is an interleaving of what the threads and the cache did; `Project(log, t)` is what
  /// thread `t` did, in program order.

  function Project(log: seq<Event>, t: nat): seq<Event> {
    if log == [] then []
    else
      var rest := Project(log[..|log| - 1], t);
      if By(log[|log| - 1], t) then rest + [log[|log| - 1]] else rest
  }

  lemma ProjectSnoc(log: seq<Event>, e: Event, t: nat)
    ensures Project(log + [e], t) == if By(e, t) then Project(log, t) + [e] else Project(log, t)
  {
    assert (log + [e])[..|log + [e]| - 1] == log;
  }

  /// Every store to `a` in `log` stores `v`.
  predicate WritesOnly(log: seq<Event>, a: nat, v: byte) {
    forall e | e in log && WritesByte(e, a) :: e.data[a - e.addr] == v
  }

  /// Only thread `t` stores to `a` in `log`.
  predicate SoleWriter(log: seq<Event>, a: nat, t: nat) {
    forall e | e in log && WritesByte(e, a) :: e.t == t
  }

  /// How far thread `t` has brought the byte at `a` since its last store to it: 0 not stored,
  /// 1 stored in the cache, 2 write-back issued, 3 fenced.
  function PhaseStep(phase: nat, e: Event, a: nat): nat {
    match e
    case Wrote(_, addr, data, nt) =>
      if addr <= a < addr + |data| then (if nt then 2 else 1) else phase
    case WroteBack(_, line) => if InLine(line, a) && phase == 1 then 2 else phase
    case Fenced(_) => if phase == 2 then 3 else phase
    case Evicted(_) => phase
  }

  function Phase(phase: nat, log: seq<Event>, a: nat): nat {
    if log == [] then phase
    else PhaseStep(Phase(phase, log[..|log| - 1], a), log[|log| - 1], a)
  }

  lemma {:induction false} PhaseConcat(phase: nat, p: seq<Event>, q: seq<Event>, a: nat)
    ensures Phase(phase, p + q, a) == Phase(Phase(phase, p, a), q, a)
  {
    if q == [] {
      assert p + q == p;
    } else {
      var n := |q| - 1;
      assert (p + q)[..|p + q| - 1] == p + q[..n];
      PhaseConcat(phase, p, q[..n], a);
    }
  }

  /// What the phase promises about the cell
  /// --------------------------------------

  ghost predicate PhaseHolds(c0: Cell, c: Cell, t: nat, phase: nat) {
    && phase <= 3
    && (phase == 0 ==> c.versions == c0.versions)
    && (phase >= 1 ==> |c.versions| > |c0.versions|)
    && (phase == 2 ==> Clean(c) || (t in c.issued && c.issued[t] == Newest(c)))
    && (phase == 3 ==> Clean(c))
  }

  lemma PhaseStepIsSound(c0: Cell, c: Cell, t: nat, phase: nat, e: Event, a: nat)
    requires PhaseHolds(c0, c, t, phase)
    requires WritesByte(e, a) ==> e.t == t
    ensures PhaseHolds(c0, CellStep(c, e, a), t, if By(e, t) then PhaseStep(phase, e, a) else phase)
  {
  }

  /// Whatever the cache evicts and whatever other threads write back or fence, thread `t`'s own
  /// stores, write-backs and fences are enough to know where the byte stands.
  lemma {:induction false} PhaseIsSound(c0: Cell, log: seq<Event>, t: nat, a: nat)
    requires SoleWriter(log, a, t)
    ensures PhaseHolds(c0, At(c0, log, a), t, Phase(0, Project(log, t), a))
  {
    hide PhaseHolds, CellStep, PhaseStep;
    if log == [] {
      PhaseStarts(c0, t);
    } else {
      var n := |log| - 1;
      assert log[n] in log;
      PhaseIsSound(c0, log[..n], t, a);
      var own := Project(log[..n], t);
      PhaseStepIsSound(c0, At(c0, log[..n], a), t, Phase(0, own, a), log[n], a);
      if By(log[n], t) {
        assert (own + [log[n]])[..|own + [log[n]]| - 1] == own;
      }
    }
  }

  lemma PhaseStarts(c0: Cell, t: nat)
    ensures PhaseHolds(c0, c0, t, 0)
  {
  }

  /// And nothing less will do
  /// ------------------------

  /// No thread but `t` starts a write-back of the byte, and the cache evicts nothing.
  predicate OnItsOwn(log: seq<Event>, t: nat, a: nat) {
    forall e | e in log :: !e.Evicted? && (e.WroteBack? && InLine(e.line, a) ==> e.t == t)
  }

  ghost predicate PhaseIs(c: Cell, t: nat, phase: nat) {
    && (phase in {0, 3} <==> Clean(c))
    && (phase in {1, 2} ==> forall u | u in c.issued :: c.issued[u] == Newest(c) ==> u == t && phase == 2)
  }

  lemma PhaseStepIsExact(c: Cell, t: nat, phase: nat, e: Event, a: nat)
    requires phase <= 3 && PhaseIs(c, t, phase)
    requires phase == 2 ==> t in c.issued && c.issued[t] == Newest(c)
    requires !e.Evicted? && (WritesByte(e, a) ==> e.t == t) && (e.WroteBack? && InLine(e.line, a) ==> e.t == t)
    ensures var next := if By(e, t) then PhaseStep(phase, e, a) else phase;
            && next <= 3 && PhaseIs(CellStep(c, e, a), t, next)
            && (next == 2 ==> t in CellStep(c, e, a).issued
                              && CellStep(c, e, a).issued[t] == Newest(CellStep(c, e, a)))
  {
  }

  /// A byte that only thread `t` stores to and writes back, and that is never evicted, is certain to be on
  /// the media exactly when `t` has not stored to it or has fenced it.
  lemma {:induction false} PhaseIsExact(c0: Cell, log: seq<Event>, t: nat, a: nat)
    requires Clean(c0) && SoleWriter(log, a, t) && OnItsOwn(log, t, a)
    ensures var phase := Phase(0, Project(log, t), a);
            && phase <= 3 && PhaseIs(At(c0, log, a), t, phase)
            && (phase == 2 ==> t in At(c0, log, a).issued && At(c0, log, a).issued[t] == Newest(At(c0, log, a)))
  {
    hide CellStep, PhaseStep, InLine, Newest, PhaseIs;
    if log == [] {
      CleanStart(c0, t);
    } else {
      var n := |log| - 1;
      assert log[n] in log;
      PhaseIsExact(c0, log[..n], t, a);
      var own := Project(log[..n], t);
      PhaseStepIsExact(At(c0, log[..n], a), t, Phase(0, own, a), log[n], a);
      if By(log[n], t) {
        assert (own + [log[n]])[..|own + [log[n]]| - 1] == own;
      }
    }
  }

  lemma CleanStart(c0: Cell, t: nat)
    requires Clean(c0)
    ensures PhaseIs(c0, t, 0)
  {
  }

  lemma CleanIffFenced(c0: Cell, log: seq<Event>, t: nat, a: nat)
    requires Clean(c0) && SoleWriter(log, a, t) && OnItsOwn(log, t, a)
    ensures Clean(At(c0, log, a)) <==> Phase(0, Project(log, t), a) in {0, 3}
  {
    hide At, Phase, Project, SoleWriter, OnItsOwn, Clean;
    PhaseIsExact(c0, log, t, a);
  }

  /// Stores of one and the same value add versions of that value only, and the media never
  /// goes back.
  lemma {:induction false} VersionsGrow(c0: Cell, log: seq<Event>, a: nat, v: byte)
    requires WritesOnly(log, a, v)
    ensures var c := At(c0, log, a);
            && c0.versions <= c.versions
            && c0.media <= c.media
            && forall k | |c0.versions| <= k < |c.versions| :: c.versions[k] == v
  {
    if log != [] {
      VersionsGrow(c0, log[..|log| - 1], a, v);
    }
  }

  /// A crash at any moment leaves the byte as a crash before the log could have left it, or with
  /// the one value that was being stored.
  lemma CrashOldOrNew(c0: Cell, log: seq<Event>, a: nat, v: byte, w: byte)
    requires WritesOnly(log, a, v)
    requires Exposes(At(c0, log, a), w)
    ensures w == v || Exposes(c0, w)
  {
    VersionsGrow(c0, log, a, v);
    var c := At(c0, log, a);
    var i :| 0 <= i < |c.versions[c.media..]| && c.versions[c.media..][i] == w;
    var k := c.media + i;
    if k < |c0.versions| {
      assert c0.versions[c0.media..][k - c0.media] == w;
    }
  }

  /// A byte nobody stores to keeps its value, and a crash exposes nothing new.
  lemma {:induction false} Untouched(c0: Cell, log: seq<Event>, a: nat)
    requires forall e | e in log :: !WritesByte(e, a)
    ensures At(c0, log, a).versions == c0.versions && c0.media <= At(c0, log, a).media
    ensures forall w | Exposes(At(c0, log, a), w) :: Exposes(c0, w)
  {
    if log != [] {
      Untouched(c0, log[..|log| - 1], a);
      assert !WritesByte(log[|log| - 1], a);
    }
    var c := At(c0, log, a);
    forall w | Exposes(c, w) ensures Exposes(c0, w) {
      var i :| 0 <= i < |c.versions[c.media..]| && c.versions[c.media..][i] == w;
      assert c0.versions[c0.media..][c.media + i - c0.media] == w;
    }
  }

  /// Once thread `t` has stored, written back and fenced the byte, every crash leaves `v`, also
  /// later on while `t` stores `v` again.
  lemma DurableFromThenOn(c0: Cell, p: seq<Event>, q: seq<Event>, t: nat, a: nat, v: byte)
    requires SoleWriter(p, a, t) && WritesOnly(p + q, a, v)
    requires Phase(0, Project(p, t), a) == 3
    ensures Settled(At(c0, p + q, a), v)
  {
    assert forall e | e in p :: e in p + q;
    assert forall e | e in q :: e in p + q;
    var c, d := At(c0, p, a), At(c0, p + q, a);
    PhaseIsSound(c0, p, t, a);
    VersionsGrow(c0, p, a, v);
    AtConcat(c0, p, q, a);
    VersionsGrow(c, q, a, v);
    VersionsGrow(c0, p + q, a, v);
    assert d.versions[d.media..][|d.versions| - 1 - d.media] == v;
  }
}
