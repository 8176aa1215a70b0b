/// What the copy code does
/// =======================

module CopyMeaning {
  import opened PersistentMemory
  import opened Instructions
  import opened CopyPlans
  import opened CopyCode

  /// Footprints
  /// ----------

  predicate StoresIn(code: seq<Instr>, lo: nat, hi: nat) {
    forall i | i in code && (i.Store? || i.Fill?) :: lo <= i.addr && i.addr + i.n <= hi
  }

  predicate LoadsIn(code: seq<Instr>, lo: nat, hi: nat) {
    forall i | i in code && i.Load? :: lo <= i.addr && i.addr + i.n <= hi
  }

  lemma {:induction false} WordsFootprint(ld: Kind, st: Kind, dest: nat, src: nat, k: nat)
    ensures LoadsIn(LoadWords(ld, src, k), src, src + 32 * k)
    ensures StoresIn(StoreWords(st, dest, k), dest, dest + 32 * k)
    ensures forall i | i in LoadWords(ld, src, k) :: i.Load?
    ensures forall i | i in StoreWords(st, dest, k) :: !i.Load?
  {
    if k > 0 {
      WordsFootprint(ld, st, dest, src, k - 1);
    }
  }

  lemma {:induction false} LinesFootprint(st: Kind, dest: nat, j: nat)
    ensures StoresIn(StoreLines(st, dest, j), dest, dest + 64 * j)
    ensures forall i | i in StoreLines(st, dest, j) :: !i.Load?
  {
    if j > 0 {
      LinesFootprint(st, dest, j - 1);
    }
  }

  /// Loads from the source chunk, followed by stores to the destination chunk.
  ghost predicate LoadsThenStores(loads: seq<Instr>, stores: seq<Instr>, dest: nat, src: nat, n: nat) {
    && (forall i | i in loads :: i.Load?)
    && (forall i | i in stores :: !i.Load?)
    && LoadsIn(loads, src, src + n) && StoresIn(stores, dest, dest + n)
  }

  lemma SingleSplits(dest: nat, src: nat, n: nat, ld: Kind, st: Kind)
    returns (loads: seq<Instr>, stores: seq<Instr>)
    ensures Single(dest, src, n, ld, st) == loads + stores && LoadsThenStores(loads, stores, dest, src, n)
  {
    loads, stores := [Load(0, src, n, ld)], [Store(0, dest, n, st)];
  }

  lemma OverlappingSplits(dest: nat, src: nat, n: nat, w: nat)
    returns (loads: seq<Instr>, stores: seq<Instr>)
    requires w <= n
    ensures Overlapping(dest, src, n, w) == loads + stores && LoadsThenStores(loads, stores, dest, src, n)
  {
    loads := [Load(0, src, w, Scalar), Load(1, src + n - w, w, Scalar)];
    stores := [Store(0, dest, w, Scalar), Store(1, dest + n - w, w, Scalar)];
  }

  lemma KernelSplits(style: Style, dest: nat, src: nat, n: nat, flush: bool)
    returns (loads: seq<Instr>, stores: seq<Instr>)
    requires style.Vector? && n > 16 && n % 32 == 0 && (flush ==> n % 64 == 0)
    ensures ChunkCode(style, dest, src, n, flush) == loads + stores && LoadsThenStores(loads, stores, dest, src, n)
  {
    hide LoadWords, StoreWords, StoreLines;
    WordsFootprint(style.ld, style.st, dest, src, n / 32);
    LinesFootprint(style.st, dest, n / 64);
    loads := LoadWords(style.ld, src, n / 32);
    stores := if flush then StoreLines(style.st, dest, n / 64) else StoreWords(style.st, dest, n / 32);
  }

  /// The code of a chunk is loads followed by stores.
  lemma ChunkSplits(style: Style, dest: nat, src: nat, n: nat, flush: bool)
    returns (loads: seq<Instr>, stores: seq<Instr>)
    requires n > 16 && style.Vector? ==> n % 32 == 0 && (flush ==> n % 64 == 0)
    ensures ChunkCode(style, dest, src, n, flush) == loads + stores && LoadsThenStores(loads, stores, dest, src, n)
  {
    hide LoadWords, StoreWords, StoreLines, Overlapping, Single;
    match style
    case Native => loads, stores := SingleSplits(dest, src, n, Scalar, Scalar);
    case Set(value) => loads, stores := [], [Fill(dest, n, value)];
    case Vector(ld, st) =>
      if n == 0 {
        loads, stores := [], [];
      } else if n <= 2 {
        loads, stores := SingleSplits(dest, src, n, Scalar, Scalar);
      } else if n < 16 {
        loads, stores := OverlappingSplits(dest, src, n, if n > 8 then 8 else if n > 4 then 4 else 2);
      } else if n == 16 {
        loads, stores := SingleSplits(dest, src, n, ld, st);
      } else {
        loads, stores := KernelSplits(style, dest, src, n, flush);
      }
  }

  lemma SuitsSplits(style: Style, dest: nat, act: Action)
    requires Suits(style, dest, act) && act.Copy?
    ensures act.n > 16 && style.Vector? ==> act.n % 32 == 0 && (act.flush ==> act.n % 64 == 0)
  {
  }

  lemma ChunkFootprint(style: Style, dest: nat, src: nat, act: Action)
    requires Suits(style, dest, act) && act.Copy?
    ensures var code := ActCode(style, dest, src, act);
            && LoadsIn(code, src + act.off, src + act.off + act.n)
            && StoresIn(code, dest + act.off, dest + act.off + act.n)
            && LoadsBeforeStores(code)
  {
    hide ChunkCode, LoadsIn, StoresIn, LoadsBeforeStores;
    SuitsSplits(style, dest, act);
    var loads, stores := ChunkSplits(style, dest + act.off, src + act.off, act.n, act.flush);
    SplitFootprint(loads, stores, dest + act.off, dest + act.off + act.n, src + act.off, src + act.off + act.n);
  }

  lemma SplitFootprint(loads: seq<Instr>, stores: seq<Instr>, lo: nat, hi: nat, lo': nat, hi': nat)
    requires forall i | i in loads :: i.Load?
    requires forall i | i in stores :: !i.Load?
    requires LoadsIn(loads, lo', hi') && StoresIn(stores, lo, hi)
    ensures LoadsIn(loads + stores, lo', hi') && StoresIn(loads + stores, lo, hi)
    ensures LoadsBeforeStores(loads + stores)
  {
    var code := loads + stores;
    forall k | 0 <= k < |loads| ensures code[k].Load? {
      assert loads[k] in loads;
    }
    forall k | |loads| <= k < |code| ensures !code[k].Load? {
      assert stores[k - |loads|] in stores;
    }
  }

  /// The routine reads only its source range and writes only its destination range.
  lemma {:induction false} CodeFootprint(style: Style, dest: nat, src: nat, plan: Plan, lo: nat, hi: nat)
    requires Contiguous(plan, lo, hi) && AllSuit(style, dest, plan)
    ensures LoadsIn(Code(style, dest, src, plan), src + lo, src + hi)
    ensures StoresIn(Code(style, dest, src, plan), dest + lo, dest + hi)
    decreases plan
  {
    ContiguousBounds(plan, lo, hi);
    if plan != [] {
      assert plan[0] in plan;
      assert forall act | act in plan[1..] :: act in plan;
      var mid := if plan[0].Copy? then lo + plan[0].n else lo;
      if plan[0].Copy? {
        ChunkFootprint(style, dest, src, plan[0]);
      }
      ContiguousBounds(plan[1..], mid, hi);
      CodeFootprint(style, dest, src, plan[1..], mid, hi);
    }
  }

  /// Loads before stores
  /// -------------------

  lemma LoadsBeforeStoresConcat(p: seq<Instr>, q: seq<Instr>, lo: nat, hi: nat, lo': nat, hi': nat)
    requires LoadsBeforeStores(p) && LoadsBeforeStores(q)
    requires StoresIn(p, lo, hi) && LoadsIn(q, lo', hi')
    requires hi <= lo' || hi' <= lo
    ensures LoadsBeforeStores(p + q)
  {
    var c := p + q;
    forall i, j, a | 0 <= i < j < |c| && Stores(c[i], a) ensures !Loads(c[j], a) {
      if i < |p| && j >= |p| {
        assert c[i] in p && c[j] in q;
      } else if i >= |p| {
        assert c[i] == q[i - |p|] && c[j] == q[j - |p|];
      }
    }
  }

  /// A copy that moves forward never overwrites source bytes it has not loaded yet: the ranges are
  /// disjoint, or the destination starts no later than the source.
  predicate Forward(dest: nat, src: nat, len: nat) {
    dest <= src || src + len <= dest
  }

  lemma {:induction false} CopiesForward(style: Style, dest: nat, src: nat, plan: Plan, lo: nat, hi: nat)
    requires Contiguous(plan, lo, hi) && AllSuit(style, dest, plan)
    requires dest <= src || src + hi <= dest + lo
    ensures LoadsBeforeStores(Code(style, dest, src, plan))
    decreases plan
  {
    if plan != [] {
      assert plan[0] in plan;
      assert forall act | act in plan[1..] :: act in plan;
      var mid := if plan[0].Copy? then lo + plan[0].n else lo;
      ContiguousBounds(plan[1..], mid, hi);
      CopiesForward(style, dest, src, plan[1..], mid, hi);
      CodeFootprint(style, dest, src, plan[1..], mid, hi);
      var p := ActCode(style, dest, src, plan[0]);
      if plan[0].Copy? {
        ChunkFootprint(style, dest, src, plan[0]);
        LoadsBeforeStoresConcat(p, Code(style, dest, src, plan[1..]), dest + lo, dest + mid, src + mid, src + hi);
      } else {
        LoadsBeforeStoresConcat(p, Code(style, dest, src, plan[1..]), 0, 0, src + mid, src + hi);
      }
    }
  }

  /// Values
  /// ------

  /// The byte the routine is meant to put at `a`.
  function Intended(style: Style, image: nat -> byte, dest: nat, src: nat, a: nat): byte
    requires dest <= a
  {
    if style.Set? then style.value else image(a - dest + src)
  }

  /// The first `k` registers hold the words from `src` on.
  predicate HoldsWords(regs: Regs, image: nat -> byte, src: nat, k: nat) {
    forall i | 0 <= i < k :: i in regs && regs[i] == Bytes(image, src + 32 * i, 32)
  }

  lemma {:induction false} LoadWordsFill(ld: Kind, src: nat, k: nat, t: nat, regs: Regs, image: nat -> byte)
    ensures Resolve(LoadWords(ld, src, k), t, regs, image) == []
    ensures HoldsWords(RegsAfter(LoadWords(ld, src, k), regs, image), image, src, k)
  {
    if k > 0 {
      LoadWordsFill(ld, src, k - 1, t, regs, image);
      ResolveConcat(LoadWords(ld, src, k - 1), [Load(k - 1, src + 32 * (k - 1), 32, ld)], t, regs, image);
    }
  }

  /// A store puts the bytes that lie `src - dest` away in the image.
  predicate Shifted(i: Instr, regs: Regs, image: nat -> byte, dest: nat, src: nat) {
    i.Store? ==> dest <= i.addr && Contents(regs, i.reg, i.n) == Bytes(image, i.addr - dest + src, i.n)
  }

  lemma ShiftedWrites(i: Instr, t: nat, regs: Regs, image: nat -> byte, dest: nat, src: nat, a: nat)
    requires !i.Load? && !i.Fill? && Shifted(i, regs, image, dest, src) && dest <= a
    ensures WritesOnly(Emits(i, t, regs), a, image(a - dest + src))
  {
    if i.Store? && i.addr <= a < i.addr + i.n {
      assert Bytes(image, i.addr - dest + src, i.n)[a - i.addr] == image(i.addr - dest + src + (a - i.addr));
    }
  }

  /// Code without loads whose stores are all shifted.
  lemma {:induction false} ShiftedCode(code: seq<Instr>, t: nat, regs: Regs, image: nat -> byte,
                                       dest: nat, src: nat, a: nat)
    requires forall i | i in code :: !i.Load? && !i.Fill? && Shifted(i, regs, image, dest, src)
    requires dest <= a
    ensures WritesOnly(Resolve(code, t, regs, image), a, image(a - dest + src))
  {
    if code != [] {
      assert code[0] in code;
      assert forall i | i in code[1..] :: i in code;
      ShiftedWrites(code[0], t, regs, image, dest, src, a);
      ShiftedCode(code[1..], t, regs, image, dest, src, a);
    }
  }

  lemma {:induction false} WordsShifted(st: Kind, dest: nat, src: nat, k: nat, regs: Regs, image: nat -> byte)
    requires HoldsWords(regs, image, src, k)
    ensures forall i | i in StoreWords(st, dest, k) :: !i.Load? && !i.Fill? && Shifted(i, regs, image, dest, src)
  {
    if k > 0 {
      WordsShifted(st, dest, src, k - 1, regs, image);
    }
  }

  lemma {:induction false} LinesShifted(st: Kind, dest: nat, src: nat, j: nat, regs: Regs, image: nat -> byte)
    requires HoldsWords(regs, image, src, 2 * j)
    ensures forall i | i in StoreLines(st, dest, j) :: !i.Load? && !i.Fill? && Shifted(i, regs, image, dest, src)
  {
    if j > 0 {
      LinesShifted(st, dest, src, j - 1, regs, image);
      assert forall i | i in StorePair(st, dest, j - 1) :: !i.Load? && !i.Fill? && Shifted(i, regs, image, dest, src);
    }
  }

  /// Loads followed by shifted stores.
  lemma LoadThenStore(loads: seq<Instr>, stores: seq<Instr>, t: nat, regs: Regs, image: nat -> byte,
                      dest: nat, src: nat, a: nat)
    requires Resolve(loads, t, regs, image) == []
    requires forall i | i in stores ::
               !i.Load? && !i.Fill? && Shifted(i, RegsAfter(loads, regs, image), image, dest, src)
    requires dest <= a
    ensures WritesOnly(Resolve(loads + stores, t, regs, image), a, image(a - dest + src))
  {
    ResolveConcat(loads, stores, t, regs, image);
    ShiftedCode(stores, t, RegsAfter(loads, regs, image), image, dest, src, a);
  }

  lemma SingleWrites(dest: nat, src: nat, n: nat, ld: Kind, st: Kind, t: nat, regs: Regs, image: nat -> byte, a: nat)
    requires dest <= a
    ensures WritesOnly(Resolve(Single(dest, src, n, ld, st), t, regs, image), a, image(a - dest + src))
  {
    var p := Single(dest, src, n, ld, st);
    assert p == [p[0]] + [p[1]];
    assert RegsAfter([p[0]], regs, image) == NextRegs(p[0], regs, image);
    LoadThenStore([p[0]], [p[1]], t, regs, image, dest, src, a);
  }

  lemma OverlappingWrites(dest: nat, src: nat, n: nat, w: nat, t: nat, regs: Regs, image: nat -> byte, a: nat)
    requires dest <= a && w <= n
    ensures WritesOnly(Resolve(Overlapping(dest, src, n, w), t, regs, image), a, image(a - dest + src))
  {
    var p := Overlapping(dest, src, n, w);
    assert p == [p[0], p[1]] + [p[2], p[3]];
    assert [p[0], p[1]][1..] == [p[1]];
    var r1 := NextRegs(p[0], regs, image);
    assert RegsAfter([p[0], p[1]], regs, image) == RegsAfter([p[1]], r1, image) == NextRegs(p[1], r1, image);
    assert Resolve([p[0], p[1]], t, regs, image) == Emits(p[0], t, regs) + Resolve([p[1]], t, r1, image) == [];
    OverlappingShifted(dest, src, n, w, NextRegs(p[1], r1, image), image);
    LoadThenStore([p[0], p[1]], [p[2], p[3]], t, regs, image, dest, src, a);
  }

  lemma OverlappingShifted(dest: nat, src: nat, n: nat, w: nat, regs: Regs, image: nat -> byte)
    requires w <= n
    requires 0 in regs && regs[0] == Bytes(image, src, w)
    requires 1 in regs && regs[1] == Bytes(image, src + n - w, w)
    ensures Shifted(Store(0, dest, w, Scalar), regs, image, dest, src)
    ensures Shifted(Store(1, dest + n - w, w, Scalar), regs, image, dest, src)
  {
  }

  /// Whatever the registers held before, every store of the chunk stores the intended bytes.
  lemma ChunkWrites(style: Style, dest: nat, src: nat, n: nat, flush: bool,
                    t: nat, regs: Regs, image: nat -> byte, a: nat)
    requires style.Vector? && n > 16 ==> n % 32 == 0 && (flush ==> n % 64 == 0)
    requires dest <= a
    ensures WritesOnly(Resolve(ChunkCode(style, dest, src, n, flush), t, regs, image), a,
                       Intended(style, image, dest, src, a))
  {
    match style
    case Native => SingleWrites(dest, src, n, Scalar, Scalar, t, regs, image, a);
    case Set(_) =>
    case Vector(ld, st) =>
      if n < 16 {
        if n <= 2 {
          SingleWrites(dest, src, n, Scalar, Scalar, t, regs, image, a);
        } else {
          OverlappingWrites(dest, src, n, if n > 8 then 8 else if n > 4 then 4 else 2, t, regs, image, a);
        }
      } else if n == 16 {
        SingleWrites(dest, src, n, ld, st, t, regs, image, a);
      } else {
        var loads := LoadWords(ld, src, n / 32);
        LoadWordsFill(ld, src, n / 32, t, regs, image);
        var regs' := RegsAfter(loads, regs, image);
        if flush {
          LinesShifted(st, dest, src, n / 64, regs', image);
          LoadThenStore(loads, StoreLines(st, dest, n / 64), t, regs, image, dest, src, a);
        } else {
          WordsShifted(st, dest, src, n / 32, regs', image);
          LoadThenStore(loads, StoreWords(st, dest, n / 32), t, regs, image, dest, src, a);
        }
      }
  }

  /// Every store of the routine puts the one intended byte at each address, also where stores
  /// overlap.
  lemma {:induction false} CodeWrites(style: Style, dest: nat, src: nat, plan: Plan,
                                      t: nat, regs: Regs, image: nat -> byte, a: nat)
    requires AllSuit(style, dest, plan) && dest <= a
    ensures WritesOnly(Resolve(Code(style, dest, src, plan), t, regs, image), a,
                       Intended(style, image, dest, src, a))
    decreases plan
  {
    if plan != [] {
      assert plan[0] in plan;
      assert forall act | act in plan[1..] :: act in plan;
      var p, q := ActCode(style, dest, src, plan[0]), Code(style, dest, src, plan[1..]);
      ActWrites(style, dest, src, plan[0], t, regs, image, a);
      ResolveConcat(p, q, t, regs, image);
      CodeWrites(style, dest, src, plan[1..], t, RegsAfter(p, regs, image), image, a);
    }
  }

  lemma ClwbWrites(addr: nat, t: nat, regs: Regs, image: nat -> byte, a: nat, v: byte)
    ensures WritesOnly(Resolve([Clwb(addr)], t, regs, image), a, v)
  {
  }

  lemma ActWrites(style: Style, dest: nat, src: nat, act: Action, t: nat, regs: Regs, image: nat -> byte, a: nat)
    requires Suits(style, dest, act) && dest <= a
    ensures WritesOnly(Resolve(ActCode(style, dest, src, act), t, regs, image), a,
                       Intended(style, image, dest, src, a))
  {
    hide ChunkCode, Resolve, StoresIn, LoadsBeforeStores, LoadsIn;
    match act
    case WriteBack(addr) =>
      ClwbWrites(LineOf(addr), t, regs, image, a, Intended(style, image, dest, src, a));
    case Copy(off, n, flush) =>
      SuitsSplits(style, dest, act);
      if dest + off <= a {
        ChunkWrites(style, dest + off, src + off, n, flush, t, regs, image, a);
      } else {
        ChunkFootprint(style, dest, src, act);
        StaysOut(ActCode(style, dest, src, act), t, regs, image, dest + off, dest + off + n, a);
      }
  }

  /// Code that stores only in `[lo, hi)` writes no byte elsewhere.
  lemma {:induction false} StaysOut(code: seq<Instr>, t: nat, regs: Regs, image: nat -> byte, lo: nat, hi: nat, a: nat)
    requires StoresIn(code, lo, hi) && !(lo <= a < hi)
    ensures forall e | e in Resolve(code, t, regs, image) :: !WritesByte(e, a)
  {
    if code != [] {
      assert code[0] in code;
      assert forall i | i in code[1..] :: i in code;
      StaysOut(code[1..], t, NextRegs(code[0], regs, image), image, lo, hi, a);
    }
  }
}
