/// Bit operations
/// ==============
///
/// `util/bitops.h` and the masks and shifts built on it, over natural numbers.

module Bits {
  import opened Division

  function Pow2(k: nat): (p: nat)
    ensures p > 0
  {
    if k == 0 then 1 else 2 * Pow2(k - 1)
  }

  function Shl(x: nat, k: nat): nat {
    x * Pow2(k)
  }

  /// `x & y`
  function And(x: nat, y: nat): nat {
    if x == 0 || y == 0 then 0 else x % 2 * (y % 2) + 2 * And(x / 2, y / 2)
  }

  /// `__fls`: the index of the highest set bit.
  function HighestBit(word: nat): (k: nat)
    requires word > 0
    ensures Pow2(k) <= word < Pow2(k + 1)
  {
    if word == 1 then 0 else HighestBit(word / 2) + 1
  }

  /// `fls` counts bits from one, and gives zero when there are none.
  function Fls(x: nat): (r: nat)
    ensures x < Pow2(r) && (r > 0 ==> Pow2(r - 1) <= x)
  {
    if x == 0 then 0 else HighestBit(x) + 1
  }

  predicate IsPow2(v: nat) {
    v != 0 && And(v, v - 1) == 0
  }

  lemma {:induction false} Pow2Grows(i: nat, j: nat)
    requires i < j
    ensures 2 * Pow2(i) <= Pow2(j)
  {
    if i + 1 < j {
      Pow2Grows(i, j - 1);
    }
  }

  lemma {:induction false} Pow2Add(i: nat, j: nat)
    ensures Pow2(i + j) == Pow2(i) * Pow2(j)
  {
    if i > 0 {
      Pow2Add(i - 1, j);
      Associates(Pow2(i - 1), Pow2(j));
    }
  }

  lemma Associates(x: nat, y: nat)
    ensures 2 * (x * y) == 2 * x * y
  {
  }

  /// The highest bit is the only one with that property.
  lemma HighestBitOf(word: nat, k: nat)
    requires Pow2(k) <= word < Pow2(k + 1)
    ensures HighestBit(word) == k
  {
    var h := HighestBit(word);
    if h < k {
      Pow2Grows(h, k);
    } else if k < h {
      Pow2Grows(k, h);
    }
  }

  lemma BitTimesItself(b: nat)
    requires b < 2
    ensures b * b == b
  {
  }

  lemma {:induction false} AndSelf(x: nat)
    ensures And(x, x) == x
  {
    if x > 0 {
      AndSelf(x / 2);
      BitTimesItself(x % 2);
    }
  }

  lemma HalvesOf(v: nat)
    requires v > 1
    ensures (v - 1) / 2 == if v % 2 == 1 then v / 2 else v / 2 - 1
    ensures (v - 1) % 2 == 1 - v % 2
  {
  }

  lemma {:induction false} ClearsLowest(v: nat)
    requires v > 0
    ensures And(v, v - 1) == 0 <==> v == Pow2(HighestBit(v))
  {
    if v == 1 {
    } else if v % 2 == 1 {
      AndSelf(v / 2);
      HalvesOf(v);
      assert And(v, v - 1) == 2 * And(v / 2, v / 2);
    } else {
      ClearsLowest(v / 2);
      HalvesOf(v);
    }
  }

  /// `is_pow2` decides exactly whether its argument is a power of two.
  lemma IsPow2Decides(v: nat)
    ensures IsPow2(v) <==> exists k: nat :: v == Pow2(k)
  {
    if v > 0 {
      ClearsLowest(v);
      if k: nat :| v == Pow2(k) {
        HighestBitOf(v, k);
      }
    }
  }

  lemma {:induction false} AndAtMost(x: nat, y: nat)
    ensures And(x, y) <= y
  {
    if x != 0 && y != 0 {
      AndAtMost(x / 2, y / 2);
    }
  }

  /// Masking with a power of two less one is the remainder.
  lemma {:induction false} AndMask(x: nat, k: nat)
    ensures And(x, Pow2(k) - 1) == x % Pow2(k)
  {
    var m := Pow2(k);
    if k == 0 {
    } else if x == 0 {
    } else {
      var h := Pow2(k - 1);
      AndMask(x / 2, k - 1);
      MaskHalves(h);
      HalfRemainder(x, h);
    }
  }

  lemma MaskHalves(h: nat)
    requires h > 0
    ensures (2 * h - 1) / 2 == h - 1 && (2 * h - 1) % 2 == 1
  {
  }

  lemma HalfRemainder(x: nat, h: nat)
    requires h > 0
    ensures x % (2 * h) == x % 2 + 2 * (x / 2 % h)
  {
    var q, r := x / 2 / h, x / 2 % h;
    assert x / 2 == h * q + r;
    assert x == 2 * h * q + (x % 2 + 2 * r);
    RemainderIs(x, 2 * h, q, x % 2 + 2 * r);
  }

  /// Fairness
  /// --------

  /// How many of the first `n` iterations of the sequential mode visit slot `s`.
  function Visits(n: nat, mask: nat, s: nat): nat {
    if n == 0 then 0 else (if And(n - 1, mask) == s then 1 else 0) + Visits(n - 1, mask, s)
  }

  lemma {:induction false} VisitsAre(n: nat, k: nat, s: nat)
    requires s < Pow2(k)
    ensures Visits(n, Pow2(k) - 1, s) == n / Pow2(k) + if s < n % Pow2(k) then 1 else 0
  {
    var m := Pow2(k);
    if n == 0 {
    } else {
      VisitsAre(n - 1, k, s);
      AndMask(n - 1, k);
      NextRemainder(n - 1, m);
    }
  }

  lemma NextRemainder(n: nat, m: nat)
    requires m > 0
    ensures n % m + 1 < m ==> (n + 1) % m == n % m + 1 && (n + 1) / m == n / m
    ensures n % m + 1 == m ==> (n + 1) % m == 0 && (n + 1) / m == n / m + 1
  {
    var q, r := n / m, n % m;
    if r + 1 < m {
      RemainderIs(n + 1, m, q, r + 1);
    } else {
      assert m * (q + 1) == m * q + m;
      RemainderIs(n + 1, m, q + 1, 0);
    }
  }

  /// No slot has been visited more than once more often than another.
  ghost predicate Fair(n: nat, mask: nat) {
    forall s: nat, s': nat | s <= mask && s' <= mask :: Visits(n, mask, s) <= Visits(n, mask, s') + 1
  }

  ghost predicate AllVisited(n: nat, mask: nat) {
    forall s: nat | s <= mask :: Visits(n, mask, s) > 0
  }

  /// The sequential mode is fair after any number of iterations, and has visited every slot exactly
  /// when there were at least as many iterations as slots.
  lemma SequentialIsFair(n: nat, k: nat)
    ensures Fair(n, Pow2(k) - 1)
    ensures AllVisited(n, Pow2(k) - 1) <==> n >= Pow2(k)
  {
    var m, mask := Pow2(k), Pow2(k) - 1;
    forall s: nat | s <= mask
      ensures Visits(n, mask, s) == n / m + if s < n % m then 1 else 0
    {
      VisitsAre(n, k, s);
    }
    if n < m {
      RemainderIs(n, m, 0, n);
      assert Visits(n, mask, mask) == 0;
    } else {
      AtLeastOnce(n, m);
    }
  }

  lemma AtLeastOnce(n: nat, m: nat)
    requires n >= m > 0
    ensures n / m > 0
  {
  }
}
