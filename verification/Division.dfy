/// Division with remainder
/// =======================

module Division {

  /// Quotient and remainder are determined by what they promise.
  lemma RemainderIs(x: nat, m: nat, q: nat, r: nat)
    requires r < m && x == m * q + r
    ensures x % m == r && x / m == q
  {
    var q', r' := x / m, x % m;
    assert m * (q - q') == r' - r;
    if q != q' {
      Wide(m, q - q');
    }
  }

  lemma Wide(m: nat, d: int)
    requires d != 0
    ensures m * d >= m || m * d + m <= 0
  {
  }
}
