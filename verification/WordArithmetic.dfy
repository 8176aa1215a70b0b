/// Machine words
/// =============
///
/// The source computes addresses and sizes in 64-bit words, which wrap around.

module WordArithmetic {
  import opened Division
  import opened PersistentMemory

  const WORD: nat := 0x1_0000_0000_0000_0000
  const WORD32: nat := 0x1_0000_0000

  function AddWord(x: nat, y: nat): (r: nat)
    ensures r < WORD && (x + y < WORD ==> r == x + y)
  {
    (x + y) % WORD
  }

  function MulWord(x: nat, y: nat): (r: nat)
    ensures r < WORD && (x * y < WORD ==> r == x * y)
  {
    (x * y) % WORD
  }

  /// `clwb_extent` steps through its lines in word arithmetic; this is its pointer after `k` steps.
  function ExtentPointer(addr: nat, k: nat): nat {
    if k == 0 then LineOf(addr) else AddWord(ExtentPointer(addr, k - 1), 64)
  }

  lemma NextLine(p: nat)
    requires p % 64 == 0 && p <= WORD - 64
    ensures AddWord(p, 64) % 64 == 0 && AddWord(p, 64) <= WORD - 64
  {
    if p == WORD - 64 {
      RemainderIs(WORD, WORD, 1, 0);
    } else {
      RemainderIs(p + 64, 64, p / 64 + 1, 0);
      assert p <= WORD - 128;
    }
  }

  lemma {:induction false} PointerIsLine(addr: nat, k: nat)
    requires addr < WORD
    ensures ExtentPointer(addr, k) % 64 == 0 && ExtentPointer(addr, k) <= WORD - 64
  {
    if k > 0 {
      PointerIsLine(addr, k - 1);
      NextLine(ExtentPointer(addr, k - 1));
    }
  }

  lemma {:induction false} PointerAdvances(addr: nat, k: nat)
    requires LineOf(addr) + 64 * k < WORD
    ensures ExtentPointer(addr, k) == LineOf(addr) + 64 * k
  {
    if k > 0 {
      PointerAdvances(addr, k - 1);
    }
  }

  /// The loop of `clwb_extent` ends exactly when the end it computes, in word arithmetic, stops short of
  /// the last line of the address space.  An end in that line makes the pointer wrap to zero, for ever.
  lemma ExtentTerminates(addr: nat, len: nat)
    requires addr < WORD && len < WORD
    ensures (exists k: nat :: ExtentPointer(addr, k) >= AddWord(addr, len)) <==> AddWord(addr, len) <= WORD - 64
  {
    var end := AddWord(addr, len);
    if end <= WORD - 64 {
      if end <= LineOf(addr) {
        assert ExtentPointer(addr, 0) >= end;
      } else {
        var k := (end - LineOf(addr) + 63) / 64;
        PointerAdvances(addr, k);
        assert ExtentPointer(addr, k) >= end;
      }
    } else {
      forall k: nat ensures ExtentPointer(addr, k) < end {
        PointerIsLine(addr, k);
      }
    }
  }

  /// A range that reaches the top of the address space, or goes past it, has its end wrap around: the
  /// loop does not take a single step, and nothing is written back.
  lemma WrappedExtentIsSkipped(addr: nat, len: nat)
    requires addr < WORD && len <= WORD - 64
    ensures addr + len >= WORD ==> ExtentPointer(addr, 0) >= AddWord(addr, len)
  {
    if addr + len >= WORD {
      WrapsOnce(addr + len);
    }
  }

  lemma WrapsOnce(x: nat)
    requires WORD <= x < 2 * WORD
    ensures x % WORD == x - WORD
  {
  }
}
