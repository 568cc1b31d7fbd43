/**
 Slot arithmetic for the FIFO pointer. The source advances its pointer with
 `(pointer + 1) % pageFrames`; after k misses the pointer is k mod n. `Slot`
 counts that residue out by wrapping around the n slots, so proofs about it
 stay linear; `SlotIsMod` ties it back to `%`.
 */
module Slots {

  /** The slot that the k-th write (counting from 0) goes to, with n slots. */
  function Slot(k: nat, n: nat): (s: nat)
    requires n > 0
    ensures s < n
    decreases k
  {
    if k < n then k else Slot(k - n, n)
  }

  /** The pointer update of the source: one past the previous slot, wrapping to 0. */
  lemma AdvanceWraps(p: nat, n: nat)
    requires p < n
    ensures (p + 1) % n == if p + 1 == n then 0 else p + 1
  {
  }

  /** The slot of the next write is the pointer advanced once. */
  lemma {:induction false} SlotSucc(k: nat, n: nat)
    requires n > 0
    ensures Slot(k + 1, n) == (Slot(k, n) + 1) % n
  {
    AdvanceWraps(Slot(k, n), n);
    if k + 1 >= n && k >= n {
      SlotSucc(k - n, n);
      assert k + 1 - n == k - n + 1;
    }
  }

  /** Writes fewer than n apart go to different slots. */
  lemma {:induction false} SlotDistinct(a: nat, b: nat, n: nat)
    requires n > 0 && a < b < a + n
    ensures Slot(a, n) != Slot(b, n)
  {
    if a >= n {
      SlotDistinct(a - n, b - n, n);
    } else if b >= n {
      assert Slot(b, n) == Slot(b - n, n) == b - n;
    }
  }

  /** Writes exactly n apart go to the same slot. */
  lemma SlotShift(a: nat, n: nat)
    requires n > 0
    ensures Slot(a + n, n) == Slot(a, n)
  {
  }

  lemma {:induction false} MulGrows(k: int, n: int)
    requires k >= 1 && n > 0
    ensures k * n >= n
  {
    if k > 1 {
      MulGrows(k - 1, n);
      assert k * n == (k - 1) * n + n;
    }
  }

  /** The only multiple of n strictly between -n and n is 0. */
  lemma ZeroMultiple(k: int, n: int)
    requires n > 0 && -n < k * n < n
    ensures k == 0
  {
    if k >= 1 {
      MulGrows(k, n);
    } else if k <= -1 {
      MulGrows(-k, n);
    }
  }

  /** A remainder is determined by any quotient-remainder decomposition. */
  lemma ModUnique(a: int, n: int, q: int, r: int)
    requires n > 0 && 0 <= r < n && a == q * n + r
    ensures a % n == r
  {
    var q', r' := a / n, a % n;
    assert a == q' * n + r';
    assert (q - q') * n == r' - r;
    ZeroMultiple(q - q', n);
  }

  /** `Slot` is the remainder modulo n. */
  lemma {:induction false} SlotIsMod(k: nat, n: nat)
    requires n > 0
    ensures Slot(k, n) == k % n
  {
    if k < n {
      ModUnique(k, n, 0, k);
    } else {
      SlotIsMod(k - n, n);
      var q := (k - n) / n;
      assert k - n == q * n + (k - n) % n;
      assert k == (q + 1) * n + (k - n) % n;
      ModUnique(k, n, q + 1, (k - n) % n);
    }
  }
}
