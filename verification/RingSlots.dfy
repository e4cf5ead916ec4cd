/** Slots of a circular buffer: absolute position k lives in slot k mod n.
    Written by repeated subtraction, so that the solver sees only the facts stated here. */
module RingSlots {

  function Slot(k: nat, n: nat): (i: nat)
    requires n > 0
    ensures i < n
    decreases k
  {
    if k < n then k else Slot(k - n, n)
  }

  lemma {:induction false} SlotIsMod(k: nat, n: nat)
    requires n > 0
    ensures Slot(k, n) == k % n
    decreases k
  {
    if k >= n {
      SlotIsMod(k - n, n);
      assert (k - n) % n == k % n by {
        var q, r := k / n, k % n;
        assert k - n == (q - 1) * n + r by { assert (q - 1) * n == q * n - n; }
        DivModUnique(k - n, n, q - 1, r);
      }
    } else {
      DivModUnique(k, n, 0, k);
    }
  }

  lemma DivModUnique(a: int, n: nat, q: int, r: nat)
    requires n > 0 && r < n && a == q * n + r
    ensures a / n == q && a % n == r
  {
    assert (q - a / n) * n == q * n - a / n * n;
    MultipleApart(q - a / n, n);
  }

  lemma MultipleApart(d: int, n: nat)
    ensures d == 0 || d * n >= n || -(d * n) >= n
  {
    if d >= 1 { assert d * n == n + (d - 1) * n; }
    if d <= -1 { assert -(d * n) == n + (-d - 1) * n; }
  }

  lemma {:induction false} SlotNext(k: nat, n: nat)
    requires n > 0
    ensures Slot(k + 1, n) == if Slot(k, n) + 1 < n then Slot(k, n) + 1 else 0
    decreases k
  {
    if k >= n { SlotNext(k - n, n); }
  }

  lemma {:induction false} SlotPeriod(k: nat, n: nat)
    requires n > 0
    ensures Slot(k + n, n) == Slot(k, n)
  {
  }

  /** Within one lap two different positions never share a slot. */
  lemma {:induction false} SlotInjective(a: nat, b: nat, n: nat)
    requires n > 0 && a < b < a + n
    ensures Slot(a, n) != Slot(b, n)
    decreases a
  {
    if a >= n {
      SlotInjective(a - n, b - n, n);
    } else if b >= n {
      assert Slot(b, n) == b - n;
    }
  }

  /** One position's slot against every other position of the same lap. */
  lemma SlotAlone(base: nat, k: nat, n: nat)
    requires n > 0 && base <= k < base + n
    ensures forall j {:trigger Slot(j, n)} :: base <= j < base + n && j != k ==> Slot(j, n) != Slot(k, n)
  {
    forall j | base <= j < base + n && j != k
      ensures Slot(j, n) != Slot(k, n)
    {
      if j < k { SlotInjective(j, k, n); } else { SlotInjective(k, j, n); }
    }
  }

  /** Every slot is some position of the lap that starts at base. */
  lemma {:induction false} SlotOnto(base: nat, i: nat, n: nat) returns (k: nat)
    requires n > 0 && i < n
    ensures base <= k < base + n && Slot(k, n) == i
    decreases base
  {
    if base == 0 {
      k := i;
    } else {
      k := SlotOnto(base - 1, i, n);
      if k == base - 1 { SlotPeriod(k, n); k := k + n; }
    }
  }

  /** How far slot i lies beyond position base, going round the ring. */
  lemma LapOffset(base: nat, k: nat, n: nat)
    requires n > 0 && base <= k < base + n
    ensures (Slot(k, n) - base) % n == k - base
  {
    SlotIsMod(k, n);
    assert k == k / n * n + k % n;
    assert -(k / n) * n == -(k / n * n);
    DivModUnique(k % n - base, n, -(k / n), k - base);
  }
}
