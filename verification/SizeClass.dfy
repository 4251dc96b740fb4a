/** The (log, slot) size classes of the allocator's free lists. */
module SizeClass {

  const HEAP_ALLOC_BITS := 20
  const HEAP_ALLOC_SLOTS := 128
  const CLASSES := HEAP_ALLOC_BITS * HEAP_ALLOC_SLOTS

  function Pow2(k: nat): (p: nat)
    ensures p > 0
  {
    if k == 0 then 1 else 2 * Pow2(k - 1)
  }

  lemma {:induction false} Pow2Monotone(j: nat, k: nat)
    requires j <= k
    ensures Pow2(j) <= Pow2(k)
    decreases k
  {
    if j < k {
      Pow2Monotone(j, k - 1);
    }
  }

  /** Floor of the base-2 logarithm. */
  function Log(n: nat): (k: nat)
    requires n > 0
    ensures Pow2(k) <= n < Pow2(k + 1)
  {
    if n == 1 then 0 else 1 + Log(n / 2)
  }

  lemma LogMonotone(a: nat, b: nat)
    requires 0 < a <= b
    ensures Log(a) <= Log(b)
  {
    if Log(b) < Log(a) {
      Pow2Monotone(Log(b) + 1, Log(a));
    }
  }

  /** Shifts right until nothing is left; zero yields -1, as the source's wrapped counter does. */
  method Logh(n: nat) returns (k: int)
    ensures n == 0 ==> k == -1
    ensures n > 0 ==> k == Log(n)
  {
    var value := n;
    k := -1;
    while value != 0
      invariant k >= -1
      invariant value == 0 ==> (if n == 0 then k == -1 else k == Log(n))
      invariant value != 0 ==> n > 0 && k + 1 + Log(value) == Log(n)
    {
      value, k := value / 2, k + 1;
    }
  }

  /** Width of one slot in the row for sizes of logarithm k; zero when the row is not subdivided. */
  function SlotWidth(k: nat): nat {
    Pow2(k) / HEAP_ALLOC_SLOTS
  }

  function Slot(n: nat): nat
    requires n > 0
  {
    var k := Log(n);
    if SlotWidth(k) == 0 then 0 else (n - Pow2(k)) / SlotWidth(k)
  }

  /** Rows have 128 slots each, so a class number orders (log, slot) pairs lexicographically. */
  function Class(n: nat): nat
    requires n > 0
  {
    Log(n) * HEAP_ALLOC_SLOTS + Slot(n)
  }

  /** The computation alloc and free share: the row by shifting, the slot by division. */
  method SizeSlot(n: nat) returns (lg: nat, slot: nat)
    requires n > 0
    ensures lg == Log(n) && slot == Slot(n) < HEAP_ALLOC_SLOTS && lg * HEAP_ALLOC_SLOTS + slot == Class(n)
  {
    SlotInRow(n);
    lg := Logh(n);
    var div := SlotWidth(lg);
    if div == 0 {
      slot := 0;
    } else {
      slot := (n - Pow2(lg)) / div;
    }
  }

  lemma {:induction false} WideRows(k: nat)
    ensures k < 7 ==> SlotWidth(k) == 0
    ensures k >= 7 ==> SlotWidth(k) > 0 && Pow2(k) == SlotWidth(k) * HEAP_ALLOC_SLOTS
  {
    if k < 7 {
      Pow2Monotone(k, 6);
      assert Pow2(6) == 64 by { assert Pow2(3) == 8; }
    } else {
      Pow2Split(k - 7);
    }
  }

  lemma {:induction false} Pow2Split(j: nat)
    ensures Pow2(j + 7) == HEAP_ALLOC_SLOTS * Pow2(j)
  {
    if j == 0 {
      assert Pow2(4) == 16;
      assert Pow2(7) == 128;
    } else {
      Pow2Split(j - 1);
    }
  }

  lemma DivBounds(n: nat, d: nat)
    requires d > 0
    ensures (n / d) * d <= n < (n / d + 1) * d
  {
  }

  lemma MulCancel(a: nat, b: nat, d: nat)
    requires a * d < b * d
    ensures a < b
  {
  }

  lemma DivMonotone(a: nat, b: nat, d: nat)
    requires a <= b && d > 0
    ensures a / d <= b / d
  {
    var qa, qb := a / d, b / d;
    assert qa * d <= a < b + 1 <= (qb + 1) * d by {
      DivBounds(a, d);
      DivBounds(b, d);
    }
    MulCancel(qa, qb + 1, d);
  }

  /** Every computed slot index is inside its row. */
  lemma SlotInRow(n: nat)
    requires n > 0
    ensures Slot(n) < HEAP_ALLOC_SLOTS
    ensures Class(n) / HEAP_ALLOC_SLOTS == Log(n) && Class(n) % HEAP_ALLOC_SLOTS == Slot(n)
  {
    var k := Log(n);
    WideRows(k);
    if SlotWidth(k) > 0 {
      var w := SlotWidth(k);
      var q := (n - Pow2(k)) / w;
      DivBounds(n - Pow2(k), w);
      MulCancel(q, HEAP_ALLOC_SLOTS, w);
    }
  }

  lemma ClassMonotone(a: nat, b: nat)
    requires 0 < a <= b
    ensures Class(a) <= Class(b)
  {
    LogMonotone(a, b);
    SlotInRow(a);
    if Log(a) == Log(b) && SlotWidth(Log(a)) > 0 {
      DivMonotone(a - Pow2(Log(a)), b - Pow2(Log(a)), SlotWidth(Log(a)));
    }
  }

  lemma ClassBelowLimit(n: nat)
    requires 0 < n < 0x10_0000
    ensures Class(n) < CLASSES
  {
    SlotInRow(n);
    assert Pow2(20) == 0x10_0000 by { Pow2Split(13); Pow2Split(6); assert Pow2(6) == 64 by { assert Pow2(3) == 8; } }
    if Log(n) >= 20 {
      Pow2Monotone(20, Log(n));
    }
  }

  /** How much larger a block of size `s` may be than a block of size `b` of the same class. */
  predicate CloseFit(s: nat, b: nat) {
    if b >= 128 then 128 * (s - b) < b else s - b < b
  }

  lemma WidthGap(s: nat, b: nat, q: nat, w: nat)
    requires q * w <= b && s < (q + 1) * w
    ensures s - b < w
  {
    assert (q + 1) * w == q * w + w;
  }

  lemma SameClassIsClose(s: nat, b: nat)
    requires 0 < b <= s && Class(s) <= Class(b)
    ensures CloseFit(s, b)
  {
    ClassMonotone(b, s);
    SlotInRow(s);
    SlotInRow(b);
    var k := Log(b);
    assert Log(s) == k;
    assert Slot(s) == Slot(b);
    WideRows(k);
    if k >= 7 {
      DivBounds(s - Pow2(k), SlotWidth(k));
      DivBounds(b - Pow2(k), SlotWidth(k));
      WidthGap(s - Pow2(k), b - Pow2(k), Slot(b), SlotWidth(k));
      Pow2Monotone(7, k);
      assert Pow2(7) == 128 by { Pow2Split(0); }
    } else {
      Pow2Monotone(k + 1, 7);
      assert Pow2(7) == 128 by { Pow2Split(0); }
    }
  }
}
