/** JQueue: a bounded deque in a ring of slots addressed by free-running 32-bit cursors. */
module RingQueue {
  import opened Base
  import opened Arithmetic

  /** The slot of the i-th item behind a read cursor: the cursor wraps at 2^32, the ring at its length. */
  function SlotOf(cursor: nat, i: nat, length: nat): (k: nat)
    requires length > 0
    ensures k < length
  {
    ((cursor + i) % U32) % length
  }

  /** When the length divides 2^32, wrapping the cursor does not disturb the ring. */
  lemma WrapIsInvisible(x: nat, length: nat)
    requires length > 0 && U32 % length == 0
    ensures (x % U32) % length == x % length
  {
    var q, k := U32 / length, x / U32;
    assert U32 == length * q;
    assert length * (q * k) == U32 * k by { MulAssoc(length, q, k); }
    AddMultiple(x % U32, length, q * k);
  }

  lemma SlotsDistinct(cursor: nat, i: nat, j: nat, length: nat)
    requires length > 0 && U32 % length == 0 && i < j < length
    ensures SlotOf(cursor, i, length) != SlotOf(cursor, j, length)
  {
    WrapIsInvisible(cursor + i, length);
    WrapIsInvisible(cursor + j, length);
    ModDistinct(cursor + i, cursor + j, length);
  }

  /** A ring keeps its items apart for all cursor values if and only if its length divides 2^32. */
  lemma RingIsSoundIff(length: nat)
    requires 0 < length <= U32
    ensures U32 % length == 0 <==>
            forall cursor, i, j | 0 <= cursor < U32 && 0 <= i < j < length ::
              SlotOf(cursor, i, length) != SlotOf(cursor, j, length)
  {
    if U32 % length == 0 {
      forall cursor, i, j | 0 <= cursor < U32 && 0 <= i < j < length
        ensures SlotOf(cursor, i, length) != SlotOf(cursor, j, length)
      {
        SlotsDistinct(cursor, i, j, length);
      }
    } else {
      LastSlotCollides(length);
    }
  }

  /** One step before the wrap, the ring reuses the slot of the item at the cursor too early. */
  lemma LastSlotCollides(length: nat)
    requires 0 < length <= U32 && U32 % length != 0
    ensures var m := U32 % length; 0 < m < length && SlotOf(U32 - 1, 0, length) == SlotOf(U32 - 1, m, length)
  {
    var q, m := U32 / length, U32 % length;
    assert U32 - 1 == length * q + (m - 1);
    DivModUnique(U32 - 1, length, q, m - 1);
    assert (U32 - 1 + m) % U32 == m - 1;
    DivModUnique(m - 1, length, 0, m - 1);
  }

  lemma Wrap32Add(x: int, i: int)
    ensures (x % U32 + i) % U32 == (x + i) % U32
  {
  }

  lemma NextCursor(cursor: nat, i: nat, length: nat)
    requires length > 0
    ensures SlotOf((cursor + 1) % U32, i, length) == SlotOf(cursor, i + 1, length)
  {
    Wrap32Add(cursor + 1, i);
  }

  /** Also from 0 back to 2^32 - 1. */
  lemma PreviousCursor(cursor: nat, i: nat, length: nat)
    requires length > 0
    ensures SlotOf((cursor - 1) % U32, i + 1, length) == SlotOf(cursor, i, length)
  {
    Wrap32Add(cursor - 1, i + 1);
  }

  /** The slots hold the items in order from the cursor on. */
  ghost predicate InRing<T>(slots: seq<Option<T>>, cursor: nat, items: seq<T>) {
    && |slots| > 0 && |items| <= |slots|
    && forall i | 0 <= i < |items| :: slots[SlotOf(cursor, i, |slots|)] == Some(items[i])
  }

  lemma RingPushEnd<T>(slots: seq<Option<T>>, cursor: nat, items: seq<T>, item: T)
    requires InRing(slots, cursor, items) && U32 % |slots| == 0 && |items| < |slots|
    ensures InRing(slots[SlotOf(cursor, |items|, |slots|) := Some(item)], cursor, items + [item])
  {
    hide SlotOf;
    forall i | 0 <= i < |items| ensures SlotOf(cursor, i, |slots|) != SlotOf(cursor, |items|, |slots|) {
      SlotsDistinct(cursor, i, |items|, |slots|);
    }
  }

  lemma RingPushBegin<T>(slots: seq<Option<T>>, cursor: nat, items: seq<T>, item: T)
    requires InRing(slots, cursor, items) && U32 % |slots| == 0 && |items| < |slots|
    ensures var c := (cursor - 1) % U32; InRing(slots[SlotOf(c, 0, |slots|) := Some(item)], c, [item] + items)
  {
    hide SlotOf;
    var c := (cursor - 1) % U32;
    forall i | 0 <= i < |items|
      ensures SlotOf(c, i + 1, |slots|) == SlotOf(cursor, i, |slots|)
      ensures SlotOf(c, i + 1, |slots|) != SlotOf(c, 0, |slots|)
    {
      PreviousCursor(cursor, i, |slots|);
      SlotsDistinct(c, 0, i + 1, |slots|);
    }
    var items' := [item] + items;
    forall i | 0 <= i < |items'|
      ensures slots[SlotOf(c, 0, |slots|) := Some(item)][SlotOf(c, i, |slots|)] == Some(items'[i])
    {
      if i > 0 {
        assert SlotOf(c, (i - 1) + 1, |slots|) == SlotOf(cursor, i - 1, |slots|);
      }
    }
  }

  lemma RingPopBegin<T>(slots: seq<Option<T>>, cursor: nat, items: seq<T>)
    requires InRing(slots, cursor, items) && U32 % |slots| == 0 && items != []
    ensures InRing(slots[SlotOf(cursor, 0, |slots|) := None], (cursor + 1) % U32, items[1..])
  {
    hide SlotOf;
    var c, rest := (cursor + 1) % U32, items[1..];
    forall i | 0 <= i < |rest|
      ensures slots[SlotOf(cursor, 0, |slots|) := None][SlotOf(c, i, |slots|)] == Some(rest[i])
    {
      NextCursor(cursor, i, |slots|);
      SlotsDistinct(cursor, 0, i + 1, |slots|);
    }
  }

  lemma RingPopEnd<T>(slots: seq<Option<T>>, cursor: nat, items: seq<T>)
    requires InRing(slots, cursor, items) && U32 % |slots| == 0 && items != []
    ensures InRing(slots[SlotOf(cursor, |items| - 1, |slots|) := None], cursor, items[..|items| - 1])
  {
    hide SlotOf;
    forall i | 0 <= i < |items| - 1 ensures SlotOf(cursor, i, |slots|) != SlotOf(cursor, |items| - 1, |slots|) {
      SlotsDistinct(cursor, i, |items| - 1, |slots|);
    }
  }

  class JQueue<T> {
    const length: nat                   // m_cQueueLength
    const slots: array<Option<T>>       // m_pQueueList
    var readCursor: nat                 // m_iReadCursor
    var writeCursor: nat                // m_iWriteCursor
    var cItems: nat                     // m_cItems
    ghost var items: seq<T>             // from begin to end

    ghost predicate Valid()
      reads this, slots
    {
      && slots.Length == length > 0 && U32 % length == 0
      && readCursor < U32 && writeCursor == (readCursor + cItems) % U32
      && cItems == |items|
      && InRing(slots[..], readCursor, items)
    }

    constructor (length: nat)
      requires 0 < length < U32
      ensures U32 % length == 0 ==> Valid()
      ensures items == [] && readCursor == writeCursor == cItems == 0
      ensures this.length == length == slots.Length && fresh(slots)
    {
      this.length := length;
      slots := new Option<T>[length](_ => None);
      readCursor, writeCursor, cItems, items := 0, 0, 0, [];
    }

    method PushEnd(item: T) returns (ok: bool)
      requires Valid()
      modifies this, slots
      ensures Valid() && ok == (|old(items)| < length)
      ensures items == if ok then old(items) + [item] else old(items)
    {
      hide InRing, SlotOf;
      InRingBound(slots[..], readCursor, items);
      if cItems == length {
        return false;
      }
      RingPushEnd(slots[..], readCursor, items, item);
      SlotIs(readCursor, cItems, length);
      ghost var was := slots[..];
      slots[writeCursor % length] := Some(item);
      assert slots[..] == was[SlotOf(readCursor, |items|, length) := Some(item)];
      Wrap32Add(readCursor + cItems, 1);
      writeCursor := (writeCursor + 1) % U32;
      cItems, items := cItems + 1, items + [item];
      ok := true;
    }

    method PushBegin(item: T) returns (ok: bool)
      requires Valid()
      modifies this, slots
      ensures Valid() && ok == (|old(items)| < length)
      ensures items == if ok then [item] + old(items) else old(items)
    {
      hide InRing, SlotOf;
      InRingBound(slots[..], readCursor, items);
      if cItems == length {
        return false;
      }
      RingPushBegin(slots[..], readCursor, items, item);
      BackOne(readCursor, cItems);
      ghost var was := slots[..];
      readCursor := (readCursor - 1) % U32;
      SlotIs(readCursor, 0, length);
      slots[readCursor % length] := Some(item);
      assert slots[..] == was[SlotOf(readCursor, 0, length) := Some(item)];
      cItems, items := cItems + 1, [item] + items;
      ok := true;
    }

    method PopBegin() returns (item: Option<T>)
      requires Valid()
      modifies this, slots
      ensures Valid()
      ensures if old(items) == [] then item == None && items == []
              else item == Some(old(items)[0]) && items == old(items)[1..]
    {
      hide InRing, SlotOf;
      if cItems == 0 {
        return None;
      }
      RingPopBegin(slots[..], readCursor, items);
      ItemAt(slots[..], readCursor, items, 0);
      SlotIs(readCursor, 0, length);
      ghost var was := slots[..];
      item := slots[readCursor % length];
      slots[readCursor % length] := None;
      assert slots[..] == was[SlotOf(readCursor, 0, length) := None];
      Wrap32Add(readCursor + 1, cItems - 1);
      readCursor := (readCursor + 1) % U32;
      cItems, items := cItems - 1, items[1..];
    }

    method PopEnd() returns (item: Option<T>)
      requires Valid()
      modifies this, slots
      ensures Valid()
      ensures if old(items) == [] then item == None && items == []
              else item == Some(old(items)[|old(items)| - 1]) && items == old(items)[..|old(items)| - 1]
    {
      hide InRing, SlotOf;
      if cItems == 0 {
        return None;
      }
      RingPopEnd(slots[..], readCursor, items);
      ItemAt(slots[..], readCursor, items, |items| - 1);
      SlotIs(readCursor, cItems - 1, length);
      Wrap32Add(readCursor + cItems, -1);
      ghost var was := slots[..];
      writeCursor := (writeCursor - 1) % U32;
      item := slots[writeCursor % length];
      slots[writeCursor % length] := None;
      assert slots[..] == was[SlotOf(readCursor, |items| - 1, length) := None];
      cItems, items := cItems - 1, items[..|items| - 1];
    }
  }

  lemma SlotIs(cursor: nat, i: nat, length: nat)
    requires length > 0
    ensures SlotOf(cursor, i, length) == ((cursor + i) % U32) % length
    ensures i == 0 && cursor < U32 ==> SlotOf(cursor, i, length) == cursor % length
  {
  }

  lemma BackOne(cursor: nat, n: nat)
    requires cursor < U32
    ensures ((cursor - 1) % U32 + n + 1) % U32 == (cursor + n) % U32
  {
    var c: int := cursor;
    Wrap32Add(c - 1, n + 1);
  }

  lemma ItemAt<T>(slots: seq<Option<T>>, cursor: nat, items: seq<T>, i: nat)
    requires InRing(slots, cursor, items) && i < |items|
    ensures slots[SlotOf(cursor, i, |slots|)] == Some(items[i])
  {
  }

  lemma InRingBound<T>(slots: seq<Option<T>>, cursor: nat, items: seq<T>)
    requires InRing(slots, cursor, items)
    ensures |items| <= |slots|
  {
  }

  /** Servers make their queues with room for 2^20 items. */
  lemma ServerQueueLength()
    ensures U32 % (1024 * 1024) == 0
  {
  }
}
