/** The segregated-fit arena allocator.

    A bump pointer carves blocks out of [start, end); freed blocks go to 20 x 128
    free lists, threaded through the blocks' own headers, and are handed out again
    first-fit by ascending size class. Blocks are named by their payload address,
    one header (16 bytes) past the entry; 0 is NULL. The client sees the heap as a
    finite map from live payload addresses to payload bytes, `Blocks()`. */
module HeapModel {
  import opened Base
  import opened Chain
  import opened SizeClass
  import opened Tiling

  /** A block that is not live and holds at least n bytes. */
  ghost predicate Reusable(size: map<nat, nat>, live: set<nat>, p: nat, n: nat) {
    p in size && p !in live && size[p] >= n
  }

  ghost predicate SomeReusable(size: map<nat, nat>, live: set<nat>, n: nat) {
    exists p :: Reusable(size, live, p, n)
  }

  /** The reused block p is in size close to every smaller block that would have done, the smallest included. */
  ghost predicate NearBestFit(size: map<nat, nat>, live: set<nat>, p: nat, n: nat) {
    && Reusable(size, live, p, n)
    && forall q | Reusable(size, live, q, n) && size[q] <= size[p] :: CloseFit(size[p], size[q])
  }

  /** What decides where the next block comes from: the bump region and the blocks carved so far. */
  datatype Space = Arena(offset: nat, end: nat, size: map<nat, nat>, live: set<nat>)

  ghost predicate FitsBase(sp: Space, n: nat) {
    sp.offset + n + ENTRY < sp.end
  }

  /** Whether a request of n aligned bytes can be met at all. */
  ghost predicate Serves(sp: Space, n: nat) {
    FitsBase(sp, n) || SomeReusable(sp.size, sp.live, n)
  }

  /** A new arena of `size` bytes serves a request if and only if its header and payload leave at least a byte. */
  lemma NewArenaServesIff(start: nat, size: nat, n: nat)
    ensures Serves(Arena(start, start + size, map[], {}), n) <==> 16 + n < size
  {
    assert !SomeReusable(map[], {}, n);
  }

  /** The arena after a block of n bytes has been cut at the bump offset. */
  ghost function AfterCarve(sp: Space, n: nat): Space {
    var p := sp.offset + ENTRY;
    Arena(p + n, sp.end, sp.size[p := n], sp.live + {p})
  }

  /** Where a request of n aligned bytes is met, and with how many bytes. */
  ghost predicate Spot(sp: Space, n: nat, p: nat, cap: nat) {
    if FitsBase(sp, n) then p == sp.offset + ENTRY && cap == n
    else NearBestFit(sp.size, sp.live, p, n) && cap == sp.size[p]
  }

  /** The size class of block p; 0 for an address that names no block. */
  ghost function ClassAt(size: map<nat, nat>, p: nat): nat {
    if p in size && size[p] > 0 then Class(size[p]) else 0
  }

  class Heap {
    const start: nat              // m_pStart
    const end: nat                // m_pEnd
    var offset: nat               // m_pOffset
    var allocSize: nat            // m_cbAllocSize, a 64-bit word
    var cbSize: map<nat, nat>     // HeapEntry::cbSize
    var pNext: map<nat, nat>      // HeapEntry::pNext
    const free: array<nat>        // m_free, row-major: entry [log][slot] is at log * 128 + slot
    const mem: array<Byte>        // the arena's bytes, indexed by address

    ghost var tiles: seq<nat>
    ghost var live: set<nat>
    ghost var lists: seq<seq<nat>>
    ghost var slack: nat          // bytes handed out beyond the request, over all reuses so far

    ghost predicate Valid()
      reads this, free
    {
      && start % 8 == 0 && free.Length == CLASSES && offset <= end == mem.Length
      && Tiled(start, offset, tiles, cbSize)
      && Listed(free[..], lists, pNext, cbSize, live) && live <= cbSize.Keys && |lists| == CLASSES
      && allocSize == Wrap64(LiveSum(tiles, live, cbSize) - slack)
    }

    ghost function BlockAt(p: nat): Bytes
      reads this, mem
    {
      BlockIn(mem[..], cbSize, p)
    }

    ghost function Blocks(): map<nat, Bytes>
      reads this, mem
    {
      BlocksIn(mem[..], cbSize, live)
    }

    ghost function Space(): Space
      reads this
    {
      Arena(offset, end, cbSize, live)
    }

    ghost predicate CanServe(n: nat)
      reads this
    {
      Serves(Space(), n)
    }

    /** `base` is what malloc returns; the arena starts at the next multiple of eight. */
    constructor (base: nat, cbSize: nat)
      ensures Valid() && Blocks() == map[] && allocSize == 0 && slack == 0
      ensures start == Align8(base) && end == start + cbSize
      ensures Space() == Arena(start, end, map[], {})
      ensures fresh(free) && fresh(mem)
    {
      start, end, offset := Align8(base), Align8(base) + cbSize, Align8(base);
      allocSize, this.cbSize, pNext := 0, map[], map[];
      free := new nat[CLASSES](_ => 0);
      mem := new Byte[Align8(base) + cbSize];
      tiles, live, lists, slack := [], {}, seq(CLASSES, _ => []), 0;
    }

    lemma LiveKeys()
      ensures forall p :: p in Blocks() <==> p in live
      ensures forall p | p in Blocks() :: Blocks()[p] == BlockAt(p)
    {
    }

    lemma LiveBlock(p: nat)
      requires Valid() && p in cbSize
      ensures start + ENTRY <= p && p + cbSize[p] <= offset && p % 8 == 0 && |BlockAt(p)| == cbSize[p] > 0
      ensures p + cbSize[p] <= mem.Length && BlockAt(p) == mem[p..p + cbSize[p]]
    {
      var i :| 0 <= i < |tiles| && tiles[i] == p;
      BlockInArena(start, offset, tiles, cbSize, i);
    }

    /** Live blocks never overlap: the arena refines a map of independent byte blocks. */
    lemma LiveBlocksDisjoint(p: nat, q: nat)
      requires Valid() && p in live && q in live && p != q
      ensures p + cbSize[p] + ENTRY <= q || q + cbSize[q] + ENTRY <= p
    {
      BlocksDisjoint(start, offset, tiles, cbSize, p, q);
    }

    method AllocFromBase(n: nat) returns (entry: nat)
      requires Valid() && n > 0 && n % 8 == 0
      modifies this
      ensures entry == 0 <==> !FitsBase(old(Space()), n)
      ensures entry == 0 ==> unchanged(this)
      ensures entry != 0 ==> entry == old(offset) + ENTRY && entry !in old(cbSize) && entry % 8 == 0
      ensures entry != 0 ==> offset == entry + n && cbSize == old(cbSize)[entry := n]
      ensures pNext == old(pNext) && lists == old(lists) && allocSize == old(allocSize) && slack == old(slack)
      ensures entry != 0 ==> tiles == old(tiles) + [entry] && live == old(live) + {entry}
      ensures Tiled(start, offset, tiles, cbSize) && Listed(free[..], lists, pNext, cbSize, live) && offset <= end
      ensures entry != 0 ==> LiveSum(tiles, live, cbSize) == old(LiveSum(tiles, live, cbSize)) + n
    {
      hide Listed, LiveSum, Abuts, Wrap64;
      var allocSize := n + ENTRY;
      if offset + allocSize >= end {
        return 0;
      }
      TilesGrow(start, offset, tiles, cbSize, n);
      TileEndAligned();
      entry := offset + ENTRY;
      ListsAfterCarve(free[..], lists, pNext, cbSize, live, entry, n);
      LiveSumAppend(tiles, live, cbSize, entry, n);
      offset := offset + allocSize;
      cbSize := cbSize[entry := n];
      tiles, live := tiles + [entry], live + {entry};
    }

    lemma TileEndAligned()
      requires Valid()
      ensures (offset + ENTRY) % 8 == 0
    {
      if tiles != [] {
        BlockInArena(start, offset, tiles, cbSize, |tiles| - 1);
        AlignedSum(tiles[|tiles| - 1], cbSize[tiles[|tiles| - 1]]);
      } else {
        AlignedSum(start, 0);
      }
    }

    lemma ReusableListed(p: nat, n: nat)
      requires Valid() && Reusable(cbSize, live, p, n) && n > 0
      ensures Class(n) <= ClassAt(cbSize, p) < CLASSES && p in lists[ClassAt(cbSize, p)]
    {
      ClassMonotone(n, cbSize[p]);
    }

    static lemma FoundIsNearBest(size: map<nat, nat>, live: set<nat>, p: nat, n: nat)
      requires n > 0 && Reusable(size, live, p, n)
      requires forall q | Reusable(size, live, q, n) :: ClassAt(size, p) <= ClassAt(size, q)
      ensures NearBestFit(size, live, p, n)
    {
      hide Class, CloseFit;
      forall q | Reusable(size, live, q, n) && size[q] <= size[p] ensures CloseFit(size[p], size[q]) {
        SameClassIsClose(size[p], size[q]);
      }
    }

    /** Searches every class from the request's own upwards and unlinks the first block that fits. */
    method AllocFromFree(n: nat) returns (entry: nat)
      requires Valid() && n > 0
      modifies this, free
      ensures entry == 0 <==> !SomeReusable(old(cbSize), old(live), n)
      ensures entry == 0 ==> unchanged(this) && unchanged(free)
      ensures entry != 0 ==> Reusable(old(cbSize), old(live), entry, n) && live == old(live) + {entry}
      ensures entry != 0 ==> cbSize == old(cbSize) && cbSize[entry] < 0x10_0000
      ensures entry != 0 ==>
        forall q | Reusable(old(cbSize), old(live), q, n) :: ClassAt(cbSize, entry) <= ClassAt(cbSize, q)
      ensures offset == old(offset) && cbSize == old(cbSize) && tiles == old(tiles)
      ensures allocSize == old(allocSize) && slack == old(slack)
      ensures entry != 0 ==> Listed(free[..], lists, pNext, cbSize, live) && |lists| == CLASSES
    {
      hide Valid, Listed, Tiled, ClassAt, Reusable, Class, Log, Slot;
      var lg, slot := SizeSlot(n);
      ghost var size0, live0 := cbSize, live;
      forall q | Reusable(size0, live0, q, n) ensures lg * HEAP_ALLOC_SLOTS + slot <= ClassAt(size0, q) < CLASSES {
        ReusableListed(q, n);
      }
      while lg < HEAP_ALLOC_BITS
        invariant unchanged(this) && unchanged(free)
        invariant 0 <= lg && 0 <= slot < HEAP_ALLOC_SLOTS
        invariant forall q | Reusable(size0, live0, q, n) :: ClassAt(size0, q) >= lg * HEAP_ALLOC_SLOTS + slot
      {
        while slot < HEAP_ALLOC_SLOTS
          invariant unchanged(this) && unchanged(free)
          invariant 0 <= slot <= HEAP_ALLOC_SLOTS
          invariant forall q | Reusable(size0, live0, q, n) :: ClassAt(size0, q) >= lg * HEAP_ALLOC_SLOTS + slot
        {
          entry := SearchList(lg * HEAP_ALLOC_SLOTS + slot, n);
          if entry != 0 {
            return;
          }
          slot := slot + 1;
        }
        slot, lg := 0, lg + 1;
      }
      return 0;
    }

    lemma ListHead(c: nat)
      requires Valid() && c < CLASSES
      ensures free[c] == At(lists[c], 0)
    {
      assert free[c] == free[..][c];
    }

    lemma ListNode(c: nat, i: nat)
      requires Valid() && c < CLASSES && i < |lists[c]|
      ensures var p := lists[c][i];
        && p != 0 && p in cbSize && cbSize[p] < 0x10_0000 && p !in live && ClassAt(cbSize, p) == c
        && p in pNext && pNext[p] == At(lists[c], i + 1)
    {
      hide Class, Tiled;
      assert lists[c][i] in lists[c];
    }

    /** The innermost loop of allocFromFree: first fit along one list, with the predecessor trailing. */
    method SearchList(c: nat, n: nat) returns (entry: nat)
      requires Valid() && n > 0 && c < CLASSES
      modifies this, free
      ensures entry == 0 ==> unchanged(this) && unchanged(free)
      ensures entry == 0 ==> forall q | Reusable(cbSize, live, q, n) :: ClassAt(cbSize, q) != c
      ensures entry != 0 ==> Reusable(old(cbSize), old(live), entry, n) && ClassAt(cbSize, entry) == c
      ensures entry != 0 ==> live == old(live) + {entry}
      ensures entry != 0 ==> cbSize == old(cbSize) && cbSize[entry] < 0x10_0000
      ensures offset == old(offset) && cbSize == old(cbSize) && tiles == old(tiles)
      ensures allocSize == old(allocSize) && slack == old(slack)
      ensures entry != 0 ==> Listed(free[..], lists, pNext, cbSize, live) && |lists| == CLASSES
    {
      hide Tiled, Listed, ClassAt;
      ghost var xs, i := lists[c], 0;
      var prev := 0;
      ListHead(c);
      entry := free[c];
      while entry != 0
        invariant unchanged(this) && unchanged(free)
        invariant 0 <= i <= |xs| && entry == At(xs, i)
        invariant prev == if i == 0 then 0 else xs[i - 1]
        invariant forall k | 0 <= k < i :: xs[k] in cbSize && cbSize[xs[k]] < n
        decreases |xs| - i
      {
        ListNode(c, i);
        if i > 0 {
          ListNode(c, i - 1);
        }
        if cbSize[entry] >= n {
          ghost var heads, next, after := free[..], pNext, pNext[entry];
          ListsAfterTake(heads, lists, next, cbSize, live, c, i);
          if prev != 0 {
            pNext := pNext[prev := pNext[entry]];
          } else {
            free[c] := pNext[entry];
          }
          lists := lists[c := xs[..i] + xs[i + 1..]];
          live := live + {entry};
          assert free[..] == heads[c := HeadAfter(heads[c], i, after)];
          assert pNext == NextAfter(next, xs, i, after);
          return;
        }
        prev := entry;
        entry := pNext[entry];
        i := i + 1;
      }
      if i < |xs| {
        ListNode(c, i);
      }
      forall q | Reusable(cbSize, live, q, n) ensures ClassAt(cbSize, q) != c {
        ReusableListed(q, n);
      }
    }

    method Alloc(cb: nat) returns (p: nat)
      requires Valid() && cb > 0
      modifies this, free
      ensures Valid()
      ensures p == 0 <==> !old(CanServe(Align8(cb)))
      ensures p == 0 ==> unchanged(this) && unchanged(free)
      ensures p != 0 ==> p !in old(Blocks()) && p % 8 == 0
      ensures p != 0 ==> p in Blocks() && Blocks() == old(Blocks())[p := Blocks()[p]]
      ensures p != 0 ==> |Blocks()[p]| >= Align8(cb) && (Align8(cb) < 0x10_0000 ==> |Blocks()[p]| < 0x10_0000)
      ensures p != 0 ==> Spot(old(Space()), Align8(cb), p, |Blocks()[p]|)
      ensures p != 0 ==> p + |Blocks()[p]| <= mem.Length && Blocks()[p] == mem[p..p + |Blocks()[p]|]
      ensures p != 0 && FitsBase(old(Space()), Align8(cb)) ==>
        Space() == AfterCarve(old(Space()), Align8(cb)) && slack == old(slack)
      ensures p != 0 && !FitsBase(old(Space()), Align8(cb)) ==>
        offset == old(offset) && slack == old(slack) + |Blocks()[p]| - Align8(cb)
    {
      hide Tiled, Listed, LiveSum, Wrap64, NearBestFit, ClassAt, BlockIn, BlocksIn;
      LiveKeys();
      var n := Align8(cb);
      ghost var live0, size0, sum0 := live, cbSize, LiveSum(tiles, live, cbSize) - slack;
      p := AllocFromBase(n);
      if p == 0 {
        p := AllocFromFree(n);
        if p == 0 {
          return;
        }
        slack := slack + cbSize[p] - n;
        FoundIsNearBest(size0, live0, p, n);
        LiveSumGrows(start, offset, tiles, cbSize, live0, p);
      }
      WrapAdd(sum0, n);
      allocSize := Wrap64(allocSize + n);
      LiveBlock(p);
      BlocksGrow(mem[..], size0, live0, cbSize, p);
      LiveKeys();
    }

    /** m_cbAllocSize is the sum of the live blocks' sizes, modulo 2^64, if and only if the slack of all reuses is
        nothing. */
    lemma AllocSizeIsLiveSumIff()
      requires Valid()
      ensures allocSize == Wrap64(LiveSum(tiles, live, cbSize)) <==> Wrap64(slack) == 0
    {
      var sum: int := LiveSum(tiles, live, cbSize);
      var less: int := slack;
      if Wrap64(slack) == 0 {
        assert less == U64 * (less / U64);
        assert sum - less == sum + U64 * -(less / U64);
      }
    }

    /** Heap::getSizeOfAlloc. */
    method SizeOfAlloc(p: nat) returns (n: nat)
      requires Valid() && p in Blocks()
      ensures n == |Blocks()[p]|
    {
      LiveBlock(p);
      n := cbSize[p];
    }

    method Free(p: nat)
      requires Valid() && p in Blocks()
      requires |Blocks()[p]| < 0x10_0000  // assert (index < HEAP_ALLOC_BITS)
      modifies this, free
      ensures Valid()
      ensures Blocks() == old(Blocks()) - {p}
      ensures slack == old(slack) && offset == old(offset) && cbSize == old(cbSize)
      ensures forall n: nat :: CanServe(n) <==> old(CanServe(n)) || n <= |old(Blocks())[p]|
    {
      hide Tiled, Listed, LiveSum, Wrap64, BlockIn, BlocksIn, Class, Log, Slot, SlotWidth, Pow2, SomeReusable;
      LiveKeys();
      LiveBlock(p);
      ghost var live0 := live;
      var index, slot := SizeSlot(cbSize[p]);
      var c := index * HEAP_ALLOC_SLOTS + slot;
      ClassBelowLimit(cbSize[p]);
      ListsAfterPush(free[..], lists, pNext, cbSize, live, p);
      ghost var heads := free[..];
      pNext := pNext[p := free[c]];
      free[c] := p;
      assert free[..] == heads[c := p];
      lists := lists[c := [p] + lists[c]];
      live := live - {p};
      ghost var freed: int := cbSize[p];
      WrapAdd(LiveSum(tiles, live0, cbSize) - slack, -freed);
      allocSize := Wrap64(allocSize - cbSize[p]);
      LiveSumGrows(start, offset, tiles, cbSize, live, p);
      assert live + {p} == live0;
      BlocksShrink(mem[..], cbSize, live0, p);
      MoreReusable(cbSize, live0, p);
    }

    static lemma MoreReusable(size: map<nat, nat>, live: set<nat>, p: nat)
      requires p in live && p in size
      ensures forall n: nat :: SomeReusable(size, live - {p}, n) <==> SomeReusable(size, live, n) || n <= size[p]
    {
      forall n: nat ensures SomeReusable(size, live - {p}, n) <==> SomeReusable(size, live, n) || n <= size[p] {
        if n <= size[p] {
          assert Reusable(size, live - {p}, p, n);
        }
        if q :| Reusable(size, live, q, n) {
          assert Reusable(size, live - {p}, q, n);
        }
        if q :| Reusable(size, live - {p}, q, n) {
          assert q == p || Reusable(size, live, q, n);
        }
      }
    }

    /** memcpy of caller bytes into a live block. */
    method Write(p: nat, off: nat, data: Bytes)
      requires Valid() && p in Blocks() && off + |data| <= |Blocks()[p]|
      modifies mem
      ensures Valid()
      ensures Blocks() == old(Blocks())[p := Overlay(old(Blocks())[p], off, data)]
    {
      hide Tiled, Listed, LiveSum, BlockIn, BlocksIn;
      LiveKeys();
      LiveBlock(p);
      ghost var bytes := mem[..];
      BlocksWritten(start, offset, tiles, cbSize, live, bytes, p, off, data);
      forall i | 0 <= i < |data| {
        mem[p + off + i] := data[i];
      }
      assert mem[..] == Overlay(bytes, p + off, data);
    }

    /** Reads n bytes at an offset of a live block. */
    method Read(p: nat, off: nat, n: nat) returns (data: Bytes)
      requires Valid() && p in Blocks() && off + n <= |Blocks()[p]|
      ensures data == Blocks()[p][off..off + n]
    {
      hide Tiled, Listed, LiveSum;
      LiveBlock(p);
      data := mem[p + off..p + off + n];
      ghost var bytes := mem[..];
      assert data == bytes[p + off..p + off + n];
      SliceOfSlice(bytes, p, p + cbSize[p], off, n);
    }

    /** memcpy between live blocks, or memmove inside one: all bytes are read before any is written. */
    method Copy(p: nat, off: nat, q: nat, from: nat, n: nat)
      requires Valid() && p in Blocks() && q in Blocks()
      requires off + n <= |Blocks()[p]| && from + n <= |Blocks()[q]|
      modifies mem
      ensures Valid()
      ensures Blocks() == old(Blocks())[p := Overlay(old(Blocks())[p], off, old(Blocks())[q][from..from + n])]
    {
      hide Valid, Blocks, Overlay;
      var data := Read(q, from, n);
      Write(p, off, data);
    }
  }
}
