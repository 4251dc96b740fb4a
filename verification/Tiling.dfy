/** Facts about the arena that do not depend on the heap object: how carved blocks
    tile it, how free lists partition the blocks that are not live, and byte sums. */
module Tiling {
  import opened Base
  import opened Chain
  import opened SizeClass

  /** sizeof(HeapEntry): the header in front of every block. */
  const ENTRY := 16

  /** Where the first i blocks end. */
  function TileEnd(start: nat, tiles: seq<nat>, size: map<nat, nat>, i: nat): nat
    requires i <= |tiles| && forall p | p in tiles :: p in size
  {
    if i == 0 then start else tiles[i - 1] + size[tiles[i - 1]]
  }

  /** Block i starts one header after the place where block i-1 ends. */
  ghost predicate Abuts(start: nat, tiles: seq<nat>, size: map<nat, nat>, i: nat)
    requires i < |tiles| && forall p | p in tiles :: p in size
  {
    tiles[i] == TileEnd(start, tiles, size, i) + ENTRY
  }

  /** The carved region is exactly header, payload, header, payload, ... A block is named by the
      address of its payload. */
  ghost predicate Tiled(start: nat, offset: nat, tiles: seq<nat>, size: map<nat, nat>) {
    && (forall p :: p in size <==> p in tiles)
    && (forall i | 0 <= i < |tiles| :: size[tiles[i]] > 0 && size[tiles[i]] % 8 == 0)
    && (forall i | 0 <= i < |tiles| :: Abuts(start, tiles, size, i))
    && offset == TileEnd(start, tiles, size, |tiles|)
  }

  lemma {:induction false} TilesInOrder(start: nat, offset: nat, tiles: seq<nat>, size: map<nat, nat>, i: nat, j: nat)
    requires Tiled(start, offset, tiles, size) && i < j < |tiles|
    ensures tiles[i] + size[tiles[i]] + ENTRY <= tiles[j]
    decreases j
  {
    if i < j - 1 {
      TilesInOrder(start, offset, tiles, size, i, j - 1);
    }
    assert Abuts(start, tiles, size, j);
  }

  /** Two blocks never share a byte, headers included. */
  lemma BlocksDisjoint(start: nat, offset: nat, tiles: seq<nat>, size: map<nat, nat>, p: nat, q: nat)
    requires Tiled(start, offset, tiles, size) && p in size && q in size && p != q
    ensures p + size[p] + ENTRY <= q || q + size[q] + ENTRY <= p
  {
    var i :| 0 <= i < |tiles| && tiles[i] == p;
    var j :| 0 <= j < |tiles| && tiles[j] == q;
    if i < j {
      TilesInOrder(start, offset, tiles, size, i, j);
    } else {
      TilesInOrder(start, offset, tiles, size, j, i);
    }
  }

  lemma AlignedSum(a: nat, n: nat)
    requires a % 8 == 0 && n % 8 == 0
    ensures (a + n + ENTRY) % 8 == 0
  {
    assert a + n + ENTRY == 8 * (a / 8 + n / 8 + 2);
  }

  /** Every block lies between the arena's start and the bump pointer, at an aligned address. */
  lemma {:induction false} BlockInArena(start: nat, offset: nat, tiles: seq<nat>, size: map<nat, nat>, i: nat)
    requires Tiled(start, offset, tiles, size) && i < |tiles| && start % 8 == 0
    ensures start + ENTRY <= tiles[i] && tiles[i] + size[tiles[i]] <= offset && tiles[i] % 8 == 0
    decreases i
  {
    assert Abuts(start, tiles, size, i);
    if i > 0 {
      BlockInArena(start, offset, tiles, size, i - 1);
      AlignedSum(tiles[i - 1], size[tiles[i - 1]]);
    }
    if i < |tiles| - 1 {
      TilesInOrder(start, offset, tiles, size, i, |tiles| - 1);
    }
  }

  lemma TilesNoDup(start: nat, offset: nat, tiles: seq<nat>, size: map<nat, nat>)
    requires Tiled(start, offset, tiles, size)
    ensures NoDup(tiles)
  {
    forall i, j | 0 <= i < j < |tiles| ensures tiles[i] != tiles[j] {
      TilesInOrder(start, offset, tiles, size, i, j);
    }
  }

  lemma TilesGrow(start: nat, offset: nat, tiles: seq<nat>, size: map<nat, nat>, n: nat)
    requires Tiled(start, offset, tiles, size) && n > 0 && n % 8 == 0 && start % 8 == 0
    ensures offset + ENTRY !in size
    ensures Tiled(start, offset + ENTRY + n, tiles + [offset + ENTRY], size[offset + ENTRY := n])
  {
    var p := offset + ENTRY;
    if p in size {
      var i :| 0 <= i < |tiles| && tiles[i] == p;
      BlockInArena(start, offset, tiles, size, i);
    }
    var tiles', size' := tiles + [p], size[p := n];
    forall i | 0 <= i < |tiles'|
      ensures Abuts(start, tiles', size', i)
    {
      if i < |tiles| {
        assert Abuts(start, tiles, size, i);
      }
    }
  }

  ghost predicate ListsThreaded(heads: seq<nat>, lists: seq<seq<nat>>, next: map<nat, nat>) {
    && |heads| == |lists| == CLASSES
    && forall c | 0 <= c < CLASSES :: Threaded(heads[c], lists[c], next) && NoDup(lists[c])
  }

  ghost predicate ListsClassed(lists: seq<seq<nat>>, size: map<nat, nat>, live: set<nat>) {
    && |lists| == CLASSES
    && forall c, p | 0 <= c < CLASSES && p in lists[c] ::
         p in size && p !in live && 0 < size[p] < 0x10_0000 && Class(size[p]) == c
  }

  ghost predicate FreeCovered(lists: seq<seq<nat>>, size: map<nat, nat>, live: set<nat>) {
    && |lists| == CLASSES
    && forall p | p in size && p !in live ::
         0 < size[p] < 0x10_0000 && Class(size[p]) < CLASSES && p in lists[Class(size[p])]
  }

  /** The free lists hold exactly the blocks that are not live, each in the list of its size class. */
  ghost predicate Listed(heads: seq<nat>, lists: seq<seq<nat>>, next: map<nat, nat>, size: map<nat, nat>,
                         live: set<nat>) {
    && ListsThreaded(heads, lists, next)
    && ListsClassed(lists, size, live)
    && FreeCovered(lists, size, live)
    && live <= size.Keys
  }

  /** No block is in two free lists, and none twice in one. */
  lemma FreeBlockListedOnce(heads: seq<nat>, lists: seq<seq<nat>>, next: map<nat, nat>, size: map<nat, nat>,
                            live: set<nat>,
                            c: nat, i: nat, d: nat, j: nat)
    requires Listed(heads, lists, next, size, live)
    requires c < CLASSES && i < |lists[c]| && d < CLASSES && j < |lists[d]|
    requires lists[c][i] == lists[d][j]
    ensures c == d && i == j
  {
    var p := lists[c][i];
    assert p in lists[c] && p in lists[d];
    assert Class(size[p]) == c && Class(size[p]) == d;
  }

  lemma ListsAfterPush(heads: seq<nat>, lists: seq<seq<nat>>, next: map<nat, nat>, size: map<nat, nat>,
                       live: set<nat>, p: nat)
    requires Listed(heads, lists, next, size, live)
    requires p in live && p != 0 && 0 < size[p] < 0x10_0000 && Class(size[p]) < CLASSES
    ensures var c := Class(size[p]);
      Listed(heads[c := p], lists[c := [p] + lists[c]], next[p := heads[c]], size, live - {p})
  {
    var c := Class(size[p]);
    var next' := next[p := heads[c]];
    var lists' := lists[c := [p] + lists[c]];
    assert p !in lists[c];
    ThreadedFrame(heads[c], lists[c], next, p, heads[c]);
    forall d | 0 <= d < CLASSES
      ensures Threaded(heads[c := p][d], lists'[d], next') && NoDup(lists'[d])
    {
      if d != c {
        assert p !in lists[d];
        ThreadedFrame(heads[d], lists[d], next, p, heads[c]);
      } else {
        forall k | 0 <= k < |lists'[c]| ensures next'[lists'[c][k]] == At(lists'[c], k + 1) {
          if k > 0 {
            assert lists'[c][k] == lists[c][k - 1];
            assert At(lists'[c], k + 1) == At(lists[c], k);
          }
        }
      }
    }
    forall q | q in size && q !in live - {p} ensures Class(size[q]) < CLASSES && q in lists'[Class(size[q])] {
      if q != p {
        assert q in lists[Class(size[q])];
      }
    }
  }

  /** Taking a node out of one list writes a pointer that belongs to no other list. */
  lemma OtherListsKept(heads: seq<nat>, lists: seq<seq<nat>>, next: map<nat, nat>, size: map<nat, nat>, live: set<nat>,
                       c: nat, i: nat, d: nat, v: nat)
    requires Listed(heads, lists, next, size, live) && c < CLASSES && i < |lists[c]| && d < CLASSES && d != c
    ensures Threaded(heads[d], lists[d], NextAfter(next, lists[c], i, v))
  {
    if i > 0 {
      var r := lists[c][i - 1];
      assert r in lists[c] && Class(size[r]) == c;
      assert r !in lists[d];
      ThreadedFrame(heads[d], lists[d], next, r, v);
    }
  }

  lemma ThreadsAfterTake(heads: seq<nat>, lists: seq<seq<nat>>, next: map<nat, nat>, size: map<nat, nat>,
                         live: set<nat>, c: nat, i: nat)
    requires Listed(heads, lists, next, size, live) && c < CLASSES && i < |lists[c]|
    ensures lists[c][i] in next
    ensures var xs := lists[c]; var p := xs[i];
      ListsThreaded(heads[c := HeadAfter(heads[c], i, next[p])], lists[c := xs[..i] + xs[i + 1..]],
                    NextAfter(next, xs, i, next[p]))
  {
    var xs := lists[c];
    SuffixThreaded(heads[c], xs, next, i + 1);
    SpliceThreaded(heads[c], xs, next, i, next[xs[i]], xs[i + 1..]);
    NoDupSplice(xs, i, xs[i + 1..]);
    forall d | 0 <= d < CLASSES && d != c ensures Threaded(heads[d], lists[d], NextAfter(next, xs, i, next[xs[i]])) {
      OtherListsKept(heads, lists, next, size, live, c, i, d, next[xs[i]]);
    }
  }

  lemma ListsAfterTake(heads: seq<nat>, lists: seq<seq<nat>>, next: map<nat, nat>, size: map<nat, nat>,
                       live: set<nat>, c: nat, i: nat)
    requires Listed(heads, lists, next, size, live) && c < CLASSES && i < |lists[c]|
    ensures lists[c][i] in next
    ensures var xs := lists[c]; var p := xs[i];
      Listed(heads[c := HeadAfter(heads[c], i, next[p])], lists[c := xs[..i] + xs[i + 1..]],
             NextAfter(next, xs, i, next[p]), size, live + {p})
  {
    var xs := lists[c];
    var p := xs[i];
    assert p in xs;
    var ys := xs[..i] + xs[i + 1..];
    var lists' := lists[c := ys];
    ThreadsAfterTake(heads, lists, next, size, live, c, i);
    assert forall q :: q in xs <==> q in ys || q == p;
    assert p !in ys;
    assert ListsClassed(lists', size, live + {p}) by {
      forall d, q | 0 <= d < CLASSES && q in lists'[d]
        ensures q in size && q !in live + {p} && 0 < size[q] < 0x10_0000 && Class(size[q]) == d
      {
        assert q in lists[d] && Class(size[q]) == d;
      }
    }
    assert FreeCovered(lists', size, live + {p}) by {
      forall q | q in size && q !in live + {p}
        ensures 0 < size[q] < 0x10_0000 && Class(size[q]) < CLASSES && q in lists'[Class(size[q])]
      {
        assert q in lists[Class(size[q])];
      }
    }
  }

  /** Total payload of the live blocks. */
  ghost function LiveSum(tiles: seq<nat>, live: set<nat>, size: map<nat, nat>): nat
  {
    if tiles == [] then 0
    else
      var p := tiles[|tiles| - 1];
      LiveSum(tiles[..|tiles| - 1], live, size) + (if p in live && p in size then size[p] else 0)
  }

  lemma {:induction false} LiveSumFrame(tiles: seq<nat>, live: set<nat>, size: map<nat, nat>, live': set<nat>,
                                        size': map<nat, nat>)
    requires forall p | p in tiles :: p in size && p in size' && size[p] == size'[p] && (p in live <==> p in live')
    ensures LiveSum(tiles, live, size) == LiveSum(tiles, live', size')
  {
    if tiles != [] {
      assert tiles[|tiles| - 1] in tiles;
      LiveSumFrame(tiles[..|tiles| - 1], live, size, live', size');
    }
  }

  lemma {:induction false} LiveSumInsert(tiles: seq<nat>, live: set<nat>, size: map<nat, nat>, p: nat)
    requires forall q | q in tiles :: q in size
    requires NoDup(tiles) && p in tiles && p !in live
    ensures LiveSum(tiles, live + {p}, size) == LiveSum(tiles, live, size) + size[p]
  {
    var front, q := tiles[..|tiles| - 1], tiles[|tiles| - 1];
    assert q in tiles;
    if q == p {
      LiveSumFrame(front, live + {p}, size, live, size);
    } else {
      LiveSumInsert(front, live, size, p);
    }
  }

  lemma LiveSumGrows(start: nat, offset: nat, tiles: seq<nat>, size: map<nat, nat>, live: set<nat>, p: nat)
    requires Tiled(start, offset, tiles, size) && p in size && p !in live
    ensures LiveSum(tiles, live + {p}, size) == LiveSum(tiles, live, size) + size[p]
  {
    TilesNoDup(start, offset, tiles, size);
    LiveSumInsert(tiles, live, size, p);
  }

  lemma LiveSumAppend(tiles: seq<nat>, live: set<nat>, size: map<nat, nat>, p: nat, n: nat)
    requires (forall q | q in tiles :: q in size) && p !in size
    ensures LiveSum(tiles + [p], live + {p}, size[p := n]) == LiveSum(tiles, live, size) + n
  {
    assert (tiles + [p])[..|tiles|] == tiles;
    LiveSumFrame(tiles, live, size, live + {p}, size[p := n]);
  }

  /** A freshly carved block goes straight to the client. */
  lemma ListsAfterCarve(heads: seq<nat>, lists: seq<seq<nat>>, next: map<nat, nat>, size: map<nat, nat>,
                        live: set<nat>, p: nat, n: nat)
    requires Listed(heads, lists, next, size, live) && p !in size
    ensures Listed(heads, lists, next, size[p := n], live + {p})
  {
    hide Class;
    forall q | q in size[p := n] && q !in live + {p} ensures q in size && q !in live {
    }
  }

  /** The bytes after `data` has been copied over `block` at `off`. */
  function Overlay(block: Bytes, off: nat, data: Bytes): (r: Bytes)
    requires off + |data| <= |block|
    ensures |r| == |block|
  {
    block[..off] + data + block[off + |data|..]
  }

  function BlockIn(bytes: Bytes, size: map<nat, nat>, p: nat): Bytes {
    if p in size && p + size[p] <= |bytes| then bytes[p..p + size[p]] else []
  }

  /** The live blocks' bytes, by payload address: the client's view of an arena. */
  function BlocksIn(bytes: Bytes, size: map<nat, nat>, live: set<nat>): map<nat, Bytes> {
    map p | p in live :: BlockIn(bytes, size, p)
  }

  lemma BlocksGrow(bytes: Bytes, size: map<nat, nat>, live: set<nat>, size': map<nat, nat>, p: nat)
    requires forall q | q in live :: q in size && q in size' && size'[q] == size[q]
    ensures BlocksIn(bytes, size', live + {p}) == BlocksIn(bytes, size, live)[p := BlockIn(bytes, size', p)]
  {
  }

  lemma BlocksShrink(bytes: Bytes, size: map<nat, nat>, live: set<nat>, p: nat)
    ensures BlocksIn(bytes, size, live - {p}) == BlocksIn(bytes, size, live) - {p}
  {
  }

  /** A write inside one live block changes that block's bytes and no other live block. */
  lemma BlocksWritten(start: nat, offset: nat, tiles: seq<nat>, size: map<nat, nat>, live: set<nat>,
                      bytes: Bytes, p: nat, off: nat, data: Bytes)
    requires Tiled(start, offset, tiles, size) && offset <= |bytes| && live <= size.Keys
    requires p in live && p + size[p] <= offset && off + |data| <= size[p]
    requires start % 8 == 0
    ensures BlocksIn(Overlay(bytes, p + off, data), size, live) ==
            BlocksIn(bytes, size, live)[p := Overlay(BlockIn(bytes, size, p), off, data)]
  {
    hide Tiled;
    var bytes' := Overlay(bytes, p + off, data);
    assert BlockIn(bytes', size, p) == Overlay(BlockIn(bytes, size, p), off, data);
    forall q | q in live && q != p ensures BlockIn(bytes', size, q) == BlockIn(bytes, size, q) {
      BlocksDisjoint(start, offset, tiles, size, p, q);
    }
  }
}
