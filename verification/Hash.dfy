/** The chained hash table. Its nodes are the headers of items that live in heap blocks;
    a lookup hands back the predecessor so that link and unlink need no second search. */
module HashModel {
  import opened Base
  import opened Chain
  import opened KeyHash
  import opened Engine
  import opened HeapModel
  import opened Table

  class Hash {
    const binSize: nat            // m_binSize
    const bin: array<nat>         // m_bin
    var items: map<nat, Header>   // the HashItem fields, by address
    var next: map<nat, nat>       // HashItem::pNext

    ghost var chains: seq<seq<nat>>

    ghost function Img(heap: Heap): Image
      reads this, bin, heap, heap.mem
    {
      Image(heap.Blocks(), items, next, bin[..], chains)
    }

    ghost predicate Valid(heap: Heap)
      reads this, bin, heap, heap.free, heap.mem
    {
      && heap.Valid()
      && bin.Length == binSize && bin != heap.free
      && Good(Img(heap)) && |chains| == binSize
    }

    constructor (heap: Heap, binSize: nat)
      requires heap.Valid() && heap.Blocks() == map[] && binSize > 0
      ensures Valid(heap) && this.binSize == binSize && fresh(bin)
      ensures Bins(Img(heap)) == seq(binSize, _ => []) && Leaked(Img(heap)) == {}
    {
      this.binSize := binSize;
      bin := new nat[binSize](_ => 0);
      items, next := map[], map[];
      chains := seq(binSize, _ => []);
      new;
      EmptyImage(Img(heap), binSize);
    }

    static lemma EmptyImage(s: Image, n: nat)
      requires n > 0 && s.blocks == map[] && s.chains == seq(n, _ => []) && |s.bin| == n
      requires forall b | 0 <= b < n :: s.bin[b] == 0
      ensures Good(s) && Bins(s) == seq(n, _ => []) && Leaked(s) == {}
    {
      hide BinOf;
    }

    /** HashItem::compareKey. */
    method CompareKey(heap: Heap, p: nat, aligned: Bytes, cbKey: nat, ghost key: Bytes) returns (same: bool)
      requires heap.Valid() && NodeOk(Img(heap), p)
      requires aligned == Pad(key) && cbKey == |key|
      ensures same <==> EntryAt(Img(heap), p).key == key
    {
      hide Zeros;
      if items[p].cbKey != cbKey {
        return false;
      }
      var stored := heap.Read(p, ITEM, Align8(cbKey));
      SamePadSameKey(EntryAt(Img(heap), p).key, key);
      same := stored == aligned;
    }

    /** Hash::get: the item with the key and its predecessor; without the item, the bucket's last node. */
    method Get(heap: Heap, aligned: Bytes, cbKey: nat, ghost key: Bytes)
      returns (item: nat, previous: nat, hash: nat, ghost i: nat)
      requires Valid(heap) && binSize > 0
      requires aligned == Pad(key) && cbKey == |key|
      ensures hash % binSize == BinOf(key, binSize)
      ensures var b := hash % binSize;
        && i == Find(Bins(Img(heap))[b], key) <= |chains[b]|
        && item == At(chains[b], i)
        && previous == (if i == 0 then 0 else chains[b][i - 1])
    {
      hide Good, EntryAt, Find, Pad, HashWords, NodeOk, Heap.Valid, Heap.Blocks, Reached, Linking, NodesOk,
        WellFormed, EntryOf;
      ghost var s := Img(heap);
      GoodParts(s);
      hash := CalcHash(aligned);
      ghost var b := hash % binSize;
      item, previous, i := bin[hash % binSize], 0, 0;
      ghost var chain := chains[b];
      BucketHead(s, b);
      while item != 0
        invariant 0 <= i <= |chain| && item == At(chain, i)
        invariant previous == if i == 0 then 0 else chain[i - 1]
        invariant forall j | 0 <= j < i :: Bins(s)[b][j].key != key
        decreases |chain| - i
      {
        NodeFacts(s, b, i);
        var same := CompareKey(heap, item, aligned, cbKey, key);
        if same {
          FindIs(Bins(s)[b], key, i);
          return;
        }
        previous := item;
        item := next[item];
        i := i + 1;
      }
      if i < |chain| {
        NodeFacts(s, b, i);
      }
      FindIs(Bins(s)[b], key, i);
    }

    /** Hash::link. The new item's own next pointer decides what follows it: the old bucket from position j on. */
    method Link(heap: Heap, hash: nat, item: nat, previous: nat, ghost i: nat, ghost j: nat)
      requires Valid(heap) && binSize > 0
      requires var b := hash % binSize; var s := Img(heap);
        && i <= j <= |chains[b]| && previous == (if i == 0 then 0 else chains[b][i - 1])
        && item != 0 && !Reached(s, item) && NodeOk(s, item) && item in next && next[item] == At(chains[b], j)
        && BinOk(Bins(s)[b][..i] + ([EntryAt(s, item)] + Bins(s)[b][j..]), b, binSize)
      modifies this`next, this`chains, bin
      ensures Valid(heap)
      ensures var b := hash % binSize; var s := old(Img(heap));
        && Img(heap) == Spliced(s, b, i, item, [item] + s.chains[b][j..])
        && Bins(Img(heap)) == Bins(s)[b := Bins(s)[b][..i] + ([EntryAt(s, item)] + Bins(s)[b][j..])]
    {
      hide Good, NodeOk, EntryAt, BinOk, BinOf, Reached, Bins, Heap.Valid, Heap.Blocks, Threaded, ItemOk;
      ghost var s := Img(heap);
      GoodParts(s);
      var index := hash % binSize;
      LinkImage(s, index, i, j, item);
      if i > 0 {
        NodeFacts(s, index, i - 1);
      }
      if previous == 0 {
        bin[index] := item;
      } else {
        next := next[previous := item];
      }
      chains := chains[index := chains[index][..i] + ([item] + chains[index][j..])];
      assert bin[..] == s.bin[index := HeadAfter(s.bin[index], i, item)];
    }

    /** Hash::unlink. */
    method Unlink(heap: Heap, hash: nat, item: nat, previous: nat, ghost i: nat)
      requires Valid(heap) && binSize > 0
      requires var b := hash % binSize;
        i < |chains[b]| && item == chains[b][i] && previous == (if i == 0 then 0 else chains[b][i - 1])
      modifies this`next, this`chains, bin
      ensures Valid(heap)
      ensures var b := hash % binSize; var s := old(Img(heap));
        && item in s.next
        && Img(heap) == Spliced(s, b, i, s.next[item], s.chains[b][i + 1..])
        && Bins(Img(heap)) == Bins(s)[b := Bins(s)[b][..i] + Bins(s)[b][i + 1..]]
    {
      hide Good, NodeOk, EntryAt, BinOk, BinOf, Reached, Bins, Heap.Valid, Heap.Blocks, Threaded, ItemOk;
      ghost var s := Img(heap);
      GoodParts(s);
      var index := hash % binSize;
      NodeFacts(s, index, i);
      UnlinkImage(s, index, i);
      if i > 0 {
        NodeFacts(s, index, i - 1);
      }
      if previous == 0 {
        bin[index] := next[item];
      } else {
        next := next[previous := next[item]];
      }
      chains := chains[index := chains[index][..i] + chains[index][i + 1..]];
      assert bin[..] == s.bin[index := HeadAfter(s.bin[index], i, s.next[item])];
    }
  }
}
