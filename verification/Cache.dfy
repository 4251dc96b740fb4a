/** The cache: a hash table of items in heap blocks. Each operation on memory is proved
    to be the corresponding step on bucket chains of entries (`Engine.Step`), and to own
    exactly the blocks it should. */
module CacheModel {
  import opened Base
  import opened Chain
  import opened Decimal
  import opened KeyHash
  import opened Engine
  import opened Tiling
  import opened HeapModel
  import opened Table
  import opened HashModel

  /** What Heap::free and the 20-bit value length demand of an item's size. */
  predicate InRange(cbKey: nat, cbValue: nat) {
    cbKey < CONFIG_MAX_KEY_LENGTH && Align8(ItemSize(cbKey, cbValue)) < 0x10_0000
  }

  /** Bytes of heap an item needs. */
  function Need(cbKey: nat, cbValue: nat): nat {
    Align8(ItemSize(cbKey, cbValue))
  }

  /** Whether a value of cbValue bytes is too long for the block that item p is in. */
  predicate Outgrows(s: Image, p: nat, cbValue: nat)
    requires p in s.blocks && p in s.items
  {
    ItemSize(s.items[p].cbKey, cbValue) > |s.blocks[p]|
  }

  /** The address of the key's item. */
  ghost function NodeOf(s: Image, key: Bytes): Option<nat> {
    if |s.chains| == 0 then None
    else
      var b := BinOf(key, |s.chains|);
      var i := Engine.Find(Bins(s)[b], key);
      if i < |s.chains[b]| then Some(s.chains[b][i]) else None
  }

  /** How much the block of p holds. */
  ghost function Capacity(s: Image, p: nat): nat {
    if p in s.blocks then |s.blocks[p]| else 0
  }

  /** Whether the key's item would have to move to hold a value of n bytes. */
  ghost predicate MustMove(s: Image, key: Bytes, n: nat) {
    match NodeOf(s, key)
    case None => false
    case Some(p) => p in s.blocks && p in s.items && Outgrows(s, p, n)
  }

  /** Whether removing the key's item, because it is expired, frees a block of n bytes. */
  ghost predicate Reclaims(s: Image, key: Bytes, now: nat, n: nat) {
    match NodeOf(s, key)
    case None => false
    case Some(p) => Expired(EntryAt(s, p), now) && n <= Capacity(s, p)
  }

  /** The live blocks that follow the key's own node in its bucket. */
  ghost function Followers(s: Image, key: Bytes): set<nat> {
    if |s.chains| == 0 then {}
    else
      var b := BinOf(key, |s.chains|);
      NodesFrom(s.chains[b], Engine.Find(Bins(s)[b], key) + 1)
  }

  ghost function NodesFrom(chain: seq<nat>, i: nat): set<nat> {
    set k | i <= k < |chain| :: chain[k]
  }

  /** Everything in memory that decides a call: the items, the heap's room, and the arena's bytes. */
  datatype Memory = Memory(img: Image, space: Space, bytes: Bytes)

  /** What memory holds in store for a call that needs n value bytes for the key. */
  ghost function Room(m: Memory, key: Bytes, n: nat, junk: Bytes): Env {
    Env(Serves(m.space, Need(|key|, n)), MustMove(m.img, key, n), junk)
  }

  /** n bytes, from a position on, of a block that an old block has been copied to the front of. */
  function Carried(block: Bytes, bigger: Bytes, from: nat, n: nat): Bytes {
    if |block| <= |bigger| && from + n <= |bigger| then Overlay(bigger, 0, block)[from..from + n] else []
  }

  /** The value of an item that has moved: the old block's bytes, and behind them what the new place held before. */
  ghost predicate Transplanted(m: Memory, item: nat, newItem: nat, value: Bytes) {
    && item in m.img.blocks && item in m.img.items
    && var cbKey := m.img.items[item].cbKey;
      exists cap ::
        && Spot(m.space, Need(cbKey, |value|), newItem, cap) && newItem + cap <= |m.bytes|
        && value == Carried(m.img.blocks[item], m.bytes[newItem..newItem + cap], ValueOffset(cbKey), |value|)
  }

  /** The bytes a moved value of n + |junk| bytes ends in. */
  ghost predicate LeftBehind(m: Memory, key: Bytes, n: nat, junk: Bytes) {
    NodeOf(m.img, key).Some? &&
    exists newItem, value ::
      && Transplanted(m, NodeOf(m.img, key).value, newItem, value)
      && |value| == n + |junk| && value[n..] == junk
  }

  /** A new item whose block could be cut at the bump offset sits in exactly that block. */
  ghost predicate Carved(m: Memory, m': Memory, key: Bytes, n: nat) {
    NodeOf(m'.img, key).Some? && CarvedAt(m, m', NodeOf(m'.img, key).value, |key|, n)
  }

  ghost predicate CarvedAt(m: Memory, m': Memory, p: nat, cbKey: nat, n: nat) {
    FitsBase(m.space, n) ==>
      && p == m.space.offset + ENTRY && m'.space == AfterCarve(m.space, n)
      && Capacity(m'.img, p) == n && p in m'.img.items && m'.img.items[p].cbKey == cbKey
  }

  /** Calls that never allocate do not depend on what memory holds in store. */
  const ANY_ENV := Env(true, false, [])

  /** The environment a call meets in this memory: what its step must be told about allocation. */
  ghost predicate Actual(m: Memory, op: Op, now: nat, env: Env) {
    match op {
      case Get(_) => env == ANY_ENV
      case Del(_) => env == ANY_ENV
      case Set(key, item) => env == Room(m, key, |item.value|, [])
      case Replace(key, item) => env == Room(m, key, |item.value|, [])
      case Cas(key, _, item) => env == Room(m, key, |item.value|, [])
      case Add(key, item) =>
        var n := Need(|key|, |item.value|);
        env.served <==> Serves(m.space, n) || Reclaims(m.img, key, now, n)
      case Append(key, data) =>
        var n := Length(StateOf(m.img, 0), key);
        && env == Room(m, key, |data| + n, env.junk) && |env.junk| == |data|
        && (env.moved && env.served ==> LeftBehind(m, key, n, env.junk))
      case Prepend(key, data) => env == Room(m, key, |data| + Length(StateOf(m.img, 0), key), [])
      case Incr(key, _) => env == Room(m, key, MAX_DIGITS, [])
      case Decr(key, _) => env == Room(m, key, MAX_DIGITS, [])
    }
  }

  /** What growAndReplace makes of an entry: a new length and CAS value, as much of the old value as
      fits in the new length, and everything else unchanged. */
  predicate Grown(e: Entry, e': Entry, cbValue: nat, cas: nat) {
    && e'.key == e.key && e'.flags == e.flags && e'.expire == e.expire && e'.cas == cas
    && |e'.value| == cbValue
    && forall k | 0 <= k < |e.value| && k < cbValue :: e'.value[k] == e.value[k]
  }

  lemma ValueOverlay(h: Header, block: Bytes, off: nat, data: Bytes)
    requires ItemOk(h, block) && off + |data| <= h.cbValue
    ensures ItemOk(h, Overlay(block, ValueOffset(h.cbKey) + off, data))
    ensures EntryOf(h, Overlay(block, ValueOffset(h.cbKey) + off, data)) ==
            EntryOf(h, block).(value := Overlay(EntryOf(h, block).value, off, data))
  {
    hide Pad;
    var v := ValueOffset(h.cbKey);
    var block' := Overlay(block, v + off, data);
    assert block'[ITEM..v] == block[ITEM..v];
    assert block'[ITEM..ITEM + h.cbKey] == block[ITEM..ITEM + h.cbKey];
    assert block'[v..v + h.cbValue] == Overlay(block[v..v + h.cbValue], off, data);
  }

  /** A new length and CAS value in the same block. */
  lemma GrownInPlace(h: Header, block: Bytes, cbValue: nat, cas: nat)
    requires ItemOk(h, block) && ItemSize(h.cbKey, cbValue) <= |block|
    ensures var h' := h.(cbValue := cbValue, cas := cas);
      ItemOk(h', block) && Grown(EntryOf(h, block), EntryOf(h', block), cbValue, cas)
  {
    hide Pad, Align8;
  }

  /** The same after the whole old block has been copied to the front of a bigger one. */
  lemma GrownElsewhere(h: Header, block: Bytes, bigger: Bytes, cbValue: nat, cas: nat)
    requires ItemOk(h, block) && |block| <= |bigger| < 0x10_0000 && ItemSize(h.cbKey, cbValue) <= |bigger|
    ensures var h' := h.(cbValue := cbValue, cas := cas); var copy := Overlay(bigger, 0, block);
      && ItemOk(h', copy) && Grown(EntryOf(h, block), EntryOf(h', copy), cbValue, cas)
      && EntryOf(h', copy).value == Carried(block, bigger, ValueOffset(h.cbKey), cbValue)
  {
    hide Pad, Align8;
    var h' := h.(cbValue := cbValue, cas := cas);
    var copy := Overlay(bigger, 0, block);
    var v := ValueOffset(h.cbKey);
    assert copy[..|block|] == block;
    assert copy[ITEM..v] == block[ITEM..v];
    assert copy[ITEM..ITEM + h.cbKey] == block[ITEM..ITEM + h.cbKey];
    var kept := if cbValue < h.cbValue then cbValue else h.cbValue;
    assert copy[v..v + kept] == block[v..v + kept];
    assert EntryOf(h', copy).value[..kept] == copy[v..v + kept];
    assert EntryOf(h, block).value[..kept] == block[v..v + kept];
    SamePrefix(EntryOf(h, block).value, EntryOf(h', copy).value, kept);
  }

  lemma SamePrefix(a: Bytes, b: Bytes, n: nat)
    requires n <= |a| && n <= |b| && a[..n] == b[..n]
    ensures forall k | 0 <= k < n :: a[k] == b[k]
  {
    forall k | 0 <= k < n ensures a[k] == b[k] {
      assert a[k] == a[..n][k];
    }
  }

  /** The bytes behind the header after HashItem::setup: key, zero padding and value, in this order. */
  function Laid(block: Bytes, key: Bytes, data: Bytes): (r: Bytes)
    requires ItemSize(|key|, |data|) <= |block|
    ensures |r| == |block|
  {
    var pad := Zeros(Align8(|key|) - |key|);
    Overlay(Overlay(Overlay(block, ITEM, key), ITEM + |key|, pad), ValueOffset(|key|), data)
  }

  lemma SetupLayout(block: Bytes, key: Bytes, data: Bytes, h: Header)
    requires ItemSize(|key|, |data|) <= |block| < 0x10_0000 && |key| < CONFIG_MAX_KEY_LENGTH
    requires h.cbKey == |key| && h.cbValue == |data|
    ensures ItemOk(h, Laid(block, key, data))
    ensures EntryOf(h, Laid(block, key, data)) == Entry(key, data, h.cas, h.flags, h.expire)
  {
    var v := ValueOffset(|key|);
    var block' := Laid(block, key, data);
    assert block'[ITEM..v] == key + Zeros(Align8(|key|) - |key|);
    assert block'[ITEM..ITEM + |key|] == key;
    assert block'[v..v + |data|] == data;
  }

  class Cache {
    const heap: Heap
    const hash: Hash
    var cas: nat       // m_cas

    ghost function Img(): Image
      reads this, heap, heap.mem, hash, hash.bin
    {
      hash.Img(heap)
    }

    ghost predicate Valid()
      reads this, heap, heap.free, heap.mem, hash, hash.bin
    {
      hash.Valid(heap) && hash.binSize > 0
    }

    /** The bucket chains of entries held in memory. */
    ghost function State(): State
      reads this, heap, heap.mem, hash, hash.bin
    {
      StateOf(Img(), cas)
    }

    ghost function Mem(): Memory
      reads this, heap, heap.mem, hash, hash.bin
    {
      Memory(Img(), heap.Space(), heap.mem[..])
    }

    ghost function Leaks(): set<nat>
      reads this, heap, heap.mem, hash, hash.bin
    {
      Leaked(Img())
    }

    lemma HasBuckets()
      requires Valid()
      ensures |State().bins| == hash.binSize > 0
    {
    }

    /** `base` is the address malloc returns for the arena. */
    constructor (base: nat, mbytes: nat)
      requires mbytes > 0
      ensures Valid() && fresh(heap) && fresh(heap.free) && fresh(heap.mem) && fresh(hash) && fresh(hash.bin)
      ensures State() == Engine.State(seq(mbytes * 1024, _ => []), 1) && Leaks() == {}
      ensures Mem().space == Arena(Align8(base), Align8(base) + mbytes * 1048576, map[], {})
    {
      var heapSize := mbytes * 1048576;
      assert heapSize / 0x400 == mbytes * 1024;
      var h := new Heap(base, heapSize);
      var t := new Hash(h, heapSize / 0x400);
      heap, hash, cas := h, t, 1;
    }

    /** The lookup every operation starts with: align the key, hash it, walk its bucket. */
    method Locate(key: Bytes) returns (item: nat, previous: nat, h: nat, ghost i: nat)
      requires Valid() && |key| < CONFIG_MAX_KEY_LENGTH
      ensures var b := h % hash.binSize; var chain := hash.chains[b];
        && b == BinOf(key, hash.binSize)
        && i == Engine.Find(Bins(Img())[b], key) <= |chain|
        && item == At(chain, i) && previous == (if i == 0 then 0 else chain[i - 1])
        && (item != 0 <==> i < |chain|)
      ensures unchanged(this) && unchanged(heap) && unchanged(heap.free) && unchanged(heap.mem)
      ensures unchanged(hash) && unchanged(hash.bin)
    {
      var buffer := new Byte[CONFIG_MAX_KEY_LENGTH];
      var cbKeyAligned := AlignKey(key, buffer);
      item, previous, h, i := hash.Get(heap, buffer[..cbKeyAligned], |key|, key);
      NodesNotNull(Img(), h % hash.binSize);
    }

    static lemma NodesNotNull(s: Image, b: nat)
      requires Good(s) && b < |s.chains|
      ensures forall i | 0 <= i < |s.chains[b]| :: s.chains[b][i] != 0
    {
      hide Good;
      forall i | 0 <= i < |s.chains[b]| ensures s.chains[b][i] != 0 {
        NodeFacts(s, b, i);
      }
    }

    method GetNextCas() returns (c: nat)
      modifies this`cas
      ensures c == old(cas) && cas == NextCas(c)
    {
      c := cas;
      cas := Wrap64(cas + 1);
    }

    /** Cache::alloc. */
    method AllocItem(cbKey: nat, cbValue: nat) returns (p: nat)
      requires Valid() && InRange(cbKey, cbValue)
      modifies heap, heap.free
      ensures Valid()
      ensures p == 0 <==> !old(heap.CanServe(Need(cbKey, cbValue)))
      ensures p == 0 ==> Img() == old(Img())
      ensures p != 0 ==>
        && p !in old(Img()).blocks && p in Img().blocks && !Reached(Img(), p)
        && Img() == old(Img()).(blocks := old(Img()).blocks[p := Img().blocks[p]])
        && ItemSize(cbKey, cbValue) <= |Img().blocks[p]| < 0x10_0000
        && Bins(Img()) == Bins(old(Img()))
        && Leaks() == old(Leaks()) + {p}
      ensures p != 0 ==>
        var cap := Capacity(Img(), p);
        && Spot(old(heap.Space()), Need(cbKey, cbValue), p, cap)
        && p + cap <= heap.mem.Length && Img().blocks[p] == heap.mem[..][p..p + cap]
      ensures p != 0 && FitsBase(old(heap.Space()), Need(cbKey, cbValue)) ==>
        heap.Space() == AfterCarve(old(heap.Space()), Need(cbKey, cbValue))
    {
      hide Good, Reached, Heap.Valid, Heap.Blocks, Bins, Linking, NodesOk, WellFormed;
      ghost var s := Img();
      p := heap.Alloc(ItemSize(cbKey, cbValue));
      if p != 0 {
        Acquired(s, p, heap.Blocks()[p]);
      }
    }

    static lemma Acquired(s: Image, p: nat, block: Bytes)
      requires Good(s) && p !in s.blocks && |block| < 0x10_0000
      ensures var s' := s.(blocks := s.blocks[p := block]);
        Good(s') && Bins(s') == Bins(s) && !Reached(s', p) && Leaked(s') == Leaked(s) + {p}
    {
      hide BinOf, ItemOk, EntryOf, Good, Bins;
      var s' := s.(blocks := s.blocks[p := block]);
      ReachedNodes(s);
      SizesBounded(s);
      UnseenChange(s, s');
      assert forall q :: Reached(s', q) <==> Reached(s, q);
    }

    static lemma Released(s: Image, p: nat)
      requires Good(s) && !Reached(s, p)
      ensures var s' := s.(blocks := s.blocks - {p});
        Good(s') && Bins(s') == Bins(s) && Leaked(s') == Leaked(s) - {p}
    {
      hide BinOf, ItemOk, EntryOf, Good, Bins;
      var s' := s.(blocks := s.blocks - {p});
      ReachedNodes(s);
      SizesBounded(s);
      UnseenChange(s, s');
      assert forall q :: Reached(s', q) <==> Reached(s, q);
    }

    static lemma SizesBounded(s: Image)
      requires Good(s)
      ensures forall p | p in s.blocks :: |s.blocks[p]| < 0x10_0000
    {
      hide WellFormed, Linking;
    }

    static lemma ReachedNodes(s: Image)
      requires Good(s)
      ensures forall p | Reached(s, p) :: p != 0 && p in s.blocks && p in s.items && p in s.next && NodeOk(s, p)
    {
      hide Good, NodeOk;
      forall p | Reached(s, p) ensures p != 0 && p in s.blocks && p in s.items && p in s.next && NodeOk(s, p) {
        var b, i :| 0 <= b < |s.chains| && 0 <= i < |s.chains[b]| && s.chains[b][i] == p;
        NodeFacts(s, b, i);
      }
    }

    method FreeItem(p: nat)
      requires Valid() && p in Img().blocks && !Reached(Img(), p)
      modifies heap, heap.free
      ensures Valid()
      ensures Img() == old(Img()).(blocks := old(Img()).blocks - {p})
      ensures Bins(Img()) == Bins(old(Img())) && Leaks() == old(Leaks()) - {p}
      ensures forall n: nat :: heap.CanServe(n) <==> old(heap.CanServe(n)) || n <= |old(Img()).blocks[p]|
    {
      hide Good, Reached, Heap.Valid, Heap.Blocks, Bins, Linking, NodesOk, WellFormed;
      ghost var s := Img();
      SizesBounded(s);
      Released(s, p);
      heap.Free(p);
    }

    /** Filling in a block that no bucket leads to yet. */
    static lemma FilledIn(s: Image, q: nat, h: Header, block: Bytes, nx: nat)
      requires Good(s) && q in s.blocks && !Reached(s, q) && |block| < 0x10_0000
      ensures var s' := s.(blocks := s.blocks[q := block], items := s.items[q := h], next := s.next[q := nx]);
        Good(s') && Bins(s') == Bins(s) && !Reached(s', q) && Leaked(s') == Leaked(s)
    {
      hide BinOf, ItemOk, EntryOf, Good, Bins;
      var s' := s.(blocks := s.blocks[q := block], items := s.items[q := h], next := s.next[q := nx]);
      ReachedNodes(s);
      SizesBounded(s);
      UnseenChange(s, s');
      assert forall p :: Reached(s', p) <==> Reached(s, p);
    }

    static lemma SameLeaks(s: Image, s': Image)
      requires s'.chains == s.chains && s'.blocks.Keys == s.blocks.Keys
      ensures Leaked(s') == Leaked(s)
    {
      assert forall p :: Reached(s', p) <==> Reached(s, p);
      assert forall p :: p in s'.blocks <==> p in s'.blocks.Keys;
      assert forall p :: p in s.blocks <==> p in s.blocks.Keys;
    }

    /** Stores into the value of the item at position i of bucket b. */
    method WriteValue(p: nat, off: nat, data: Bytes, ghost b: nat, ghost i: nat)
      requires Valid() && b < |hash.chains| && i < |hash.chains[b]| && p == hash.chains[b][i]
      requires off + |data| <= |Bins(Img())[b][i].value|
      modifies heap.mem
      ensures Valid() && Leaks() == old(Leaks()) && hash.chains == old(hash.chains)
      ensures var e := old(Bins(Img()))[b][i];
        Bins(Img()) == Put(old(Bins(Img())), b, i, e.(value := Overlay(e.value, off, data)))
      ensures forall q | q in old(Img()).blocks && q != p ::
        q in Img().blocks && Img().blocks[q] == old(Img()).blocks[q]
      ensures p in Img().blocks && p in old(Img()).blocks && |Img().blocks[p]| == |old(Img()).blocks[p]|
      ensures forall q | !Reached(old(Img()), q) :: !Reached(Img(), q)
    {
      hide Good, Bins, EntryOf, ItemOk, Heap.Valid, Heap.Blocks, Reached;
      ghost var s := Img();
      NodeFacts(s, b, i);
      ghost var h, block := s.items[p], s.blocks[p];
      NodeValue(s, b, i);
      ValueOverlay(h, block, off, data);
      ghost var block' := Overlay(block, ValueOffset(h.cbKey) + off, data);
      ghost var s' := s.(items := s.items[p := h], blocks := s.blocks[p := block']);
      ItemRewritten(s, b, i, h, block', s');
      SameLeaks(s, s');
      heap.Write(p, ValueOffset(hash.items[p].cbKey) + off, data);
      assert s.items[p := h] == s.items;
      assert Img() == s';
      SameReached(s, s');
    }

    static lemma NodeValue(s: Image, b: nat, i: nat)
      requires Good(s) && b < |s.chains| && i < |s.chains[b]|
      ensures var p := s.chains[b][i];
        NodeOk(s, p) && EntryAt(s, p) == EntryOf(s.items[p], s.blocks[p]) == Bins(s)[b][i]
      ensures var p := s.chains[b][i];
        |Bins(s)[b][i].value| == s.items[p].cbValue && |Bins(s)[b][i].key| == s.items[p].cbKey
    {
      hide Good;
      NodeFacts(s, b, i);
    }

    /** Stores into the header fields of the item at position i of bucket b. */
    method WriteHeader(p: nat, h: Header, ghost b: nat, ghost i: nat)
      requires Valid() && b < |hash.chains| && i < |hash.chains[b]| && p == hash.chains[b][i]
      requires p in Img().blocks && ItemOk(h, Img().blocks[p])
      requires EntryOf(h, Img().blocks[p]).key == Bins(Img())[b][i].key
      modifies hash`items
      ensures Valid() && Leaks() == old(Leaks())
      ensures Img() == old(Img()).(items := old(Img()).items[p := h])
      ensures Bins(Img()) == Put(old(Bins(Img())), b, i, EntryOf(h, Img().blocks[p]))
    {
      hide Good, Bins, EntryOf, ItemOk, Heap.Valid, Heap.Blocks, Reached, EntryAt;
      ghost var s := Img();
      ghost var s' := s.(items := s.items[p := h], blocks := s.blocks[p := s.blocks[p]]);
      assert s'.blocks == s.blocks;
      NodeValue(s, b, i);
      ItemRewritten(s, b, i, h, s.blocks[p], s');
      SameLeaks(s, s');
      hash.items := hash.items[p := h];
      assert Img() == s';
    }

    method SetupBytes(p: nat, key: Bytes, data: Bytes)
      requires heap.Valid() && p in heap.Blocks() && ItemSize(|key|, |data|) <= |heap.Blocks()[p]|
      modifies heap.mem
      ensures heap.Valid() && heap.Blocks() == old(heap.Blocks())[p := Laid(old(heap.Blocks())[p], key, data)]
    {
      hide Heap.Valid, Heap.Blocks, Zeros;
      var pad := Zeros(Align8(|key|) - |key|);
      heap.Write(p, ITEM, key);
      heap.Write(p, ITEM + |key|, pad);
      heap.Write(p, ValueOffset(|key|), data);
    }

    /** HashItem::setup on a fresh block: the header, the key, its padding and the value. */
    method Setup(p: nat, key: Bytes, item: Item, c: nat, now: nat)
      requires Valid() && p in Img().blocks && !Reached(Img(), p)
      requires |key| < CONFIG_MAX_KEY_LENGTH && ItemSize(|key|, |item.value|) <= |Img().blocks[p]|
      modifies heap.mem, hash`items, hash`next
      ensures Valid() && Leaks() == old(Leaks()) && !Reached(Img(), p)
      ensures Bins(Img()) == old(Bins(Img())) && hash.chains == old(hash.chains)
      ensures NodeOk(Img(), p) && EntryAt(Img(), p) == Fresh(key, item, c, now)
      ensures p in hash.next && hash.next[p] == 0 && p in hash.items && hash.items[p].cbKey == |key|
      ensures Capacity(Img(), p) == Capacity(old(Img()), p)
      ensures Img().blocks.Keys == old(Img()).blocks.Keys
    {
      hide Good, Bins, Heap.Valid, Heap.Blocks, Reached, SetupExpire, EntryOf, ItemOk, Laid, ItemSize, Linking,
        NodesOk, WellFormed;
      ghost var s := Img();
      ghost var block := s.blocks[p];
      SizesBounded(s);
      var h := Header(|key|, |item.value|, c, item.flags, SetupExpire(item.expiration, now));
      SetupLayout(block, key, item.value, h);
      FilledIn(s, p, h, Laid(block, key, item.value), 0);
      hash.items := hash.items[p := h];
      hash.next := hash.next[p := 0];
      SetupBytes(p, key, item.value);
    }

    /** The copying half of growAndReplace: the whole old block goes to the front of the new one, then
        the copy gets the new length and CAS value. No bucket sees the copy yet. */
    method CopyItem(item: nat, newItem: nat, cbValue: nat, c: nat, ghost b: nat, ghost i: nat)
      requires Valid() && b < |hash.chains| && i < |hash.chains[b]| && item == hash.chains[b][i]
      requires newItem in Img().blocks && !Reached(Img(), newItem)
      requires item in Img().blocks && item in hash.items && |Img().blocks[item]| <= |Img().blocks[newItem]|
      requires ItemSize(hash.items[item].cbKey, cbValue) <= |Img().blocks[newItem]|
      modifies heap.mem, hash`items, hash`next
      ensures Valid() && Leaks() == old(Leaks()) && !Reached(Img(), newItem)
      ensures Bins(Img()) == old(Bins(Img())) && hash.chains == old(hash.chains)
      ensures NodeOk(Img(), newItem) && Grown(old(Bins(Img()))[b][i], EntryAt(Img(), newItem), cbValue, c)
      ensures EntryAt(Img(), newItem).value ==
        Carried(old(Img()).blocks[item], old(Img()).blocks[newItem], ValueOffset(old(hash.items)[item].cbKey), cbValue)
      ensures newItem in hash.next && hash.next[newItem] == At(hash.chains[b], i + 1)
      ensures Img().blocks.Keys == old(Img()).blocks.Keys
      ensures item in Img().blocks && Img().blocks[item] == old(Img()).blocks[item]
      ensures item in hash.items && hash.items[item] == old(hash.items)[item]
    {
      hide Good, Bins, Heap.Valid, Heap.Blocks, Reached, EntryOf, ItemOk, Grown, ItemSize, Overlay, Carried,
        Linking, NodesOk, WellFormed;
      ghost var s := Img();
      NodeValue(s, b, i);
      NodeFacts(s, b, i);
      SizesBounded(s);
      ghost var block, bigger := s.blocks[item], s.blocks[newItem];
      ghost var h := s.items[item].(cbValue := cbValue, cas := c);
      GrownElsewhere(s.items[item], block, bigger, cbValue, c);
      FilledIn(s, newItem, h, Overlay(bigger, 0, block), s.next[item]);
      CopyBlock(item, newItem);
      hash.items := hash.items[newItem := hash.items[item]];
      hash.next := hash.next[newItem := hash.next[item]];
      hash.items := hash.items[newItem := hash.items[newItem].(cbValue := cbValue)];
      hash.items := hash.items[newItem := hash.items[newItem].(cas := c)];
      assert hash.items == s.items[newItem := h];
    }

    method CopyBlock(item: nat, newItem: nat)
      requires heap.Valid() && item in heap.Blocks() && newItem in heap.Blocks()
      requires |heap.Blocks()[item]| <= |heap.Blocks()[newItem]|
      modifies heap.mem
      ensures heap.Valid()
      ensures var was := old(heap.Blocks()); heap.Blocks() == was[newItem := Overlay(was[newItem], 0, was[item])]
    {
      hide Heap.Valid, Heap.Blocks;
      var size := heap.SizeOfAlloc(item);
      assert heap.Blocks()[item][0..0 + size] == heap.Blocks()[item];
      heap.Copy(newItem, 0, item, 0, size);
    }

    /** A bucket with the node at position i exchanged for one that was not reached before. */
    static lemma Exchanged(s: Image, s': Image, b: nat, i: nat, q: nat)
      requires Good(s) && b < |s.chains| && i < |s.chains[b]| && q !in s.blocks
      requires s'.chains == s.chains[b := With(s.chains[b], i, q)] && s'.blocks.Keys == s.blocks.Keys + {q}
      ensures !Reached(s', s.chains[b][i]) && Leaked(s') == Leaked(s) + {s.chains[b][i]}
    {
      hide Good, NodeOk;
      var p := s.chains[b][i];
      NodeFacts(s, b, i);
      assert s'.chains[b][i] == q;
      forall c, j | 0 <= c < |s'.chains| && 0 <= j < |s'.chains[c]| ensures s'.chains[c][j] != p {
        if c != b || j != i {
          NodesApart(s, b, i, c, j);
        }
      }
      forall r ensures Reached(s', r) <==> r == q || (r != p && Reached(s, r)) {
        if r != p && Reached(s, r) {
          var c, j :| 0 <= c < |s.chains| && 0 <= j < |s.chains[c]| && s.chains[c][j] == r;
          assert s'.chains[c][j] == r;
        }
      }
      assert forall r :: r in s'.blocks <==> r in s'.blocks.Keys;
      assert forall r :: r in s.blocks <==> r in s.blocks.Keys;
      assert Leaked(s') == Leaked(s) + {p};
    }

    static lemma UnreachedAfterUnlink(s: Image, b: nat, i: nat, q: nat)
      requires Good(s) && b < |s.chains| == |s.bin| && i < |s.chains[b]| && s.chains[b][i] in s.next && !Reached(s, q)
      ensures !Reached(Spliced(s, b, i, s.next[s.chains[b][i]], s.chains[b][i + 1..]), q)
    {
      hide Good, Spliced;
      var tail := s.chains[b][i + 1..];
      SplicedReach(s, b, i, s.next[s.chains[b][i]], tail, q);
      forall k | 0 <= k < |tail| ensures tail[k] != q {
        assert tail[k] == s.chains[b][i + 1 + k];
      }
    }

    static lemma SpliceIsUpdate<T>(xs: seq<T>, i: nat, x: T)
      requires i < |xs|
      ensures var ys := xs[..i] + xs[i + 1..];
        && ys[..i] == xs[..i] && ys[i..] == xs[i + 1..] && |ys| >= i
        && ys[..i] + ([x] + ys[i..]) == xs[i := x]
    {
    }

    static lemma SameKeyBin(chain: seq<Entry>, i: nat, e: Entry, b: nat, n: nat)
      requires n > 0 && BinOk(chain, b, n) && i < |chain| && e.key == chain[i].key
      ensures BinOk(chain[i := e], b, n)
    {
      hide BinOf;
    }

    /** The unlink-then-link pair of growAndReplace exchanges exactly one node of its bucket. */
    method Substitute(h: nat, item: nat, newItem: nat, previous: nat, ghost i: nat)
      requires Valid()
      requires var b := h % hash.binSize;
        && i < |hash.chains[b]| && item == hash.chains[b][i]
        && previous == (if i == 0 then 0 else hash.chains[b][i - 1])
        && newItem != 0 && !Reached(Img(), newItem) && NodeOk(Img(), newItem)
        && EntryAt(Img(), newItem).key == Bins(Img())[b][i].key
        && newItem in hash.next && hash.next[newItem] == At(hash.chains[b], i + 1)
      modifies hash`next, hash`chains, hash.bin
      ensures Valid() && Img().blocks == old(Img()).blocks
      ensures var b := h % hash.binSize;
        && hash.chains == old(hash.chains)[b := With(old(hash.chains)[b], i, newItem)]
        && Bins(Img()) == Put(old(Bins(Img())), b, i, old(EntryAt(Img(), newItem)))
    {
      hide Good, Bins, Heap.Valid, Heap.Blocks, Reached, EntryOf, ItemOk, BinOk, BinOf, Linking, NodesOk,
        WellFormed, Threaded;
      ghost var s := Img();
      ghost var b := h % hash.binSize;
      ghost var e := EntryAt(s, newItem);
      GoodBin(s, b);
      SameKeyBin(Bins(s)[b], i, e, b, hash.binSize);
      SpliceIsUpdate(Bins(s)[b], i, e);
      SpliceIsUpdate(hash.chains[b], i, newItem);
      NodeFacts(s, b, i);
      UnreachedAfterUnlink(s, b, i, newItem);
      if i > 0 {
        NodeFacts(s, b, i - 1);
      }
      hash.Unlink(heap, h, item, previous, i);
      assert EntryAt(Img(), newItem) == e;
      hash.Link(heap, h, newItem, previous, i, i);
    }

    /** The other branch of growAndReplace: a new block, the copy, and the exchange in the bucket. */
    method Relocate(h: nat, item: nat, previous: nat, cbValue: nat, ghost i: nat) returns (newItem: nat)
      requires Valid()
      requires var b := h % hash.binSize;
        && i < |hash.chains[b]| && item == hash.chains[b][i]
        && previous == (if i == 0 then 0 else hash.chains[b][i - 1])
        && InRange(|Bins(Img())[b][i].key|, cbValue) && item in Img().blocks && item in Img().items
        && Outgrows(Img(), item, cbValue)
      modifies this`cas, heap, heap.free, heap.mem, hash`items, hash`next, hash`chains, hash.bin
      ensures Valid()
      ensures newItem == 0 <==> !old(heap.CanServe(Need(|Bins(Img())[h % hash.binSize][i].key|, cbValue)))
      ensures newItem == 0 ==> Img() == old(Img()) && cas == old(cas)
      ensures newItem != 0 ==>
        var b := h % hash.binSize; var bins := old(Bins(Img()));
        && newItem != item && cas == NextCas(old(cas))
        && hash.chains == old(hash.chains)[b := With(old(hash.chains)[b], i, newItem)]
        && Bins(Img()) == Put(bins, b, i, EntryAt(Img(), newItem))
        && Grown(bins[b][i], EntryAt(Img(), newItem), cbValue, old(cas))
      ensures newItem != 0 ==>
        && item in Img().blocks && item in hash.items && !Reached(Img(), item)
        && Img().blocks[item] == old(Img()).blocks[item] && hash.items[item] == old(hash.items)[item]
        && Leaks() == old(Leaks()) + {item}
        && Transplanted(old(Mem()), item, newItem, EntryAt(Img(), newItem).value)
    {
      hide Good, Bins, Heap.Valid, Heap.Blocks, Reached, EntryOf, ItemOk, BinOk, BinOf, Linking, NodesOk, WellFormed,
        Threaded, Grown, Spot, Carried, Need;
      ghost var b := h % hash.binSize;
      ghost var s, m := Img(), Mem();
      NodeValue(s, b, i);
      NodeFacts(s, b, i);
      newItem := AllocItem(hash.items[item].cbKey, cbValue);
      if newItem == 0 {
        return;
      }
      ghost var cap := Capacity(Img(), newItem);
      assert heap.mem[..] == m.bytes;
      var c := GetNextCas();
      CopyItem(item, newItem, cbValue, c, b, i);
      ghost var copied := Img();
      KeyKept(Bins(s)[b][i], EntryAt(copied, newItem), cbValue, c);
      Substitute(h, item, newItem, previous, i);
      Exchanged(s, Img(), b, i, newItem);
      assert EntryAt(Img(), newItem) == EntryAt(copied, newItem);
      assert Spot(m.space, Need(s.items[item].cbKey, cbValue), newItem, cap);
    }

    /** Gives the item room for a value of cbValue bytes, in its own block if that is big enough and
        otherwise in a bigger one that takes its place in the bucket. The old block is left to the caller. */
    method GrowAndReplace(h: nat, item: nat, previous: nat, cbValue: nat, ghost i: nat) returns (newItem: nat)
      requires Valid()
      requires var b := h % hash.binSize;
        && i < |hash.chains[b]| && item == hash.chains[b][i]
        && previous == (if i == 0 then 0 else hash.chains[b][i - 1])
        && InRange(|Bins(Img())[b][i].key|, cbValue)
      modifies this`cas, heap, heap.free, heap.mem, hash`items, hash`next, hash`chains, hash.bin
      ensures Valid() && item in old(Img()).blocks && item in old(Img()).items
      ensures var key := old(Bins(Img()))[h % hash.binSize][i].key;
        newItem == 0 <==> Outgrows(old(Img()), item, cbValue) && !old(heap.CanServe(Need(|key|, cbValue)))
      ensures newItem == 0 ==> Img() == old(Img()) && cas == old(cas)
      ensures newItem != 0 ==>
        var b := h % hash.binSize; var bins := old(Bins(Img()));
        && cas == NextCas(old(cas))
        && hash.chains == old(hash.chains)[b := With(old(hash.chains)[b], i, newItem)]
        && Bins(Img()) == Put(bins, b, i, EntryAt(Img(), newItem))
        && Grown(bins[b][i], EntryAt(Img(), newItem), cbValue, old(cas))
        && (newItem == item <==> !Outgrows(old(Img()), item, cbValue))
      ensures newItem != 0 && newItem == item ==> Leaks() == old(Leaks())
      ensures newItem != 0 && newItem != item ==>
        && item in Img().blocks && item in hash.items && !Reached(Img(), item)
        && Img().blocks[item] == old(Img()).blocks[item] && hash.items[item] == old(hash.items)[item]
        && Leaks() == old(Leaks()) + {item}
        && Transplanted(old(Mem()), item, newItem, EntryAt(Img(), newItem).value)
    {
      hide Good, Bins, Heap.Valid, Heap.Blocks, Reached, EntryOf, ItemOk, BinOk, BinOf, Linking, NodesOk,
        WellFormed, Threaded, Grown, Transplanted, Need, Mem;
      ghost var b := h % hash.binSize;
      ghost var s := Img();
      NodeValue(s, b, i);
      NodeFacts(s, b, i);
      var size := heap.SizeOfAlloc(item);
      var cbAvail := size - (ItemSize(hash.items[item].cbKey, hash.items[item].cbValue) - hash.items[item].cbValue);
      if cbValue <= cbAvail {
        newItem := item;
        var c := GetNextCas();
        GrownInPlace(s.items[item], s.blocks[item], cbValue, c);
        KeyKept(Bins(s)[b][i], EntryOf(s.items[item].(cbValue := cbValue, cas := c), s.blocks[item]), cbValue, c);
        WriteHeader(item, hash.items[item].(cbValue := cbValue, cas := c), b, i);
        NodeValue(Img(), b, i);
        SelfUpdate(s.chains, b, i);
      } else {
        newItem := Relocate(h, item, previous, cbValue, i);
      }
    }

    static lemma SelfUpdate(chains: seq<seq<nat>>, b: nat, i: nat)
      requires b < |chains| && i < |chains[b]|
      ensures chains[b := With(chains[b], i, chains[b][i])] == chains
    {
      assert With(chains[b], i, chains[b][i]) == chains[b];
    }

    static lemma KeyKept(e: Entry, e': Entry, cbValue: nat, c: nat)
      requires Grown(e, e', cbValue, c)
      ensures e'.key == e.key && e'.flags == e.flags && e'.expire == e.expire && e'.cas == c && |e'.value| == cbValue
    {
    }

    /** The tail that set, replace and cas share over an existing item: room for the value, the value,
        the fields, and the old block freed if the item has moved. */
    method StoreOver(h: nat, node: nat, previous: nat, item: Item, ghost i: nat) returns (ok: bool)
      requires Valid()
      requires var b := h % hash.binSize;
        && i < |hash.chains[b]| && node == hash.chains[b][i]
        && previous == (if i == 0 then 0 else hash.chains[b][i - 1])
        && InRange(|Bins(Img())[b][i].key|, |item.value|)
      modifies this`cas, heap, heap.free, heap.mem, hash`items, hash`next, hash`chains, hash.bin
      ensures Valid() && node in old(Img()).blocks && node in old(Img()).items && Leaks() == old(Leaks())
      ensures var key := old(Bins(Img()))[h % hash.binSize][i].key;
        ok <==> !Outgrows(old(Img()), node, |item.value|) || old(heap.CanServe(Need(|key|, |item.value|)))
      ensures !ok ==> Bins(Img()) == old(Bins(Img())) && cas == old(cas)
      ensures ok ==>
        var b := h % hash.binSize; var bins := old(Bins(Img()));
        cas == NextCas(old(cas)) && Bins(Img()) == Put(bins, b, i, Overwrite(bins[b][i], item, old(cas)))
    {
      hide Good, Bins, Heap.Valid, Heap.Blocks, Reached, EntryOf, ItemOk, BinOk, BinOf, Linking, NodesOk,
        WellFormed, Threaded, Grown, Outgrows, ItemSize;
      ghost var b := h % hash.binSize;
      ghost var e, c := Bins(Img())[b][i], cas;
      NodeNotLeaked(Img(), b, i);
      var newItem := GrowAndReplace(h, node, previous, |item.value|, i);
      if newItem == 0 {
        return false;
      }
      ok := true;
      KeyKept(e, EntryAt(Img(), newItem), |item.value|, c);
      PutPut(Bins(old(Img())), b, i, EntryAt(Img(), newItem), Overwrite(e, item, c));
      Fill(newItem, item, b, i);
      if newItem != node {
        FreeItem(node);
      }
    }

    /** The value and the fields of an item that already has room for them. */
    method Fill(p: nat, item: Item, ghost b: nat, ghost i: nat)
      requires Valid() && b < |hash.chains| && i < |hash.chains[b]| && p == hash.chains[b][i]
      requires |Bins(Img())[b][i].value| == |item.value|
      modifies heap.mem, hash`items
      ensures Valid() && Leaks() == old(Leaks())
      ensures forall q | q in old(Img()).blocks && !Reached(old(Img()), q) :: q in Img().blocks && !Reached(Img(), q)
      ensures var bins := old(Bins(Img())); Bins(Img()) == Put(bins, b, i, Overwrite(bins[b][i], item, bins[b][i].cas))
    {
      hide Good, Bins, Heap.Valid, Heap.Blocks, Reached, EntryAt, ItemOk, EntryOf, Linking, NodesOk, WellFormed;
      OverlayAll(Bins(Img())[b][i].value, item.value);
      ghost var s := Img();
      NodeFacts(s, b, i);
      ghost var bins, e := Bins(s), Bins(s)[b][i];
      PutPut(bins, b, i, e.(value := item.value), Overwrite(e, item, e.cas));
      WriteValue(p, 0, item.value, b, i);
      WriteFields(p, item.expiration, item.flags, b, i);
      SameReached(s, Img());
    }

    static lemma SameReached(s: Image, s': Image)
      requires s'.chains == s.chains
      ensures forall p :: Reached(s', p) <==> Reached(s, p)
    {
    }

    static lemma OverlayAll(value: Bytes, data: Bytes)
      ensures |value| == |data| ==> Overlay(value, 0, data) == data
    {
    }

    /** newItem->expire and newItem->flags. */
    method WriteFields(p: nat, expiration: nat, flags: nat, ghost b: nat, ghost i: nat)
      requires Valid() && b < |hash.chains| && i < |hash.chains[b]| && p == hash.chains[b][i]
      modifies hash`items
      ensures Valid() && Leaks() == old(Leaks())
      ensures p in old(hash.items)
      ensures var h := old(hash.items)[p].(expire := expiration, flags := flags);
        Img() == old(Img()).(items := old(Img()).items[p := h])
      ensures var bins := old(Bins(Img()));
        Bins(Img()) == Put(bins, b, i, bins[b][i].(expire := expiration, flags := flags))
    {
      hide Good, Bins, Heap.Valid, Heap.Blocks, Reached, EntryAt;
      ghost var s := Img();
      NodeValue(s, b, i);
      NodeFacts(s, b, i);
      ghost var h := s.items[p].(expire := expiration, flags := flags);
      assert EntryOf(h, s.blocks[p]) == EntryOf(s.items[p], s.blocks[p]).(expire := expiration, flags := flags);
      WriteHeader(p, hash.items[p].(expire := expiration, flags := flags), b, i);
    }

    /** A bucket cut off behind its first i nodes and ended with q. */
    static lemma Truncated(s: Image, s': Image, b: nat, i: nat, q: nat)
      requires Good(s) && b < |s.chains| && i <= |s.chains[b]| && q in s.blocks && !Reached(s, q)
      requires s'.chains == s.chains[b := s.chains[b][..i] + [q]] && s'.blocks == s.blocks
      ensures Leaked(s') == Leaked(s) - {q} + NodesFrom(s.chains[b], i)
    {
      hide Good, NodeOk;
      var chain := s.chains[b];
      ReachedNodes(s);
      assert s'.chains[b][i] == q;
      forall r ensures Reached(s', r) <==> r == q || (Reached(s, r) && r !in NodesFrom(chain, i)) {
        if Reached(s, r) && r !in NodesFrom(chain, i) {
          var c, j :| 0 <= c < |s.chains| && 0 <= j < |s.chains[c]| && s.chains[c][j] == r;
          assert c == b ==> j < i;
          assert s'.chains[c][j] == r;
        }
        if Reached(s', r) && r != q {
          var c, j :| 0 <= c < |s'.chains| && 0 <= j < |s'.chains[c]| && s'.chains[c][j] == r;
          assert s.chains[c][j] == r;
          forall k | i <= k < |chain| ensures chain[k] != r {
            NodesApart(s, b, k, c, j);
          }
        }
      }
      forall r | r in NodesFrom(chain, i) ensures Reached(s, r) && r in s.blocks {
        var k :| i <= k < |chain| && chain[k] == r;
        assert s.chains[b][k] == r;
      }
    }

    static lemma NewKeyBin(chain: seq<Entry>, i: nat, e: Entry, b: nat, n: nat)
      requires n > 0 && BinOk(chain, b, n) && i <= |chain| && BinOf(e.key, n) == b
      requires forall j | 0 <= j < i :: chain[j].key != e.key
      ensures chain[..i] + ([e] + chain[|chain|..]) == chain[..i] + [e] && BinOk(chain[..i] + [e], b, n)
    {
      hide BinOf;
    }

    /** Ends a bucket with a new item at position i; what stood there and behind it is leaked. */
    method LinkNew(h: nat, newItem: nat, previous: nat, ghost i: nat)
      requires Valid()
      requires var b := h % hash.binSize; var e := EntryAt(Img(), newItem);
        && b == BinOf(e.key, hash.binSize)
        && i <= |hash.chains[b]| && previous == (if i == 0 then 0 else hash.chains[b][i - 1])
        && (forall j | 0 <= j < i :: Bins(Img())[b][j].key != e.key)
        && newItem != 0 && newItem in Img().blocks && !Reached(Img(), newItem) && NodeOk(Img(), newItem)
        && newItem in hash.next && hash.next[newItem] == 0
      modifies hash`next, hash`chains, hash.bin
      ensures Valid() && Img().blocks == old(Img()).blocks
      ensures var b := h % hash.binSize; var bins := old(Bins(Img())); var e := old(EntryAt(Img(), newItem));
        && Bins(Img()) == bins[b := bins[b][..i] + [e]]
        && Leaks() == old(Leaks()) - {newItem} + NodesFrom(old(hash.chains)[b], i)
        && NodeOf(Img(), e.key) == Some(newItem)
    {
      hide Good, Bins, Heap.Valid, Heap.Blocks, Reached, EntryOf, EntryAt, NodeOk, BinOk, BinOf, Linking, NodesOk,
        WellFormed, Threaded, NodesFrom, Leaked, NodeOf;
      ghost var b := h % hash.binSize;
      ghost var s := Img();
      ghost var e := EntryAt(s, newItem);
      GoodBin(s, b);
      NewKeyBin(Bins(s)[b], i, e, b, hash.binSize);
      hash.Link(heap, h, newItem, previous, i, |hash.chains[b]|);
      assert s.chains[b][..i] + ([newItem] + s.chains[b][|s.chains[b]|..]) == s.chains[b][..i] + [newItem];
      Truncated(s, Img(), b, i, newItem);
      LastNode(Img(), e.key, b, i);
    }

    /** Allocates, sets up and links a new item. Its next pointer is NULL: whatever follows position i
        of the bucket is neither reachable nor freed afterwards. */
    method InsertNew(h: nat, key: Bytes, item: Item, now: nat, previous: nat, ghost i: nat) returns (ok: bool)
      requires Valid() && InRange(|key|, |item.value|)
      requires var b := h % hash.binSize;
        && b == BinOf(key, hash.binSize)
        && i <= |hash.chains[b]| && previous == (if i == 0 then 0 else hash.chains[b][i - 1])
        && forall j | 0 <= j < i :: Bins(Img())[b][j].key != key
      modifies this`cas, heap, heap.free, heap.mem, hash`items, hash`next, hash`chains, hash.bin
      ensures Valid()
      ensures ok <==> old(heap.CanServe(Need(|key|, |item.value|)))
      ensures !ok ==> Bins(Img()) == old(Bins(Img())) && cas == old(cas) && Leaks() == old(Leaks())
      ensures ok ==>
        var b := h % hash.binSize; var bins := old(Bins(Img()));
        && cas == NextCas(old(cas))
        && Bins(Img()) == bins[b := bins[b][..i] + [Fresh(key, item, old(cas), now)]]
        && Leaks() == old(Leaks()) + NodesFrom(old(hash.chains)[b], i)
        && Carved(old(Mem()), Mem(), key, Need(|key|, |item.value|))
    {
      hide Good, Bins, Heap.Valid, Heap.Blocks, Reached, EntryAt, NodeOk, BinOf, SetupExpire, ItemSize, NodesFrom,
        Leaked, CarvedAt, Need, NodeOf;
      var newItem := NewUnlinked(key, item, now);
      if newItem == 0 {
        return false;
      }
      ok := true;
      ghost var m := Mem();
      LinkNew(h, newItem, previous, i);
      StillCarved(old(Mem()), m, Mem(), newItem, |key|, Need(|key|, |item.value|));
    }

    static lemma StillCarved(m: Memory, m1: Memory, m2: Memory, p: nat, cbKey: nat, n: nat)
      requires CarvedAt(m, m1, p, cbKey, n)
      requires m2.space == m1.space && m2.img.items == m1.img.items && m2.img.blocks == m1.img.blocks
      ensures CarvedAt(m, m2, p, cbKey, n)
    {
    }

    static lemma LastNode(s: Image, key: Bytes, b: nat, i: nat)
      requires |s.chains| > 0 && b == BinOf(key, |s.chains|) && |s.chains[b]| == i + 1 && Bins(s)[b][i].key == key
      requires forall j | 0 <= j < i :: Bins(s)[b][j].key != key
      ensures NodeOf(s, key) == Some(s.chains[b][i])
    {
      hide BinOf;
      FindIs(Bins(s)[b], key, i);
    }

    /** Unlinks an item and frees its block. */
    method RemoveItem(h: nat, item: nat, previous: nat, ghost i: nat)
      requires Valid()
      requires var b := h % hash.binSize;
        i < |hash.chains[b]| && item == hash.chains[b][i] && previous == (if i == 0 then 0 else hash.chains[b][i - 1])
      modifies heap, heap.free, hash`next, hash`chains, hash.bin
      ensures Valid() && Leaks() == old(Leaks())
      ensures var b := h % hash.binSize; var bins := old(Bins(Img()));
        && Bins(Img()) == bins[b := bins[b][..i] + bins[b][i + 1..]]
        && hash.chains == old(hash.chains)[b := old(hash.chains)[b][..i] + old(hash.chains)[b][i + 1..]]
      ensures forall n: nat :: heap.CanServe(n) <==> old(heap.CanServe(n)) || n <= Capacity(old(Img()), item)
    {
      hide Good, Bins, Heap.Valid, Heap.Blocks, Reached, EntryOf, EntryAt, NodeOk, Linking, NodesOk, WellFormed,
        Threaded, BinOf;
      ghost var b := h % hash.binSize;
      ghost var s := Img();
      NodeFacts(s, b, i);
      hash.Unlink(heap, h, item, previous, i);
      Dropped(s, Img(), b, i);
      FreeItem(item);
    }

    static lemma Dropped(s: Image, s': Image, b: nat, i: nat)
      requires Good(s) && b < |s.chains| && i < |s.chains[b]|
      requires s'.chains == s.chains[b := s.chains[b][..i] + s.chains[b][i + 1..]] && s'.blocks == s.blocks
      ensures var p := s.chains[b][i];
        p in s'.blocks && !Reached(s', p) && Leaked(s') == Leaked(s) + {p} && p !in Leaked(s)
    {
      hide Good, NodeOk;
      var p := s.chains[b][i];
      NodeFacts(s, b, i);
      forall r ensures Reached(s', r) <==> Reached(s, r) && r != p {
        if Reached(s', r) {
          var c, j :| 0 <= c < |s'.chains| && 0 <= j < |s'.chains[c]| && s'.chains[c][j] == r;
          var k := if c == b && j >= i then j + 1 else j;
          assert s.chains[c][k] == r;
          NodesApart(s, b, i, c, k);
        }
        if Reached(s, r) && r != p {
          var c, j :| 0 <= c < |s.chains| && 0 <= j < |s.chains[c]| && s.chains[c][j] == r;
          var k := if c == b && j > i then j - 1 else j;
          assert s'.chains[c][k] == r;
        }
      }
    }

    method ProcessExpiration(item: nat, h: nat, previous: nat, now: nat, ghost i: nat) returns (expired: bool)
      requires Valid()
      requires var b := h % hash.binSize;
        i < |hash.chains[b]| && item == hash.chains[b][i] && previous == (if i == 0 then 0 else hash.chains[b][i - 1])
      modifies heap, heap.free, hash`next, hash`chains, hash.bin
      ensures Valid() && Leaks() == old(Leaks())
      ensures expired ==>
        forall n: nat :: heap.CanServe(n) <==> old(heap.CanServe(n)) || n <= Capacity(old(Img()), item)
      ensures var b := h % hash.binSize; var bins := old(Bins(Img()));
        && expired == Expired(bins[b][i], now)
        && (expired ==>
             && Bins(Img()) == bins[b := bins[b][..i] + bins[b][i + 1..]]
             && hash.chains == old(hash.chains)[b := old(hash.chains)[b][..i] + old(hash.chains)[b][i + 1..]])
        && (!expired ==> unchanged(heap) && unchanged(heap.free) && unchanged(hash) && unchanged(hash.bin))
    {
      hide Good, Bins, Heap.Valid, Heap.Blocks, Reached, BinOf, Linking, NodesOk, WellFormed;
      NodeValue(Img(), h % hash.binSize, i);
      if hash.items[item].expire == 0 {
        return false;
      }
      if now <= hash.items[item].expire {
        return false;
      }
      RemoveItem(h, item, previous, i);
      expired := true;
    }

    static lemma StepAt(s: State, c: Call, b: nat, i: nat)
      requires |s.bins| > 0 && b == BinOf(c.op.key, |s.bins|) && i == Engine.Find(s.bins[b], c.op.key)
      ensures var found := if i < |s.bins[b]| then Some(s.bins[b][i]) else None;
        var (eff, reply) := EffectOf(found, s.cas, c);
        && (eff.Rewrite? || eff.Remove? ==> i < |s.bins[b]|)
        && Step(s, c) == (Apply(s, b, i, eff), reply)
        && (eff.Keep? ==> Step(s, c).0 == s)
        && (eff.Skip? ==> Step(s, c).0 == s.(cas := NextCas(s.cas)))
    {
      hide BinOf, EffectOf;
      EffectFacts(Lookup(s, c.op.key), s.cas, c);
      assert s.bins[b := s.bins[b]] == s.bins;
    }

    static lemma NoNodesFromEnd(chain: seq<nat>)
      ensures NodesFrom(chain, |chain|) == {}
    {
    }

    /** Set and add of an absent key: the new item goes to the end of its bucket. */
    method StoreAbsent(op: Op, now: nat, h: nat, previous: nat, ghost i: nat, ghost env: Env) returns (r: Reply)
      requires Valid() && (op.Set? || op.Add?) && InRange(|op.key|, |op.item.value|)
      requires var b := h % hash.binSize;
        && b == BinOf(op.key, hash.binSize)
        && i == Engine.Find(Bins(Img())[b], op.key) == |hash.chains[b]|
        && previous == (if i == 0 then 0 else hash.chains[b][i - 1])
      requires env == Room(Mem(), op.key, |op.item.value|, [])
      modifies this`cas, heap, heap.free, heap.mem, hash`items, hash`next, hash`chains, hash.bin
      ensures Valid() && Leaks() == old(Leaks())
      ensures r == Done(true) ==> Carved(old(Mem()), Mem(), op.key, Need(|op.key|, |op.item.value|))
      ensures (State(), r) == Step(old(State()), Call(op, now, env))
    {
      hide Good, Bins, Heap.Valid, Heap.Blocks, Reached, BinOf, Linking, NodesOk, WellFormed, Threaded, Leaked,
        Outgrows, NodesFrom, ItemSize, Need, SetupExpire, Engine.Find, Grown, Carved;
      StepAt(State(), Call(op, now, env), h % hash.binSize, i);
      NoNodesFromEnd(hash.chains[h % hash.binSize]);
      var ok := InsertNew(h, op.key, op.item, now, previous, i);
      r := Done(ok);
    }

    method Set(key: Bytes, item: Item, now: nat) returns (r: Reply, ghost env: Env)
      requires Valid() && InRange(|key|, |item.value|)
      modifies this`cas, heap, heap.free, heap.mem, hash`items, hash`next, hash`chains, hash.bin
      ensures Valid() && Leaks() == old(Leaks())
      ensures old(Lookup(State(), key)).None? && r == Done(true) ==>
        Carved(old(Mem()), Mem(), key, Need(|key|, |item.value|))
      ensures env == old(Room(Mem(), key, |item.value|, []))
      ensures (State(), r) == Step(old(State()), Call(Op.Set(key, item), now, env))
    {
      hide Good, Bins, Heap.Valid, Heap.Blocks, Reached, BinOf, Linking, NodesOk, WellFormed, Threaded, Leaked,
        Outgrows, NodesFrom, ItemSize, Need, SetupExpire, Engine.Find, Grown, Carved;
      var node, previous, h, i := Locate(key);
      env := Room(Mem(), key, |item.value|, []);
      if node == 0 {
        r := StoreAbsent(Op.Set(key, item), now, h, previous, i, env);
      } else {
        StepAt(State(), Call(Op.Set(key, item), now, env), h % hash.binSize, i);
        var ok := StoreOver(h, node, previous, item, i);
        r := if ok then Done(true) else Fault;
      }
    }

    method Replace(key: Bytes, item: Item, now: nat) returns (r: Reply, ghost env: Env)
      requires Valid() && InRange(|key|, |item.value|)
      modifies this`cas, heap, heap.free, heap.mem, hash`items, hash`next, hash`chains, hash.bin
      ensures Valid() && Leaks() == old(Leaks())
      ensures env == old(Room(Mem(), key, |item.value|, []))
      ensures (State(), r) == Step(old(State()), Call(Op.Replace(key, item), now, env))
    {
      hide Good, Bins, Heap.Valid, Heap.Blocks, Reached, BinOf, Linking, NodesOk, WellFormed, Threaded, Leaked,
        Outgrows, NodesFrom, ItemSize, Need, SetupExpire, Engine.Find, Grown, Capacity, Counted, MovedAppend,
        Overlay, ValueOffset, EntryAt, NodeOk;
      var node, previous, h, i := Locate(key);
      env := Room(Mem(), key, |item.value|, []);
      StepAt(State(), Call(Op.Replace(key, item), now, env), h % hash.binSize, i);
      if node == 0 {
        return Done(false), env;
      }
      var expired := ProcessExpiration(node, h, previous, now, i);
      if expired {
        return Done(false), env;
      }
      var ok := StoreOver(h, node, previous, item, i);
      r := if ok then Done(true) else Fault;
    }

    method Get(key: Bytes, now: nat) returns (r: Reply)
      requires Valid() && |key| < CONFIG_MAX_KEY_LENGTH
      modifies heap, heap.free, hash`next, hash`chains, hash.bin
      ensures Valid() && Leaks() == old(Leaks())
      ensures (State(), r) == Step(old(State()), Call(Op.Get(key), now, ANY_ENV))
    {
      hide Good, Bins, Heap.Valid, Heap.Blocks, Reached, BinOf, Linking, NodesOk, WellFormed, Threaded, Leaked,
        Outgrows, NodesFrom, ItemSize, Need, SetupExpire, Engine.Find, Grown, Capacity, Counted, MovedAppend,
        Overlay, ValueOffset, EntryAt, NodeOk;
      var item, previous, h, i := Locate(key);
      StepAt(State(), Call(Op.Get(key), now, ANY_ENV), h % hash.binSize, i);
      if item == 0 {
        return Miss;
      }
      var expired := ProcessExpiration(item, h, previous, now, i);
      if expired {
        return Miss;
      }
      NodeValue(Img(), h % hash.binSize, i);
      NodeFacts(Img(), h % hash.binSize, i);
      var value := ReadValue(item, h % hash.binSize, i);
      r := Hit(value, hash.items[item].flags, hash.items[item].cas);
    }

    /** The bytes getValuePtr and getValueLen delimit. */
    method ReadValue(p: nat, ghost b: nat, ghost i: nat) returns (value: Bytes)
      requires Valid() && b < |hash.chains| && i < |hash.chains[b]| && p == hash.chains[b][i]
      ensures value == Bins(Img())[b][i].value
    {
      hide Good, Bins, Heap.Valid, Heap.Blocks, Reached;
      NodeValue(Img(), b, i);
      NodeFacts(Img(), b, i);
      value := heap.Read(p, ValueOffset(hash.items[p].cbKey), hash.items[p].cbValue);
    }

    method Del(key: Bytes, now: nat) returns (r: Reply)
      requires Valid() && |key| < CONFIG_MAX_KEY_LENGTH
      modifies heap, heap.free, hash`next, hash`chains, hash.bin
      ensures Valid() && Leaks() == old(Leaks())
      ensures (State(), r) == Step(old(State()), Call(Op.Del(key), now, ANY_ENV))
    {
      hide Good, Bins, Heap.Valid, Heap.Blocks, Reached, BinOf, Linking, NodesOk, WellFormed, Threaded, Leaked,
        Outgrows, NodesFrom, ItemSize, Need, SetupExpire, Engine.Find, Grown;
      var item, previous, h, i := Locate(key);
      StepAt(State(), Call(Op.Del(key), now, ANY_ENV), h % hash.binSize, i);
      if item == 0 {
        return Done(false);
      }
      var expired := ProcessExpiration(item, h, previous, now, i);
      if expired {
        return Done(false);
      }
      NodeValue(Img(), h % hash.binSize, i);
      var expiration := hash.items[item].expire;
      RemoveItem(h, item, previous, i);
      r := Deleted(expiration);
    }

    method Cas(key: Bytes, casUnique: nat, item: Item, now: nat)
      returns (r: Reply, ghost env: Env, ghost leaked: set<nat>)
      requires Valid() && InRange(|key|, |item.value|)
      modifies this`cas, heap, heap.free, heap.mem, hash`items, hash`next, hash`chains, hash.bin
      ensures Valid() && Leaks() == old(Leaks()) + leaked && leaked !! old(Leaks())
      ensures |leaked| == if old(Lookup(State(), key)).None? && env.served then 1 else 0
      ensures env == old(Room(Mem(), key, |item.value|, []))
      ensures (State(), r) == Step(old(State()), Call(Op.Cas(key, casUnique, item), now, env))
    {
      hide Good, Bins, Heap.Valid, Heap.Blocks, Reached, BinOf, Linking, NodesOk, WellFormed, Threaded, Leaked,
        Outgrows, NodesFrom, ItemSize, Need, SetupExpire, Engine.Find, Grown, Fresh;
      var node, previous, h, i := Locate(key);
      env, leaked := Room(Mem(), key, |item.value|, []), {};
      StepAt(State(), Call(Op.Cas(key, casUnique, item), now, env), h % hash.binSize, i);
      if node != 0 {
        NodeValue(Img(), h % hash.binSize, i);
        if hash.items[node].cas != casUnique {
          return Done(false), env, {};
        }
        var ok := StoreOver(h, node, previous, item, i);
        r := if ok then Done(true) else Fault;
      } else {
        var newItem := NewUnlinked(key, item, now);
        if newItem == 0 {
          return Fault, env, {};
        }
        leaked := {newItem};
        r := Done(true);
      }
    }

    /** Allocates and sets up a new item; cas on an absent key leaves it at that, with nothing leading to it. */
    method NewUnlinked(key: Bytes, item: Item, now: nat) returns (newItem: nat)
      requires Valid() && InRange(|key|, |item.value|)
      modifies this`cas, heap, heap.free, heap.mem, hash`items, hash`next
      ensures Valid() && Bins(Img()) == old(Bins(Img())) && hash.chains == old(hash.chains)
      ensures newItem == 0 <==> !old(heap.CanServe(Need(|key|, |item.value|)))
      ensures newItem == 0 ==> cas == old(cas) && Leaks() == old(Leaks())
      ensures newItem != 0 ==> cas == NextCas(old(cas))
      ensures newItem != 0 ==> newItem !in old(Leaks()) && Leaks() == old(Leaks()) + {newItem}
      ensures newItem != 0 ==>
        && newItem in Img().blocks && !Reached(Img(), newItem) && NodeOk(Img(), newItem)
        && EntryAt(Img(), newItem) == Fresh(key, item, old(cas), now)
        && newItem in hash.next && hash.next[newItem] == 0
        && CarvedAt(old(Mem()), Mem(), newItem, |key|, Need(|key|, |item.value|))
    {
      hide Good, Bins, Heap.Valid, Heap.Blocks, Reached, BinOf, Leaked, Need, Fresh, NodeOk, EntryAt, ItemSize;
      newItem := AllocItem(|key|, |item.value|);
      if newItem != 0 {
        LeakedAreLive(old(Img()), newItem);
        var c := GetNextCas();
        Setup(newItem, key, item, c, now);
      }
    }

    static lemma LeakedAreLive(s: Image, p: nat)
      requires p !in s.blocks
      ensures p !in Leaked(s)
    {
    }

    static lemma AddAt(s: Image, key: Bytes, now: nat, n: nat, b: nat, i: nat)
      requires |s.chains| > 0 && b == BinOf(key, |s.chains|) && i == Engine.Find(Bins(s)[b], key)
      ensures Followers(s, key) == NodesFrom(s.chains[b], i + 1)
      ensures i >= |s.chains[b]| ==> Followers(s, key) == {}
      ensures Reclaims(s, key, now, n) <==>
        i < |s.chains[b]| && Expired(Bins(s)[b][i], now) && n <= Capacity(s, s.chains[b][i])
    {
    }

    /** An item's followers in its bucket are not leaked, and there are none exactly at the bucket's tail. */
    lemma BehindIff(key: Bytes)
      requires Valid()
      ensures |State().bins| > 0
      ensures var bin := State().bins[BinOf(key, |State().bins|)];
        && Followers(Img(), key) !! Leaks()
        && (Followers(Img(), key) == {} <==> Engine.Find(bin, key) >= |bin| - 1)
    {
      hide Good, BinOf, NodeOk;
      HasBuckets();
      var s := Img();
      GoodParts(s);
      var b := BinOf(key, |s.chains|);
      var i := Engine.Find(Bins(s)[b], key);
      forall p | p in Followers(s, key) ensures p !in Leaked(s) {
        var k :| i + 1 <= k < |s.chains[b]| && s.chains[b][k] == p;
        NodeNotLeaked(s, b, k);
      }
      if i + 1 < |s.chains[b]| {
        assert s.chains[b][i + 1] in Followers(s, key);
      }
    }

    static lemma CutOffAfterRemoval(chain: seq<nat>, bin: seq<Entry>, i: nat, key: Bytes, e: Entry)
      requires i < |chain| == |bin| && forall j | 0 <= j < i :: bin[j].key != key
      ensures NodesFrom(chain[..i] + chain[i + 1..], i) == NodesFrom(chain, i + 1)
      ensures var rest := bin[..i] + bin[i + 1..];
        rest[..i] + [e] == bin[..i] + [e] && forall j | 0 <= j < i :: rest[j].key != key
    {
      var rest := chain[..i] + chain[i + 1..];
      forall p ensures p in NodesFrom(rest, i) <==> p in NodesFrom(chain, i + 1) {
        if p in NodesFrom(chain, i + 1) {
          var k :| i + 1 <= k < |chain| && chain[k] == p;
          assert rest[k - 1] == p;
        }
      }
    }

    /** Insertion at the position a just removed item had in the buckets `bins` and `chains`. */
    method InsertInGap(h: nat, key: Bytes, item: Item, now: nat, previous: nat, ghost i: nat,
                       ghost bins: seq<seq<Entry>>, ghost chains: seq<seq<nat>>) returns (ok: bool)
      requires Valid() && InRange(|key|, |item.value|)
      requires var b := h % hash.binSize;
        && b == BinOf(key, hash.binSize) && b < |bins| == |chains| && |bins[b]| == |chains[b]|
        && i < |chains[b]| && previous == (if i == 0 then 0 else chains[b][i - 1])
        && Bins(Img()) == bins[b := bins[b][..i] + bins[b][i + 1..]]
        && hash.chains == chains[b := chains[b][..i] + chains[b][i + 1..]]
        && forall j | 0 <= j < i :: bins[b][j].key != key
      modifies this`cas, heap, heap.free, heap.mem, hash`items, hash`next, hash`chains, hash.bin
      ensures Valid()
      ensures ok <==> old(heap.CanServe(Need(|key|, |item.value|)))
      ensures !ok ==> Bins(Img()) == old(Bins(Img())) && cas == old(cas) && Leaks() == old(Leaks())
      ensures ok ==>
        var b := h % hash.binSize;
        && cas == NextCas(old(cas))
        && Bins(Img()) == bins[b := bins[b][..i] + [Fresh(key, item, old(cas), now)]]
        && Leaks() == old(Leaks()) + NodesFrom(chains[b], i + 1)
    {
      hide Good, Bins, Heap.Valid, Heap.Blocks, Reached, BinOf, Linking, NodesOk, WellFormed, Threaded, Leaked,
        Outgrows, NodesFrom, ItemSize, Need, SetupExpire, Engine.Find, Grown, Fresh, Carved;
      ghost var b := h % hash.binSize;
      CutOffAfterRemoval(chains[b], bins[b], i, key, Fresh(key, item, cas, now));
      ok := InsertNew(h, key, item, now, previous, i);
    }

    /** add over an existing item e. */
    method AddOver(h: nat, node: nat, previous: nat, key: Bytes, item: Item, now: nat, ghost b: nat, ghost i: nat,
                   ghost e: Entry)
      returns (r: Reply, ghost env: Env)
      requires Valid() && b == h % hash.binSize == BinOf(key, hash.binSize)
      requires i < |hash.chains[b]| && node == hash.chains[b][i]
      requires previous == if i == 0 then 0 else hash.chains[b][i - 1]
      requires e == Bins(Img())[b][i] && e.key == key && InRange(|key|, |item.value|)
      requires forall j | 0 <= j < i :: Bins(Img())[b][j].key != key
      modifies this`cas, heap, heap.free, heap.mem, hash`items, hash`next, hash`chains, hash.bin
      ensures Valid() && Leaks() == old(Leaks()) + if r == Done(true) then NodesFrom(old(hash.chains)[b], i + 1) else {}
      ensures var n := Need(|key|, |item.value|);
        env.served <==> old(heap.CanServe(n)) || (Expired(e, now) && n <= Capacity(old(Img()), node))
      ensures var (eff, reply) := OnFound(e, old(cas), Call(Op.Add(key, item), now, env));
        && r == reply && !eff.Skip?
        && cas == CasAfter(old(cas), eff)
        && (eff.Keep? ==> Bins(Img()) == old(Bins(Img())))
        && (!eff.Keep? ==> Bins(Img()) == old(Bins(Img()))[b := Bucket(old(Bins(Img()))[b], i, eff)])
    {
      hide Good, Bins, Heap.Valid, Heap.Blocks, Reached, BinOf, Linking, NodesOk, WellFormed, Threaded, Leaked,
        NodesFrom, Need, SetupExpire, Engine.Find, Grown, Outgrows, ItemSize, Fresh;
      ghost var bins, chains := Bins(Img()), hash.chains;
      var expired := ProcessExpiration(node, h, previous, now, i);
      env := Env(heap.CanServe(Need(|key|, |item.value|)), false, []);
      if !expired {
        return Done(false), env;
      }
      var ok := InsertInGap(h, key, item, now, previous, i, bins, chains);
      r := Done(ok);
    }

    /** Over an expired item that is not last in its bucket, everything behind it is lost and leaked. */
    method Add(key: Bytes, item: Item, now: nat) returns (r: Reply, ghost env: Env)
      requires Valid() && InRange(|key|, |item.value|)
      modifies this`cas, heap, heap.free, heap.mem, hash`items, hash`next, hash`chains, hash.bin
      ensures Valid() && Leaks() == old(Leaks()) + if r == Done(true) then Followers(old(Img()), key) else {}
      ensures env.served <==>
        old(heap.CanServe(Need(|key|, |item.value|))) || Reclaims(old(Img()), key, now, Need(|key|, |item.value|))
      ensures (State(), r) == Step(old(State()), Call(Op.Add(key, item), now, env))
    {
      hide Good, Bins, Heap.Valid, Heap.Blocks, Reached, BinOf, Linking, NodesOk, WellFormed, Threaded, Leaked,
        NodesFrom, Need, SetupExpire, Engine.Find, Grown, Outgrows, ItemSize, Fresh, Followers, OnFound, Bucket,
        Reclaims, Capacity;
      var node, previous, h, i := Locate(key);
      ghost var b := h % hash.binSize;
      ghost var was := State();
      AddAt(Img(), key, now, Need(|key|, |item.value|), b, i);
      if node == 0 {
        env := Room(Mem(), key, |item.value|, []);
        r := StoreAbsent(Op.Add(key, item), now, h, previous, i, env);
        return;
      }
      r, env := AddOver(h, node, previous, key, item, now, b, i, was.bins[b][i]);
      StepAt(was, Call(Op.Add(key, item), now, env), b, i);
    }

    /** The old item's value, read before its block is freed. */
    method ReadOldValue(node: nat, ghost s: Image, ghost b: nat, ghost i: nat) returns (value: Bytes)
      requires Valid() && Good(s) && b < |s.chains| && i < |s.chains[b]| && node == s.chains[b][i]
      requires node in Img().blocks && node in hash.items && node in s.blocks && node in s.items
      requires Img().blocks[node] == s.blocks[node] && hash.items[node] == s.items[node]
      ensures value == Bins(s)[b][i].value && |value| == hash.items[node].cbValue
    {
      hide Good, Bins, Heap.Valid, Heap.Blocks, Reached;
      NodeValue(s, b, i);
      NodeFacts(s, b, i);
      value := heap.Read(node, ValueOffset(hash.items[node].cbKey), hash.items[node].cbValue);
    }

    /** In place the tail of the grown value is written; after a move, bytes too near the front. */
    static lemma AppendedBytes(old_: Bytes, grown: Bytes, data: Bytes)
      requires |grown| == |old_| + |data| && forall k | 0 <= k < |old_| :: grown[k] == old_[k]
      ensures Overlay(grown, |old_|, data) == old_ + data
      ensures Overlay(grown, 0, old_) == grown
      ensures |data| <= |old_| ==> Overlay(grown, |old_| - |data|, data) == MovedAppend(old_, data, grown[|old_|..])
    {
      if |data| <= |old_| {
        var r := Overlay(grown, |old_| - |data|, data);
        assert r[|old_|..] == grown[|old_|..];
        assert r[..|old_| - |data|] == old_[..|old_| - |data|];
      }
    }

    /** The byte moves of append, after growAndReplace has turned `node`, the item at position i of bucket b
        in the image s, into `newItem`. The position is computed from the old item's length field, which
        growAndReplace has overwritten if it grew in place. False is a write in front of the value. */
    method AppendBytes(newItem: nat, node: nat, data: Bytes, ghost s: Image, ghost b: nat, ghost i: nat)
      returns (ok: bool)
      requires Valid() && b < |hash.chains| && i < |hash.chains[b]| && newItem == hash.chains[b][i]
      requires Good(s) && b < |s.chains| && i < |s.chains[b]| && node == s.chains[b][i]
      requires node in s.blocks && node in s.items && node in Img().blocks && node in hash.items
      requires newItem != node ==> Img().blocks[node] == s.blocks[node] && hash.items[node] == s.items[node]
      requires var old_, grown := Bins(s)[b][i].value, Bins(Img())[b][i].value;
        |grown| == |old_| + |data| && forall k | 0 <= k < |old_| :: grown[k] == old_[k]
      modifies heap.mem
      ensures Valid() && Leaks() == old(Leaks())
      ensures forall q | !Reached(old(Img()), q) :: !Reached(Img(), q)
      ensures forall q | q in old(Img()).blocks :: q in Img().blocks
      ensures ok <==> newItem == node || |data| <= |Bins(s)[b][i].value|
      ensures ok ==>
        var value, e := Bins(s)[b][i].value, old(Bins(Img()))[b][i];
        Bins(Img()) == Put(old(Bins(Img())), b, i,
          e.(value := if newItem == node then value + data else MovedAppend(value, data, e.value[|value|..])))
    {
      hide Good, Bins, Heap.Valid, Heap.Blocks, Reached, EntryAt, ItemSize, ItemOk;
      ghost var bins := Bins(Img());
      ghost var e: Entry := bins[b][i];
      ghost var old_ := Bins(s)[b][i].value;
      AppendedBytes(old_, e.value, data);
      NodeValue(s, b, i);
      NodeValue(Img(), b, i);
      if newItem != node {
        var oldValue := ReadOldValue(node, s, b, i);
        PutPut(bins, b, i, e, e);
        WriteValue(newItem, 0, oldValue, b, i);
        SamePut(bins, b, i);
      }
      var length := hash.items[node].cbValue;
      if |data| > length {
        return false;
      }
      WriteValue(newItem, length - |data|, data, b, i);
      ok := true;
    }

    static lemma SamePut(bins: seq<seq<Entry>>, b: nat, i: nat)
      requires b < |bins| && i < |bins[b]|
      ensures Put(bins, b, i, bins[b][i]) == bins
    {
      assert bins[b][i := bins[b][i]] == bins[b];
    }

    /** The rest of append after growAndReplace: the bytes, and the old block freed if the item has moved. */
    method FinishAppend(newItem: nat, node: nat, data: Bytes, ghost s: Image, ghost b: nat, ghost i: nat)
      returns (ok: bool)
      requires Valid() && b < |hash.chains| && i < |hash.chains[b]| && newItem == hash.chains[b][i]
      requires Good(s) && b < |s.chains| && i < |s.chains[b]| && node == s.chains[b][i]
      requires node in s.blocks && node in s.items && node in Img().blocks && node in hash.items
      requires newItem != node ==>
        Img().blocks[node] == s.blocks[node] && hash.items[node] == s.items[node] && !Reached(Img(), node)
      requires var old_, grown := Bins(s)[b][i].value, Bins(Img())[b][i].value;
        |grown| == |old_| + |data| && forall k | 0 <= k < |old_| :: grown[k] == old_[k]
      modifies heap, heap.free, heap.mem
      ensures ok <==> newItem == node || |data| <= |Bins(s)[b][i].value|
      ensures ok ==> Valid() && Leaks() == if newItem == node then old(Leaks()) else old(Leaks()) - {node}
      ensures ok ==>
        var value, e := Bins(s)[b][i].value, old(Bins(Img()))[b][i];
        Bins(Img()) == Put(old(Bins(Img())), b, i,
          e.(value := if newItem == node then value + data else MovedAppend(value, data, e.value[|value|..])))
    {
      hide Good, Bins, Heap.Valid, Heap.Blocks, Reached, MovedAppend, Put, Leaked;
      ok := AppendBytes(newItem, node, data, s, b, i);
      if ok && newItem != node {
        FreeItem(node);
      }
    }

    /** append over an existing item e. */
    method AppendOver(h: nat, node: nat, previous: nat, data: Bytes, ghost b: nat, ghost i: nat, ghost e: Entry)
      returns (r: Reply, ghost env: Env)
      requires Valid() && b == h % hash.binSize && i < |hash.chains[b]| && node == hash.chains[b][i]
      requires previous == if i == 0 then 0 else hash.chains[b][i - 1]
      requires e == Bins(Img())[b][i] && InRange(|e.key|, |data| + |e.value|)
      modifies this`cas, heap, heap.free, heap.mem, hash`items, hash`next, hash`chains, hash.bin
      ensures node in old(Img()).blocks && node in old(Img()).items && |env.junk| == |data|
      ensures var n := |data| + |e.value|;
        env == Env(old(heap.CanServe(Need(|e.key|, n))), Outgrows(old(Img()), node, n), env.junk)
      ensures env.moved && env.served ==> exists newItem, value ::
        && Transplanted(old(Mem()), node, newItem, value)
        && |value| == |e.value| + |data| && value[|e.value|..] == env.junk
      ensures var (eff, reply) := OnFound(e, old(cas), Call(Op.Append(e.key, data), 0, env));
        && r == reply
        && (r != Fault ==> Valid() && Leaks() == old(Leaks()) && cas == NextCas(old(cas)))
        && (r != Fault ==> eff.Rewrite? && Bins(Img()) == Put(old(Bins(Img())), b, i, eff.e))
    {
      hide Good, Bins, Heap.Valid, Heap.Blocks, Reached, BinOf, Linking, NodesOk, WellFormed, Threaded, Leaked,
        NodesFrom, Need, SetupExpire, Engine.Find, Grown, Outgrows, ItemSize, EntryAt, MovedAppend, Heap.CanServe,
        Counted, Overlay, Fresh, Overwrite, Transplanted, Mem, Expired, InRange, StateOf, State, ValueOffset;
      ghost var s, c := Img(), cas;
      NodeFacts(s, b, i);
      NodeValue(s, b, i);
      NodeNotLeaked(s, b, i);
      env := Env(heap.CanServe(Need(|e.key|, |data| + |e.value|)), Outgrows(Img(), node, |data| + |e.value|), data);
      var newItem := GrowAndReplace(h, node, previous, |data| + hash.items[node].cbValue, i);
      if newItem == 0 {
        return Fault, env;
      }
      ghost var grown: Entry := EntryAt(Img(), newItem);
      GrownValue(e, grown, |data| + |e.value|, c);
      env := env.(junk := grown.value[|e.value|..]);
      PutPut(Bins(s), b, i, grown, grown);
      NodeFacts(Img(), b, i);
      var ok := FinishAppend(newItem, node, data, s, b, i);
      if !ok {
        return Fault, env;
      }
      PutPut(Bins(s), b, i, grown, Bins(Img())[b][i]);
      r := Done(true);
    }

    method Append(key: Bytes, data: Bytes) returns (r: Reply, ghost env: Env)
      requires Valid() && InRange(|key|, |data| + Length(State(), key))
      modifies this`cas, heap, heap.free, heap.mem, hash`items, hash`next, hash`chains, hash.bin
      ensures env == old(Room(Mem(), key, |data| + Length(State(), key), env.junk)) && |env.junk| == |data|
      ensures env.moved && env.served ==> old(LeftBehind(Mem(), key, Length(State(), key), env.junk))
      ensures r == Step(old(State()), Call(Op.Append(key, data), 0, env)).1
      ensures r != Fault ==> Valid() && Leaks() == old(Leaks())
      ensures r != Fault ==> State() == Step(old(State()), Call(Op.Append(key, data), 0, env)).0
    {
      hide Good, Bins, Heap.Valid, Heap.Blocks, Reached, BinOf, Linking, NodesOk, WellFormed, Threaded, Leaked,
        NodesFrom, Need, SetupExpire, Engine.Find, Grown, Outgrows, ItemSize, EntryAt, OnFound, Transplanted;
      var node, previous, h, i := Locate(key);
      ghost var b := h % hash.binSize;
      ghost var was := State();
      if node == 0 {
        env := Room(Mem(), key, |data| + Length(State(), key), data);
        r := Done(false);
      } else {
        r, env := AppendOver(h, node, previous, data, b, i, was.bins[b][i]);
      }
      StepAt(was, Call(Op.Append(key, data), 0, env), b, i);
    }

    static lemma NodeNotLeaked(s: Image, b: nat, i: nat)
      requires Good(s) && b < |s.chains| && i < |s.chains[b]|
      ensures s.chains[b][i] !in Leaked(s)
    {
      hide Good;
      NodeFacts(s, b, i);
    }

    static lemma GrownValue(e: Entry, e': Entry, n: nat, c: nat)
      requires Grown(e, e', n, c)
      ensures e' == e.(value := e'.value, cas := c) && |e'.value| == n
      ensures forall k | 0 <= k < |e.value| && k < n :: e'.value[k] == e.value[k]
    {
    }

    static lemma PrependedBytes(old_: Bytes, grown: Bytes, data: Bytes)
      requires |grown| == |old_| + |data|
      ensures Overlay(Overlay(grown, |data|, old_), 0, data) == data + old_
      ensures (forall k | 0 <= k < |old_| :: grown[k] == old_[k]) ==> grown[..|old_|] == old_
    {
    }

    /** The byte moves of prepend: the old value is shifted up inside the block or copied over from the
        old block, and the data goes in front. */
    method PrependBytes(newItem: nat, node: nat, data: Bytes, ghost s: Image, ghost b: nat, ghost i: nat)
      requires Valid() && b < |hash.chains| && i < |hash.chains[b]| && newItem == hash.chains[b][i]
      requires Good(s) && b < |s.chains| && i < |s.chains[b]| && node == s.chains[b][i]
      requires node in s.blocks && node in s.items && node in Img().blocks && node in hash.items
      requires newItem != node ==> Img().blocks[node] == s.blocks[node] && hash.items[node] == s.items[node]
      requires var old_, grown := Bins(s)[b][i].value, Bins(Img())[b][i].value;
        |grown| == |old_| + |data| && forall k | 0 <= k < |old_| :: grown[k] == old_[k]
      modifies heap.mem
      ensures Valid() && Leaks() == old(Leaks())
      ensures forall q | !Reached(old(Img()), q) :: !Reached(Img(), q)
      ensures forall q | q in old(Img()).blocks :: q in Img().blocks
      ensures var e := old(Bins(Img()))[b][i];
        Bins(Img()) == Put(old(Bins(Img())), b, i, e.(value := data + Bins(s)[b][i].value))
    {
      hide Good, Bins, Heap.Valid, Heap.Blocks, Reached, EntryAt, ItemSize, ItemOk;
      ghost var bins := Bins(Img());
      ghost var e: Entry := bins[b][i];
      ghost var old_ := Bins(s)[b][i].value;
      PrependedBytes(old_, e.value, data);
      NodeValue(s, b, i);
      NodeValue(Img(), b, i);
      var kept;
      if newItem == node {
        var value := ReadValue(newItem, b, i);
        kept := value[..|value| - |data|];
      } else {
        kept := ReadOldValue(node, s, b, i);
      }
      PutPut(bins, b, i, e.(value := Overlay(e.value, |data|, old_)), e.(value := data + old_));
      WriteValue(newItem, |data|, kept, b, i);
      WriteValue(newItem, 0, data, b, i);
    }

    /** prepend over an existing item e. */
    method PrependOver(h: nat, node: nat, previous: nat, data: Bytes, ghost b: nat, ghost i: nat, ghost e: Entry)
      returns (r: Reply, ghost env: Env)
      requires Valid() && b == h % hash.binSize && i < |hash.chains[b]| && node == hash.chains[b][i]
      requires previous == if i == 0 then 0 else hash.chains[b][i - 1]
      requires e == Bins(Img())[b][i] && InRange(|e.key|, |data| + |e.value|)
      modifies this`cas, heap, heap.free, heap.mem, hash`items, hash`next, hash`chains, hash.bin
      ensures Valid() && Leaks() == old(Leaks())
      ensures node in old(Img()).blocks && node in old(Img()).items
      ensures var n := |data| + |e.value|;
        env == Env(old(heap.CanServe(Need(|e.key|, n))), Outgrows(old(Img()), node, n), [])
      ensures var (eff, reply) := OnFound(e, old(cas), Call(Op.Prepend(e.key, data), 0, env));
        && r == reply && (eff.Rewrite? || eff.Keep?)
        && cas == CasAfter(old(cas), eff)
        && Bins(Img()) == if eff.Rewrite? then Put(old(Bins(Img())), b, i, eff.e) else old(Bins(Img()))
    {
      hide Good, Bins, Heap.Valid, Heap.Blocks, Reached, BinOf, Linking, NodesOk, WellFormed, Threaded, Leaked,
        NodesFrom, Need, SetupExpire, Engine.Find, Grown, Outgrows, ItemSize, EntryAt, Capacity, Counted,
        MovedAppend, ValueOffset, NodeOk, Heap.CanServe, Transplanted, Mem;
      ghost var s, c := Img(), cas;
      NodeFacts(s, b, i);
      NodeValue(s, b, i);
      NodeNotLeaked(s, b, i);
      env := Env(heap.CanServe(Need(|e.key|, |data| + |e.value|)), Outgrows(Img(), node, |data| + |e.value|), []);
      var newItem := GrowAndReplace(h, node, previous, |data| + hash.items[node].cbValue, i);
      if newItem == 0 {
        return Fault, env;
      }
      ghost var grown: Entry := EntryAt(Img(), newItem);
      GrownValue(e, grown, |data| + |e.value|, c);
      PutPut(Bins(s), b, i, grown, e.(value := data + e.value, cas := c));
      NodeFacts(Img(), b, i);
      PrependBytes(newItem, node, data, s, b, i);
      if newItem != node {
        FreeItem(node);
      }
      r := Done(true);
    }

    method Prepend(key: Bytes, data: Bytes) returns (r: Reply, ghost env: Env)
      requires Valid() && InRange(|key|, |data| + Length(State(), key))
      modifies this`cas, heap, heap.free, heap.mem, hash`items, hash`next, hash`chains, hash.bin
      ensures Valid() && Leaks() == old(Leaks())
      ensures env == old(Room(Mem(), key, |data| + Length(State(), key), []))
      ensures (State(), r) == Step(old(State()), Call(Op.Prepend(key, data), 0, env))
    {
      hide Good, Bins, Heap.Valid, Heap.Blocks, Reached, BinOf, Linking, NodesOk, WellFormed, Threaded, Leaked,
        NodesFrom, Need, SetupExpire, Engine.Find, Grown, Outgrows, ItemSize, EntryAt, OnFound;
      var node, previous, h, i := Locate(key);
      ghost var b := h % hash.binSize;
      ghost var was := State();
      if node == 0 {
        env := Room(Mem(), key, |data| + Length(State(), key), []);
        r := Done(false);
      } else {
        r, env := PrependOver(h, node, previous, data, b, i, was.bins[b][i]);
      }
      StepAt(was, Call(Op.Prepend(key, data), 0, env), b, i);
    }

    /** Shortening a value in place. */
    static lemma Shortened(h: Header, block: Bytes, n: nat)
      requires ItemOk(h, block) && n <= h.cbValue
      ensures ItemOk(h.(cbValue := n), block)
      ensures EntryOf(h.(cbValue := n), block) == EntryOf(h, block).(value := EntryOf(h, block).value[..n])
    {
      hide Pad, Align8;
      var v := ValueOffset(h.cbKey);
      assert block[v..v + h.cbValue][..n] == block[v..v + n];
    }

    static lemma CounterInRange(cbKey: nat)
      requires cbKey < CONFIG_MAX_KEY_LENGTH
      ensures InRange(cbKey, MAX_DIGITS)
    {
    }

    /** Puts the decimal text of a number at the front of a value of at least 20 bytes and cuts the value there. */
    method WriteNumber(p: nat, v: nat, ghost b: nat, ghost i: nat)
      requires Valid() && b < |hash.chains| && i < |hash.chains[b]| && p == hash.chains[b][i]
      requires v < U64 && |Bins(Img())[b][i].value| == MAX_DIGITS
      modifies heap.mem, hash`items
      ensures Valid() && Leaks() == old(Leaks())
      ensures var e := old(Bins(Img()))[b][i]; Bins(Img()) == Put(old(Bins(Img())), b, i, e.(value := Text(v)))
    {
      hide Good, Bins, Heap.Valid, Heap.Blocks, Reached, EntryAt, ItemOk, EntryOf, Text;
      ghost var bins := Bins(Img());
      ghost var e: Entry := bins[b][i];
      var buffer := new Byte[MAX_DIGITS];
      var n := IntegerToString(v, buffer);
      ghost var written := e.(value := Overlay(e.value, 0, Text(v)));
      PutPut(bins, b, i, written, e.(value := Text(v)));
      WriteValue(p, 0, buffer[..n], b, i);
      NodeValue(Img(), b, i);
      Shortened(hash.items[p], Img().blocks[p], n);
      assert written.value[..n] == Text(v);
      WriteHeader(p, hash.items[p].(cbValue := n), b, i);
    }

    /** incrementDecrement over an existing item e; after a move the old block is never freed. */
    method CountOver(h: nat, node: nat, previous: nat, amount: int, ghost b: nat, ghost i: nat, ghost e: Entry)
      returns (ok: bool)
      requires Valid() && b == h % hash.binSize && i < |hash.chains[b]| && node == hash.chains[b][i]
      requires previous == if i == 0 then 0 else hash.chains[b][i - 1]
      requires e == Bins(Img())[b][i] && |e.key| < CONFIG_MAX_KEY_LENGTH
      modifies this`cas, heap, heap.free, heap.mem, hash`items, hash`next, hash`chains, hash.bin
      ensures Valid() && node in old(Img()).blocks && node in old(Img()).items
      ensures ok <==> !Outgrows(old(Img()), node, MAX_DIGITS) || old(heap.CanServe(Need(|e.key|, MAX_DIGITS)))
      ensures Leaks() == old(Leaks()) + (if ok && Outgrows(old(Img()), node, MAX_DIGITS) then {node} else {})
      ensures !ok ==> Bins(Img()) == old(Bins(Img())) && cas == old(cas)
      ensures ok ==> cas == NextCas(old(cas))
      ensures ok ==> Bins(Img()) == Put(old(Bins(Img())), b, i, e.(value := Counted(e.value, amount), cas := old(cas)))
    {
      hide Good, Bins, Heap.Valid, Heap.Blocks, Reached, BinOf, Linking, NodesOk, WellFormed, Threaded, Leaked,
        NodesFrom, Need, SetupExpire, Engine.Find, Grown, Outgrows, ItemSize, EntryAt, Text, Parse, Wrap64;
      ghost var s, c := Img(), cas;
      CounterInRange(|e.key|);
      NodeFacts(s, b, i);
      var text := ReadValue(node, b, i);
      var value := StringToInteger(text);
      value := Wrap64(value + amount);
      WordBound(Parse(text) + amount);
      var newItem := GrowAndReplace(h, node, previous, MAX_DIGITS, i);
      if newItem == 0 {
        return false;
      }
      ghost var grown: Entry := EntryAt(Img(), newItem);
      GrownValue(e, grown, MAX_DIGITS, c);
      PutPut(Bins(s), b, i, grown, e.(value := Text(value), cas := c));
      WriteNumber(newItem, value, b, i);
      ok := true;
    }

    static lemma WordBound(x: int)
      ensures Wrap64(x) < U64
    {
    }

    /** incr and decr. */
    method IncrementDecrement(op: Op) returns (r: Reply, ghost env: Env, ghost leaked: set<nat>)
      requires Valid() && (op.Incr? || op.Decr?) && |op.key| < CONFIG_MAX_KEY_LENGTH
      modifies this`cas, heap, heap.free, heap.mem, hash`items, hash`next, hash`chains, hash.bin
      ensures Valid() && Leaks() == old(Leaks()) + leaked && leaked !! old(Leaks())
      ensures |leaked| == if r == Done(true) && env.moved then 1 else 0
      ensures env == old(Room(Mem(), op.key, MAX_DIGITS, []))
      ensures (State(), r) == Step(old(State()), Call(op, 0, env))
    {
      hide Good, Bins, Heap.Valid, Heap.Blocks, Reached, BinOf, Linking, NodesOk, WellFormed, Threaded, Leaked,
        NodesFrom, Need, SetupExpire, Engine.Find, Grown, Outgrows, ItemSize, EntryAt, Counted, Capacity,
        MovedAppend, Overlay, ValueOffset, NodeOk, Parse, Text, StoreNew, Overwrite;
      var node, previous, h, i := Locate(op.key);
      ghost var b := h % hash.binSize;
      ghost var was := State();
      env, leaked := Room(Mem(), op.key, MAX_DIGITS, []), {};
      StepAt(was, Call(op, 0, env), b, i);
      if node == 0 {
        return Done(false), env, {};
      }
      NodeNotLeaked(Img(), b, i);
      var amount := if op.Incr? then op.amount else 0 - op.amount;
      var ok := CountOver(h, node, previous, amount, b, i, was.bins[b][i]);
      leaked := if ok && env.moved then {node} else {};
      r := if ok then Done(true) else Fault;
    }
  }
}
