/** Hash items in memory: headers, key and value bytes inside heap blocks, and bucket
    chains of block addresses. `Bins` reads the bucket chains of entries off an image. */
module Table {
  import opened Base
  import opened Chain
  import opened KeyHash
  import opened Engine

  /** sizeof(HashItem): the header in front of an item's key. */
  const ITEM := 32

  datatype Header = Header(cbKey: nat, cbValue: nat, cas: nat, flags: nat, expire: nat)

  /** Everything the table is made of: the heap's live blocks, the item headers and next pointers by
      address, the bin array, and the addresses in each bucket from head to tail. */
  datatype Image = Image(blocks: map<nat, Bytes>, items: map<nat, Header>, next: map<nat, nat>,
                         bin: seq<nat>, chains: seq<seq<nat>>)

  /** Where an item's value starts in its block. */
  function ValueOffset(cbKey: nat): nat {
    ITEM + Align8(cbKey)
  }

  /** HashItem::getSize. */
  function ItemSize(cbKey: nat, cbValue: nat): nat {
    ValueOffset(cbKey) + cbValue
  }

  predicate ItemOk(h: Header, block: Bytes) {
    && h.cbKey < CONFIG_MAX_KEY_LENGTH
    && ItemSize(h.cbKey, h.cbValue) <= |block| < 0x10_0000
    && block[ITEM..ValueOffset(h.cbKey)] == Pad(block[ITEM..ITEM + h.cbKey])
  }

  function EntryOf(h: Header, block: Bytes): Entry
    requires ItemOk(h, block)
  {
    var v := ValueOffset(h.cbKey);
    Entry(block[ITEM..ITEM + h.cbKey], block[v..v + h.cbValue], h.cas, h.flags, h.expire)
  }

  predicate NodeOk(s: Image, p: nat) {
    p in s.blocks && p in s.items && ItemOk(s.items[p], s.blocks[p])
  }

  function EntryAt(s: Image, p: nat): Entry {
    if NodeOk(s, p) then EntryOf(s.items[p], s.blocks[p]) else Entry([], [], 0, 0, 0)
  }

  function Entries(s: Image, xs: seq<nat>): (r: seq<Entry>)
    ensures |r| == |xs|
    ensures forall i | 0 <= i < |xs| :: r[i] == EntryAt(s, xs[i])
  {
    seq(|xs|, i requires 0 <= i < |xs| => EntryAt(s, xs[i]))
  }

  function Bins(s: Image): (r: seq<seq<Entry>>)
    ensures |r| == |s.chains|
    ensures forall b | 0 <= b < |s.chains| :: r[b] == Entries(s, s.chains[b])
  {
    seq(|s.chains|, b requires 0 <= b < |s.chains| => Entries(s, s.chains[b]))
  }

  function StateOf(s: Image, cas: nat): State {
    State(Bins(s), cas)
  }

  ghost predicate Linking(s: Image) {
    && |s.bin| == |s.chains| > 0
    && forall b | 0 <= b < |s.chains| :: Threaded(s.bin[b], s.chains[b], s.next)
  }

  ghost predicate NodesOk(s: Image) {
    && (forall b, i | 0 <= b < |s.chains| && 0 <= i < |s.chains[b]| :: NodeOk(s, s.chains[b][i]))
    && (forall p | p in s.blocks :: |s.blocks[p]| < 0x10_0000)
  }

  ghost predicate Good(s: Image) {
    Linking(s) && NodesOk(s) && WellFormed(StateOf(s, 0))
  }

  ghost predicate Reached(s: Image, p: nat) {
    exists b, i :: 0 <= b < |s.chains| && 0 <= i < |s.chains[b]| && s.chains[b][i] == p
  }

  /** Live blocks that no bucket leads to. */
  ghost function Leaked(s: Image): set<nat> {
    set p | p in s.blocks && !Reached(s, p)
  }

  /** Buckets are acyclic and share no node. */
  lemma NodeInOnePlace(s: Image, b: nat, i: nat, c: nat, j: nat)
    requires Good(s) && b < |s.chains| && i < |s.chains[b]| && c < |s.chains| && j < |s.chains[c]|
    requires s.chains[b][i] == s.chains[c][j]
    ensures b == c && i == j
  {
    hide BinOf, EntryAt;
    var st := StateOf(s, 0);
    assert st.bins[b][i] == st.bins[c][j];
    assert BinOk(st.bins[b], b, |st.bins|) && BinOk(st.bins[c], c, |st.bins|);
  }

  lemma NodesApart(s: Image, b: nat, i: nat, c: nat, j: nat)
    requires Good(s) && b < |s.chains| && i < |s.chains[b]| && c < |s.chains| && j < |s.chains[c]|
    requires b != c || i != j
    ensures s.chains[b][i] != s.chains[c][j]
  {
    hide Good;
    if s.chains[b][i] == s.chains[c][j] {
      NodeInOnePlace(s, b, i, c, j);
    }
  }

  lemma ChainNoDup(s: Image, b: nat)
    requires Good(s) && b < |s.chains|
    ensures NoDup(s.chains[b])
  {
    hide Good;
    forall i, j | 0 <= i < j < |s.chains[b]| ensures s.chains[b][i] != s.chains[b][j] {
      NodesApart(s, b, i, b, j);
    }
  }

  /** Each bucket's nodes are items of that bucket, in live blocks that are big enough. */
  lemma NodeFacts(s: Image, b: nat, i: nat)
    requires Good(s) && b < |s.chains| && i < |s.chains[b]|
    ensures var p := s.chains[b][i];
      && p != 0 && p in s.blocks && p in s.items && p in s.next && NodeOk(s, p) && Reached(s, p)
      && s.next[p] == At(s.chains[b], i + 1)
      && ItemSize(s.items[p].cbKey, s.items[p].cbValue) <= |s.blocks[p]|
      && BinOf(EntryOf(s.items[p], s.blocks[p]).key, |s.chains|) == b
  {
    hide BinOf, EntryOf;
    var st := StateOf(s, 0);
    assert BinOk(st.bins[b], b, |st.bins|);
    assert st.bins[b][i] == EntryAt(s, s.chains[b][i]);
  }

  /** Changes that no bucket can see: to blocks, headers and pointers of unreached addresses. */
  lemma UnseenChange(s: Image, s': Image)
    requires Good(s) && s'.bin == s.bin && s'.chains == s.chains
    requires forall p | Reached(s, p) ::
      && p in s'.blocks && p in s'.items && p in s'.next
      && (p in s.blocks ==> s'.blocks[p] == s.blocks[p])
      && (p in s.items ==> s'.items[p] == s.items[p]) && (p in s.next ==> s'.next[p] == s.next[p])
    requires forall p | p in s'.blocks :: |s'.blocks[p]| < 0x10_0000
    ensures Good(s') && Bins(s') == Bins(s)
  {
    hide BinOf, ItemOk, EntryOf;
    forall b, i | 0 <= b < |s.chains| && 0 <= i < |s.chains[b]|
      ensures NodeOk(s', s.chains[b][i]) && EntryAt(s', s.chains[b][i]) == EntryAt(s, s.chains[b][i])
      ensures s.chains[b][i] != 0 && s'.next[s.chains[b][i]] == s.next[s.chains[b][i]]
    {
      assert Reached(s, s.chains[b][i]);
      assert NodeOk(s, s.chains[b][i]);
    }
    SameBins(s, s');
    assert Linking(s') by {
      hide Reached, NodesOk, WellFormed;
      forall b | 0 <= b < |s.chains| ensures Threaded(s.bin[b], s.chains[b], s'.next) {
        assert Threaded(s.bin[b], s.chains[b], s.next);
        forall i | 0 <= i < |s.chains[b]| ensures Reached(s, s.chains[b][i]) {
        }
      }
    }
  }

  lemma SameBins(s: Image, s': Image)
    requires s'.chains == s.chains
    requires forall b, i | 0 <= b < |s.chains| && 0 <= i < |s.chains[b]| ::
      EntryAt(s', s.chains[b][i]) == EntryAt(s, s.chains[b][i])
    ensures Bins(s') == Bins(s)
  {
    hide EntryAt;
    forall b | 0 <= b < |s.chains| ensures Bins(s')[b] == Bins(s)[b] {
      assert Entries(s', s.chains[b]) == Entries(s, s.chains[b]);
    }
  }

  /** Rewriting the item at position i of bucket b, header and bytes, without changing its key. */
  lemma ItemRewritten(s: Image, b: nat, i: nat, h: Header, block: Bytes, s': Image)
    requires Good(s) && b < |s.chains| && i < |s.chains[b]|
    requires ItemOk(h, block) && EntryOf(h, block).key == EntryAt(s, s.chains[b][i]).key
    requires var p := s.chains[b][i]; s' == s.(items := s.items[p := h], blocks := s.blocks[p := block])
    ensures Good(s') && Bins(s') == Put(Bins(s), b, i, EntryOf(h, block))
  {
    hide BinOf, ItemOk, EntryOf, Good;
    var p := s.chains[b][i];
    NodeFacts(s, b, i);
    var bins' := Put(Bins(s), b, i, EntryOf(h, block));
    forall c | 0 <= c < |s.chains| ensures Bins(s')[c] == bins'[c] {
      forall j | 0 <= j < |s.chains[c]| ensures EntryAt(s', s.chains[c][j]) == bins'[c][j] {
        if s.chains[c][j] == p {
          NodeInOnePlace(s, b, i, c, j);
        }
      }
    }
    assert Bins(s') == bins';
    RewriteKeepsGood(s, b, i, h, block, s');
  }

  lemma RewriteKeepsGood(s: Image, b: nat, i: nat, h: Header, block: Bytes, s': Image)
    requires Good(s) && b < |s.chains| && i < |s.chains[b]|
    requires ItemOk(h, block) && EntryOf(h, block).key == EntryAt(s, s.chains[b][i]).key
    requires var p := s.chains[b][i]; s' == s.(items := s.items[p := h], blocks := s.blocks[p := block])
    requires Bins(s') == Put(Bins(s), b, i, EntryOf(h, block))
    ensures Good(s')
  {
    hide BinOf, EntryOf, EntryAt, Bins, Linking;
    var st := StateOf(s, 0);
    assert BinOk(st.bins[b], b, |st.bins|);
    BinReplaced(st, b, st.bins[b][i := EntryOf(h, block)]);
    assert Linking(s') by {
      LinkingIgnoresItems(s, s');
    }
    forall c, j | 0 <= c < |s.chains| && 0 <= j < |s.chains[c]| ensures NodeOk(s', s.chains[c][j]) {
      assert NodeOk(s, s.chains[c][j]);
    }
  }

  lemma LinkingIgnoresItems(s: Image, s': Image)
    requires Linking(s) && s'.bin == s.bin && s'.chains == s.chains && s'.next == s.next
    ensures Linking(s')
  {
  }

  /** The buckets with the entry at position i of bucket b replaced. */
  function Put(bins: seq<seq<Entry>>, b: nat, i: nat, e: Entry): seq<seq<Entry>>
    requires b < |bins| && i < |bins[b]|
  {
    bins[b := bins[b][i := e]]
  }

  lemma PutPut(bins: seq<seq<Entry>>, b: nat, i: nat, e: Entry, e': Entry)
    requires b < |bins| && i < |bins[b]|
    ensures |Put(bins, b, i, e)| == |bins| && |Put(bins, b, i, e)[b]| == |bins[b]| && Put(bins, b, i, e)[b][i] == e
    ensures Put(Put(bins, b, i, e), b, i, e') == Put(bins, b, i, e')
  {
    assert bins[b][i := e][i := e'] == bins[b][i := e'];
  }

  lemma BinReplaced(st: State, b: nat, chain: seq<Entry>)
    requires WellFormed(st) && b < |st.bins| && BinOk(chain, b, |st.bins|)
    ensures WellFormed(State(st.bins[b := chain], st.cas)) && WellFormed(State(st.bins[b := chain], 0))
  {
    hide BinOf, BinOk;
  }

  /** The image after bucket b has been cut behind its first i nodes and continued with `tail`. */
  function Spliced(s: Image, b: nat, i: nat, target: nat, tail: seq<nat>): Image
    requires b < |s.chains| == |s.bin| && i <= |s.chains[b]|
  {
    s.(bin := s.bin[b := HeadAfter(s.bin[b], i, target)],
       next := NextAfter(s.next, s.chains[b], i, target),
       chains := s.chains[b := s.chains[b][..i] + tail])
  }

  lemma SpliceImage(s: Image, b: nat, i: nat, target: nat, tail: seq<nat>)
    requires Good(s) && b < |s.chains| && i <= |s.chains[b]|
    requires Threaded(target, tail, s.next) && (i > 0 ==> s.chains[b][i - 1] !in tail)
    requires forall k | 0 <= k < |tail| :: NodeOk(s, tail[k])
    requires BinOk(Bins(s)[b][..i] + Entries(s, tail), b, |s.chains|)
    ensures Good(Spliced(s, b, i, target, tail))
    ensures Bins(Spliced(s, b, i, target, tail)) == Bins(s)[b := Bins(s)[b][..i] + Entries(s, tail)]
  {
    hide BinOf, ItemOk, EntryOf, Threaded;
    var s' := Spliced(s, b, i, target, tail);
    SplicedBins(s, b, i, target, tail);
    SplicedLinking(s, b, i, target, tail);
    BinReplaced(StateOf(s, 0), b, Bins(s)[b][..i] + Entries(s, tail));
    forall c, j | 0 <= c < |s'.chains| && 0 <= j < |s'.chains[c]| ensures NodeOk(s', s'.chains[c][j]) {
      if c == b && j >= i {
        assert s'.chains[b][j] == tail[j - i];
      } else {
        assert NodeOk(s, s.chains[c][j]);
      }
    }
  }

  lemma SplicedBins(s: Image, b: nat, i: nat, target: nat, tail: seq<nat>)
    requires b < |s.chains| == |s.bin| && i <= |s.chains[b]|
    ensures Bins(Spliced(s, b, i, target, tail)) == Bins(s)[b := Bins(s)[b][..i] + Entries(s, tail)]
  {
    hide ItemOk, EntryOf;
    var s' := Spliced(s, b, i, target, tail);
    assert forall p :: EntryAt(s', p) == EntryAt(s, p);
    assert Entries(s', s'.chains[b]) == Entries(s, s.chains[b])[..i] + Entries(s, tail);
    forall c | 0 <= c < |s.chains| && c != b ensures Bins(s')[c] == Bins(s)[c] {
      assert Entries(s', s.chains[c]) == Entries(s, s.chains[c]);
    }
  }

  lemma SplicedLinking(s: Image, b: nat, i: nat, target: nat, tail: seq<nat>)
    requires Good(s) && b < |s.chains| && i <= |s.chains[b]|
    requires Threaded(target, tail, s.next) && (i > 0 ==> s.chains[b][i - 1] !in tail)
    ensures Linking(Spliced(s, b, i, target, tail))
  {
    hide Good, Threaded;
    GoodParts(s);
    var s' := Spliced(s, b, i, target, tail);
    ChainNoDup(s, b);
    SpliceThreaded(s.bin[b], s.chains[b], s.next, i, target, tail);
    forall c | 0 <= c < |s.chains| && c != b ensures Threaded(s.bin[c], s.chains[c], s'.next) {
      if i > 0 {
        var prev := s.chains[b][i - 1];
        forall j | 0 <= j < |s.chains[c]| ensures s.chains[c][j] != prev {
          NodesApart(s, b, i - 1, c, j);
        }
        ThreadedFrame(s.bin[c], s.chains[c], s.next, prev, target);
      }
    }
  }

  lemma GoodParts(s: Image)
    requires Good(s)
    ensures Linking(s) && NodesOk(s) && WellFormed(StateOf(s, 0)) && |s.bin| == |s.chains| > 0
  {
  }

  lemma SuffixEntries(s: Image, b: nat, j: nat)
    requires Good(s) && b < |s.chains| && j <= |s.chains[b]|
    ensures Entries(s, s.chains[b][j..]) == Bins(s)[b][j..]
    ensures forall k | 0 <= k < |s.chains[b][j..]| :: NodeOk(s, s.chains[b][j..][k])
    ensures |s.bin| == |s.chains| && Threaded(At(s.chains[b], j), s.chains[b][j..], s.next)
  {
    hide NodeOk, EntryAt, WellFormed;
    SuffixThreaded(s.bin[b], s.chains[b], s.next, j);
    forall k | 0 <= k < |s.chains[b][j..]| ensures NodeOk(s, s.chains[b][j..][k]) {
      assert s.chains[b][j..][k] == s.chains[b][j + k];
    }
  }

  lemma GoodBin(s: Image, b: nat)
    requires Good(s) && b < |s.chains|
    ensures BinOk(Bins(s)[b], b, |s.chains|)
  {
    hide BinOk, BinOf, Linking, NodesOk;
    assert StateOf(s, 0).bins[b] == Bins(s)[b];
  }

  lemma BinOkWithout(chain: seq<Entry>, i: nat, b: nat, n: nat)
    requires n > 0 && BinOk(chain, b, n) && i < |chain|
    ensures BinOk(chain[..i] + chain[i + 1..], b, n)
  {
    hide BinOf;
  }

  lemma BucketHead(s: Image, b: nat)
    requires Good(s) && b < |s.chains|
    ensures |s.bin| == |s.chains| && s.bin[b] == At(s.chains[b], 0)
  {
    hide WellFormed, NodesOk;
  }

  /** Hash::unlink. */
  lemma UnlinkImage(s: Image, b: nat, i: nat)
    requires Good(s) && b < |s.chains| == |s.bin| && i < |s.chains[b]| && s.chains[b][i] in s.next
    ensures var s' := Spliced(s, b, i, s.next[s.chains[b][i]], s.chains[b][i + 1..]);
      && Good(s')
      && Bins(s') == Bins(s)[b := Bins(s)[b][..i] + Bins(s)[b][i + 1..]]
  {
    hide BinOf, BinOk, NodeOk, EntryAt, Good, Threaded, Spliced, Bins;
    NodeFacts(s, b, i);
    SuffixEntries(s, b, i + 1);
    ChainNoDup(s, b);
    GoodBin(s, b);
    BinOkWithout(Bins(s)[b], i, b, |s.chains|);
    SpliceImage(s, b, i, s.next[s.chains[b][i]], s.chains[b][i + 1..]);
  }

  lemma ThreadedCons(q: nat, head: nat, xs: seq<nat>, next: map<nat, nat>)
    requires Threaded(head, xs, next) && q != 0 && q in next && next[q] == head
    ensures Threaded(q, [q] + xs, next)
  {
    var ys := [q] + xs;
    forall k | 0 <= k < |ys| ensures ys[k] != 0 && ys[k] in next && next[ys[k]] == At(ys, k + 1) {
      if k > 0 {
        assert ys[k] == xs[k - 1] && At(ys, k + 1) == At(xs, k);
      }
    }
  }

  lemma EntriesCons(s: Image, q: nat, xs: seq<nat>)
    ensures Entries(s, [q] + xs) == [EntryAt(s, q)] + Entries(s, xs)
  {
    hide EntryAt;
  }

  /** Hash::link: the predecessor, or the bin, is made to point at q, which continues with the nodes from
      position j of the old bucket. */
  lemma LinkImage(s: Image, b: nat, i: nat, j: nat, q: nat)
    requires Good(s) && b < |s.chains| == |s.bin| && i <= j <= |s.chains[b]|
    requires q != 0 && !Reached(s, q) && NodeOk(s, q) && q in s.next && s.next[q] == At(s.chains[b], j)
    requires BinOk(Bins(s)[b][..i] + ([EntryAt(s, q)] + Bins(s)[b][j..]), b, |s.chains|)
    ensures var s' := Spliced(s, b, i, q, [q] + s.chains[b][j..]);
      && Good(s')
      && Bins(s') == Bins(s)[b := Bins(s)[b][..i] + ([EntryAt(s, q)] + Bins(s)[b][j..])]
  {
    hide BinOf, BinOk, NodeOk, EntryAt, Good, Threaded, Spliced, Bins;
    var rest := s.chains[b][j..];
    SuffixEntries(s, b, j);
    ThreadedCons(q, At(s.chains[b], j), rest, s.next);
    EntriesCons(s, q, rest);
    ChainNoDup(s, b);
    if i > 0 {
      assert Reached(s, s.chains[b][i - 1]);
    }
    SpliceImage(s, b, i, q, [q] + rest);
  }

  /** Which blocks a splice lets go of and picks up. */
  lemma SplicedReach(s: Image, b: nat, i: nat, target: nat, tail: seq<nat>, p: nat)
    requires b < |s.chains| == |s.bin| && i <= |s.chains[b]|
    ensures Reached(Spliced(s, b, i, target, tail), p) <==>
            p in tail || (exists k :: 0 <= k < i && s.chains[b][k] == p)
            || (exists c, k :: 0 <= c < |s.chains| && c != b && 0 <= k < |s.chains[c]| && s.chains[c][k] == p)
  {
    var s' := Spliced(s, b, i, target, tail);
    if p in tail {
      var k :| 0 <= k < |tail| && tail[k] == p;
      assert s'.chains[b][i + k] == p;
    }
    if exists k :: 0 <= k < i && s.chains[b][k] == p {
      var k :| 0 <= k < i && s.chains[b][k] == p;
      assert s'.chains[b][k] == p;
    }
    if exists c, k :: 0 <= c < |s.chains| && c != b && 0 <= k < |s.chains[c]| && s.chains[c][k] == p {
      var c, k :| 0 <= c < |s.chains| && c != b && 0 <= k < |s.chains[c]| && s.chains[c][k] == p;
      assert s'.chains[c][k] == p;
    }
  }
}
