/** Runs from a new cache in which a client does not get what it asked for. */
module Shortcomings {
  import opened Base
  import opened Arithmetic
  import opened Refinement
  import opened KeyHash
  import opened Engine
  import opened History
  import opened Tiling
  import opened HeapModel
  import opened Table
  import opened Decimal
  import opened Codec
  import opened CacheModel
  import opened ServerModel

  function NewTable(n: nat): (s: State)
    requires n > 0
    ensures |s.bins| == n
  {
    State(seq(n, _ => []), 1)
  }

  lemma NewTableIsEmpty(n: nat)
    requires n > 0
    ensures WellFormed(NewTable(n)) && Empty(NewTable(n)) && forall k :: Lookup(NewTable(n), k) == None
  {
    hide BinOf;
  }

  const KEY: Bytes := [97]
  const LONGER: Bytes := [97, 0]

  /** The two keys have the same padded bytes and so share a bucket, in a table of any size. */
  lemma KeysShareABucket(n: nat)
    requires n > 0
    ensures BinOf(KEY, n) == BinOf(LONGER, n) && KEY != LONGER
  {
    assert Pad(KEY) == Pad(LONGER);
    assert |KEY| != |LONGER|;
  }

  // ----- append

  const EIGHT: Bytes := [1, 2, 3, 4, 5, 6, 7, 8]

  lemma SetStep(n: nat, item: Item, now: nat, env: Env)
    requires n > 0 && env.served
    ensures var (s1, r) := Step(NewTable(n), Call(Op.Set(KEY, item), now, env));
      && r == Done(true) && WellFormed(s1) && s1.cas == 2 && |s1.bins| > 0
      && Lookup(s1, KEY) == Some(Fresh(KEY, item, 1, now)) && Length(s1, KEY) == |item.value|
  {
    hide BinOf, Lookup, Find, Bucket, WellFormed, SetupExpire;
    NewTableIsEmpty(n);
    OwnKey(NewTable(n), Call(Op.Set(KEY, item), now, env));
    StepKeepsWellFormed(NewTable(n), Call(Op.Set(KEY, item), now, env));
  }

  /** One byte appended to an eight-byte value that has to move. */
  lemma AppendStep(s: State, env: Env)
    requires WellFormed(s) && s.cas == 2 && Lookup(s, KEY) == Some(Entry(KEY, EIGHT, 1, 0, 0))
    requires env.served && env.moved && |env.junk| == 1
    ensures var (s', r) := Step(s, Call(Op.Append(KEY, [9]), 0, env));
      && r == Done(true) && |s'.bins| > 0
      && Lookup(s', KEY) == Some(Entry(KEY, [1, 2, 3, 4, 5, 6, 7, 9] + env.junk, 2, 0, 0))
  {
    hide BinOf, Lookup, Find, Bucket, WellFormed;
    OwnKey(s, Call(Op.Append(KEY, [9]), 0, env));
    assert MovedAppend(EIGHT, [9], env.junk) == [1, 2, 3, 4, 5, 6, 7, 9] + env.junk;
  }

  /** The set finds room; its block holds the item exactly, so any byte more has to move it. */
  lemma SetHasRoom(m: Memory, start: nat, n: nat)
    requires m.space == Arena(start, start + 1048576, map[], {}) && 8 < n < 1000
    ensures Room(m, KEY, 8, []).served && InRange(|KEY|, n) && InRange(|KEY|, 8)
    ensures forall m' | Carved(m, m', KEY, Need(|KEY|, 8)) ::
      forall junk :: Room(m', KEY, n, junk).served && Room(m', KEY, n, junk).moved
  {
    hide NodeOf;
    assert Need(1, 8) == 48 && Need(1, n) < 1048 && ItemSize(1, n) == 40 + n;
    assert FitsBase(m.space, 48);
    forall m' | Carved(m, m', KEY, Need(|KEY|, 8))
      ensures FitsBase(m'.space, Need(1, n)) && MustMove(m'.img, KEY, n)
    {
    }
  }

  /** A client sets eight bytes and appends one; what it gets back is not what it appended to. */
  method AppendLosesAByte(base: nat) returns (r: Reply)
    ensures r.Hit? && |r.value| == 9 && r.value[..8] == [1, 2, 3, 4, 5, 6, 7, 9]
    ensures r.value != EIGHT + [9]
  {
    hide Step, Cache.Valid, Cache.State, Cache.Leaks, Cache.Mem, Room, Carved, LeftBehind, Lookup, Need, InRange,
      Length;
    var cache := new Cache(base, 1);
    ghost var m := cache.Mem();
    NewTableIsEmpty(1024);
    SetHasRoom(m, Align8(base), 9);
    ghost var env;
    r, env := cache.Set(KEY, Item(EIGHT, 0, 0), 0);
    SetStep(1024, Item(EIGHT, 0, 0), 0, env);
    ghost var s1 := cache.State();
    r, env := cache.Append(KEY, [9]);
    AppendStep(s1, env);
    ghost var s2 := cache.State();
    r := cache.Get(KEY, 0);
    GetIs(s2, KEY, 0, ANY_ENV);
    assert r.value[7] != (EIGHT + [9])[7];
  }

  /** Appending nine bytes to eight, in a bigger block, would write in front of the value. */
  method AppendWritesOutside(base: nat) returns (first: Reply, r: Reply)
    ensures first == Done(true) && r == Fault
  {
    hide Step, Cache.Valid, Cache.State, Cache.Leaks, Cache.Mem, Room, Carved, LeftBehind, Lookup, Need, InRange,
      Length;
    var cache := new Cache(base, 1);
    ghost var m := cache.Mem();
    NewTableIsEmpty(1024);
    SetHasRoom(m, Align8(base), 17);
    ghost var env;
    first, env := cache.Set(KEY, Item(EIGHT, 0, 0), 0);
    SetStep(1024, Item(EIGHT, 0, 0), 0, env);
    ghost var s1 := cache.State();
    r, env := cache.Append(KEY, EIGHT + [9]);
    AppendTooMuch(s1, env);
  }

  lemma AppendTooMuch(s: State, env: Env)
    requires |s.bins| > 0 && Lookup(s, KEY) == Some(Fresh(KEY, Item(EIGHT, 0, 0), 1, 0)) && env.moved
    ensures Step(s, Call(Op.Append(KEY, EIGHT + [9]), 0, env)).1 == Fault
  {
    hide BinOf, Apply, Lookup;
  }

  // ----- add

  const SHORT := Item([1], 1, 0)      // expires after a second
  const LASTING := Item([2], 0, 0)

  /** Set an item that expires, set another one behind it, and add the first one again when it has expired. */
  function AddRun(a: Env, b: Env, c: Env): seq<Call> {
    [Call(Op.Set(KEY, SHORT), 0, a), Call(Op.Set(LONGER, LASTING), 0, b), Call(Op.Add(KEY, LASTING), 10, c)]
  }

  lemma AddRunStep1(n: nat, a: Env)
    requires n > 0 && a.served
    ensures var (s1, r) := Step(NewTable(n), Call(Op.Set(KEY, SHORT), 0, a));
      && r == Done(true) && |s1.bins| == n && Lookup(s1, LONGER) == None
      && s1.bins[BinOf(KEY, n)] == [Fresh(KEY, SHORT, 1, 0)]
  {
    KeysShareABucket(n);
    hide BinOf;
  }

  lemma AddRunStep2(s1: State, b: Env)
    requires |s1.bins| > 0 && b.served && s1.bins[BinOf(KEY, |s1.bins|)] == [Fresh(KEY, SHORT, 1, 0)]
    ensures var (s2, r) := Step(s1, Call(Op.Set(LONGER, LASTING), 0, b));
      && r == Done(true) && |s2.bins| == |s1.bins|
      && s2.bins[BinOf(KEY, |s1.bins|)] == [Fresh(KEY, SHORT, 1, 0), Fresh(LONGER, LASTING, s1.cas, 0)]
      && Lookup(s2, LONGER) == Some(Fresh(LONGER, LASTING, s1.cas, 0))
  {
    KeysShareABucket(|s1.bins|);
    hide BinOf;
    var chain := s1.bins[BinOf(KEY, |s1.bins|)];
    FindIs(chain, LONGER, 1);
    FindIs([chain[0], Fresh(LONGER, LASTING, s1.cas, 0)], LONGER, 1);
  }

  lemma AddRunStep3(s2: State, cas: nat, c: Env)
    requires |s2.bins| > 0 && c.served
    requires s2.bins[BinOf(KEY, |s2.bins|)] == [Fresh(KEY, SHORT, 1, 0), Fresh(LONGER, LASTING, cas, 0)]
    ensures var (s3, r) := Step(s2, Call(Op.Add(KEY, LASTING), 10, c));
      r == Done(true) && |s3.bins| == |s2.bins| && Lookup(s3, LONGER) == None
  {
    KeysShareABucket(|s2.bins|);
    hide BinOf;
    var chain := s2.bins[BinOf(KEY, |s2.bins|)];
    FindIs(chain, KEY, 0);
    FindIs([Fresh(KEY, LASTING, s2.cas, 10)], LONGER, 1);
  }

  /** In a table of any size, the run loses the second key, which never expires and was never deleted. */
  lemma AddLosesAnotherKey(n: nat, a: Env, b: Env, c: Env)
    requires n > 0 && a.served && b.served && c.served
    ensures var s, calls := NewTable(n), AddRun(a, b, c);
      && Lookup(StateAt(s, calls, 2), LONGER).Some?
      && ReplyAt(s, calls, 2) == Done(true)
      && Lookup(StateAt(s, calls, 3), LONGER) == None
  {
    hide Step, BinOf, Lookup;
    var s, calls := NewTable(n), AddRun(a, b, c);
    assert StateAt(s, calls, 1) == Step(StateAt(s, calls, 0), calls[0]).0;
    AddRunStep1(n, a);
    AddRunStep2(StateAt(s, calls, 1), b);
    AddRunStep3(StateAt(s, calls, 2), StateAt(s, calls, 1).cas, c);
  }

  /** Two small new items leave the bump region room for a third. */
  lemma ItemsHaveRoom(m: Memory, start: nat)
    requires m.space == Arena(start, start + 1048576, map[], {})
    ensures Serves(m.space, Need(|KEY|, 1)) && InRange(|KEY|, 1) && InRange(|LONGER|, 1)
    ensures forall m1 | Carved(m, m1, KEY, Need(|KEY|, 1)) ::
      && Serves(m1.space, Need(|LONGER|, 1))
      && forall m2 | Carved(m1, m2, LONGER, Need(|LONGER|, 1)) :: Serves(m2.space, Need(|KEY|, 1))
  {
    hide NodeOf;
    assert Need(1, 1) == 48 && Need(2, 1) == 48;
    assert FitsBase(m.space, 48);
  }

  /** The same through the cache: a key that was never deleted and does not expire is gone. */
  method AddLosesAnEntry(base: nat) returns (first: Reply, second: Reply, again: Reply, found: Reply)
    ensures first == second == again == Done(true) && found == Miss
  {
    hide Step, Cache.Valid, Cache.State, Cache.Leaks, Carved, Lookup, Need, InRange, Serves, Fresh, BinOf,
      Reclaims, MustMove;
    var cache := new Cache(base, 1);
    ghost var m := cache.Mem();
    NewTableIsEmpty(1024);
    ItemsHaveRoom(m, Align8(base));
    ghost var env;
    first, env := cache.Set(KEY, SHORT, 0);
    ghost var s1 := cache.State();
    AddRunStep1(1024, env);
    second, env := cache.Set(LONGER, LASTING, 0);
    ghost var s2 := cache.State();
    AddRunStep2(s1, env);
    again, env := cache.Add(KEY, LASTING, 10);
    ghost var s3 := cache.State();
    AddRunStep3(s2, s1.cas, env);
    found := cache.Get(LONGER, 10);
    GetIs(s3, LONGER, 10, ANY_ENV);
  }

  // ----- cas

  /** cas on a missing key reports success and stores nothing. */
  lemma CasStoresNothing(s: State, key: Bytes, unique: nat, item: Item, now: nat, env: Env)
    requires WellFormed(s) && Lookup(s, key) == None && env.served
    ensures var (s', r) := Step(s, Call(Op.Cas(key, unique, item), now, env));
      r == Done(true) && Lookup(s', key) == None
  {
    hide BinOf, Lookup, Find, Bucket, WellFormed;
    OwnKey(s, Call(Op.Cas(key, unique, item), now, env));
  }

  // ----- expired items

  predicate Revalues(op: Op) {
    op.Append? || op.Prepend? || op.Incr? || op.Decr?
  }

  /** append, prepend, incr and decr report success on an expired item as well, which nobody will read: a success is
      found by a get at the same moment if and only if the item was not expired. */
  lemma SuccessIsReadBackIff(s: State, c: Call)
    requires WellFormed(s) && Revalues(c.op) && Step(s, c).1 == Done(true)
    ensures Lookup(s, c.op.key).Some? && |Step(s, c).0.bins| > 0
    ensures Step(Step(s, c).0, Call(Op.Get(c.op.key), c.now, ANY_ENV)).1.Hit? <==>
            !Expired(Lookup(s, c.op.key).value, c.now)
  {
    hide BinOf, Lookup, Find, Bucket, WellFormed, Counted, MovedAppend;
    HasBins(s);
    OwnKey(s, c);
    GetIs(Step(s, c).0, c.op.key, c.now, ANY_ENV);
  }

  // ----- expirations of items that are overwritten

  /** Set, replace and cas of a key that is there. */
  predicate Overwrites(s: State, c: Call)
    requires |s.bins| > 0
  {
    (c.op.Set? || c.op.Replace? || c.op.Cas?) && Lookup(s, c.op.key).Some? && Step(s, c).1 == Done(true)
  }

  /** What overwrote an item is there until the given expiration, read as a point in time. */
  lemma OverwriteExpires(s: State, c: Call, later: nat)
    requires WellFormed(s) && Overwrites(s, c)
    ensures |Step(s, c).0.bins| > 0
    ensures Step(Step(s, c).0, Call(Op.Get(c.op.key), later, ANY_ENV)).1.Hit? <==>
            c.op.item.expiration == 0 || later <= c.op.item.expiration
  {
    hide BinOf, Lookup, Find, Bucket, WellFormed;
    HasBins(s);
    OwnKey(s, c);
    GetIs(Step(s, c).0, c.op.key, later, ANY_ENV);
  }

  /** At every moment a get finds the new value exactly when it would find a new item with that expiration. */
  ghost predicate ExpiresAsAsked(s: State, c: Call)
    requires |s.bins| > 0 && (c.op.Set? || c.op.Replace? || c.op.Cas?)
  {
    var s' := Step(s, c).0;
    |s'.bins| > 0 && forall later: nat ::
      Step(s', Call(Op.Get(c.op.key), later, ANY_ENV)).1.Hit? <==>
      !Expired(Fresh(c.op.key, c.op.item, s.cas, c.now), later)
  }

  /** Overwriting takes a relative expiration for an absolute one. */
  lemma OverwriteExpiresAsAskedIff(s: State, c: Call)
    requires WellFormed(s) && |s.bins| > 0 && Overwrites(s, c)
    ensures ExpiresAsAsked(s, c) <==> ExpirationKept(c.op.item, c.now)
  {
    hide Step, WellFormed, Lookup;
    var item := c.op.item;
    var given, asked := item.expiration, SetupExpire(item.expiration, c.now);
    OverwriteExpires(s, c, 0);
    forall later: nat
      ensures |Step(s, c).0.bins| > 0 &&
        (Step(Step(s, c).0, Call(Op.Get(c.op.key), later, ANY_ENV)).1.Hit? <==> given == 0 || later <= given)
    {
      OverwriteExpires(s, c, later);
    }
    if 0 < given <= CONFIG_EXPTIME_OFFSET {
      SameRemainder(given, c.now, U32);
    }
    if ExpirationKept(item, c.now) {
      assert given == asked;
    } else {
      assert given != asked && given != 0;
      var later := if asked == 0 then given + 1 else if asked < given then given else asked;
      assert Step(Step(s, c).0, Call(Op.Get(c.op.key), later, ANY_ENV)).1.Hit? <==> later <= given;
      assert Expired(Fresh(c.op.key, item, s.cas, c.now), later) <==> asked != 0 && later > asked;
    }
  }

  // ----- both through the cache

  const MINUTE := Item([2], 60, 0)
  const NOW := 1_000_000_000

  /** The block of a one-byte value has room for seven more bytes. */
  lemma StaysInPlace(m: Memory, start: nat)
    requires m.space == Arena(start, start + 1048576, map[], {})
    ensures Serves(m.space, Need(|KEY|, 1)) && InRange(|KEY|, 1) && InRange(|KEY|, 2)
    ensures forall m1 | Carved(m, m1, KEY, Need(|KEY|, 1)) ::
      (forall n :: MustMove(m1.img, KEY, n) <==> n > 8)
  {
    hide NodeOf;
    assert Need(1, 1) == 48;
    assert FitsBase(m.space, 48);
  }

  /** A client sets a key again, this time for a minute, and at the same moment finds it gone. */
  method SetForAMinuteExpiresAtOnce(base: nat) returns (first: Reply, second: Reply, found: Reply)
    ensures first == second == Done(true) && !found.Hit?
  {
    hide Step, Cache.Valid, Cache.State, Cache.Leaks, Carved, Lookup, Need, InRange, Serves, Fresh, BinOf, MustMove,
      Length, WellFormed;
    var cache := new Cache(base, 1);
    ghost var m := cache.Mem();
    NewTableIsEmpty(1024);
    StaysInPlace(m, Align8(base));
    ghost var env;
    first, env := cache.Set(KEY, LASTING, NOW);
    SetStep(1024, LASTING, NOW, env);
    ghost var s1 := cache.State();
    second, env := cache.Set(KEY, MINUTE, NOW);
    SetReplies(s1, MINUTE, NOW, env);
    OverwriteExpires(s1, Call(Op.Set(KEY, MINUTE), NOW, env), NOW);
    found := cache.Get(KEY, NOW);
  }

  lemma SetReplies(s: State, item: Item, now: nat, env: Env)
    requires |s.bins| > 0 && Lookup(s, KEY).Some? && !env.moved
    ensures Step(s, Call(Op.Set(KEY, item), now, env)).1 == Done(true)
  {
    hide BinOf, Apply;
  }

  /** A client appends to an item that has expired, is told that it worked, and at the same moment finds nothing. */
  method AppendToExpiredIsLost(base: nat) returns (first: Reply, second: Reply, found: Reply)
    ensures first == second == Done(true) && !found.Hit?
  {
    hide Step, Cache.Valid, Cache.State, Cache.Leaks, Carved, Lookup, Need, InRange, Serves, BinOf, MustMove,
      Length, WellFormed, LeftBehind;
    var cache := new Cache(base, 1);
    ghost var m := cache.Mem();
    NewTableIsEmpty(1024);
    StaysInPlace(m, Align8(base));
    ghost var env;
    first, env := cache.Set(KEY, SHORT, 0);
    SetStep(1024, SHORT, 0, env);
    ghost var s1 := cache.State();
    second, env := cache.Append(KEY, [9]);
    AppendInPlaceReplies(s1, env);
    SuccessIsReadBackIff(s1, Call(Op.Append(KEY, [9]), 10, env));
    found := cache.Get(KEY, 10);
  }

  lemma AppendInPlaceReplies(s: State, env: Env)
    requires |s.bins| > 0 && Lookup(s, KEY).Some? && !env.moved
    ensures Step(s, Call(Op.Append(KEY, [9]), 0, env)).1 == Done(true)
    ensures Step(s, Call(Op.Append(KEY, [9]), 10, env)) == Step(s, Call(Op.Append(KEY, [9]), 0, env))
  {
    hide BinOf, Apply;
  }

  // ----- counts, cas and their blocks

  const FIVE := Item([53], 0, 0)      // "5"

  /** A count reserves twenty bytes, which a one-byte value has not. */
  lemma CountMustMove(m: Memory, start: nat)
    requires m.space == Arena(start, start + 1048576, map[], {})
    ensures Serves(m.space, Need(|KEY|, 1)) && InRange(|KEY|, 1)
    ensures forall m1 | Carved(m, m1, KEY, Need(|KEY|, 1)) ::
      Serves(m1.space, Need(|KEY|, MAX_DIGITS)) && MustMove(m1.img, KEY, MAX_DIGITS)
  {
    hide NodeOf;
    assert Need(1, 1) == 48 && Need(1, 20) == 64;
    assert FitsBase(m.space, 48);
    forall m1 | Carved(m, m1, KEY, Need(|KEY|, 1)) ensures FitsBase(m1.space, 64) {
    }
  }

  lemma CountStep(s: State, env: Env)
    requires WellFormed(s) && |s.bins| > 0 && Lookup(s, KEY) == Some(Fresh(KEY, FIVE, 1, 0))
    requires env.served
    ensures Step(s, Call(Op.Incr(KEY, 1), 0, env)).1 == Done(true)
    ensures HoldsCounter(s, KEY, 5) && CountsOnly(s, Call(Op.Incr(KEY, 1), 0, env), KEY)
  {
    hide BinOf, Apply, Counted, WellFormed, Lookup;
    assert Text(5) == [53];
  }

  /** A client sets a counter to 5 and adds 1: it is answered 1 for the 6 now stored, and a block is lost. */
  method CountAnswersTheAmountAndLeaks(base: nat) returns (r: Reply, found: Reply, ghost leaked: set<nat>)
    ensures r == Done(true) && found.Hit? && found.value == [54]
    ensures AnswerTo(Op.Incr(KEY, 1), r, false, 0) == Some(Answer(RESULT_STORED, PutInt(8, 1, [])))
    ensures |leaked| == 1
  {
    hide Step, Cache.Valid, Cache.State, Cache.Leaks, Carved, Lookup, Need, InRange, Serves, Fresh, BinOf, MustMove,
      Length, WellFormed, HoldsCounter, CountsOnly, PutInt;
    var cache := new Cache(base, 1);
    ghost var m := cache.Mem();
    NewTableIsEmpty(1024);
    CountMustMove(m, Align8(base));
    ghost var env;
    r, env := cache.Set(KEY, FIVE, 0);
    SetStep(1024, FIVE, 0, env);
    ghost var s1 := cache.State();
    r, env, leaked := cache.IncrementDecrement(Op.Incr(KEY, 1));
    CountStep(s1, env);
    GetCounter(s1, env);
    found := cache.Get(KEY, 0);
  }

  lemma GetCounter(s: State, env: Env)
    requires WellFormed(s) && |s.bins| > 0 && Lookup(s, KEY) == Some(Fresh(KEY, FIVE, 1, 0)) && env.served
    ensures var s' := Step(s, Call(Op.Incr(KEY, 1), 0, env)).0;
      |s'.bins| > 0 && var r := Step(s', Call(Op.Get(KEY), 0, ANY_ENV)).1; r.Hit? && r.value == [54]
  {
    hide BinOf, Bucket, Find, WellFormed, Lookup, Counted;
    var c := Call(Op.Incr(KEY, 1), 0, env);
    StepKeepsWellFormed(s, c);
    CountStep(s, env);
    CountOnce(s, c, KEY, 5);
    OwnKey(s, c);
    assert Text(6) == [54];
    GetIs(Step(s, c).0, KEY, 0, ANY_ENV);
  }

  /** cas on a new cache: success is reported, nothing is stored, and a block is lost. */
  method CasLeaksABlock(base: nat) returns (r: Reply, found: Reply, ghost leaked: set<nat>)
    ensures r == Done(true) && !found.Hit? && |leaked| == 1
  {
    hide Step, Cache.Valid, Cache.State, Cache.Leaks, Lookup, Need, InRange, Serves, BinOf, MustMove, WellFormed;
    var cache := new Cache(base, 1);
    ghost var s, m := cache.State(), cache.Mem();
    NewTableIsEmpty(1024);
    StaysInPlace(m, Align8(base));
    ghost var env;
    r, env, leaked := cache.Cas(KEY, 0, LASTING, 0);
    CasStoresNothing(s, KEY, 0, LASTING, 0, env);
    CasHasBuckets(s, env);
    GetIs(cache.State(), KEY, 0, ANY_ENV);
    found := cache.Get(KEY, 0);
  }

  lemma CasHasBuckets(s: State, env: Env)
    requires |s.bins| > 0
    ensures |Step(s, Call(Op.Cas(KEY, 0, LASTING), 0, env)).0.bins| > 0
  {
    hide BinOf;
  }

  // ----- memory runs out

  const HUGE := 1_048_384

  /** After a huge item and one of eight bytes, each in a block cut to size, that one has to move for a ninth byte and
      there is no block to move it to. */
  lemma HugeLeavesNoRoom(m: Memory, start: nat)
    requires m.space == Arena(start, start + 1048576, map[], {})
    ensures Serves(m.space, Need(|LONGER|, HUGE)) && InRange(|KEY|, 8) && InRange(|KEY|, 9) && InRange(|LONGER|, HUGE)
    ensures forall m1 | Carved(m, m1, LONGER, Need(|LONGER|, HUGE)) ::
      && Serves(m1.space, Need(|KEY|, 8))
      && forall m2 | Carved(m1, m2, KEY, Need(|KEY|, 8)) ::
           !Serves(m2.space, Need(|KEY|, 9)) && MustMove(m2.img, KEY, 9)
  {
    hide NodeOf;
    assert Need(2, HUGE) == 1048424 && Need(1, 8) == 48 && Need(1, 9) == 56;
    assert FitsBase(m.space, 1048424);
    forall m1 | Carved(m, m1, LONGER, Need(|LONGER|, HUGE)) ensures FitsBase(m1.space, 48) {
    }
  }

  lemma TwoSets(n: nat, huge: Item, a: Env, b: Env)
    requires n > 0 && a.served
    ensures var (s1, r1) := Step(NewTable(n), Call(Op.Set(LONGER, huge), 0, a));
      && r1 == Done(true) && |s1.bins| > 0 && Lookup(s1, KEY) == None
      && var (s2, r2) := Step(s1, Call(Op.Set(KEY, Item(EIGHT, 0, 0)), 0, b));
        b.served ==> r2 == Done(true) && |s2.bins| > 0 && Lookup(s2, KEY).Some? && Length(s2, KEY) == 8
  {
    hide BinOf, Lookup, Find, Bucket, WellFormed, SetupExpire;
    NewTableIsEmpty(n);
    var c1, c2 := Call(Op.Set(LONGER, huge), 0, a), Call(Op.Set(KEY, Item(EIGHT, 0, 0)), 0, b);
    KeysShareABucket(n);
    OwnKey(NewTable(n), c1);
    OtherKeys(NewTable(n), c1, KEY);
    StepKeepsWellFormed(NewTable(n), c1);
    OwnKey(Step(NewTable(n), c1).0, c2);
  }

  /** Two sets and an append into a full arena: the append faults. */
  method AppendFaults(base: nat) returns (first: Reply, second: Reply, r: Reply)
    ensures first == second == Done(true) && r == Fault
  {
    hide Step, Cache.Valid, Cache.State, Cache.Leaks, Carved, Lookup, Need, InRange, Serves, BinOf, MustMove,
      Length, WellFormed, LeftBehind;
    var cache := new Cache(base, 1);
    ghost var m := cache.Mem();
    NewTableIsEmpty(1024);
    HugeLeavesNoRoom(m, Align8(base));
    var huge := Item(seq(HUGE, _ => 0), 0, 0);
    ghost var a, b, env;
    first, a := cache.Set(LONGER, huge, 0);
    ghost var s1 := cache.State();
    TwoSets(1024, huge, a, Env(true, false, []));
    second, b := cache.Set(KEY, Item(EIGHT, 0, 0), 0);
    TwoSets(1024, huge, a, b);
    ghost var s2 := cache.State();
    r, env := cache.Append(KEY, [9]);
    AppendWithoutMemory(s2, env);
  }

  lemma AppendWithoutMemory(s: State, env: Env)
    requires |s.bins| > 0 && Lookup(s, KEY).Some? && env.moved && !env.served
    ensures Step(s, Call(Op.Append(KEY, [9]), 0, env)).1 == Fault
  {
    hide BinOf, Apply;
  }

  /** A block of 64 bytes, freed and handed out for 40: the heap counts 40 live bytes where there are 64. */
  method AllocSizeDrifts(base: nat) returns (h: Heap, p: nat, q: nat)
    ensures h.Valid() && p == q != 0 && h.allocSize != Wrap64(LiveSum(h.tiles, h.live, h.cbSize))
  {
    hide Heap.Valid, Heap.Blocks, LiveSum, Serves, NearBestFit;
    h := new Heap(base, 100);
    ghost var sp := h.Space();
    CutsThenReuses(sp);
    p := h.Alloc(64);
    h.Free(p);
    assert h.Space() == AfterCarve(sp, 64).(live := h.live);
    q := h.Alloc(40);
    h.AllocSizeIsLiveSumIff();
  }

  lemma CutsThenReuses(sp: Space)
    requires sp.end == sp.offset + 100 && sp.size == map[]
    ensures FitsBase(sp, 64) && Serves(sp, 64) && Align8(64) == 64 && Align8(40) == 40
    ensures forall live ::
      var now := AfterCarve(sp, 64).(live := live);
      && !FitsBase(now, 40)
      && forall p, cap | Spot(now, 40, p, cap) :: p == sp.offset + ENTRY && cap == 64
  {
  }
}
