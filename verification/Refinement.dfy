/** The bucket chains refine a map from keys to entries: which calls do exactly what the
    map operation does, and which do not. */
module Refinement {
  import opened Base
  import opened Arithmetic
  import opened KeyHash
  import opened Engine

  datatype MapState = MapState(m: map<Bytes, Entry>, cas: nat)

  /** The reference semantics: every operation as a client would describe it, on a plain map. An expired
      entry is as good as absent, and whatever is stored expires when the call asked for it. */
  function MapStep(s: MapState, op: Op, now: nat): (MapState, Reply) {
    var k := op.key;
    var live := k in s.m && !Expired(s.m[k], now);
    match op {
      case Get(_) =>
        if live then (s, Hit(s.m[k].value, s.m[k].flags, s.m[k].cas)) else (s.(m := s.m - {k}), Miss)
      case Set(_, item) => (MapPut(s, Fresh(k, item, s.cas, now)), Done(true))
      case Add(_, item) =>
        if live then (s, Done(false)) else (MapPut(s, Fresh(k, item, s.cas, now)), Done(true))
      case Replace(_, item) =>
        if live then (MapPut(s, Fresh(k, item, s.cas, now)), Done(true)) else (s.(m := s.m - {k}), Done(false))
      case Append(_, data) => if live then MapRevalue(s, k, s.m[k].value + data) else (s, Done(false))
      case Prepend(_, data) => if live then MapRevalue(s, k, data + s.m[k].value) else (s, Done(false))
      case Cas(_, unique, item) =>
        if live && s.m[k].cas == unique then (MapPut(s, Fresh(k, item, s.cas, now)), Done(true)) else (s, Done(false))
      case Incr(_, n) => if live then MapRevalue(s, k, Counted(s.m[k].value, n)) else (s, Done(false))
      case Decr(_, n) => if live then MapRevalue(s, k, Counted(s.m[k].value, 0 - n)) else (s, Done(false))
      case Del(_) =>
        (s.(m := s.m - {k}), if live then Deleted(s.m[k].expire) else Done(false))
    }
  }

  function MapPut(s: MapState, e: Entry): MapState {
    MapState(s.m[e.key := e], NextCas(s.cas))
  }

  /** A new value under the old flags and expiration. */
  function MapRevalue(s: MapState, k: Bytes, value: Bytes): (MapState, Reply)
    requires k in s.m
  {
    (MapState(s.m[k := s.m[k].(value := value, cas := s.cas)], NextCas(s.cas)), Done(true))
  }

  ghost function Keys(s: State): set<Bytes> {
    set b, i | 0 <= b < |s.bins| && 0 <= i < |s.bins[b]| :: s.bins[b][i].key
  }

  /** The map a client sees. */
  ghost function View(s: State): MapState
    requires |s.bins| > 0
  {
    MapState(map k | k in Keys(s) && Lookup(s, k).Some? :: Lookup(s, k).value, s.cas)
  }

  lemma ViewLookup(s: State, k: Bytes)
    requires |s.bins| > 0
    ensures k in View(s).m <==> Lookup(s, k).Some?
    ensures k in View(s).m ==> View(s).m[k] == Lookup(s, k).value && View(s).m[k].key == k
  {
    hide BinOf;
    var b := BinOf(k, |s.bins|);
    var i := Find(s.bins[b], k);
    if i < |s.bins[b]| {
      assert s.bins[b][i].key in Keys(s);
    }
  }

  /** Whether linking `key` into its bucket loses the entry of k. */
  predicate CutOff(s: State, key: Bytes, k: Bytes)
    requires |s.bins| > 0
  {
    var b := BinOf(key, |s.bins|);
    BinOf(k, |s.bins|) == b && Behind(s.bins[b], key, k)
  }

  predicate Behind(chain: seq<Entry>, key: Bytes, k: Bytes) {
    Find(chain, key) < Find(chain, k) < |chain|
  }

  function AfterEffect(found: Option<Entry>, eff: Effect): Option<Entry> {
    match eff {
      case Keep => found
      case Skip => found
      case Rewrite(e) => Some(e)
      case Link(e) => Some(e)
      case Remove => None
    }
  }

  lemma OwnKeyAfter(chain: seq<Entry>, key: Bytes, eff: Effect)
    requires forall i, j | 0 <= i < j < |chain| :: chain[i].key != chain[j].key
    requires eff.Rewrite? || eff.Remove? ==> Find(chain, key) < |chain|
    requires eff.Rewrite? || eff.Link? ==> eff.e.key == key
    ensures InChain(Bucket(chain, Find(chain, key), eff), key) == AfterEffect(InChain(chain, key), eff)
  {
    var i := Find(chain, key);
    var chain' := Bucket(chain, i, eff);
    FindIs(chain', key, if eff.Remove? then |chain'| else i);
  }

  lemma OtherKeyAfterLink(chain: seq<Entry>, i: nat, e: Entry, k: Bytes)
    requires i <= |chain| && k != e.key
    ensures InChain(chain[..i] + [e], k) == if i <= Find(chain, k) then None else InChain(chain, k)
  {
    hide Find;
    var j := Find(chain, k);
    FindIs(chain[..i] + [e], k, if j < i then j else i + 1);
  }

  lemma OtherKeyAfterRemove(chain: seq<Entry>, i: nat, k: Bytes)
    requires i < |chain| && k != chain[i].key
    ensures InChain(chain[..i] + chain[i + 1..], k) == InChain(chain, k)
  {
    hide Find;
    var j := Find(chain, k);
    var rest := chain[..i] + chain[i + 1..];
    assert forall n | i <= n < |rest| :: rest[n] == chain[n + 1];
    FindIs(rest, k, if j < i then j else j - 1);
  }

  lemma OtherKeyAfter(chain: seq<Entry>, key: Bytes, eff: Effect, k: Bytes)
    requires eff.Rewrite? || eff.Remove? ==> Find(chain, key) < |chain|
    requires eff.Rewrite? || eff.Link? ==> eff.e.key == key
    requires k != key
    ensures InChain(Bucket(chain, Find(chain, key), eff), k) ==
            if eff.Link? && Behind(chain, key, k) then None else InChain(chain, k)
  {
    hide Find;
    var i := Find(chain, key);
    match eff {
      case Keep =>
      case Skip =>
      case Rewrite(e) => FindIs(chain[i := e], k, Find(chain, k));
      case Link(e) =>
        assert i == Find(chain, k) ==> i == |chain|;
        OtherKeyAfterLink(chain, i, e, k);
      case Remove => OtherKeyAfterRemove(chain, i, k);
    }
  }

  /** An effect changes its own key as stated and no other key, except that a link loses the keys it cuts off. */
  lemma LookupAfterApply(s: State, key: Bytes, eff: Effect, k: Bytes)
    requires WellFormed(s)
    requires eff.Rewrite? || eff.Remove? ==> Lookup(s, key).Some?
    requires eff.Rewrite? || eff.Link? ==> eff.e.key == key
    ensures var b := BinOf(key, |s.bins|);
      var s' := Apply(s, b, Find(s.bins[b], key), eff);
      Lookup(s', k) ==
        if k == key then AfterEffect(Lookup(s, key), eff)
        else if eff.Link? && CutOff(s, key, k) then None
        else Lookup(s, k)
  {
    hide BinOf, Bucket, Find;
    var b := BinOf(key, |s.bins|);
    assert BinOk(s.bins[b], b, |s.bins|);
    if k == key {
      OwnKeyAfter(s.bins[b], key, eff);
    } else {
      OtherKeyAfter(s.bins[b], key, eff, k);
    }
  }

  ghost predicate Refines(s: State, c: Call)
    requires |s.bins| > 0
  {
    MapStep(View(s), c.op, c.now) == (View(Step(s, c).0), Step(s, c).1)
  }

  /** The one way a moved append can come out right: the old value already ends in the data, and
      the new block happens to hold the data again just behind it. */
  predicate LuckyAppend(value: Bytes, data: Bytes, env: Env) {
    && env.served && |data| <= |value|
    && value[|value| - |data|..] == data && env.junk == data
  }

  lemma MovedAppendIsRightIff(value: Bytes, data: Bytes, junk: Bytes)
    requires |data| <= |value| && |junk| == |data|
    ensures MovedAppend(value, data, junk) == value + data <==> value[|value| - |data|..] == data && junk == data
  {
    var n := |value| - |data|;
    var r := MovedAppend(value, data, junk);
    assert value == value[..n] + value[n..];
    if r == value + data {
      assert value[n..] == (value + data)[n..|value|] == r[n..|value|] == data;
      assert data == (value + data)[|value|..] == r[|value|..] == junk;
    }
  }

  /** The expiration an overwrite stores as it is given is the one the call asked for. */
  predicate ExpirationKept(item: Item, now: nat) {
    item.expiration == 0 || item.expiration > CONFIG_EXPTIME_OFFSET || now % U32 == 0
  }

  lemma ExpirationKeptIff(e: Entry, item: Item, cas: nat, now: nat)
    ensures Overwrite(e, item, cas) == Fresh(e.key, item, cas, now) <==> ExpirationKept(item, now)
  {
    if 0 < item.expiration <= CONFIG_EXPTIME_OFFSET {
      SameRemainder(item.expiration, now, U32);
    }
  }

  /** When the code does what the map operation does, as far as the key's own entry decides it: the call gets
      the memory it needs, what it changes is not expired, an overwrite keeps the expiration asked for, append
      need not move (or is lucky), and cas finds an item. */
  predicate Granted(found: Option<Entry>, c: Call) {
    var stores := c.env.moved ==> c.env.served;
    var live := found.Some? && !Expired(found.value, c.now);
    match c.op {
      case Get(_) => true
      case Del(_) => true
      case Set(_, item) => if found.Some? then stores && ExpirationKept(item, c.now) else c.env.served
      case Add(_, _) => live || c.env.served
      case Replace(_, item) => live ==> stores && ExpirationKept(item, c.now)
      case Append(_, data) => found.Some? ==> live && (!c.env.moved || LuckyAppend(found.value.value, data, c.env))
      case Cas(_, unique, item) =>
        found.Some? && (found.value.cas == unique ==> live && stores && ExpirationKept(item, c.now))
      case _ => found.Some? ==> live && stores
    }
  }

  /** An expired item is re-added only from the tail of its bucket. */
  predicate AtTail(s: State, c: Call)
    requires |s.bins| > 0
  {
    var found := Lookup(s, c.op.key);
    var chain := s.bins[BinOf(c.op.key, |s.bins|)];
    c.op.Add? && found.Some? && Expired(found.value, c.now) ==> Find(chain, c.op.key) == |chain| - 1
  }

  predicate Exact(s: State, c: Call)
    requires |s.bins| > 0
  {
    Granted(Lookup(s, c.op.key), c) && AtTail(s, c)
  }

  /** The map effect that corresponds to a bucket effect. */
  function MapEffect(s: MapState, key: Bytes, eff: Effect): MapState {
    match eff {
      case Keep => s
      case Skip => s.(cas := NextCas(s.cas))
      case Rewrite(e) => MapState(s.m[key := e], NextCas(s.cas))
      case Link(e) => MapState(s.m[key := e], NextCas(s.cas))
      case Remove => s.(m := s.m - {key})
    }
  }

  lemma ViewCas(s: State)
    requires |s.bins| > 0
    ensures View(s).cas == s.cas
  {
  }

  /** A bucket effect that cuts no other entry off is the map effect. */
  lemma ApplyRefines(s: State, key: Bytes, eff: Effect)
    requires WellFormed(s)
    requires eff.Rewrite? || eff.Remove? ==> Lookup(s, key).Some?
    requires eff.Rewrite? || eff.Link? ==> eff.e.key == key
    requires var chain := s.bins[BinOf(key, |s.bins|)]; !eff.Link? || Find(chain, key) >= |chain| - 1
    ensures var b := BinOf(key, |s.bins|);
      View(Apply(s, b, Find(s.bins[b], key), eff)) == MapEffect(View(s), key, eff)
  {
    hide BinOf, View, Find, Bucket, WellFormed;
    var b := BinOf(key, |s.bins|);
    var s' := Apply(s, b, Find(s.bins[b], key), eff);
    hide Lookup, Apply;
    var m' := MapEffect(View(s), key, eff).m;
    forall k
      ensures k in View(s').m <==> k in m'
      ensures k in m' ==> View(s').m[k] == m'[k]
    {
      LookupAfterApply(s, key, eff, k);
      ViewLookup(s, k);
      ViewLookup(s', k);
    }
    ViewCas(s);
    ViewCas(s');
    assert View(s').m == m';
  }

  /** A link in the middle of a bucket never is: the entry behind it is gone. */
  lemma LinkLosesTail(s: State, key: Bytes, e: Entry)
    requires WellFormed(s) && e.key == key
    requires var chain := s.bins[BinOf(key, |s.bins|)]; Find(chain, key) < |chain| - 1
    ensures var b := BinOf(key, |s.bins|);
      View(Apply(s, b, Find(s.bins[b], key), Link(e))).m != View(s).m[key := e]
  {
    hide BinOf, View;
    var b := BinOf(key, |s.bins|);
    var i := Find(s.bins[b], key);
    var s' := Apply(s, b, i, Link(e));
    var lost := s.bins[b][i + 1].key;
    assert BinOk(s.bins[b], b, |s.bins|);
    FindIs(s.bins[b], lost, i + 1);
    LookupAfterApply(s, key, Link(e), lost);
    ViewLookup(s, lost);
    ViewLookup(s', lost);
  }

  /** The map operation, written with the same effects as the buckets'. */
  lemma MapStepEffect(s: State, c: Call)
    requires |s.bins| > 0 && Granted(Lookup(s, c.op.key), c)
    requires JunkFits(c)
    ensures var (eff, r) := EffectOf(Lookup(s, c.op.key), s.cas, c);
      MapStep(View(s), c.op, c.now) == (MapEffect(View(s), c.op.key, eff), r)
  {
    hide BinOf, View, Counted, Lookup;
    ViewLookup(s, c.op.key);
    ViewCas(s);
    if Lookup(s, c.op.key).None? {
      assert View(s).m - {c.op.key} == View(s).m;
    } else if c.op.Append? && |c.op.data| <= |Lookup(s, c.op.key).value.value| {
      MovedAppendIsRightIff(Lookup(s, c.op.key).value.value, c.op.data, c.env.junk);
    }
  }

  lemma NotGrantedDiffers(s: State, c: Call)
    requires |s.bins| > 0 && !Granted(Lookup(s, c.op.key), c)
    requires JunkFits(c)
    ensures var (eff, r) := EffectOf(Lookup(s, c.op.key), s.cas, c);
      var after := MapStep(View(s), c.op, c.now);
      || after.1 != r
      || (c.op.key in after.0.m && eff == Skip)
      || (c.op.key in after.0.m && eff.Rewrite? && after.0.m[c.op.key] != eff.e)
  {
    hide BinOf, View, Counted, Lookup, MovedAppend;
    ViewLookup(s, c.op.key);
    if Lookup(s, c.op.key).Some? && c.op.Append? && |c.op.data| <= |Lookup(s, c.op.key).value.value| {
      MovedAppendIsRightIff(Lookup(s, c.op.key).value.value, c.op.data, c.env.junk);
    }
  }

  /** The code does what the map operation does exactly under the guards. */
  lemma RefinesIffExact(s: State, c: Call)
    requires WellFormed(s)
    requires JunkFits(c)
    ensures Refines(s, c) <==> Exact(s, c)
  {
    hide BinOf, View, EffectOf, Granted, MapStep, Find, Bucket, WellFormed;
    HasBins(s);
    var found := Lookup(s, c.op.key);
    var (eff, r) := EffectOf(found, s.cas, c);
    EffectFacts(found, s.cas, c);
    if !Granted(found, c) {
      NotGrantedDiffers(s, c);
      ViewLookup(s, c.op.key);
      LookupAfterApply(s, c.op.key, eff, c.op.key);
      ViewLookup(Step(s, c).0, c.op.key);
      CasSkipsOnlyAbsent(found, s.cas, c);
    } else {
      MapStepEffect(s, c);
      LinkMeansStale(found, s.cas, c);
      if AtTail(s, c) {
        ApplyRefines(s, c.op.key, eff);
      } else {
        LinkLosesTail(s, c.op.key, eff.e);
      }
    }
  }

  lemma CasSkipsOnlyAbsent(found: Option<Entry>, cas: nat, c: Call)
    ensures EffectOf(found, cas, c).0.Skip? ==> found.None?
  {
  }

  lemma LinkMeansStale(found: Option<Entry>, cas: nat, c: Call)
    requires Granted(found, c)
    ensures (EffectOf(found, cas, c).0.Link? && found.Some?) <==>
            (c.op.Add? && found.Some? && Expired(found.value, c.now))
  {
    hide Counted;
  }

  function MapAt(s: MapState, calls: seq<Call>, m: nat): MapState
    requires m <= |calls|
  {
    if m == 0 then s else MapStep(MapAt(s, calls, m - 1), calls[m - 1].op, calls[m - 1].now).0
  }

  function MapReplyAt(s: MapState, calls: seq<Call>, m: nat): Reply
    requires m < |calls|
  {
    MapStep(MapAt(s, calls, m), calls[m].op, calls[m].now).1
  }

  /** The call meets its guard in the state it runs in. */
  ghost predicate ExactAt(s: State, calls: seq<Call>, i: nat)
    requires |s.bins| > 0 && i < |calls|
  {
    Exact(StateAt(s, calls, i), calls[i]) && JunkFits(calls[i])
  }

  /** Whole runs: table and map stay in step and give the same replies. */
  lemma {:induction false} RunRefinesMap(s: State, calls: seq<Call>, m: nat)
    requires WellFormed(s) && m <= |calls|
    requires forall i | 0 <= i < m :: ExactAt(s, calls, i)
    ensures View(StateAt(s, calls, m)) == MapAt(View(s), calls, m)
    ensures forall i | 0 <= i < m :: ReplyAt(s, calls, i) == MapReplyAt(View(s), calls, i)
    decreases m
  {
    hide BinOf, Exact, Step, MapStep, View, WellFormed;
    HasBins(s);
    if m > 0 {
      RunRefinesMap(s, calls, m - 1);
      RunKeepsWellFormed(s, calls, m - 1);
      assert ExactAt(s, calls, m - 1);
      RefinesIffExact(StateAt(s, calls, m - 1), calls[m - 1]);
    }
  }
}
