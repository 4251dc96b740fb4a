/** The cache's operations on bucket chains of entries.

    This is the level between memory and the map a client thinks of: buckets and the
    order inside them are kept, because two operations lose entries by position, but
    blocks and bytes are gone. What memory decides - whether the allocator could
    serve a request, whether a value had to move to a bigger block, what was in the
    fresh part of that block - is the `Env` of a step. */
module Engine {
  import opened Base
  import opened Decimal
  import opened KeyHash

  const CONFIG_EXPTIME_OFFSET := 60 * 60 * 24 * 30

  datatype Entry = Entry(key: Bytes, value: Bytes, cas: nat, flags: nat, expire: nat)

  /** The buckets, each from head to tail, and the CAS counter m_cas. */
  datatype State = State(bins: seq<seq<Entry>>, cas: nat)

  /** What an operation writes besides the key. */
  datatype Item = Item(value: Bytes, expiration: nat, flags: nat)

  datatype Op =
    | Get(key: Bytes)
    | Set(key: Bytes, item: Item)
    | Add(key: Bytes, item: Item)
    | Replace(key: Bytes, item: Item)
    | Append(key: Bytes, data: Bytes)
    | Prepend(key: Bytes, data: Bytes)
    | Cas(key: Bytes, casUnique: nat, item: Item)
    | Incr(key: Bytes, amount: nat)
    | Decr(key: Bytes, amount: nat)
    | Del(key: Bytes)

  /** Fault is a NULL dereference or a write outside the value: the process is lost. */
  datatype Reply = Hit(value: Bytes, flags: nat, cas: nat) | Miss | Done(ok: bool) | Deleted(expire: nat) | Fault

  /** served: the allocator can meet the request; moved: the item's block is too small for the new
      value; junk: the bytes a bigger block holds just beyond the value copied into it. */
  datatype Env = Env(served: bool, moved: bool, junk: Bytes)

  /** One call at time `now`. */
  datatype Call = Call(op: Op, now: nat, env: Env)

  /** A moved append ends in as many bytes as were appended. */
  predicate JunkFits(c: Call) {
    c.op.Append? ==> |c.env.junk| == |c.op.data|
  }

  /** Position of the key in a bucket, or the bucket's length. */
  function Find(chain: seq<Entry>, key: Bytes): (i: nat)
    ensures i <= |chain|
    ensures i < |chain| ==> chain[i].key == key
    ensures forall j | 0 <= j < i :: chain[j].key != key
  {
    if chain == [] then 0 else if chain[0].key == key then 0 else 1 + Find(chain[1..], key)
  }

  lemma {:induction false} FindIs(chain: seq<Entry>, k: Bytes, i: nat)
    requires i <= |chain|
    requires i < |chain| ==> chain[i].key == k
    requires forall j | 0 <= j < i :: chain[j].key != k
    ensures Find(chain, k) == i
  {
  }

  predicate Expired(e: Entry, now: nat) {
    e.expire != 0 && now > e.expire
  }

  /** HashItem::setup: expirations up to thirty days are relative to now. */
  function SetupExpire(expiration: nat, now: nat): nat {
    if expiration == 0 then 0
    else if expiration <= CONFIG_EXPTIME_OFFSET then (now + expiration) % U32
    else expiration
  }

  function NextCas(cas: nat): nat {
    Wrap64(cas + 1)
  }

  function Fresh(key: Bytes, item: Item, cas: nat, now: nat): Entry {
    Entry(key, item.value, cas, item.flags, SetupExpire(item.expiration, now))
  }

  /** Overwriting keeps the given expiration as it is. */
  function Overwrite(e: Entry, item: Item, cas: nat): Entry {
    Entry(e.key, item.value, cas, item.flags, item.expiration)
  }

  /** What one call does to the bucket of its key. */
  datatype Effect =
    | Keep
    | Skip            // only a CAS value is consumed
    | Rewrite(e: Entry)
    | Link(e: Entry)
    | Remove

  /** The bucket after an effect at position i, where the key was found or would have been found. A
      linked node's next pointer is NULL, so whatever stood at position i or behind it is cut off. */
  function Bucket(chain: seq<Entry>, i: nat, eff: Effect): seq<Entry>
    requires i <= |chain|
    requires eff.Rewrite? || eff.Remove? ==> i < |chain|
  {
    match eff {
      case Keep => chain
      case Skip => chain
      case Rewrite(e) => chain[i := e]
      case Link(e) => chain[..i] + [e]
      case Remove => chain[..i] + chain[i + 1..]
    }
  }

  /** Rewriting, linking and skipping each consume one CAS value. */
  function CasAfter(cas: nat, eff: Effect): nat {
    if eff.Keep? || eff.Remove? then cas else NextCas(cas)
  }

  function Apply(s: State, b: nat, i: nat, eff: Effect): State
    requires b < |s.bins| && i <= |s.bins[b]|
    requires eff.Rewrite? || eff.Remove? ==> i < |s.bins[b]|
  {
    State(s.bins[b := Bucket(s.bins[b], i, eff)], CasAfter(s.cas, eff))
  }

  /** The bytes append leaves when the value has moved: the tail of the old value is overwritten and
      the value ends in whatever the new block held. */
  function MovedAppend(old_: Bytes, data: Bytes, junk: Bytes): Bytes
    requires |data| <= |old_|
  {
    old_[..|old_| - |data|] + data + junk
  }

  function Counted(value: Bytes, amount: int): Bytes {
    Text(Wrap64(Parse(value) + amount))
  }

  /** Storing into an existing item, in place or in a bigger block. */
  function Store(e: Entry, env: Env): (Effect, Reply) {
    if env.moved && !env.served then (Keep, Fault) else (Rewrite(e), Done(true))
  }

  /** Storing a new item. */
  function StoreNew(e: Entry, env: Env): (Effect, Reply) {
    if env.served then (Link(e), Done(true)) else (Keep, Done(false))
  }

  function OnAbsent(cas: nat, c: Call): (Effect, Reply) {
    match c.op {
      case Get(_) => (Keep, Miss)
      case Set(k, item) => StoreNew(Fresh(k, item, cas, c.now), c.env)
      case Add(k, item) => StoreNew(Fresh(k, item, cas, c.now), c.env)
      // the new block is set up but never linked
      case Cas(_, _, _) => if c.env.served then (Skip, Done(true)) else (Keep, Fault)
      case _ => (Keep, Done(false))
    }
  }

  function OnFound(e: Entry, cas: nat, c: Call): (Effect, Reply) {
    var env := c.env;
    match c.op {
      case Get(_) => if Expired(e, c.now) then (Remove, Miss) else (Keep, Hit(e.value, e.flags, e.cas))
      case Set(_, item) => Store(Overwrite(e, item, cas), env)
      case Add(k, item) =>
        if !Expired(e, c.now) then (Keep, Done(false))
        else if env.served then (Link(Fresh(k, item, cas, c.now)), Done(true))
        else (Remove, Done(false))
      case Replace(_, item) =>
        if Expired(e, c.now) then (Remove, Done(false)) else Store(Overwrite(e, item, cas), env)
      case Append(_, data) =>
        if !env.moved then (Rewrite(e.(value := e.value + data, cas := cas)), Done(true))
        else if !env.served || |data| > |e.value| then (Keep, Fault)
        else (Rewrite(e.(value := MovedAppend(e.value, data, env.junk), cas := cas)), Done(true))
      case Prepend(_, data) => Store(e.(value := data + e.value, cas := cas), env)
      case Cas(_, unique, item) =>
        if e.cas != unique then (Keep, Done(false)) else Store(Overwrite(e, item, cas), env)
      case Incr(_, n) => Store(e.(value := Counted(e.value, n), cas := cas), env)
      case Decr(_, n) => Store(e.(value := Counted(e.value, 0 - n), cas := cas), env)
      case Del(_) => (Remove, if Expired(e, c.now) then Done(false) else Deleted(e.expire))
    }
  }

  function EffectOf(found: Option<Entry>, cas: nat, c: Call): (Effect, Reply) {
    match found {
      case None => OnAbsent(cas, c)
      case Some(e) => OnFound(e, cas, c)
    }
  }

  /** The entry stored for a key. */
  function Lookup(s: State, key: Bytes): Option<Entry>
    requires |s.bins| > 0
  {
    InChain(s.bins[BinOf(key, |s.bins|)], key)
  }

  function InChain(chain: seq<Entry>, key: Bytes): Option<Entry> {
    var i := Find(chain, key);
    if i < |chain| then Some(chain[i]) else None
  }

  /** How long the key's value is; 0 without an entry. */
  function Length(s: State, key: Bytes): nat {
    if |s.bins| > 0 && Lookup(s, key).Some? then |Lookup(s, key).value.value| else 0
  }

  /** Every stored entry carries the call's own key and the counter's value. */
  lemma EffectFacts(found: Option<Entry>, cas: nat, c: Call)
    requires found.Some? ==> found.value.key == c.op.key
    ensures var eff := EffectOf(found, cas, c).0;
      && (eff.Rewrite? || eff.Remove? ==> found.Some?)
      && (eff.Rewrite? || eff.Link? ==> eff.e.key == c.op.key && eff.e.cas == cas)
  {
    hide Text, Parse;
  }

  function Step(s: State, c: Call): (State, Reply)
    requires |s.bins| > 0
  {
    var b := BinOf(c.op.key, |s.bins|);
    var (eff, reply) := EffectOf(Lookup(s, c.op.key), s.cas, c);
    EffectFacts(Lookup(s, c.op.key), s.cas, c);
    (Apply(s, b, Find(s.bins[b], c.op.key), eff), reply)
  }

  /** Every entry is in the bucket of its key, and no key occurs twice. */
  ghost predicate BinOk(chain: seq<Entry>, b: nat, n: nat)
    requires n > 0
  {
    && (forall i | 0 <= i < |chain| :: BinOf(chain[i].key, n) == b)
    && (forall i, j | 0 <= i < j < |chain| :: chain[i].key != chain[j].key)
  }

  ghost predicate WellFormed(s: State) {
    && |s.bins| > 0
    && forall b | 0 <= b < |s.bins| :: BinOk(s.bins[b], b, |s.bins|)
  }

  lemma HasBins(s: State)
    requires WellFormed(s)
    ensures |s.bins| > 0
  {
  }

  lemma ApplyKeepsWellFormed(s: State, key: Bytes, eff: Effect)
    requires WellFormed(s)
    requires eff.Rewrite? || eff.Remove? ==> Lookup(s, key).Some?
    requires eff.Rewrite? || eff.Link? ==> eff.e.key == key
    ensures var b := BinOf(key, |s.bins|); WellFormed(Apply(s, b, Find(s.bins[b], key), eff))
  {
    hide BinOf;
    var b := BinOf(key, |s.bins|);
    assert BinOk(s.bins[b], b, |s.bins|);
  }

  lemma StepKeepsWellFormed(s: State, c: Call)
    requires WellFormed(s)
    ensures WellFormed(Step(s, c).0) && |Step(s, c).0.bins| == |s.bins|
  {
    hide EffectOf, BinOf;
    EffectFacts(Lookup(s, c.op.key), s.cas, c);
    ApplyKeepsWellFormed(s, c.op.key, EffectOf(Lookup(s, c.op.key), s.cas, c).0);
  }

  ghost predicate Holds(s: State, e: Entry) {
    exists b, i :: 0 <= b < |s.bins| && 0 <= i < |s.bins[b]| && s.bins[b][i] == e
  }

  /** Chain scans find exactly what the table holds. */
  lemma LookupIffHolds(s: State, e: Entry)
    requires WellFormed(s)
    ensures Lookup(s, e.key) == Some(e) <==> Holds(s, e)
  {
    hide BinOf;
    var b := BinOf(e.key, |s.bins|);
    var i := Find(s.bins[b], e.key);
    if Holds(s, e) {
      var b', i' :| 0 <= b' < |s.bins| && 0 <= i' < |s.bins[b']| && s.bins[b'][i'] == e;
      assert BinOk(s.bins[b'], b', |s.bins|);
      assert b' == b && i == i';
    }
  }

  /** The state after the first m calls of a run. */
  function StateAt(s: State, calls: seq<Call>, m: nat): (r: State)
    requires |s.bins| > 0 && m <= |calls|
    ensures |r.bins| == |s.bins|
  {
    if m == 0 then s else Step(StateAt(s, calls, m - 1), calls[m - 1]).0
  }

  function ReplyAt(s: State, calls: seq<Call>, m: nat): Reply
    requires |s.bins| > 0 && m < |calls|
  {
    Step(StateAt(s, calls, m), calls[m]).1
  }

  lemma {:induction false} RunKeepsWellFormed(s: State, calls: seq<Call>, m: nat)
    requires WellFormed(s) && m <= |calls|
    ensures WellFormed(StateAt(s, calls, m))
    decreases m
  {
    hide BinOf, Step;
    HasBins(s);
    if m > 0 {
      RunKeepsWellFormed(s, calls, m - 1);
      StepKeepsWellFormed(StateAt(s, calls, m - 1), calls[m - 1]);
    }
  }
}
