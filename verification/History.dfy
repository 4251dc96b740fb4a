/** Properties of whole runs of cache calls: hits are never stale, CAS has no ABA,
    and counters count. */
module History {
  import opened Base
  import opened Decimal
  import opened KeyHash
  import opened Engine
  import opened Refinement

  /** Any call leaves every other key as it was, or loses it; only re-adding an expired item that is
      not last in its bucket loses anything. */
  lemma OtherKeys(s: State, c: Call, k: Bytes)
    requires WellFormed(s) && k != c.op.key
    ensures var lost := c.op.Add? && Step(s, c).1 == Done(true) && CutOff(s, c.op.key, k);
      Lookup(Step(s, c).0, k) == if lost then None else Lookup(s, k)
  {
    hide BinOf, Find, Bucket, EffectOf, WellFormed;
    HasBins(s);
    var found := Lookup(s, c.op.key);
    EffectFacts(found, s.cas, c);
    LookupAfterApply(s, c.op.key, EffectOf(found, s.cas, c).0, k);
    LinksOnlyWhere(found, s.cas, c);
  }

  lemma OwnKey(s: State, c: Call)
    requires WellFormed(s)
    ensures Lookup(Step(s, c).0, c.op.key) ==
            AfterEffect(Lookup(s, c.op.key), EffectOf(Lookup(s, c.op.key), s.cas, c).0)
  {
    hide BinOf, Find, Bucket, EffectOf, WellFormed;
    HasBins(s);
    var found := Lookup(s, c.op.key);
    EffectFacts(found, s.cas, c);
    LookupAfterApply(s, c.op.key, EffectOf(found, s.cas, c).0, c.op.key);
  }

  lemma LinksOnlyWhere(found: Option<Entry>, cas: nat, c: Call)
    ensures found.Some? ==> (EffectOf(found, cas, c).0.Link? <==> c.op.Add? && EffectOf(found, cas, c).1 == Done(true))
  {
    hide Counted;
  }

  // ----- no stale hits

  /** What a reader may be told about a key. */
  datatype Stored = Stored(value: Bytes, flags: nat, cas: nat)

  /** What the last write made of a key, seen from the outside: from the calls and their replies. */
  function Written(r: Option<Stored>, op: Op, reply: Reply, cas: nat): Option<Stored> {
    if reply.Deleted? then None
    else if reply != Done(true) then r
    else
      match op {
        case Set(_, item) => Some(Stored(item.value, item.flags, cas))
        case Add(_, item) => Some(Stored(item.value, item.flags, cas))
        case Replace(_, item) => Some(Stored(item.value, item.flags, cas))
        case Cas(_, _, item) => Some(Stored(item.value, item.flags, cas))
        case Append(_, data) => Revalued(r, old_ => old_ + data, cas)
        case Prepend(_, data) => Revalued(r, old_ => data + old_, cas)
        case Incr(_, n) => Revalued(r, old_ => Counted(old_, n), cas)
        case Decr(_, n) => Revalued(r, old_ => Counted(old_, 0 - n), cas)
        case _ => r
      }
  }

  function Revalued(r: Option<Stored>, f: Bytes -> Bytes, cas: nat): Option<Stored> {
    if r.Some? then Some(Stored(f(r.value.value), r.value.flags, cas)) else None
  }

  function LastWrite(s: State, calls: seq<Call>, k: Bytes, m: nat): Option<Stored>
    requires |s.bins| > 0 && m <= |calls|
  {
    if m == 0 then None
    else
      var r := LastWrite(s, calls, k, m - 1);
      if calls[m - 1].op.key == k then
        Written(r, calls[m - 1].op, ReplyAt(s, calls, m - 1), StateAt(s, calls, m - 1).cas)
      else r
  }

  ghost predicate Agrees(found: Option<Entry>, r: Option<Stored>) {
    found.Some? ==> r == Some(Stored(found.value.value, found.value.flags, found.value.cas))
  }

  lemma EffectAgrees(found: Option<Entry>, r: Option<Stored>, cas: nat, c: Call)
    requires Agrees(found, r) && (c.op.Append? ==> !c.env.moved)
    ensures var (eff, reply) := EffectOf(found, cas, c);
      Agrees(AfterEffect(found, eff), Written(r, c.op, reply, cas))
  {
    hide Counted;
  }

  ghost predicate Empty(s: State) {
    |s.bins| > 0 && forall b | 0 <= b < |s.bins| :: s.bins[b] == []
  }

  /** None of the first m calls appends to k by way of a bigger block. */
  ghost predicate NoMovedAppend(calls: seq<Call>, k: Bytes, m: nat) {
    m <= |calls| && forall i | 0 <= i < m :: calls[i].op.Append? && calls[i].op.key == k ==> !calls[i].env.moved
  }

  /** Started empty, the table never disagrees with the last write, whatever entries it has lost. */
  lemma {:induction false} TableAgreesWithLastWrite(s: State, calls: seq<Call>, k: Bytes, m: nat)
    requires WellFormed(s) && Empty(s) && m <= |calls|
    requires NoMovedAppend(calls, k, m)
    ensures Agrees(Lookup(StateAt(s, calls, m), k), LastWrite(s, calls, k, m))
    decreases m
  {
    hide BinOf, EffectOf, WellFormed, Bucket, Agrees, Written;
    if m == 0 {
      assert Lookup(s, k) == None;
      AbsentAgrees(None);
    } else {
      var before, last, r := StateAt(s, calls, m - 1), calls[m - 1], LastWrite(s, calls, k, m - 1);
      TableAgreesWithLastWrite(s, calls, k, m - 1);
      RunKeepsWellFormed(s, calls, m - 1);
      if last.op.key == k {
        OwnKey(before, last);
        EffectAgrees(Lookup(before, k), r, before.cas, last);
      } else {
        OtherKeys(before, last, k);
        AbsentAgrees(r);
      }
    }
  }

  lemma AbsentAgrees(r: Option<Stored>)
    ensures Agrees(None, r)
  {
  }

  /** A hit returns the bytes, flags and CAS value of the last write, with no delete since, and is not expired. */
  lemma NoStaleHit(s: State, calls: seq<Call>, m: nat)
    requires WellFormed(s) && Empty(s) && m < |calls|
    requires NoMovedAppend(calls, calls[m].op.key, m)
    requires calls[m].op.Get? && ReplyAt(s, calls, m).Hit?
    ensures var h := ReplyAt(s, calls, m);
      LastWrite(s, calls, calls[m].op.key, m) == Some(Stored(h.value, h.flags, h.cas))
    ensures var e := Lookup(StateAt(s, calls, m), calls[m].op.key);
      e.Some? && (e.value.expire == 0 || calls[m].now <= e.value.expire)
  {
    hide BinOf, WellFormed, LastWrite;
    TableAgreesWithLastWrite(s, calls, calls[m].op.key, m);
  }

  // ----- what replies mean

  /** A get hits exactly the entries that are not expired, and tells them. */
  lemma GetIs(s: State, key: Bytes, now: nat, env: Env)
    requires |s.bins| > 0
    ensures var found, r := Lookup(s, key), Step(s, Call(Op.Get(key), now, env)).1;
      && (r.Hit? <==> found.Some? && (found.value.expire == 0 || now <= found.value.expire))
      && (r.Hit? ==> r == Hit(found.value.value, found.value.flags, found.value.cas))
      && (!r.Hit? ==> r == Miss)
  {
    hide BinOf, Apply;
  }

  /** How long from `now` on an item with this expiration is to be found: for ever, for a span of up to thirty
      days, or until a point in time. The clock and the sum with it are 32-bit words. */
  predicate FoundAt(expiration: nat, now: nat, later: nat) {
    if expiration == 0 then true
    else if expiration > 60 * 60 * 24 * 30 then later <= expiration
    else if now + expiration < U32 then later <= now + expiration
    else now + expiration == U32 || later <= now + expiration - U32
  }

  /** A new item, set or added, is found exactly as long as its expiration says. */
  lemma NewItemExpires(s: State, c: Call, later: nat, env: Env)
    requires WellFormed(s) && c.now < U32 && Step(s, c).1 == Done(true)
    requires c.op.Add? || (c.op.Set? && Lookup(s, c.op.key).None?)
    ensures var s' := Step(s, c).0;
      && |s'.bins| > 0
      && (Step(s', Call(Op.Get(c.op.key), later, env)).1.Hit? <==> FoundAt(c.op.item.expiration, c.now, later))
  {
    hide BinOf, Find, Bucket, WellFormed, Lookup;
    HasBins(s);
    OwnKey(s, c);
    GetIs(Step(s, c).0, c.op.key, later, env);
  }

  /** When each operation reports success. */
  lemma SucceedsIff(s: State, c: Call)
    requires |s.bins| > 0
    ensures var found, r := Lookup(s, c.op.key), Step(s, c).1;
      var live := found.Some? && (found.value.expire == 0 || c.now <= found.value.expire);
      var room := c.env.moved ==> c.env.served;
      match c.op {
        case Get(_) => r.Hit? <==> live
        case Del(_) => if live then r == Deleted(found.value.expire) else r == Done(false)
        case Set(_, _) => r == Done(true) <==> if found.Some? then room else c.env.served
        case Add(_, _) => r == Done(true) <==> !live && c.env.served
        case Replace(_, _) => r == Done(true) <==> live && room
        case Append(_, data) =>
          r == Done(true) <==>
          found.Some? && (c.env.moved ==> c.env.served && |data| <= |found.value.value|)
        case Cas(_, unique, _) =>
          r == Done(true) <==> if found.Some? then found.value.cas == unique && room else c.env.served
        case _ => r == Done(true) <==> found.Some? && room
      }
  {
    hide BinOf, Apply, Counted, MovedAppend, SetupExpire;
  }

  /** What does not succeed changes no entry, but that get, del, add and replace remove an expired one of their key. */
  lemma FailureKeeps(s: State, c: Call, k: Bytes)
    requires WellFormed(s) && (Step(s, c).1 == Done(false) || Step(s, c).1 == Miss || Step(s, c).1.Hit?)
    ensures |s.bins| > 0 && |Step(s, c).0.bins| > 0
    ensures var found := Lookup(s, k);
      Lookup(Step(s, c).0, k) ==
        if k == c.op.key && (c.op.Get? || c.op.Del? || c.op.Add? || c.op.Replace?)
           && found.Some? && found.value.expire != 0 && c.now > found.value.expire
        then None else found
  {
    hide BinOf, Find, Bucket, WellFormed, Lookup, Counted, MovedAppend, SetupExpire;
    HasBins(s);
    if k == c.op.key {
      OwnKey(s, c);
    } else {
      OtherKeys(s, c, k);
    }
  }

  // ----- CAS

  /** CAS values in the table are pairwise different and below the counter. */
  ghost predicate CasOk(s: State)
    requires |s.bins| > 0
  {
    && (forall k | Lookup(s, k).Some? :: Lookup(s, k).value.cas < s.cas)
    && (forall k, l | k != l && Lookup(s, k).Some? && Lookup(s, l).Some? ::
          Lookup(s, k).value.cas != Lookup(s, l).value.cas)
  }

  /** Until the counter wraps, every write takes a CAS value above all those in the table. */
  lemma StepKeepsCasOk(s: State, c: Call)
    requires WellFormed(s) && CasOk(s) && s.cas + 1 < U64
    ensures CasOk(Step(s, c).0) && s.cas <= Step(s, c).0.cas <= s.cas + 1
    ensures var k := c.op.key; var after := Lookup(Step(s, c).0, k);
      after.Some? ==> after == Lookup(s, k) || (after.value.cas == s.cas && Step(s, c).0.cas == s.cas + 1)
  {
    hide BinOf, WellFormed, Bucket, EffectOf, Find;
    var key, s' := c.op.key, Step(s, c).0;
    EffectFacts(Lookup(s, key), s.cas, c);
    OwnKey(s, c);
    hide Lookup, Step;
    forall k
      ensures Lookup(s', k).Some? ==> Lookup(s', k).value.cas < s'.cas
      ensures Lookup(s', k).Some? && k != key ==> Lookup(s', k) == Lookup(s, k)
    {
      if k != key {
        OtherKeys(s, c, k);
      }
    }
  }

  lemma {:induction false} RunKeepsCasOk(s: State, calls: seq<Call>, m: nat)
    requires WellFormed(s) && CasOk(s) && m <= |calls| && s.cas + m < U64
    ensures CasOk(StateAt(s, calls, m)) && s.cas <= StateAt(s, calls, m).cas <= s.cas + m
    decreases m
  {
    hide BinOf, WellFormed, CasOk, Step;
    HasBins(s);
    if m > 0 {
      RunKeepsCasOk(s, calls, m - 1);
      RunKeepsWellFormed(s, calls, m - 1);
      StepKeepsCasOk(StateAt(s, calls, m - 1), calls[m - 1]);
    }
  }

  lemma {:induction false} CasGrows(s: State, calls: seq<Call>, i: nat, m: nat)
    requires WellFormed(s) && CasOk(s) && i <= m <= |calls| && s.cas + m < U64
    ensures StateAt(s, calls, i).cas <= StateAt(s, calls, m).cas
    decreases m
  {
    hide BinOf, WellFormed, CasOk, Step;
    HasBins(s);
    if i < m {
      CasGrows(s, calls, i, m - 1);
      RunKeepsCasOk(s, calls, m - 1);
      RunKeepsWellFormed(s, calls, m - 1);
      StepKeepsCasOk(StateAt(s, calls, m - 1), calls[m - 1]);
    }
  }

  /** An entry older than the counter has not been touched by the last call. */
  lemma OldEntrySurvived(s: State, c: Call, k: Bytes)
    requires WellFormed(s)
    requires Lookup(Step(s, c).0, k).Some? && Lookup(Step(s, c).0, k).value.cas < s.cas
    ensures Lookup(s, k) == Lookup(Step(s, c).0, k)
  {
    hide BinOf, WellFormed, Bucket, EffectOf, Find;
    EffectFacts(Lookup(s, c.op.key), s.cas, c);
    if k == c.op.key {
      OwnKey(s, c);
    } else {
      OtherKeys(s, c, k);
    }
  }

  /** An entry with a CAS value from before call i is, after call j, what it was at every point in between. */
  lemma {:induction false} OldEntryUnchanged(s: State, calls: seq<Call>, k: Bytes, i: nat, m: nat, j: nat)
    requires WellFormed(s) && CasOk(s) && i <= m <= j <= |calls| && s.cas + j < U64
    requires var e := Lookup(StateAt(s, calls, j), k); e.Some? && e.value.cas < StateAt(s, calls, i).cas
    ensures Lookup(StateAt(s, calls, m), k) == Lookup(StateAt(s, calls, j), k)
    decreases j
  {
    hide BinOf, WellFormed, CasOk, Step, Lookup;
    HasBins(s);
    if m < j {
      RunKeepsWellFormed(s, calls, j - 1);
      CasGrows(s, calls, i, j - 1);
      OldEntrySurvived(StateAt(s, calls, j - 1), calls[j - 1], k);
      OldEntryUnchanged(s, calls, k, i, m, j - 1);
    }
  }

  ghost predicate Got(s: State, c: Call, k: Bytes, cas: nat)
    requires |s.bins| > 0
  {
    c.op == Op.Get(k) && Step(s, c).1.Hit? && Step(s, c).1.cas == cas
  }

  ghost predicate Swapped(s: State, c: Call, k: Bytes, cas: nat)
    requires |s.bins| > 0
  {
    c.op.Cas? && c.op.key == k && c.op.casUnique == cas && Lookup(s, k).Some? && Step(s, c).1 == Done(true)
  }

  lemma CasSeen(s: State, c: Call, k: Bytes, cas: nat)
    requires |s.bins| > 0 && (Got(s, c, k, cas) || Swapped(s, c, k, cas))
    ensures Lookup(s, k).Some? && Lookup(s, k).value.cas == cas
  {
    hide BinOf, Apply, Lookup;
  }

  /** If a get returned the CAS value and a later cas with that value finds an item and succeeds, then
      the key's entry - value, flags, expiration and all - was the same in every state in between. */
  lemma CasHasNoAba(s: State, calls: seq<Call>, k: Bytes, cas: nat, i: nat, m: nat, j: nat)
    requires WellFormed(s) && CasOk(s) && i <= m <= j < |calls| && s.cas + |calls| < U64
    requires Got(StateAt(s, calls, i), calls[i], k, cas)
    requires Swapped(StateAt(s, calls, j), calls[j], k, cas)
    ensures Lookup(StateAt(s, calls, m), k) == Lookup(StateAt(s, calls, i), k)
  {
    hide BinOf, WellFormed, CasOk, Step, Lookup, Got, Swapped;
    HasBins(s);
    CasSeen(StateAt(s, calls, i), calls[i], k, cas);
    CasSeen(StateAt(s, calls, j), calls[j], k, cas);
    RunKeepsCasOk(s, calls, i);
    CasBelow(StateAt(s, calls, i), k);
    OldEntryUnchanged(s, calls, k, i, m, j);
    OldEntryUnchanged(s, calls, k, i, i, j);
  }

  lemma CasBelow(s: State, k: Bytes)
    requires |s.bins| > 0 && CasOk(s) && Lookup(s, k).Some?
    ensures Lookup(s, k).value.cas < s.cas
  {
  }

  // ----- counters

  /** The increment a call applies to key k. */
  function Amount(c: Call, k: Bytes): int {
    if c.op.key != k then 0
    else match c.op
         case Incr(_, n) => n
         case Decr(_, n) => 0 - n
         case _ => 0
  }

  function Sum(calls: seq<Call>, k: Bytes, m: nat): int
    requires m <= |calls|
  {
    if m == 0 then 0 else Sum(calls, k, m - 1) + Amount(calls[m - 1], k)
  }

  /** Calls that leave k a counter: counting with enough memory; on k itself, what finds it live and only
      reads it or is refused; on other keys anything that does not cut k off. */
  ghost predicate CountsOnly(s: State, c: Call, k: Bytes)
    requires |s.bins| > 0
  {
    if c.op.key == k then ((c.op.Incr? || c.op.Decr?) && (c.env.moved ==> c.env.served)) || LeavesAlone(Lookup(s, k), c)
    else !(c.op.Add? && Step(s, c).1 == Done(true) && CutOff(s, c.op.key, k))
  }

  predicate LeavesAlone(found: Option<Entry>, c: Call) {
    && found.Some?
    && match c.op {
         case Get(_) => !Expired(found.value, c.now)
         case Add(_, _) => !Expired(found.value, c.now)
         case Cas(_, unique, _) => found.value.cas != unique
         case _ => false
       }
  }

  ghost predicate HoldsCounter(s: State, k: Bytes, v: nat)
    requires |s.bins| > 0
  {
    Lookup(s, k).Some? && v < U64 && Lookup(s, k).value.value == Text(v)
  }

  lemma CountOnce(s: State, c: Call, k: Bytes, v: nat)
    requires WellFormed(s) && CountsOnly(s, c, k) && HoldsCounter(s, k, v)
    ensures HoldsCounter(Step(s, c).0, k, Wrap64(v + Amount(c, k)))
  {
    hide BinOf, WellFormed, Bucket, Find, Apply, Text, Parse, Wrap64;
    WordIsWrap(v);
    if c.op.key == k {
      OwnKey(s, c);
      RoundTrip(v);
      WrapIsWord(v + Amount(c, k));
    } else {
      OtherKeys(s, c, k);
    }
  }

  lemma WrapIsWord(x: int)
    ensures Wrap64(x) < U64
  {
  }

  lemma WordIsWrap(v: nat)
    requires v < U64
    ensures Wrap64(v) == v
  {
  }

  /** Any mix of incr and decr stores the canonical decimal of the running sum modulo 2^64. */
  lemma {:induction false} CounterRun(s: State, calls: seq<Call>, k: Bytes, v: nat, m: nat)
    requires WellFormed(s) && HoldsCounter(s, k, v) && m <= |calls|
    requires forall i | 0 <= i < m :: CountsOnly(StateAt(s, calls, i), calls[i], k)
    ensures HoldsCounter(StateAt(s, calls, m), k, Wrap64(v + Sum(calls, k, m)))
    decreases m
  {
    hide BinOf, WellFormed, HoldsCounter, CountsOnly, Step, Wrap64, Amount;
    HasBins(s);
    if m == 0 {
      IsWord(s, k, v);
      WordIsWrap(v);
    } else {
      CounterRun(s, calls, k, v, m - 1);
      RunKeepsWellFormed(s, calls, m - 1);
      CountOnce(StateAt(s, calls, m - 1), calls[m - 1], k, Wrap64(v + Sum(calls, k, m - 1)));
      WrapAdd(v + Sum(calls, k, m - 1), Amount(calls[m - 1], k));
    }
  }

  lemma IsWord(s: State, k: Bytes, v: nat)
    requires |s.bins| > 0 && HoldsCounter(s, k, v)
    ensures v < U64
  {
  }

  /** A counter never outgrows the bytes reserved for it, and reads back as itself. */
  lemma CounterLength(s: State, k: Bytes, v: nat)
    requires |s.bins| > 0 && HoldsCounter(s, k, v)
    ensures Lookup(s, k).Some? && |Lookup(s, k).value.value| <= MAX_DIGITS && Parse(Lookup(s, k).value.value) == v
  {
    CounterFits(v);
    RoundTrip(v);
  }
}
