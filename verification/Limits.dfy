/** Sizes and machine words: requests the cache has room to represent, and what they keep in the table. */
module Limits {
  import opened Base
  import opened Decimal
  import opened KeyHash
  import opened Engine
  import opened Refinement
  import opened History
  import opened ByteStreamModel
  import opened Codec
  import opened CacheModel

  /** What the sizes in the cache allow: the precondition of the cache's operation on this state. */
  predicate Serviceable(s: State, op: Op) {
    && |s.bins| > 0
    && |op.key| < CONFIG_MAX_KEY_LENGTH
    && (op.Set? || op.Add? || op.Replace? || op.Cas? ==> InRange(|op.key|, |op.item.value|))
    && (op.Append? || op.Prepend? ==> InRange(|op.key|, |op.data| + Length(s, op.key)))
  }

  /** The fixed-size fields of an operation are machine words. */
  predicate WordsFit(op: Op) {
    && (op.Set? || op.Add? || op.Replace? || op.Cas? ==> op.item.expiration < U32 && op.item.flags < U32)
    && (op.Incr? || op.Decr? ==> op.amount < U64)
    && (op.Cas? ==> op.casUnique < U64)
  }

  lemma TakeIntFits(n: nat, b: Bytes)
    requires TakeInt(n, b).Some?
    ensures TakeInt(n, b).value.0 < Pow256(n)
  {
    FromLittleEndianBound(b[..n]);
  }

  lemma TakeFieldsFits(b: Bytes)
    requires TakeFields(b).Some?
    ensures TakeFields(b).value.0.0 < U32 && TakeFields(b).value.0.1 < U32
  {
    hide TakeInt;
    WordSizes();
    TakeIntFits(4, b);
    TakeIntFits(4, TakeInt(4, b).value.1);
  }

  /** Whatever bytes arrive, what they decode to consists of machine words. */
  lemma DecodedWordsFit(cmd: nat, b: Bytes)
    requires Decode(cmd, b).Some?
    ensures WordsFit(Decode(cmd, b).value.0)
  {
    hide TakeInt, TakeBlock, TakeFields;
    WordSizes();
    var b1 := TakeBlock(1, b).value.1;
    if cmd == SET || cmd == ADD || cmd == REPLACE {
      TakeFieldsFits(TakeBlock(4, b1).value.1);
    } else if cmd == CAS {
      var b2 := TakeBlock(4, b1).value.1;
      TakeIntFits(8, b2);
      TakeFieldsFits(TakeInt(8, b2).value.1);
    } else if cmd == INCR || cmd == DECR {
      TakeIntFits(8, b1);
    }
  }

  /** A call within the limits, in the state it is made in. */
  predicate Proper(s: State, c: Call) {
    Serviceable(s, c.op) && WordsFit(c.op) && JunkFits(c)
  }

  predicate EntryFits(e: Entry) {
    FoundFits(Found(e.key, e.value, e.flags, e.cas)) && e.expire < U32
  }

  ghost predicate TableFits(s: State) {
    |s.bins| > 0 && s.cas < U64 && forall k | Lookup(s, k).Some? :: EntryFits(Lookup(s, k).value)
  }

  lemma EffectFits(found: Option<Entry>, cas: nat, c: Call)
    requires cas < U64 && WordsFit(c.op) && JunkFits(c) && |c.op.key| < CONFIG_MAX_KEY_LENGTH
    requires found.Some? ==> EntryFits(found.value)
    requires c.op.Set? || c.op.Add? || c.op.Replace? || c.op.Cas? ==> InRange(|c.op.key|, |c.op.item.value|)
    requires c.op.Append? || c.op.Prepend? ==>
      InRange(|c.op.key|, |c.op.data| + if found.Some? then |found.value.value| else 0)
    ensures var eff := EffectOf(found, cas, c).0; eff.Rewrite? || eff.Link? ==> EntryFits(eff.e)
  {
    hide Text, Parse;
    if found.Some? && (c.op.Incr? || c.op.Decr?) {
      var amount := if c.op.Incr? then c.op.amount else 0 - c.op.amount;
      CounterFits(Wrap64(Parse(found.value.value) + amount));
    }
  }

  lemma StepKeepsFit(s: State, c: Call)
    requires WellFormed(s) && TableFits(s) && Proper(s, c)
    ensures TableFits(Step(s, c).0)
  {
    hide BinOf, WellFormed, Bucket, EffectOf, Find, Lookup, EntryFits;
    EffectFits(Lookup(s, c.op.key), s.cas, c);
    OwnKey(s, c);
    var s' := Step(s, c).0;
    forall k | Lookup(s', k).Some? ensures EntryFits(Lookup(s', k).value) {
      if k != c.op.key {
        OtherKeys(s, c, k);
      }
    }
  }

  ghost predicate ProperRun(s: State, calls: seq<Call>) {
    |s.bins| > 0 && forall m | 0 <= m < |calls| :: Proper(StateAt(s, calls, m), calls[m])
  }

  /** Over every run within the limits all entries fit their words, so a hit can be told in a response. */
  lemma {:induction false} RunKeepsFit(s: State, calls: seq<Call>, m: nat)
    requires WellFormed(s) && TableFits(s) && ProperRun(s, calls) && m <= |calls|
    ensures TableFits(StateAt(s, calls, m))
    decreases m
  {
    hide BinOf, WellFormed, TableFits, Proper, Step;
    HasBins(s);
    if m > 0 {
      RunKeepsFit(s, calls, m - 1);
      RunKeepsWellFormed(s, calls, m - 1);
      StepKeepsFit(StateAt(s, calls, m - 1), calls[m - 1]);
    }
  }

  // ----- how long values can get

  /** How long a value of length n can be after a call on its key. */
  function Lengthened(op: Op, n: nat): nat {
    match op {
      case Set(_, item) => Max(n, |item.value|)
      case Add(_, item) => Max(n, |item.value|)
      case Replace(_, item) => Max(n, |item.value|)
      case Cas(_, _, item) => Max(n, |item.value|)
      case Append(_, data) => n + |data|
      case Prepend(_, data) => n + |data|
      case Incr(_, _) => Max(n, MAX_DIGITS)
      case Decr(_, _) => Max(n, MAX_DIGITS)
      case Get(_) => n
      case Del(_) => 0
    }
  }

  function Max(a: nat, b: nat): nat {
    if a < b then b else a
  }

  lemma EffectLengthens(found: Option<Entry>, cas: nat, c: Call)
    requires JunkFits(c)
    ensures var n := if found.Some? then |found.value.value| else 0;
      match AfterEffect(found, EffectOf(found, cas, c).0)
      case None => true
      case Some(e) => |e.value| <= Lengthened(c.op, n)
  {
    hide Text, Parse;
    if found.Some? && (c.op.Incr? || c.op.Decr?) {
      CounterFits(Wrap64(Parse(found.value.value) + if c.op.Incr? then c.op.amount else 0 - c.op.amount));
    }
  }

  /** No call makes a value longer than what it brings allows, and none lengthens the value of another key. */
  lemma StepLengthens(s: State, c: Call, k: Bytes)
    requires WellFormed(s) && JunkFits(c)
    ensures Length(Step(s, c).0, k) <= if k == c.op.key then Lengthened(c.op, Length(s, k)) else Length(s, k)
  {
    hide BinOf, WellFormed, Bucket, EffectOf, Find, Lookup, Lengthened;
    HasBins(s);
    if k == c.op.key {
      EffectLengthens(Lookup(s, k), s.cas, c);
      OwnKey(s, c);
    } else {
      OtherKeys(s, c, k);
    }
  }

  /** A value of this length fits whatever the key. */
  const ROOMY := 0x10_0000 - 304

  lemma RoomyIsInRange(cbKey: nat, cbValue: nat)
    requires cbKey < CONFIG_MAX_KEY_LENGTH && cbValue <= ROOMY
    ensures InRange(cbKey, cbValue)
  {
  }

  lemma ShortIsServiceable(s: State, op: Op)
    requires |s.bins| > 0 && Lengthened(op, Length(s, op.key)) <= ROOMY && |op.key| < CONFIG_MAX_KEY_LENGTH
    ensures Serviceable(s, op)
  {
    hide InRange, Lookup, Length;
    var n := Length(s, op.key);
    if op.Append? || op.Prepend? {
      RoomyIsInRange(|op.key|, |op.data| + n);
    } else if op.Set? || op.Add? || op.Replace? || op.Cas? {
      RoomyIsInRange(|op.key|, |op.item.value|);
    }
  }
}
