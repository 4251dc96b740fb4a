/** The server's loop: take a complete request, decode it, call the cache, and answer. */
module ServerModel {
  import opened Base
  import opened KeyHash
  import opened Engine
  import opened History
  import opened Packets
  import opened WriterModel
  import opened ReaderModel
  import opened ByteStreamModel
  import opened Codec
  import opened HeapModel
  import opened Table
  import opened CacheModel
  import opened Refinement
  import opened Limits

  /** The operation a complete request asks for, if its body is within the limit and decodes. */
  function OperationOf(cmd: nat, body: Bytes): Option<Op> {
    if |body| > CONFIG_MAX_REQUEST_SIZE then None
    else
      var (op, _) :- Decode(cmd, body);
      Some(op)
  }

  /** A response's command and body. */
  datatype Answer = Answer(cmd: nat, body: Bytes)

  function ResultCommand(op: Op, r: Reply): nat {
    match op {
      case Get(_) => if r.Hit? then RESULT_GET else RESULT_NOT_FOUND
      case Del(_) => if r.Deleted? then RESULT_DELETED else RESULT_NOT_FOUND
      case Incr(_, _) | Decr(_, _) => if r == Done(true) then RESULT_STORED else RESULT_NOT_FOUND
      case Add(_, _) | Replace(_, _) => if r == Done(true) then RESULT_STORED else RESULT_NOT_STORED
      case Cas(_, _, _) => if r == Done(true) then RESULT_STORED else RESULT_EXISTS
      case Set(_, _) | Append(_, _) | Prepend(_, _) => if r == Done(true) then RESULT_STORED else RESULT_ERROR_OOM
    }
  }

  /** incr and decr answer with the amount they were given, and del of a missing key with an expiration nobody set. */
  function ResultBody(op: Op, r: Reply, garbage: nat): Bytes {
    match op {
      case Get(key) => if r.Hit? then EncodeFound(Found(key, r.value, r.flags, r.cas), []) else PutBlock(1, key, [])
      case Del(_) => PutInt(4, if r.Deleted? then r.expire else garbage, [])
      case Incr(_, n) => PutInt(8, n, [])
      case Decr(_, n) => PutInt(8, n, [])
      case _ => []
    }
  }

  /** The answer to a count carries the amount, which is the counter's new value only by coincidence: after incr
      if the counter stood at zero, after decr if it stood at twice the amount. */
  lemma CountAnswerIsNewValueIff(s: State, c: Call, v: nat, garbage: nat)
    requires WellFormed(s) && (c.op.Incr? || c.op.Decr?) && c.op.amount < U64
    requires HoldsCounter(s, c.op.key, v) && CountsOnly(s, c, c.op.key)
    ensures var (s', r) := Step(s, c); var v' := Wrap64(v + Amount(c, c.op.key));
      && HoldsCounter(s', c.op.key, v')
      && TakeInt(8, ResultBody(c.op, r, garbage)) == Some((c.op.amount, []))
      && (c.op.amount == v' <==> if c.op.Incr? then v == 0 else v == Wrap64(2 * c.op.amount))
  {
    hide WellFormed, BinOf, HoldsCounter, CountsOnly, TakeInt, PutInt, Step;
    HasBins(s);
    CountOnce(s, c, c.op.key, v);
    WordSizes();
    TakeIntOfPut(8, c.op.amount, []);
    IsWord(s, c.op.key, v);
    CountCoincides(v, c.op.amount);
  }

  lemma CountCoincides(v: nat, n: nat)
    requires v < U64 && n < U64
    ensures n == Wrap64(v + n) <==> v == 0
    ensures n == Wrap64(v - n) <==> v == Wrap64(2 * n)
  {
  }

  /** Asynchronous requests are not answered, except get; a lost process answers nothing. */
  function AnswerTo(op: Op, r: Reply, isAsync: bool, garbage: nat): Option<Answer> {
    if r.Fault? || (isAsync && !op.Get?) then None
    else Some(Answer(ResultCommand(op, r), ResultBody(op, r, garbage)))
  }

  /** These operations do not look at the clock. */
  lemma Timeless(s: State, op: Op, env: Env, now: nat)
    requires |s.bins| > 0 && (op.Append? || op.Prepend? || op.Incr? || op.Decr?)
    ensures Step(s, Call(op, 0, env)) == Step(s, Call(op, now, env))
  {
    hide BinOf, Counted, MovedAppend;
  }

  ghost predicate PerformedAs(s: State, s': State, r: Reply, c: Call, op: Op, now: nat) {
    && |s.bins| > 0
    && c.op == op && c.now == now && r == Step(s, c).1 && (r != Fault ==> s' == Step(s, c).0)
  }

  /** Calls that leave no block behind that no bucket leads to. */
  predicate Tidy(s: State, c: Call)
    requires |s.bins| > 0
  {
    match c.op {
      case Add(_, _) => AtTail(s, c) || !c.env.served
      case Cas(_, _, _) => Lookup(s, c.op.key).Some?
      case Incr(_, _) => Lookup(s, c.op.key).None? || !c.env.moved
      case Decr(_, _) => Lookup(s, c.op.key).None? || !c.env.moved
      case _ => true
    }
  }

  lemma AddTidyIff(s: State, c: Call)
    requires |s.bins| > 0 && c.op.Add?
    ensures var chain := s.bins[BinOf(c.op.key, |s.bins|)];
      Tidy(s, c) <==> Step(s, c).1 != Done(true) || Find(chain, c.op.key) >= |chain| - 1
  {
    hide BinOf, Apply, SetupExpire;
  }

  lemma CountTidyIff(s: State, c: Call)
    requires |s.bins| > 0 && (c.op.Incr? || c.op.Decr?) && Step(s, c).1 != Fault
    ensures Tidy(s, c) <==> !(Step(s, c).1 == Done(true) && c.env.moved)
  {
    hide BinOf, Apply, Counted, Lookup;
  }

  lemma CasTidyIff(s: State, c: Call)
    requires |s.bins| > 0 && c.op.Cas? && Step(s, c).1 != Fault
    ensures Tidy(s, c) <==> !(Lookup(s, c.op.key).None? && c.env.served)
  {
    hide BinOf, Apply, Lookup;
  }

  /** A call has happened in this memory, as the step that the state takes in the environment memory provides. */
  ghost predicate PerformedIn(m: Memory, s: State, s': State, r: Reply, c: Call, op: Op, now: nat) {
    && Actual(m, op, now, c.env) && JunkFits(c) && PerformedAs(s, s', r, c, op, now)
  }

  method PerformSimple(cache: Cache, op: Op, now: nat) returns (r: Reply, ghost c: Call)
    requires cache.Valid() && Serviceable(cache.State(), op)
    requires op.Get? || op.Set? || op.Replace? || op.Append? || op.Prepend? || op.Del?
    modifies cache, cache.heap, cache.heap.free, cache.heap.mem, cache.hash, cache.hash.bin
    ensures r != Fault ==> cache.Valid() && cache.Leaks() == old(cache.Leaks())
    ensures PerformedIn(old(cache.Mem()), old(cache.State()), cache.State(), r, c, op, now)
  {
    hide Step, Cache.Valid, Cache.State, Cache.Leaks, Room, LeftBehind, Need, InRange, Lookup;
    ghost var env := ANY_ENV;
    ghost var was := cache.State();
    SameLength(cache, op.key);
    match op {
      case Get(key) => r := cache.Get(key, now);
      case Del(key) => r := cache.Del(key, now);
      case Set(key, item) => r, env := cache.Set(key, item, now);
      case Replace(key, item) => r, env := cache.Replace(key, item, now);
      case Append(key, data) =>
        r, env := cache.Append(key, data);
        Timeless(was, op, env, now);
      case Prepend(key, data) =>
        r, env := cache.Prepend(key, data);
        Timeless(was, op, env, now);
    }
    c := Call(op, now, env);
  }

  lemma SameLength(cache: Cache, key: Bytes)
    ensures Length(StateOf(cache.Img(), 0), key) == Length(cache.State(), key)
  {
  }

  method PerformCount(cache: Cache, op: Op, now: nat) returns (r: Reply, ghost c: Call)
    requires cache.Valid() && Serviceable(cache.State(), op) && (op.Incr? || op.Decr?)
    modifies cache, cache.heap, cache.heap.free, cache.heap.mem, cache.hash, cache.hash.bin
    ensures cache.Valid() && cache.Leaks() >= old(cache.Leaks())
    ensures PerformedIn(old(cache.Mem()), old(cache.State()), cache.State(), r, c, op, now)
    ensures r != Fault ==> (cache.Leaks() == old(cache.Leaks()) <==> Tidy(old(cache.State()), c))
  {
    hide Step, Cache.Valid, Cache.State, Cache.Leaks, Room, Lookup, Tidy;
    ghost var was := cache.State();
    ghost var env, leaked;
    r, env, leaked := cache.IncrementDecrement(op);
    Timeless(was, op, env, now);
    c := Call(op, now, env);
    if r != Fault {
      CountTidyIff(was, c);
    }
    GrownBy(old(cache.Leaks()), leaked);
  }

  lemma GrownBy(a: set<nat>, b: set<nat>)
    requires a !! b
    ensures a + b == a <==> b == {}
    ensures b == {} <==> |b| == 0
  {
    if x :| x in b {
      assert x in a + b;
    }
  }

  method PerformCas(cache: Cache, op: Op, now: nat) returns (r: Reply, ghost c: Call)
    requires cache.Valid() && Serviceable(cache.State(), op) && op.Cas?
    modifies cache, cache.heap, cache.heap.free, cache.heap.mem, cache.hash, cache.hash.bin
    ensures cache.Valid() && cache.Leaks() >= old(cache.Leaks())
    ensures PerformedIn(old(cache.Mem()), old(cache.State()), cache.State(), r, c, op, now)
    ensures r != Fault ==> (cache.Leaks() == old(cache.Leaks()) <==> Tidy(old(cache.State()), c))
  {
    hide Step, Cache.Valid, Cache.State, Cache.Leaks, Room, Lookup, Tidy;
    ghost var was := cache.State();
    ghost var env, leaked;
    r, env, leaked := cache.Cas(op.key, op.casUnique, op.item, now);
    c := Call(op, now, env);
    if r != Fault {
      CasTidyIff(was, c);
    }
    GrownBy(old(cache.Leaks()), leaked);
  }

  method PerformAdd(cache: Cache, op: Op, now: nat) returns (r: Reply, ghost c: Call)
    requires cache.Valid() && Serviceable(cache.State(), op) && op.Add?
    modifies cache, cache.heap, cache.heap.free, cache.heap.mem, cache.hash, cache.hash.bin
    ensures cache.Valid() && cache.Leaks() >= old(cache.Leaks())
    ensures PerformedIn(old(cache.Mem()), old(cache.State()), cache.State(), r, c, op, now)
    ensures cache.Leaks() == old(cache.Leaks()) <==> Tidy(old(cache.State()), c)
  {
    hide Step, Cache.Valid, Cache.State, Cache.Leaks, Serves, Reclaims, Followers, Need, Lookup, Tidy, AtTail;
    ghost var was, followers := cache.State(), Followers(cache.Img(), op.key);
    ghost var env;
    cache.BehindIff(op.key);
    r, env := cache.Add(op.key, op.item, now);
    c := Call(op, now, env);
    AddTidyIff(was, c);
    GrownBy(old(cache.Leaks()), followers);
  }

  /** The switch of decodeRequest: each command calls its operation of the cache. Leaked blocks stay leaked, and a
      call leaks if and only if it is not tidy. */
  method Perform(cache: Cache, op: Op, now: nat) returns (r: Reply, ghost c: Call)
    requires cache.Valid() && Serviceable(cache.State(), op)
    modifies cache, cache.heap, cache.heap.free, cache.heap.mem, cache.hash, cache.hash.bin
    ensures r != Fault ==> cache.Valid()
    ensures PerformedIn(old(cache.Mem()), old(cache.State()), cache.State(), r, c, op, now)
    ensures r != Fault ==> LeaksAs(old(cache.State()), c, old(cache.Leaks()), cache.Leaks())
  {
    hide PerformedIn, Serviceable, Cache.Valid, Cache.State, Cache.Leaks, Cache.Mem, AtTail, Lookup;
    CallIs(cache.Mem(), cache.State(), op, now);
    match op {
      case Cas(_, _, _) => r, c := PerformCas(cache, op, now);
      case Incr(_, _) => r, c := PerformCount(cache, op, now);
      case Decr(_, _) => r, c := PerformCount(cache, op, now);
      case Add(_, _) => r, c := PerformAdd(cache, op, now);
      case _ => r, c := PerformSimple(cache, op, now);
    }
  }

  /** The leaked blocks before and after a call. */
  ghost predicate LeaksAs(s: State, c: Call, before: set<nat>, after: set<nat>) {
    |s.bins| > 0 && before <= after && (after == before <==> Tidy(s, c))
  }

  lemma CallIs(m: Memory, s: State, op: Op, now: nat)
    ensures forall s', r, c | PerformedIn(m, s, s', r, c, op, now) :: c.op == op && |s.bins| > 0
  {
  }

  /** Builds the response, if there is one, in a packet writer. */
  method Respond(op: Op, r: Reply, isAsync: bool, rid: nat, garbage: nat, seed: nat, capacity: nat)
    returns (w: Option<PacketWriter>)
    requires seed < U16 && capacity >= 8
    ensures w.Some? <==> AnswerTo(op, r, isAsync, garbage).Some?
    ensures w.Some? ==> fresh(w.value) && w.value.Valid() && w.value.rid == rid && !w.value.isAsync
    ensures w.Some? ==> Answer(w.value.cmd, Body(w.value.list)) == AnswerTo(op, r, isAsync, garbage).value
  {
    hide Body, LittleEndian, PutInt, PutBlock, EncodeFound;
    if r.Fault? || (isAsync && !op.Get?) {
      return None;
    }
    var writer := new PacketWriter(ResultCommand(op, r), rid, false, seed, capacity);
    match op {
      case Get(key) =>
        if r.Hit? {
          WriteFound(writer, Found(key, r.value, r.flags, r.cas));
        } else {
          WriteBlock(writer, 1, key);
        }
      case Del(_) =>
        var expiration := if r.Deleted? then r.expire else garbage;
        PutIntSplits(4, expiration, []);
        writer.WriteInt(4, expiration);
      case Incr(_, n) =>
        PutIntSplits(8, n, []);
        writer.WriteInt(8, n);
      case Decr(_, n) =>
        PutIntSplits(8, n, []);
        writer.WriteInt(8, n);
      case _ =>
    }
    w := Some(writer);
  }

  /** The fields of a request that decoding looks at. */
  datatype Request = Request(cmd: nat, isAsync: bool, rid: nat, body: Bytes)

  ghost function RequestOf(reader: PacketReader): Request
    reads reader
  {
    Request(reader.cmd, reader.isAsync, reader.rid, Body(reader.list))
  }

  ghost function Asked(q: Request): Option<Op> {
    OperationOf(q.cmd, q.body)
  }

  lemma OperationIs(cmd: nat, body: Bytes)
    ensures |body| > CONFIG_MAX_REQUEST_SIZE ==> OperationOf(cmd, body) == None
    ensures |body| <= CONFIG_MAX_REQUEST_SIZE ==>
      OperationOf(cmd, body) == if Decode(cmd, body).Some? then Some(Decode(cmd, body).value.0) else None
  {
    hide Decode;
  }

  /** The copy of a request in the server's buffer, decoded. */
  method ReadOperation(reader: PacketReader, buffer: array<Byte>) returns (op: Option<Op>)
    requires reader.list != [] && buffer.Length == CONFIG_MAX_REQUEST_SIZE
    modifies reader, buffer
    ensures op == Asked(old(RequestOf(reader)))
  {
    hide Body, Decode, OperationOf, ByteStream.Rest;
    var cmd := reader.cmd;
    ghost var body := Body(reader.list);
    OperationIs(cmd, body);
    var cbBuffer := reader.CopyToBuffer(buffer);
    if cbBuffer == -1 {
      return None;
    }
    var bs := new ByteStream(buffer, cbBuffer);
    op := ReadRequest(cmd, bs);
  }

  /** What the world outside contributes to a request: the time, an unset variable, a first sequence number. */
  datatype Outside = Outside(now: nat, garbage: nat, seed: nat)

  /** The packets sent are the answer. */
  ghost predicate Carries(ps: seq<Packet>, a: Answer, rid: nat) {
    && ps != [] && Body(ps) == a.body && ps[0].h.cmd == a.cmd && !ps[0].h.isAsync
    && (forall i | 0 <= i < |ps| :: ps[i].h.rid == rid)
    && (|ps| < MAX_PACKETS ==> IsMessage(ps))
  }

  /** How a request that asks for `op` changes the state and what is sent for it. */
  ghost predicate HandledAs(m: Memory, s: State, s': State, c: Call, q: Request, op: Op, o: Outside,
                            sent: Option<seq<Packet>>) {
    && |s.bins| > 0 && PerformedIn(m, s, s', Step(s, c).1, c, op, o.now) && Step(s, c).1 != Fault
    && SentAs(sent, AnswerTo(op, Step(s, c).1, q.isAsync, o.garbage), q.rid)
  }

  ghost predicate SentAs(sent: Option<seq<Packet>>, a: Option<Answer>, rid: nat) {
    && (sent.Some? <==> a.Some?)
    && (sent.Some? ==> Carries(sent.value, a.value, rid))
  }

  /** decodeRequest, and txThread's sending of the response it posts. `lost` is a crash of the process. */
  method Handle(reader: PacketReader, cache: Cache, buffer: array<Byte>, o: Outside, capacity: nat)
    returns (sent: Option<seq<Packet>>, lost: bool, ghost c: Call)
    requires reader.list != [] && buffer.Length == CONFIG_MAX_REQUEST_SIZE && buffer != cache.heap.mem
    requires o.seed < U16 && capacity >= 8
    requires cache.Valid()
    requires Asked(RequestOf(reader)).Some? ==> Serviceable(cache.State(), Asked(RequestOf(reader)).value)
    modifies reader, buffer, cache, cache.heap, cache.heap.free, cache.heap.mem, cache.hash, cache.hash.bin
    ensures !lost ==> cache.Valid()
    ensures var q := old(RequestOf(reader)); var m, s := old(cache.Mem()), old(cache.State());
      match Asked(q)
      case None => !lost && sent == None && cache.State() == s && cache.Leaks() == old(cache.Leaks())
      case Some(op) =>
        if lost then PerformedIn(m, s, s, Fault, c, op, o.now) && sent == None
        else
          && HandledAs(m, s, cache.State(), c, q, op, o, sent)
          && LeaksAs(s, c, old(cache.Leaks()), cache.Leaks())
  {
    hide Step, Cache.Valid, Cache.State, Cache.Leaks, Cache.Mem, Actual, Asked, Body, Serviceable, ResultBody,
      ResultCommand, IsMessage, LeaksAs, Tidy;
    var isAsync, rid := reader.isAsync, reader.rid;
    ghost var was := cache.State();
    c := Call(Op.Get([]), 0, ANY_ENV);
    var op := ReadOperation(reader, buffer);
    if op.None? {
      return None, false, c;
    }
    var r: Reply;
    r, c := Perform(cache, op.value, o.now);
    lost := r.Fault?;
    var response := Respond(op.value, r, isAsync, rid, o.garbage, o.seed, capacity);
    if response.None? {
      return None, lost, c;
    }
    var packets := response.value.Send();
    sent := Some(packets);
  }

  /** Whatever memory decides, every request is in range when its turn comes. */
  ghost predicate AllServiceable(s: State, qs: seq<Request>, os: seq<Outside>, i: nat)
    requires i <= |qs| == |os|
    decreases |qs| - i
  {
    |s.bins| > 0 &&
    (i == |qs| ||
     match Asked(qs[i])
     case None => AllServiceable(s, qs, os, i + 1)
     case Some(op) =>
       Serviceable(s, op) && (forall env | JunkFits(Call(op, os[i].now, env)) ::
          AllServiceable(Step(s, Call(op, os[i].now, env)).0, qs, os, i + 1)))
  }

  /** Request i of a served sequence: a malformed one is skipped; any other is the next call of the run, and
      answered by its reply. */
  ghost predicate ServedAs(s: State, calls: seq<Call>, at: seq<nat>, i: nat, q: Request, o: Outside,
                           sent: Option<seq<Packet>>)
    requires |s.bins| > 0 && i + 1 < |at|
  {
    match Asked(q)
    case None => at[i + 1] == at[i] && sent == None
    case Some(op) =>
      && at[i] < |calls| && at[i + 1] == at[i] + 1
      && calls[at[i]].op == op && calls[at[i]].now == o.now
      && SentAs(sent, AnswerTo(op, ReplyAt(s, calls, at[i]), q.isAsync, o.garbage), q.rid)
  }

  lemma {:induction false} StateAtPrefix(s: State, calls: seq<Call>, c: Call, m: nat)
    requires |s.bins| > 0 && m <= |calls|
    ensures StateAt(s, calls + [c], m) == StateAt(s, calls, m)
    ensures m < |calls| ==> ReplyAt(s, calls + [c], m) == ReplyAt(s, calls, m)
  {
    hide Step;
    if m > 0 {
      StateAtPrefix(s, calls, c, m - 1);
    }
  }

  lemma ServedStill(s: State, calls: seq<Call>, at: seq<nat>, c: Call, next: nat, i: nat, q: Request, o: Outside,
                    sent: Option<seq<Packet>>)
    requires |s.bins| > 0 && i + 1 < |at| && ServedAs(s, calls, at, i, q, o, sent)
    ensures ServedAs(s, calls + [c], at + [next], i, q, o, sent)
    ensures ServedAs(s, calls, at + [next], i, q, o, sent)
  {
    hide ReplyAt, SentAs, AnswerTo;
    if Asked(q).Some? {
      StateAtPrefix(s, calls, c, at[i]);
    }
  }

  ghost function RequestsOf(readers: seq<PacketReader>): (qs: seq<Request>)
    reads readers
    ensures |qs| == |readers|
    ensures forall i | 0 <= i < |qs| :: qs[i] == RequestOf(readers[i])
  {
    seq(|readers|, i requires 0 <= i < |readers| reads readers => RequestOf(readers[i]))
  }

  /** The request asks for a call that loses the process in this state. */
  ghost predicate FatalIn(m: Memory, s: State, q: Request, o: Outside, c: Call) {
    Asked(q).Some? && Bins(m.img) == s.bins && PerformedIn(m, s, s, Fault, c, Asked(q).value, o.now)
  }

  /** Call m of a run is within the limits, and its environment is what a memory that holds the run's state provides. */
  ghost predicate MadeIn(mems: seq<Memory>, s: State, calls: seq<Call>, m: nat)
    requires |s.bins| > 0 && m < |calls| == |mems|
  {
    var s' := StateAt(s, calls, m);
    Proper(s', calls[m]) && Bins(mems[m].img) == s'.bins && Actual(mems[m], calls[m].op, calls[m].now, calls[m].env)
  }

  ghost predicate AllTidy(s: State, calls: seq<Call>)
    requires |s.bins| > 0
  {
    forall m | 0 <= m < |calls| :: TidyAt(s, calls, m)
  }

  ghost predicate TidyAt(s: State, calls: seq<Call>, m: nat)
    requires |s.bins| > 0 && m < |calls|
  {
    Tidy(StateAt(s, calls, m), calls[m])
  }

  /** The requests wait in objects of their own, apart from the server's buffer and the cache. */
  ghost predicate Apart(readers: seq<PacketReader>, buffer: array<Byte>, cache: Cache) {
    && buffer.Length == CONFIG_MAX_REQUEST_SIZE && buffer != cache.heap.mem
    && (forall i, j | 0 <= i < j < |readers| :: readers[i] != readers[j])
  }

  /** The server's main loop over the requests it is posted: unless the process is lost, the cache has gone through
      a run of the calls the requests ask for, in order, each request has been sent the answer of its call, and blocks
      have leaked if and only if some call was not tidy. `mems` is what memory was at each call. */
  method Serve(readers: seq<PacketReader>, cache: Cache, buffer: array<Byte>, os: seq<Outside>, capacity: nat)
    returns (sent: seq<Option<seq<Packet>>>, lost: bool, ghost calls: seq<Call>, ghost at: seq<nat>,
             ghost mems: seq<Memory>, ghost fatal: Call)
    requires Apart(readers, buffer, cache) && (forall i | 0 <= i < |readers| :: readers[i].list != [])
    requires |os| == |readers| && capacity >= 8 && forall i | 0 <= i < |os| :: os[i].seed < U16
    requires cache.Valid() && AllServiceable(cache.State(), RequestsOf(readers), os, 0)
    modifies readers, buffer, cache, cache.heap, cache.heap.free, cache.heap.mem, cache.hash, cache.hash.bin
    ensures |old(cache.State()).bins| > 0
    ensures !lost ==> cache.Valid() && |sent| == |readers|
    ensures lost ==> |sent| < |readers|
    ensures lost ==> exists m ::
      FatalIn(m, StateAt(old(cache.State()), calls, |calls|), old(RequestsOf(readers))[|sent|], os[|sent|], fatal)
    ensures |at| == |sent| + 1 && at[0] == 0 && at[|sent|] == |calls| == |mems|
    ensures !lost ==> cache.State() == StateAt(old(cache.State()), calls, |calls|)
    ensures !lost ==> old(cache.Leaks()) <= cache.Leaks()
    ensures !lost ==> (cache.Leaks() == old(cache.Leaks()) <==> AllTidy(old(cache.State()), calls))
    ensures forall m | 0 <= m < |calls| :: MadeIn(mems, old(cache.State()), calls, m)
    ensures forall i | 0 <= i < |sent| ::
      ServedAs(old(cache.State()), calls, at, i, old(RequestsOf(readers))[i], os[i], sent[i])
  {
    hide Step, StateAt, Cache.Valid, Cache.State, Cache.Leaks, Cache.Mem, Actual, Asked, Serviceable, AllServiceable,
      RequestOf, AllTidy, HandledAs, PerformedIn, LeaksAs, Served, Bins;
    ghost var s, qs := cache.State(), RequestsOf(readers);
    sent, lost, calls, at, mems, fatal := [], false, [], [0], [], Call(Op.Get([]), 0, ANY_ENV);
    ServiceableNow(s, qs, os, 0);
    NothingServed(s, qs, os);
    for i := 0 to |readers|
      invariant !lost && cache.Valid() && |sent| == i
      invariant Served(s, qs, os, sent, calls, at, mems)
      invariant cache.State() == StateAt(s, calls, |calls|)
      invariant AllServiceable(cache.State(), qs, os, i)
      invariant old(cache.Leaks()) <= cache.Leaks() && (cache.Leaks() == old(cache.Leaks()) <==> AllTidy(s, calls))
      invariant forall j | i <= j < |readers| :: RequestOf(readers[j]) == qs[j] && readers[j].list != []
    {
      ghost var before, mem, leaks := cache.State(), cache.Mem(), cache.Leaks();
      ServiceableNow(before, qs, os, i);
      HoldsItsState(cache);
      var packets;
      ghost var c;
      packets, lost, c := Handle(readers[i], cache, buffer, os[i], capacity);
      if lost {
        fatal := c;
        assert FatalIn(mem, before, qs[i], os[i], c);
        ServedMeans(s, qs, os, sent, calls, at, mems);
        return;
      }
      ServiceableNext(before, qs, os, i, c, mem, cache.State(), packets);
      ServedOne(s, qs, os, sent, calls, at, mems, c, mem, packets, cache.State());
      if Asked(qs[i]).Some? {
        TidyNext(s, calls, c, old(cache.Leaks()), leaks, cache.Leaks());
        mems, calls := mems + [mem], calls + [c];
      }
      sent, at := sent + [packets], at + [|calls|];
    }
    ServedMeans(s, qs, os, sent, calls, at, mems);
  }

  /** The first requests have been served, by these calls in these memories. */
  ghost predicate Served(s: State, qs: seq<Request>, os: seq<Outside>, sent: seq<Option<seq<Packet>>>,
                         calls: seq<Call>, at: seq<nat>, mems: seq<Memory>)
  {
    && |s.bins| > 0 && |sent| <= |qs| == |os|
    && |at| == |sent| + 1 && at[0] == 0 && at[|sent|] == |calls| == |mems|
    && (forall m | 0 <= m < |calls| :: MadeIn(mems, s, calls, m))
    && (forall j | 0 <= j < |sent| :: ServedAs(s, calls, at, j, qs[j], os[j], sent[j]))
  }

  lemma ServedMeans(s: State, qs: seq<Request>, os: seq<Outside>, sent: seq<Option<seq<Packet>>>,
                    calls: seq<Call>, at: seq<nat>, mems: seq<Memory>)
    requires Served(s, qs, os, sent, calls, at, mems)
    ensures |s.bins| > 0 && |sent| <= |qs| == |os|
    ensures |at| == |sent| + 1 && at[0] == 0 && at[|sent|] == |calls| == |mems|
    ensures forall m | 0 <= m < |calls| :: MadeIn(mems, s, calls, m)
    ensures forall j | 0 <= j < |sent| :: ServedAs(s, calls, at, j, qs[j], os[j], sent[j])
  {
    hide MadeIn, ServedAs;
  }

  lemma NothingServed(s: State, qs: seq<Request>, os: seq<Outside>)
    requires |s.bins| > 0 && |qs| == |os|
    ensures Served(s, qs, os, [], [], [0], []) && AllTidy(s, []) && StateAt(s, [], 0) == s
  {
  }

  /** One request more, for which c may have been called in this memory. */
  lemma ServedOne(s: State, qs: seq<Request>, os: seq<Outside>, sent: seq<Option<seq<Packet>>>, calls: seq<Call>,
                  at: seq<nat>, mems: seq<Memory>, c: Call, mem: Memory, packets: Option<seq<Packet>>, s': State)
    requires Served(s, qs, os, sent, calls, at, mems) && |sent| < |qs|
    requires var before, i := StateAt(s, calls, |calls|), |sent|;
      match Asked(qs[i])
      case None => packets == None && s' == before
      case Some(op) =>
        && HandledAs(mem, before, s', c, qs[i], op, os[i], packets)
        && Serviceable(before, op) && Bins(mem.img) == before.bins
    ensures var made := Asked(qs[|sent|]).Some?;
      var calls', mems' := if made then calls + [c] else calls, if made then mems + [mem] else mems;
      && Served(s, qs, os, sent + [packets], calls', at + [|calls'|], mems')
      && s' == StateAt(s, calls', |calls'|)
  {
    hide MadeIn, ServedAs, HandledAs, StateAt, Serviceable, Asked, Bins;
    var i := |sent|;
    var calls' := if Asked(qs[i]).Some? then calls + [c] else calls;
    ServedNext(s, calls, at, c, i, qs[i], os[i], packets, mem, s');
    forall j | 0 <= j < i ensures ServedAs(s, calls', at + [|calls'|], j, qs[j], os[j], sent[j]) {
      ServedStill(s, calls, at, c, |calls'|, j, qs[j], os[j], sent[j]);
    }
    if Asked(qs[i]).Some? {
      MadeNext(mems, mem, s, calls, c, qs[i], Asked(qs[i]).value, os[i], packets, s');
    }
  }

  lemma HoldsItsState(cache: Cache)
    ensures Bins(cache.Mem().img) == cache.State().bins
  {
  }

  lemma TidyStill(s: State, calls: seq<Call>, c: Call, m: nat)
    requires |s.bins| > 0 && m <= |calls|
    ensures TidyAt(s, calls + [c], m) <==>
            if m < |calls| then TidyAt(s, calls, m) else Tidy(StateAt(s, calls, |calls|), c)
  {
    hide Tidy, StateAt;
    StateAtPrefix(s, calls, c, m);
  }

  lemma AllTidyNext(s: State, calls: seq<Call>, c: Call)
    requires |s.bins| > 0
    ensures AllTidy(s, calls + [c]) <==> AllTidy(s, calls) && Tidy(StateAt(s, calls, |calls|), c)
  {
    hide Tidy, StateAt, TidyAt;
    var calls', n, last := calls + [c], |calls|, Tidy(StateAt(s, calls, |calls|), c);
    TidyStill(s, calls, c, n);
    if AllTidy(s, calls') {
      assert TidyAt(s, calls', n);
      forall m | 0 <= m < n ensures TidyAt(s, calls, m) {
        TidyStill(s, calls, c, m);
        assert TidyAt(s, calls', m);
      }
    }
    if AllTidy(s, calls) && last {
      forall m | 0 <= m <= n ensures TidyAt(s, calls', m) {
        TidyStill(s, calls, c, m);
      }
    }
  }

  lemma TidyNext(s: State, calls: seq<Call>, c: Call, first: set<nat>, before: set<nat>, after: set<nat>)
    requires |s.bins| > 0 && LeaksAs(StateAt(s, calls, |calls|), c, before, after)
    requires first <= before && (before == first <==> AllTidy(s, calls))
    ensures first <= after && (after == first <==> AllTidy(s, calls + [c]))
  {
    hide Tidy, StateAt, AllTidy;
    AllTidyNext(s, calls, c);
  }

  lemma MadeStill(mems: seq<Memory>, mem: Memory, s: State, calls: seq<Call>, c: Call, m: nat)
    requires |s.bins| > 0 && m < |calls| == |mems| && MadeIn(mems, s, calls, m)
    ensures MadeIn(mems + [mem], s, calls + [c], m)
  {
    hide Actual, Bins, Proper, StateAt;
    StateAtPrefix(s, calls, c, m);
  }

  lemma MadeLast(mems: seq<Memory>, mem: Memory, s: State, calls: seq<Call>, c: Call)
    requires |s.bins| > 0 && |mems| == |calls|
    requires var before := StateAt(s, calls, |calls|);
      Proper(before, c) && Actual(mem, c.op, c.now, c.env) && Bins(mem.img) == before.bins
    ensures MadeIn(mems + [mem], s, calls + [c], |calls|)
  {
    hide Actual, Bins, Proper, StateAt;
    StateAtPrefix(s, calls, c, |calls|);
  }

  lemma MadeNext(mems: seq<Memory>, mem: Memory, s: State, calls: seq<Call>, c: Call, q: Request, op: Op, o: Outside,
                 sent: Option<seq<Packet>>, s': State)
    requires |s.bins| > 0 && |mems| == |calls| && forall m | 0 <= m < |calls| :: MadeIn(mems, s, calls, m)
    requires var before := StateAt(s, calls, |calls|);
      && HandledAs(mem, before, s', c, q, op, o, sent)
      && Asked(q) == Some(op) && Serviceable(before, op) && Bins(mem.img) == before.bins
    ensures forall m | 0 <= m <= |calls| :: MadeIn(mems + [mem], s, calls + [c], m)
  {
    hide Actual, Bins, Serviceable, Step, SentAs, AnswerTo, Asked, WordsFit, MadeIn, StateAt;
    AskedWordsFit(q);
    MadeLast(mems, mem, s, calls, c);
    forall m | 0 <= m < |calls| ensures MadeIn(mems + [mem], s, calls + [c], m) {
      MadeStill(mems, mem, s, calls, c, m);
    }
  }

  lemma AskedWordsFit(q: Request)
    ensures Asked(q).Some? ==> WordsFit(Asked(q).value)
  {
    hide Decode, WordsFit;
    if Asked(q).Some? {
      DecodedWordsFit(q.cmd, q.body);
    }
  }

  lemma ServiceableNow(s: State, qs: seq<Request>, os: seq<Outside>, i: nat)
    requires i <= |qs| == |os| && AllServiceable(s, qs, os, i)
    ensures |s.bins| > 0
    ensures i < |qs| && Asked(qs[i]).Some? ==> Serviceable(s, Asked(qs[i]).value)
  {
  }

  lemma ServiceableNext(s: State, qs: seq<Request>, os: seq<Outside>, i: nat, c: Call, m: Memory, s': State,
                        sent: Option<seq<Packet>>)
    requires i < |qs| == |os| && AllServiceable(s, qs, os, i) && |s.bins| > 0
    requires match Asked(qs[i]) case None => s' == s case Some(op) => HandledAs(m, s, s', c, qs[i], op, os[i], sent)
    ensures AllServiceable(s', qs, os, i + 1)
  {
    hide Step, Asked, Serviceable, SentAs, AnswerTo, Actual;
    assert c == Call(c.op, c.now, c.env);
  }

  lemma ServedNext(s: State, calls: seq<Call>, at: seq<nat>, c: Call, i: nat, q: Request, o: Outside,
                   sent: Option<seq<Packet>>, m: Memory, s': State)
    requires |s.bins| > 0 && |at| == i + 1 && at[i] == |calls|
    requires match Asked(q)
      case None => sent == None && s' == StateAt(s, calls, |calls|)
      case Some(op) => HandledAs(m, StateAt(s, calls, |calls|), s', c, q, op, o, sent)
    ensures var calls' := if Asked(q).Some? then calls + [c] else calls;
      && ServedAs(s, calls', at + [|calls'|], i, q, o, sent) && s' == StateAt(s, calls', |calls'|)
  {
    hide Step, SentAs, AnswerTo, Asked, Actual;
    StateAtPrefix(s, calls, c, |calls|);
  }

  // ----- a condition on the requests alone

  /** Whether the key's value stays within one item, if it is of length n before request i: writes take the longer
      of the old and the new value, appends and prepends add up. */
  ghost predicate AllInRange(qs: seq<Request>, key: Bytes, i: nat, n: nat)
    requires i <= |qs|
    decreases |qs| - i
  {
    i == |qs| ||
    match Asked(qs[i])
    case None => AllInRange(qs, key, i + 1, n)
    case Some(op) =>
      if op.key == key then Lengthened(op, n) <= ROOMY && AllInRange(qs, key, i + 1, Lengthened(op, n))
      else AllInRange(qs, key, i + 1, n)
  }

  lemma AskedKeyFits(q: Request)
    ensures Asked(q).Some? ==> |Asked(q).value.key| < CONFIG_MAX_KEY_LENGTH
  {
    hide TakeItem, TakeCas, FromLittleEndian;
    WordSizes();
    if Asked(q).Some? {
      FromLittleEndianBound(q.body[..1]);
    }
  }

  lemma {:induction false} ShorterInRange(qs: seq<Request>, key: Bytes, i: nat, n: nat, m: nat)
    requires i <= |qs| && m <= n && AllInRange(qs, key, i, n)
    ensures AllInRange(qs, key, i, m)
    decreases |qs| - i
  {
    hide Asked;
    if i < |qs| {
      match Asked(qs[i]) {
        case None => ShorterInRange(qs, key, i + 1, n, m);
        case Some(op) =>
          if op.key == key {
            ShorterInRange(qs, key, i + 1, Lengthened(op, n), Lengthened(op, m));
          } else {
            ShorterInRange(qs, key, i + 1, n, m);
          }
      }
    }
  }

  /** If each key's values stay within one item, no decision of memory takes a request out of range. */
  lemma {:induction false} RequestsInRangeAreServiceable(s: State, qs: seq<Request>, os: seq<Outside>, i: nat)
    requires i <= |qs| == |os| && WellFormed(s)
    requires forall k :: AllInRange(qs, k, i, Length(s, k))
    ensures AllServiceable(s, qs, os, i)
    decreases |qs| - i
  {
    hide WellFormed, Asked, Step, Serviceable, Lengthened, Length, AllInRange;
    HasBins(s);
    if i < |qs| {
      match Asked(qs[i]) {
        case None =>
          forall k ensures AllInRange(qs, k, i + 1, Length(s, k)) {
            InRangeNext(qs, k, i, Length(s, k));
          }
          RequestsInRangeAreServiceable(s, qs, os, i + 1);
        case Some(op) =>
          AskedKeyFits(qs[i]);
          InRangeNext(qs, op.key, i, Length(s, op.key));
          ShortIsServiceable(s, op);
          forall env | JunkFits(Call(op, os[i].now, env))
            ensures AllServiceable(Step(s, Call(op, os[i].now, env)).0, qs, os, i + 1)
          {
            var c := Call(op, os[i].now, env);
            StepKeepsWellFormed(s, c);
            var s' := Step(s, c).0;
            forall k ensures AllInRange(qs, k, i + 1, Length(s', k)) {
              StepLengthens(s, c, k);
              InRangeNext(qs, k, i, Length(s, k));
              var n := if op.key == k then Lengthened(op, Length(s, k)) else Length(s, k);
              ShorterInRange(qs, k, i + 1, n, Length(s', k));
            }
            RequestsInRangeAreServiceable(s', qs, os, i + 1);
          }
      }
    }
  }

  lemma InRangeNext(qs: seq<Request>, key: Bytes, i: nat, n: nat)
    requires i < |qs| && AllInRange(qs, key, i, n)
    ensures match Asked(qs[i])
      case None => AllInRange(qs, key, i + 1, n)
      case Some(op) =>
        if op.key == key then Lengthened(op, n) <= ROOMY && AllInRange(qs, key, i + 1, Lengthened(op, n))
        else AllInRange(qs, key, i + 1, n)
  {
    hide Asked, Lengthened;
  }

  // ----- from a client's call to the cache and back

  /** Each of the first n calls that appends to k finds room in the block the item has. */
  ghost predicate AppendsInPlace(mems: seq<Memory>, calls: seq<Call>, k: Bytes, n: nat) {
    n <= |calls| == |mems| &&
    forall m | 0 <= m < n :: calls[m].op.Append? && calls[m].op.key == k ==>
      !MustMove(mems[m].img, k, |calls[m].op.data| + Length(StateOf(mems[m].img, 0), k))
  }

  lemma InPlaceMeansNotMoved(mems: seq<Memory>, s: State, calls: seq<Call>, k: Bytes, n: nat)
    requires |s.bins| > 0 && |mems| == |calls| && forall m | 0 <= m < |calls| :: MadeIn(mems, s, calls, m)
    requires AppendsInPlace(mems, calls, k, n)
    ensures NoMovedAppend(calls, k, n) && ProperRun(s, calls)
  {
    hide StateAt, Proper, MustMove, Serves, LeftBehind, Lookup, Bins;
    forall m | 0 <= m < |calls| ensures Proper(StateAt(s, calls, m), calls[m]) {
      assert MadeIn(mems, s, calls, m);
    }
    forall m | 0 <= m < n && calls[m].op.Append? && calls[m].op.key == k ensures !calls[m].env.moved {
      assert MadeIn(mems, s, calls, m);
    }
  }

  lemma HitFits(s: State, calls: seq<Call>, m: nat)
    requires WellFormed(s) && Empty(s) && s.cas < U64 && ProperRun(s, calls) && m < |calls|
    requires calls[m].op.Get? && ReplyAt(s, calls, m).Hit?
    ensures var h := ReplyAt(s, calls, m); FoundFits(Found(calls[m].op.key, h.value, h.flags, h.cas))
  {
    hide BinOf, WellFormed, Proper, Apply;
    assert forall k :: Lookup(s, k) == None;
    RunKeepsFit(s, calls, m);
    hide Lookup;
    ReplyOfGet(StateAt(s, calls, m), calls[m]);
  }

  lemma ReplyOfGet(s: State, c: Call)
    requires |s.bins| > 0 && c.op.Get? && Step(s, c).1.Hit?
    ensures var e := Lookup(s, c.op.key);
      && e.Some? && e.value.key == c.op.key
      && Step(s, c).1 == Hit(e.value.value, e.value.flags, e.value.cas)
  {
    hide BinOf, Apply;
  }

  /** What a client decodes from the server's answer to its get is the last write served for the key, provided
      the appends to that key have all found room in place. */
  lemma ServedGetIsTheLastWrite(s: State, calls: seq<Call>, at: seq<nat>, mems: seq<Memory>, i: nat,
                                q: Request, o: Outside, sent: Option<seq<Packet>>)
    requires WellFormed(s) && Empty(s) && s.cas < U64
    requires |mems| == |calls| && forall m | 0 <= m < |calls| :: MadeIn(mems, s, calls, m)
    requires i + 1 < |at| && ServedAs(s, calls, at, i, q, o, sent)
    requires Asked(q).Some? && Asked(q).value.Get? && AppendsInPlace(mems, calls, Asked(q).value.key, at[i])
    ensures sent.Some? && sent.value != []
    ensures var key, cmd, body := Asked(q).value.key, sent.value[0].h.cmd, Body(sent.value);
      var w := LastWrite(s, calls, key, at[i]);
      if cmd == RESULT_GET
      then w.Some? && DecodeFound(body) == Some((Found(key, w.value.value, w.value.flags, w.value.cas), []))
      else cmd == RESULT_NOT_FOUND && body == PutBlock(1, key, []) && !ReplyAt(s, calls, at[i]).Hit?
  {
    hide WellFormed, LastWrite, Body, DecodeFound, EncodeFound, PutBlock, Asked, Step, ReplyAt, BinOf, ProperRun,
      MadeIn, AppendsInPlace, FoundFits;
    var key, h := Asked(q).value.key, ReplyAt(s, calls, at[i]);
    GetNeverFaults(s, calls, at[i]);
    InPlaceMeansNotMoved(mems, s, calls, key, at[i]);
    if h.Hit? {
      NoStaleHit(s, calls, at[i]);
      HitFits(s, calls, at[i]);
      FoundRoundTrip(Found(key, h.value, h.flags, h.cas), []);
    }
  }

  lemma GetNeverFaults(s: State, calls: seq<Call>, m: nat)
    requires |s.bins| > 0 && m < |calls| && calls[m].op.Get?
    ensures ReplyAt(s, calls, m).Hit? || ReplyAt(s, calls, m).Miss?
  {
    hide BinOf, StateAt, Apply;
  }
}
