/** From a client's call to what the client is told. */
module EndToEnd {
  import opened Base
  import opened KeyHash
  import opened Engine
  import opened History
  import opened Packets
  import opened ReaderModel
  import opened Reassembly
  import opened Demux
  import opened ByteStreamModel
  import opened Codec
  import opened Limits
  import opened CacheModel
  import opened ServerModel
  import opened ResponseModel
  import opened ClientModel

  // ----- the request

  /** A request that reaches COMPLETE is served as the operation the client asked for (cas as the set it is sent as),
      whatever the network did to its packets. */
  lemma DeliveredRequestIsTheOperation(op: Op, ps: seq<Packet>, d: seq<Packet>)
    requires SentFor(op, ps)
    requires d != [] && DeliveryOf(d, ps) && Completes(d)
    ensures var q := Fed(d, |d|);
      && OperationOf(q.cmd, Body(q.list)) == Some(AsServed(op))
      && q.rid == ps[0].h.rid && q.isAsync == ps[0].h.isAsync
  {
    hide Body, ReaderModel.Put, Fed, Decode, DeliveryOf, AsServed;
    CompletedIsTheMessage(d, ps);
  }

  /** A request whose packets arrive whole and in order is posted, once, as that operation. */
  lemma SentRequestIsPosted(op: Op, ps: seq<Packet>, before: seq<Packet>)
    requires SentFor(op, ps) && LoneRun(before).reader.None?
    ensures var was, now := LoneRun(before).posted, LoneRun(before + ps).posted;
      && |now| == |was| + 1 && now[..|was|] == was
      && var q := now[|was|];
        && OperationOf(q.cmd, Body(q.list)) == Some(AsServed(op))
        && q.rid == ps[0].h.rid && q.isAsync == ps[0].h.isAsync
  {
    hide Body, LoneRun, Decode, AsServed;
    WholeMessageIsPosted(before, ps);
  }

  // ----- the answer

  /** What a client's call returns for a response command; None where the client asserts or reports an unknown error. */
  function Verdict(op: Op, cmd: nat): Option<bool> {
    match op {
      case Set(_, _) =>
        if cmd == RESULT_STORED then Some(true) else if cmd == RESULT_ERROR_OOM then Some(false) else None
      case Del(_) =>
        if cmd == RESULT_DELETED then Some(true) else if cmd == RESULT_NOT_FOUND then Some(false) else None
      case Add(_, _) =>
        if cmd == RESULT_STORED then Some(true) else if cmd == RESULT_NOT_STORED then Some(false) else None
      case Replace(_, _) =>
        if cmd == RESULT_STORED then Some(true) else if cmd == RESULT_NOT_STORED then Some(false) else None
      case Append(_, _) =>
        if cmd == RESULT_STORED then Some(true) else if cmd == RESULT_ERROR_OOM then Some(false) else None
      case Prepend(_, _) =>
        if cmd == RESULT_STORED then Some(true) else if cmd == RESULT_ERROR_OOM then Some(false) else None
      case Cas(_, _, _) =>
        if cmd == RESULT_STORED then Some(true) else if cmd == RESULT_EXISTS then Some(false) else None
      case Incr(_, _) =>
        if cmd == RESULT_STORED then Some(true) else if cmd == RESULT_NOT_FOUND then Some(false) else None
      case Decr(_, _) =>
        if cmd == RESULT_STORED then Some(true) else if cmd == RESULT_NOT_FOUND then Some(false) else None
      case Get(_) => if cmd == RESULT_GET then Some(true) else if cmd == RESULT_NOT_FOUND then Some(false) else None
    }
  }

  predicate Success(r: Reply) {
    r.Hit? || r == Done(true) || r.Deleted?
  }

  /** Each call of the cache is answered with the command that makes the client's call return its success. */
  lemma VerdictIsSuccess(s: State, c: Call)
    requires |s.bins| > 0 && Step(s, c).1 != Fault
    ensures Verdict(c.op, ResultCommand(c.op, Step(s, c).1)) == Some(Success(Step(s, c).1))
  {
    hide BinOf, Apply, Counted, MovedAppend, SetupExpire;
  }

  /** A request served - synchronous, or a get - whose call does not fault is answered, and the client's call that
      sent it returns whether the cache's call succeeded. */
  lemma ServedIsAnswered(s: State, calls: seq<Call>, at: seq<nat>, i: nat, q: Request, o: Outside,
                         sent: Option<seq<Packet>>)
    requires |s.bins| > 0 && i + 1 < |at| && ServedAs(s, calls, at, i, q, o, sent) && Asked(q).Some?
    requires at[i] < |calls| && ReplyAt(s, calls, at[i]) != Fault
    requires !q.isAsync || Asked(q).value.Get?
    ensures sent.Some? && sent.value != [] && sent.value[0].h.rid == q.rid
    ensures Verdict(Asked(q).value, sent.value[0].h.cmd) == Some(Success(ReplyAt(s, calls, at[i])))
  {
    hide BinOf, StateAt, Asked, Step, ResultCommand, ResultBody, Verdict, Body, IsMessage;
    VerdictIsSuccess(StateAt(s, calls, at[i]), calls[at[i]]);
  }

  /** Asynchronous requests other than get are not answered. */
  lemma AsyncIsNotAnswered(s: State, calls: seq<Call>, at: seq<nat>, i: nat, q: Request, o: Outside,
                           sent: Option<seq<Packet>>)
    requires |s.bins| > 0 && i + 1 < |at| && ServedAs(s, calls, at, i, q, o, sent)
    requires q.isAsync && Asked(q).Some? && !Asked(q).value.Get?
    ensures sent == None
  {
    hide BinOf, StateAt, Asked, Step, ResultCommand, ResultBody;
  }

  /** What a client reads off the answer to a del that succeeded: the expiration of the entry that is gone. */
  lemma DeletedTellsTheExpiration(s: State, calls: seq<Call>, at: seq<nat>, i: nat, q: Request, o: Outside,
                                  sent: Option<seq<Packet>>)
    requires WellFormed(s) && TableFits(s) && ProperRun(s, calls)
    requires i + 1 < |at| && ServedAs(s, calls, at, i, q, o, sent) && !q.isAsync
    requires Asked(q).Some? && Asked(q).value.Del? && at[i] < |calls| && ReplyAt(s, calls, at[i]).Deleted?
    ensures sent.Some?
    ensures var found := Lookup(StateAt(s, calls, at[i]), Asked(q).value.key);
      found.Some? && TakeInt(4, Body(sent.value)) == Some((found.value.expire, []))
  {
    hide BinOf, StateAt, Asked, ResultCommand, Body, IsMessage, WellFormed, TakeInt, PutInt, Apply, ProperRun,
      FoundFits;
    var m := at[i];
    var key := Asked(q).value.key;
    RunKeepsFit(s, calls, m);
    SucceedsIff(StateAt(s, calls, m), calls[m]);
    var found := Lookup(StateAt(s, calls, m), key);
    assert found.Some? && EntryFits(found.value);
    WordSizes();
    TakeIntOfPut(4, found.value.expire, []);
  }

  /** Client::cas expects the answers of a cas to what the server takes for a set: without memory it asserts. */
  lemma ClientCasVerdict(s: State, op: Op, now: nat, env: Env)
    requires |s.bins| > 0 && op.Cas?
    ensures var r := Step(s, Call(AsServed(op), now, env)).1;
      r != Fault ==>
        Verdict(op, ResultCommand(AsServed(op), r)) ==
        if (if Lookup(s, op.key).Some? then env.moved ==> env.served else env.served) then Some(true) else None
  {
    hide BinOf, Apply, SetupExpire;
  }

  /** What readMulti tells its caller of the answer to request i: the last write served for its key, or that it is
      missing; whatever else has been asked for or is still to come. */
  lemma GetAnswerReachesTheCaller(s: State, calls: seq<Call>, at: seq<nat>, mems: seq<Memory>, j: nat, q: Request,
                                  o: Outside, sent: Option<seq<Packet>>, handles: seq<nat>, offset: nat, i: nat,
                                  more: seq<Packet>)
    requires WellFormed(s) && Empty(s) && s.cas < U64
    requires |mems| == |calls| && forall m | 0 <= m < |calls| :: MadeIn(mems, s, calls, m)
    requires j + 1 < |at| && ServedAs(s, calls, at, j, q, o, sent)
    requires Asked(q).Some? && Asked(q).value.Get? && AppendsInPlace(mems, calls, Asked(q).value.key, at[j])
    requires sent.Some? ==> |sent.value| < MAX_PACKETS && |Body(sent.value)| <= CONFIG_MAX_REQUEST_SIZE
    requires Distinct(handles) && i < |handles| && offset < |handles| && handles[i] == q.rid
    ensures sent.Some?
    ensures var key := Asked(q).value.key; var w := LastWrite(s, calls, key, at[j]);
      ReadOf(handles, offset, Received(sent.value + more, None, 0)) ==
        if ReplyAt(s, calls, at[j]).Hit? && w.Some?
        then Value(i, Found(key, w.value.value, w.value.flags, w.value.cas)) else Missing(i)
  {
    hide WellFormed, Empty, LastWrite, Body, DecodeFound, Asked, Step, StateAt, ReplyAt, IsMessage, MadeIn,
      AppendsInPlace, ResultBody, Received, ReadOf, Distinct;
    HasBins(s);
    ServedGetIsTheLastWrite(s, calls, at, mems, j, q, o, sent);
    GetNeverFaults(s, calls, at[j]);
    ServedIsAnswered(s, calls, at, j, q, o, sent);
    var ps := sent.value;
    FirstSequenceNumber(ps);
    WholeResponseIsReceived(ps, more, q.rid, None);
    AnswerIsRead(handles, offset, i, ps[0].h.cmd, Body(ps));
  }

  lemma FirstSequenceNumber(ps: seq<Packet>)
    requires IsMessage(ps)
    ensures ps[0].h.seqNo < U16
  {
    assert Framed(ps[0], ps[0].h, 0, |ps|);
  }
}
