/** The client's request ids, and how readMulti attributes answers to handles. */
module ClientModel {
  import opened Base
  import opened Arithmetic
  import opened ByteStreamModel
  import opened Codec
  import opened Packets
  import opened ResponseModel

  class Rids {
    var rid: nat    // m_rid, a 16-bit word

    ghost predicate Valid()
      reads this
    {
      rid < U16
    }

    constructor (rid: nat)
      requires rid < U16
      ensures Valid() && this.rid == rid
    {
      this.rid := rid;
    }

    method GetNextRid() returns (r: nat)
      requires Valid()
      modifies this
      ensures Valid() && r == rid == NextRid(old(rid))
    {
      rid := (rid + 1) % U16;
      if rid == 0 {
        rid := rid + 1;
      }
      r := rid;
    }
  }

  /** Zero is never used. */
  function NextRid(rid: nat): (r: nat) {
    if rid == U16 - 1 then 1 else rid + 1
  }

  /** The id of the n-th request after `rid`. */
  function RidAt(rid: nat, n: nat): nat {
    if n == 0 then rid else NextRid(RidAt(rid, n - 1))
  }

  lemma {:induction false} RidClosedForm(rid: nat, n: nat)
    requires 1 <= rid < U16
    ensures RidAt(rid, n) == 1 + (rid - 1 + n) % (U16 - 1)
  {
    if n > 0 {
      RidClosedForm(rid, n - 1);
    }
  }

  lemma {:induction false} RidShift(rid: nat, n: nat)
    ensures RidAt(rid, n + 1) == RidAt(NextRid(rid), n)
  {
    if n > 0 {
      RidShift(rid, n - 1);
    }
  }

  /** Ids are never zero, and two requests share one if and only if a multiple of 65535 requests lies between them. */
  lemma RidsRepeatIff(rid: nat, i: nat, j: nat)
    requires rid < U16 && 1 <= i <= j
    ensures 1 <= RidAt(rid, i) < U16
    ensures RidAt(rid, i) == RidAt(rid, j) <==> (j - i) % (U16 - 1) == 0
  {
    hide RidAt;
    RidShift(rid, i - 1);
    RidShift(rid, j - 1);
    RepeatIff(NextRid(rid), i - 1, j - 1);
  }

  lemma RepeatIff(rid: nat, i: nat, j: nat)
    requires 1 <= rid < U16 && i <= j
    ensures 1 <= RidAt(rid, i) < U16
    ensures RidAt(rid, i) == RidAt(rid, j) <==> (j - i) % (U16 - 1) == 0
  {
    hide RidAt;
    RidClosedForm(rid, i);
    RidClosedForm(rid, j);
    SameRemainder(rid - 1 + i, j - i, U16 - 1);
  }

  // ----- readMulti

  /** Where a request id is among the handles; their number if nowhere. */
  function IndexOf(handles: seq<nat>, rid: nat): (i: nat)
    ensures i <= |handles|
    ensures i < |handles| ==> handles[i] == rid
    ensures forall j | 0 <= j < i :: handles[j] != rid
  {
    if handles == [] || handles[0] == rid then 0 else 1 + IndexOf(handles[1..], rid)
  }

  /** The handles after an answer: the one it belongs to is zeroed. */
  function Strike(handles: seq<nat>, rid: nat): (hs: seq<nat>)
    ensures |hs| == |handles|
  {
    var i := IndexOf(handles, rid);
    if i < |handles| then handles[i := 0] else handles
  }

  /** The handles and the offset after a response with this id has been read. */
  function Answered(handles: seq<nat>, offset: nat, rid: nat): (r: (seq<nat>, nat))
    ensures |r.0| == |handles| && (offset <= |handles| ==> offset <= r.1 <= |handles|)
  {
    if offset >= |handles| || IndexOf(handles, rid) == |handles| then (handles, offset)
    else (Strike(handles, rid), offset + 1)
  }

  /** What one call of readMulti returns to its caller. */
  datatype Read =
    | Stopped               // all handles are answered, or no response came
    | Unknown               // the response is for none of the handles
    | Missing(index: nat)   // NOT_FOUND
    | Value(index: nat, found: Found)
    | Exception             // the body is too short
    | Unexpected            // neither GET nor NOT_FOUND: an assertion

  function ReadOf(handles: seq<nat>, offset: nat, response: Option<Response>): Read {
    if offset >= |handles| || response.None? then Stopped
    else
      var i := IndexOf(handles, response.value.rid);
      if i == |handles| then Unknown
      else if response.value.cmd == RESULT_NOT_FOUND then Missing(i)
      else if response.value.cmd != RESULT_GET then Unexpected
      else match DecodeFound(response.value.body)
        case None => Exception
        case Some((f, _)) => Value(i, f)
  }

  method ReadBody(body: Bytes) returns (found: Option<Found>)
    ensures found == if DecodeFound(body).Some? then Some(DecodeFound(body).value.0) else None
  {
    hide DecodeFound, ByteStream.Rest;
    var buffer := new Byte[|body|](i requires 0 <= i < |body| => body[i]);
    assert buffer[..buffer.Length] == body;
    var bs := new ByteStream(buffer, buffer.Length);
    found := ReadFound(bs);
  }

  /** readMulti: takes whatever response comes next. */
  method ReadMulti(handles: array<nat>, offset: nat, arriving: seq<Packet>) returns (offset': nat, r: Read)
    requires forall i | 0 <= i < |arriving| :: arriving[i].h.seqNo < U16
    modifies handles
    ensures var response := Received(arriving, None, 0);
      && r == ReadOf(old(handles[..]), offset, response)
      && (handles[..], offset') == if response.None? then (old(handles[..]), offset)
                                   else Answered(old(handles[..]), offset, response.value.rid)
  {
    if offset >= handles.Length {
      return offset, Stopped;
    }
    var response := ReadResponse(arriving, None);
    offset', r := MatchResponse(handles, offset, response);
  }

  method MatchResponse(handles: array<nat>, offset: nat, response: Option<Response>) returns (offset': nat, r: Read)
    modifies handles
    ensures r == ReadOf(old(handles[..]), offset, response)
    ensures (handles[..], offset') == if response.None? then (old(handles[..]), offset)
                                      else Answered(old(handles[..]), offset, response.value.rid)
  {
    hide DecodeFound, IndexOf;
    if offset >= handles.Length || response.None? {
      return offset, Stopped;
    }
    var rid := response.value.rid;
    var index := 0;
    while index < handles.Length
      invariant 0 <= index <= handles.Length && handles[..] == old(handles[..])
      invariant forall j | 0 <= j < index :: handles[j] != rid
    {
      if handles[index] == rid {
        break;
      }
      index := index + 1;
    }
    IndexIs(handles[..], rid, index);
    if index == handles.Length {
      return offset, Unknown;
    }
    handles[index] := 0;
    offset' := offset + 1;
    if response.value.cmd == RESULT_NOT_FOUND {
      return offset', Missing(index);
    } else if response.value.cmd != RESULT_GET {
      return offset', Unexpected;
    }
    var found := ReadBody(response.value.body);
    r := if found.None? then Exception else Value(index, found.value);
  }

  lemma {:induction false} IndexIs(handles: seq<nat>, rid: nat, i: nat)
    requires i <= |handles| && (i < |handles| ==> handles[i] == rid)
    requires forall j | 0 <= j < i :: handles[j] != rid
    ensures IndexOf(handles, rid) == i
  {
  }

  /** The answer to request i is told as that request's, with what it carries, and request i alone is done. */
  lemma AnswerIsRead(handles: seq<nat>, offset: nat, i: nat, cmd: nat, body: Bytes)
    requires Distinct(handles) && i < |handles| && offset < |handles|
    ensures var response := Response(handles[i], cmd, body); var r := ReadOf(handles, offset, Some(response));
      && (cmd == RESULT_NOT_FOUND ==> r == Missing(i))
      && (cmd == RESULT_GET && DecodeFound(body).Some? ==> r == Value(i, DecodeFound(body).value.0))
      && Answered(handles, offset, handles[i]) == (handles[i := 0], offset + 1)
  {
    hide DecodeFound;
    IndexIs(handles, handles[i], i);
  }

  /** An answer to none of the requests changes nothing. */
  lemma ForeignAnswerIsIgnored(handles: seq<nat>, offset: nat, response: Response)
    requires response.rid !in handles && offset < |handles|
    ensures ReadOf(handles, offset, Some(response)) == Unknown
    ensures Answered(handles, offset, response.rid) == (handles, offset)
  {
    hide DecodeFound;
  }

  /** The handles of n getMulti calls in a row serve to tell their answers apart if and only if there are at most
      65535. */
  lemma HandlesDistinctIff(rid: nat, n: nat)
    requires rid < U16
    ensures Distinct(seq(n, i requires i >= 0 => RidAt(rid, i + 1))) <==> n <= U16 - 1
  {
    hide RidAt;
    var handles := seq(n, i requires i >= 0 => RidAt(rid, i + 1));
    forall i | 0 <= i < n ensures handles[i] != 0 {
      RidsRepeatIff(rid, i + 1, i + 1);
    }
    forall i, j | 0 <= i < j < n ensures handles[i] == handles[j] <==> (j - i) % (U16 - 1) == 0 {
      RidsRepeatIff(rid, i + 1, j + 1);
    }
    if n > U16 - 1 {
      assert handles[0] == handles[U16 - 1];
    }
  }

  /** The handles and the offset after the responses with the first m of these ids. */
  function RunAt(handles: seq<nat>, rids: seq<nat>, m: nat): (r: (seq<nat>, nat))
    requires m <= |rids|
    ensures |r.0| == |handles| && r.1 <= |handles|
  {
    if m == 0 then (handles, 0)
    else
      var (now, offset) := RunAt(handles, rids, m - 1);
      Answered(now, offset, rids[m - 1])
  }

  /** How many of the first m responses carried id zero and were taken for the answer of an answered handle. */
  function Strays(handles: seq<nat>, rids: seq<nat>, m: nat): nat
    requires m <= |rids|
  {
    if m == 0 then 0
    else
      Strays(handles, rids, m - 1) +
      var (now, offset) := RunAt(handles, rids, m - 1);
      if offset < |handles| && rids[m - 1] == 0 && 0 in now then 1 else 0
  }

  function Zeros(handles: seq<nat>): nat {
    if handles == [] then 0 else Zeros(handles[..|handles| - 1]) + if handles[|handles| - 1] == 0 then 1 else 0
  }

  lemma {:induction false} ZeroOneMore(handles: seq<nat>, i: nat)
    requires i < |handles| && handles[i] != 0
    ensures Zeros(handles[i := 0]) == Zeros(handles) + 1
  {
    var n := |handles| - 1;
    if i == n {
      assert handles[i := 0][..n] == handles[..n];
    } else {
      ZeroOneMore(handles[..n], i);
      assert handles[i := 0][..n] == handles[..n][i := 0];
    }
  }

  lemma {:induction false} ZerosBound(handles: seq<nat>)
    ensures Zeros(handles) <= |handles|
    ensures Zeros(handles) == |handles| <==> forall i | 0 <= i < |handles| :: handles[i] == 0
  {
    if handles != [] {
      ZerosBound(handles[..|handles| - 1]);
    }
  }

  lemma {:induction false} NoZeros(handles: seq<nat>)
    requires 0 !in handles
    ensures Zeros(handles) == 0
  {
    if handles != [] {
      NoZeros(handles[..|handles| - 1]);
    }
  }

  ghost predicate Distinct(handles: seq<nat>) {
    && 0 !in handles
    && forall i, j | 0 <= i < j < |handles| :: handles[i] != handles[j]
  }

  lemma DistinctNonzero(handles: seq<nat>)
    requires Distinct(handles)
    ensures 0 !in handles
  {
  }

  lemma StrikeOne(now: seq<nat>, handles: seq<nat>, seen: seq<nat>, rid: nat)
    requires Distinct(handles) && |now| == |handles|
    requires forall i | 0 <= i < |handles| :: now[i] == if handles[i] in seen then 0 else handles[i]
    ensures forall i | 0 <= i < |handles| :: Strike(now, rid)[i] == if handles[i] in seen + [rid] then 0 else handles[i]
    ensures Zeros(Strike(now, rid)) == Zeros(now) + if rid in now && rid != 0 then 1 else 0
  {
    var k := IndexOf(now, rid);
    if k < |now| {
      if rid == 0 {
        assert now[k := 0] == now;
      } else {
        ZeroOneMore(now, k);
      }
    }
  }

  /** As long as readMulti goes on, a handle is zeroed exactly when its answer has come, and the offset counts the
      zeroed handles and the strays; repeated and foreign answers change nothing. */
  lemma {:induction false} StruckIff(handles: seq<nat>, rids: seq<nat>, m: nat)
    requires Distinct(handles) && m <= |rids| && (m > 0 ==> RunAt(handles, rids, m - 1).1 < |handles|)
    ensures var (now, offset) := RunAt(handles, rids, m);
      && (forall i | 0 <= i < |handles| :: now[i] == if handles[i] in rids[..m] then 0 else handles[i])
      && offset == Zeros(now) + Strays(handles, rids, m)
    decreases m
  {
    hide Strike, Distinct;
    DistinctNonzero(handles);
    if m == 0 {
      NoZeros(handles);
    } else {
      StruckIff(handles, rids, m - 1);
      assert rids[..m] == rids[..m - 1] + [rids[m - 1]];
      StrikeOne(RunAt(handles, rids, m - 1).0, handles, rids[..m - 1], rids[m - 1]);
    }
  }

  ghost predicate AllAnswered(handles: seq<nat>, rids: seq<nat>, m: nat)
    requires m <= |rids|
  {
    forall i | 0 <= i < |handles| :: handles[i] in rids[..m]
  }

  /** Every handle has been answered if and only if the offset has reached the number of handles without strays. */
  lemma StopsWhenAllAnswered(handles: seq<nat>, rids: seq<nat>, m: nat)
    requires Distinct(handles) && m <= |rids| && (m > 0 ==> RunAt(handles, rids, m - 1).1 < |handles|)
    ensures AllAnswered(handles, rids, m) <==>
            RunAt(handles, rids, m).1 == |handles| && Strays(handles, rids, m) == 0
  {
    hide RunAt, Strays;
    DistinctNonzero(handles);
    StruckIff(handles, rids, m);
    ZerosBound(RunAt(handles, rids, m).0);
    RunBound(handles, rids, m);
  }

  lemma RunBound(handles: seq<nat>, rids: seq<nat>, m: nat)
    requires m <= |rids|
    ensures |RunAt(handles, rids, m).0| == |handles| && RunAt(handles, rids, m).1 <= |handles|
  {
  }

  /** Without responses of id zero, which the client never asks for, there are no strays. */
  lemma {:induction false} NoStrays(handles: seq<nat>, rids: seq<nat>, m: nat)
    requires m <= |rids| && 0 !in rids[..m]
    ensures Strays(handles, rids, m) == 0
  {
    if m > 0 {
      assert rids[..m][m - 1] == rids[m - 1];
      assert forall j | 0 <= j < m - 1 :: rids[..m - 1][j] == rids[..m][j];
      NoStrays(handles, rids, m - 1);
    }
  }

  /** A response of id zero after the first answer makes readMulti stop with the second handle unanswered. */
  lemma StrayStopsEarly()
    ensures RunAt([5, 6], [5, 0], 2) == ([0, 6], 2) && !AllAnswered([5, 6], [5, 0], 2)
  {
    assert RunAt([5, 6], [5, 0], 1) == ([0, 6], 1) by {
      assert Strike([5, 6], 5) == [0, 6];
    }
    assert Strike([0, 6], 0) == [0, 6];
    var handles, rids := [5, 6], [5, 0];
    assert rids[..2] == rids && handles[1] !in rids;
  }
}
