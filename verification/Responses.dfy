/** Client::readResponse: packets are fed to one reader until it completes or something is wrong. */
module ResponseModel {
  import opened Base
  import opened Packets
  import opened ReaderModel
  import opened Reassembly
  import opened Codec

  /** A complete response: its request id, command and body. */
  datatype Response = Response(rid: nat, cmd: nat, body: Bytes)

  function ResponseOf(s: ReaderState): Response {
    Response(s.rid, s.cmd, Body(s.list))
  }

  /** waitForPacket turns a packet of another request away only if an id is expected. */
  predicate Welcome(p: Packet, expected: Option<nat>) {
    expected.Some? ==> p.h.rid == expected.value
  }

  /** What comes of the packets from the m-th on. None is any of the errors: nothing more arrives, a packet is not
      welcome, the reader fails. */
  function Received(d: seq<Packet>, expected: Option<nat>, m: nat): Option<Response>
    requires m <= |d|
    decreases |d| - m
  {
    if m == |d| || !Welcome(d[m], expected) then None
    else match ResultAt(d, m)
      case NextPacket => Received(d, expected, m + 1)
      case Complete => Some(ResponseOf(Fed(d, m + 1)))
      case Failed => None
  }

  ghost predicate CompletesAfter(d: seq<Packet>, expected: Option<nat>, n: nat) {
    && 0 < n <= |d| && StillOpen(d, n - 1) && ResultAt(d, n - 1) == Complete
    && forall i | 0 <= i < n :: Welcome(d[i], expected)
  }

  /** A response is received if and only if the reader completes on welcome packets. */
  lemma {:induction false} ReceivedIff(d: seq<Packet>, expected: Option<nat>, m: nat)
    requires m <= |d| && StillOpen(d, m) && forall i | 0 <= i < m :: Welcome(d[i], expected)
    ensures Received(d, expected, m).Some? <==> exists n: nat :: CompletesAfter(d, expected, n)
    ensures forall n: nat | CompletesAfter(d, expected, n) :: Received(d, expected, m) == Some(ResponseOf(Fed(d, n)))
    decreases |d| - m
  {
    hide ResultAt, Fed, ResponseOf;
    if m < |d| && Welcome(d[m], expected) && ResultAt(d, m) == NextPacket {
      ReceivedIff(d, expected, m + 1);
    } else if m < |d| && Welcome(d[m], expected) && ResultAt(d, m) == Complete {
      assert CompletesAfter(d, expected, m + 1);
    }
  }

  method ReadResponse(arriving: seq<Packet>, expected: Option<nat>) returns (r: Option<Response>)
    requires forall i | 0 <= i < |arriving| :: arriving[i].h.seqNo < U16
    ensures r == Received(arriving, expected, 0)
  {
    hide Put, Body, Open, Holding, Whole;
    var reader := new PacketReader();
    var m := 0;
    while m < |arriving|
      invariant 0 <= m <= |arriving| && reader.State() == Fed(arriving, m) && StillOpen(arriving, m)
      invariant Received(arriving, expected, 0) == Received(arriving, expected, m)
    {
      var packet := arriving[m];
      if expected.Some? && packet.h.rid != expected.value {
        return None;
      }
      FedIsOpen(arriving, m);
      PutOutcome(Fed(arriving, m), packet);
      var result := reader.PutPacket(packet);
      match result {
        case Failed => return None;
        case NextPacket =>
        case Complete =>
          WholeFits(reader.State());
          var buffer := new Byte[CONFIG_MAX_REQUEST_SIZE];
          var rid, cmd := reader.rid, reader.cmd;
          var sz := reader.CopyToBuffer(buffer);
          return Some(Response(rid, cmd, buffer[..sz]));
      }
      m := m + 1;
    }
    r := None;
  }

  lemma WholeFits(s: ReaderState)
    requires Whole(s)
    ensures s.list != [] && |Body(s.list)| <= CONFIG_MAX_REQUEST_SIZE
  {
  }

  /** With an expected id: if all packets with that id come from one message, a response received is that message. */
  lemma ExpectedResponseIsTheMessage(d: seq<Packet>, rid: nat, ps: seq<Packet>)
    requires IsMessage(ps) && |ps| <= SAFE_PACKETS
    requires forall p | p in d && p.h.rid == rid :: p in ps
    requires Received(d, Some(rid), 0).Some?
    ensures Received(d, Some(rid), 0).value == Response(rid, ps[0].h.cmd, Body(ps))
  {
    hide Put, IsMessage, Fed, ResultAt, Body;
    ReceivedIff(d, Some(rid), 0);
    var n: nat :| CompletesAfter(d, Some(rid), n);
    var taken := d[..n];
    forall i | 0 <= i < n ensures taken[i] in ps {
      assert taken[i] == d[i] && d[i] in d && Welcome(d[i], Some(rid));
    }
    assert Welcome(d[0], Some(rid)) && taken[0] == d[0];
    TakenCompletes(d, n);
    CompletedIsTheMessage(taken, ps);
    SequenceNumbersFit(taken, ps);
    FirstIsFirst(taken, ps);
  }

  lemma FirstIsFirst(d: seq<Packet>, ps: seq<Packet>)
    requires IsMessage(ps) && d != [] && DeliveryOf(d, ps) && Completes(d) && Fed(d, |d|).list == ps
    requires forall i | 0 <= i < |d| :: d[i].h.seqNo < U16
    ensures ps[0] in d
  {
    hide Body, Fed, ResultAt, Put, IsMessage;
    var k := HeldSinceLatestFirst(d, |d|);
    FirstCounts(ps);
    assert d[k..|d|][0] == d[k];
  }

  /** The packets up to completion are a completed delivery of their own. */
  lemma TakenCompletes(d: seq<Packet>, n: nat)
    requires 0 < n <= |d| && StillOpen(d, n - 1) && ResultAt(d, n - 1) == Complete
    ensures Completes(d[..n]) && Fed(d[..n], n) == Fed(d, n)
  {
    hide Fed, ResultAt;
    var taken := d[..n];
    assert taken + d[n..] == d;
    FedPrefix(taken, d[n..], n);
    forall i | 0 <= i < n ensures ResultAt(taken, i) == ResultAt(d, i) {
      FedPrefix(taken, d[n..], i);
    }
  }

  /** A response that arrives whole and in order is received, whatever comes behind it, if its id is the expected one
      or none is expected. */
  lemma WholeResponseIsReceived(ps: seq<Packet>, more: seq<Packet>, rid: nat, expected: Option<nat>)
    requires IsMessage(ps) && |ps| < U64 && ps[0].h.seqNo < U16 && |Body(ps)| <= CONFIG_MAX_REQUEST_SIZE
    requires (forall i | 0 <= i < |ps| :: ps[i].h.rid == rid) && (expected.Some? ==> expected.value == rid)
    ensures Received(ps + more, expected, 0) == Some(Response(rid, ps[0].h.cmd, Body(ps)))
  {
    hide Put, IsMessage, Fed, ResultAt, Body;
    NotNothing(ps);
    LosslessDelivery(ps);
    LosslessHeader(ps);
    var d, n := ps + more, |ps|;
    forall i | 0 <= i < n ensures ResultAt(d, i) == ResultAt(ps, i) && Welcome(d[i], expected) {
      FedPrefix(ps, more, i);
    }
    FedPrefix(ps, more, n);
    assert CompletesAfter(d, expected, n);
    ReceivedIff(d, expected, 0);
  }

  /** A packet of another request ends the wait for an expected one. */
  lemma ForeignIsRefused(d: seq<Packet>, rid: nat)
    requires d != [] && d[0].h.rid != rid
    ensures Received(d, Some(rid), 0) == None
  {
  }

  /** Two messages of which the first gives the reader its first k packets and the second the rest. */
  ghost predicate Spliced(d: seq<Packet>, ps: seq<Packet>, qs: seq<Packet>, k: nat) {
    && IsMessage(ps) && IsMessage(qs) && ps[0].h.seqNo < U16 && qs[0].h.seqNo < U16
    && 0 < k < |ps| < MAX_PACKETS && k < |qs| < MAX_PACKETS && d == ps[..k] + qs[k..]
  }

  lemma SplicedAt(d: seq<Packet>, ps: seq<Packet>, qs: seq<Packet>, k: nat, i: nat)
    requires Spliced(d, ps, qs, k) && i < |d|
    ensures |d| == |qs|
    ensures d[i] == if i < k then ps[i] else qs[i]
    ensures (d[i].h.first <==> i == 0) && d[i].h.seqNo < U16
    ensures d[i].h.seqNo == SeqAt(if i < k then ps[0].h.seqNo else qs[0].h.seqNo, i)
    ensures i >= k ==> (d[i].h.last <==> i == |d| - 1)
    ensures i < k ==> !d[i].h.last
  {
    assert Framed(ps[0], ps[0].h, 0, |ps|);
    if i < k {
      assert Framed(ps[i], ps[0].h, i, |ps|);
    } else {
      assert Framed(qs[i], qs[0].h, i, |qs|);
    }
  }

  /** Without an expected id nothing tells two responses apart but their lengths and first sequence numbers. */
  lemma SpliceCompletesIff(d: seq<Packet>, ps: seq<Packet>, qs: seq<Packet>, k: nat)
    requires Spliced(d, ps, qs, k) && |Body(d)| <= CONFIG_MAX_REQUEST_SIZE
    ensures d != []
    ensures Completes(d) <==> |ps| == |qs| && ps[0].h.seqNo == qs[0].h.seqNo
  {
    hide Body, Fed, ResultAt, Put, SeqAt, IsMessage;
    var n := |d|;
    SplicedAt(d, ps, qs, k, 0);
    SplicedAt(d, ps, qs, k, k);
    FirstCounts(ps);
    if |ps| == |qs| && ps[0].h.seqNo == qs[0].h.seqNo {
      forall i | 0 <= i < n ensures Framed(d[i], ps[0].h, i, n) {
        SplicedAt(d, ps, qs, k, i);
      }
      PlausibleIsTaken(d, ps[0].h, n, n);
    }
    if Completes(d) {
      forall i | 0 <= i < n ensures d[i].h.seqNo < U16 && (d[i].h.first <==> i == 0) {
        SplicedAt(d, ps, qs, k, i);
      }
      var j := HeldSinceLatestFirst(d, n);
      assert j == 0 && d[0..n] == d;
      FedIsOpen(d, n - 1);
      LastPut(d);
      PutOutcome(Fed(d, n - 1), d[n - 1]);
      WholeOfAll(Fed(d, n), k);
      SameStart(ps[0].h.seqNo, qs[0].h.seqNo, k);
    }
  }

  lemma FirstCounts(ps: seq<Packet>)
    requires IsMessage(ps)
    ensures ps != [] && ps[0].h.packets == |ps|
  {
  }

  lemma WholeOfAll(s: ReaderState, k: nat)
    requires Whole(s) && k < |s.list| < MAX_PACKETS && s.list[0].h.packets < U64
    ensures s.list[k].h.seqNo == SeqAt(s.list[0].h.seqNo, k) && s.list[0].h.packets == |s.list|
  {
    WholeLength(s);
  }

  lemma SameStart(a: nat, b: nat, k: nat)
    requires a < U16 && b < U16 && SeqAt(a, k) == SeqAt(b, k)
    ensures a == b
  {
  }

  /** Packet i of two, of the response with this id. */
  function HalfOf(rid: nat, i: nat, b: Byte): Packet {
    Packet(Header(rid, i, RESULT_GET, if i == 0 then 2 else 0, false, i == 0, i == 1), [b])
  }

  /** The first half of one response and the second half of another are received as a response that nobody sent. */
  lemma MixedResponseIsReceived()
    ensures var ps, qs := [HalfOf(1, 0, 1), HalfOf(1, 1, 2)], [HalfOf(2, 0, 3), HalfOf(2, 1, 4)];
      && IsMessage(ps) && IsMessage(qs) && Body(ps) == [1, 2] && Body(qs) == [3, 4]
      && Received([ps[0], qs[1]], None, 0) == Some(Response(1, RESULT_GET, [1, 4]))
  {
    hide Body, Fed, Put, ResultAt, Received;
    var ps, qs := [HalfOf(1, 0, 1), HalfOf(1, 1, 2)], [HalfOf(2, 0, 3), HalfOf(2, 1, 4)];
    TwoHalves(ps[0], ps[1]);
    TwoHalves(qs[0], qs[1]);
    var d := [ps[0], qs[1]];
    TwoHalves(d[0], d[1]);
    assert d == [d[0], d[1]] && [1] + [4] == [1, 4];
    assert d == ps[..1] + qs[1..];
    SpliceCompletesIff(d, ps, qs, 1);
    CompletedIs(d);
  }

  lemma TwoHalves(p: Packet, q: Packet)
    ensures Body([p, q]) == p.payload + q.payload
  {
    assert [] + [p] + [q] == [p, q];
    NothingHeld();
    BodyAppend([], p);
    BodyAppend([] + [p], q);
  }

  lemma CompletedIs(d: seq<Packet>)
    requires d != [] && Completes(d) && (forall i | 0 <= i < |d| :: (d[i].h.first <==> i == 0) && d[i].h.seqNo < U16)
    ensures Received(d, None, 0) == Some(Response(d[0].h.rid, d[0].h.cmd, Body(d)))
  {
    hide Body, Fed, ResultAt, Put;
    var n := |d|;
    var j := HeldSinceLatestFirst(d, n);
    assert j == 0 && d[0..n] == d;
    FedIsOpen(d, n - 1);
    LastPut(d);
    PutOutcome(Fed(d, n - 1), d[n - 1]);
    ReceivedIff(d, None, 0);
    assert CompletesAfter(d, None, n);
  }
}
