/** One message, one reader, and a network that drops, duplicates and reorders. */
module Reassembly {
  import opened Base
  import opened Arithmetic
  import opened Packets
  import opened ReaderModel

  /** The longest message for which a completed reassembly is always the right one. */
  const SAFE_PACKETS := 65538

  /** Delivered packets all come from the message, in any order and number. */
  ghost predicate DeliveryOf(d: seq<Packet>, ps: seq<Packet>) {
    forall i | 0 <= i < |d| :: d[i] in ps
  }

  /** In the middle of the message the reader holds a proper prefix of it. */
  ghost predicate HoldsPrefix(s: ReaderState, ps: seq<Packet>) {
    && s.cPackets == 1
    && 1 <= |s.list| < |ps| && s.list == ps[..|s.list|]
    && s.nextSeq == SeqAt(ps[0].h.seqNo, |s.list|)
    && s.packetsLeft == |ps| - |s.list|
  }

  ghost predicate NewOrPrefix(s: ReaderState, ps: seq<Packet>) {
    (s.cPackets == 0 && s.list == []) || HoldsPrefix(s, ps)
  }

  /** Two places of one message with the same sequence number are a multiple of 2^16 apart. */
  lemma SameSeqFarApart(start: nat, i: nat, j: nat)
    requires SeqAt(start, i) == SeqAt(start, j) && i < 65538 && j < 65538
    ensures i == j || i == j + 65536 || j == i + 65536
  {
  }

  lemma DeliverFirst(s: ReaderState, ps: seq<Packet>)
    requires IsMessage(ps) && |ps| <= SAFE_PACKETS && NewOrPrefix(s, ps)
    ensures var (s', r) := Put(s, ps[0]);
      && (r == NextPacket ==> HoldsPrefix(s', ps))
      && (r == Complete ==> s'.list == ps)
  {
    hide SeqAt;
    assert Framed(ps[0], ps[0].h, 0, |ps|);
    WrapSmall(|ps| - 1);
    SeqStep(ps[0].h.seqNo, 0);
    SeqAtZero(ps[0].h.seqNo);
    assert ps[..1] == [ps[0]];
  }

  lemma DeliverNext(s: ReaderState, ps: seq<Packet>)
    requires IsMessage(ps) && |ps| <= SAFE_PACKETS && HoldsPrefix(s, ps) && !ps[|s.list|].h.first
    ensures var (s', r) := Put(s, ps[|s.list|]);
      && (r == NextPacket ==> HoldsPrefix(s', ps))
      && (r == Complete ==> s'.list == ps)
  {
    hide SeqAt;
    var k := |s.list|;
    assert Framed(ps[k], ps[0].h, k, |ps|);
    WrapSmall(s.packetsLeft - 1);
    SeqStep(ps[0].h.seqNo, k);
    assert ps[..k] + [ps[k]] == ps[..k + 1];
    assert ps[..|ps|] == ps;
  }

  /** A packet 2^16 places away from the expected one is betrayed by the packet count. */
  lemma DeliverFar(s: ReaderState, ps: seq<Packet>, j: nat)
    requires IsMessage(ps) && |ps| <= SAFE_PACKETS && HoldsPrefix(s, ps) && j < |ps| && !ps[j].h.first
    requires j == |s.list| + 65536 || |s.list| == j + 65536
    ensures Put(s, ps[j]).1 == Failed
  {
    hide SeqAt;
    assert Framed(ps[j], ps[0].h, j, |ps|);
    WrapSmall(s.packetsLeft - 1);
  }

  /** One delivery: the reader ends up with the next prefix, starts over, gives up, or has the message. */
  lemma DeliverOne(s: ReaderState, ps: seq<Packet>, p: Packet)
    requires IsMessage(ps) && |ps| <= SAFE_PACKETS && NewOrPrefix(s, ps) && p in ps
    ensures var (s', r) := Put(s, p);
      && (r == NextPacket ==> HoldsPrefix(s', ps))
      && (r == Complete ==> s'.list == ps)
  {
    hide SeqAt, Accept;
    var j :| 0 <= j < |ps| && ps[j] == p;
    assert Framed(ps[j], ps[0].h, j, |ps|);
    if p.h.first {
      DeliverFirst(s, ps);
    } else if s.cPackets != 0 && s.nextSeq == p.h.seqNo {
      SameSeqFarApart(ps[0].h.seqNo, j, |s.list|);
      if j == |s.list| {
        DeliverNext(s, ps);
      } else {
        DeliverFar(s, ps, j);
      }
    }
  }

  lemma WrapSmall(n: nat)
    requires n < U64
    ensures Wrap64(n) == n
  {
  }

  lemma SeqAtZero(start: nat)
    ensures SeqAt(SeqAt(start, 0), 0) == SeqAt(start, 0)
    ensures start < U16 ==> SeqAt(start, 0) == start
    ensures SeqAt(start, 0) == start ==> start < U16
  {
  }

  lemma {:induction false} FedHoldsPrefix(d: seq<Packet>, ps: seq<Packet>, m: nat)
    requires IsMessage(ps) && |ps| <= SAFE_PACKETS && DeliveryOf(d, ps) && m <= |d| && StillOpen(d, m)
    ensures NewOrPrefix(Fed(d, m), ps)
    decreases m
  {
    hide Put, IsMessage, HoldsPrefix;
    if m > 0 {
      FedHoldsPrefix(d, ps, m - 1);
      assert d[m - 1] in ps && ResultAt(d, m - 1) == NextPacket;
      DeliverOne(Fed(d, m - 1), ps, d[m - 1]);
    }
  }

  /** Whatever the network does to a message of at most 65538 packets: if the reader reports
      COMPLETE, it holds exactly that message. */
  lemma HostileDelivery(d: seq<Packet>, ps: seq<Packet>)
    requires IsMessage(ps) && |ps| <= SAFE_PACKETS && d != [] && DeliveryOf(d, ps)
    requires StillOpen(d, |d| - 1) && ResultAt(d, |d| - 1) == Complete
    ensures Fed(d, |d|).list == ps && Body(Fed(d, |d|).list) == Body(ps)
  {
    hide Put, IsMessage, HoldsPrefix;
    FedHoldsPrefix(d, ps, |d| - 1);
    assert d[|d| - 1] in ps;
    DeliverOne(Fed(d, |d| - 1), ps, d[|d| - 1]);
  }

  /** A delivery whose i-th packet could be taken for the i-th packet of a message of n. */
  ghost predicate Plausible(d: seq<Packet>, first: Header, n: nat) {
    && |d| == n > 0 && first.packets == n && d[0].h == first && first.seqNo < U16
    && forall i | 0 <= i < n :: Framed(d[i], first, i, n)
  }

  /** The reader after m packets of such a delivery. */
  ghost predicate Taken(s: ReaderState, d: seq<Packet>, first: Header, n: nat, m: nat) {
    && m <= |d| && m <= n
    && s.list == d[..m] && s.cbSize == |Body(d[..m])|
    && if m == 0 then s.cPackets == 0
       else s.cPackets == 1 && s.nextSeq == SeqAt(first.seqNo, m) && s.packetsLeft == n - m
  }

  lemma TakeNext(s: ReaderState, d: seq<Packet>, first: Header, n: nat, m: nat)
    requires Plausible(d, first, n) && n < U64 && m < n && |Body(d)| <= CONFIG_MAX_REQUEST_SIZE
    requires Taken(s, d, first, n, m)
    ensures Taken(Put(s, d[m]).0, d, first, n, m + 1)
    ensures Put(s, d[m]).1 == if m < n - 1 then NextPacket else Complete
  {
    hide SeqAt, Wrap64, Body, Plausible;
    PlausibleAt(d, first, n, m);
    assert d[..m + 1] == d[..m] + [d[m]];
    BodyAppend(d[..m], d[m]);
    PrefixIsShorter(d, m + 1);
    SeqStep(first.seqNo, m);
    SeqAtZero(first.seqNo);
    WrapSmall(n - m - 1);
  }

  lemma PlausibleAt(d: seq<Packet>, first: Header, n: nat, m: nat)
    requires Plausible(d, first, n) && m < n
    ensures |d| == n && Framed(d[m], first, m, n) && first.seqNo < U16 && first.packets == n
    ensures m == 0 ==> d[m].h == first
  {
  }

  lemma {:induction false} PlausibleIsTaken(d: seq<Packet>, first: Header, n: nat, m: nat)
    requires Plausible(d, first, n) && n < U64 && m <= n && |Body(d)| <= CONFIG_MAX_REQUEST_SIZE
    ensures Taken(Fed(d, m), d, first, n, m)
    ensures forall i | 0 <= i < m :: ResultAt(d, i) == if i < n - 1 then NextPacket else Complete
    decreases m
  {
    hide Body, Put, Plausible;
    if m == 0 {
      NothingHeld();
    } else {
      PlausibleIsTaken(d, first, n, m - 1);
      TakeNext(Fed(d, m - 1), d, first, n, m - 1);
    }
  }

  lemma MessageIsPlausible(ps: seq<Packet>)
    requires IsMessage(ps) && ps[0].h.seqNo < U16
    ensures Plausible(ps, ps[0].h, |ps|)
  {
  }

  /** Without loss and in order, a message within the size limit is taken packet by packet and completed. */
  lemma LosslessDelivery(ps: seq<Packet>)
    requires IsMessage(ps) && |ps| < U64 && ps[0].h.seqNo < U16 && |Body(ps)| <= CONFIG_MAX_REQUEST_SIZE
    ensures StillOpen(ps, |ps| - 1) && ResultAt(ps, |ps| - 1) == Complete
    ensures Fed(ps, |ps|).list == ps
  {
    hide Body, Fed, Put, IsMessage;
    MessageIsPlausible(ps);
    PlausibleIsTaken(ps, ps[0].h, |ps|, |ps|);
    assert ps[..|ps|] == ps;
  }

  lemma LastPut(d: seq<Packet>)
    requires d != []
    ensures Put(Fed(d, |d| - 1), d[|d| - 1]) == (Fed(d, |d|), ResultAt(d, |d| - 1))
  {
  }

  lemma SequenceNumbersFit(d: seq<Packet>, ps: seq<Packet>)
    requires IsMessage(ps) && DeliveryOf(d, ps)
    ensures forall i | 0 <= i < |d| :: d[i].h.seqNo < U16
  {
    forall i | 0 <= i < |d| ensures d[i].h.seqNo < U16 {
      var j :| 0 <= j < |ps| && ps[j] == d[i];
      assert Framed(ps[j], ps[0].h, j, |ps|);
    }
  }

  /** What the reader then knows of it. */
  lemma LosslessHeader(ps: seq<Packet>)
    requires IsMessage(ps) && |ps| < U64 && ps[0].h.seqNo < U16 && |Body(ps)| <= CONFIG_MAX_REQUEST_SIZE
    ensures var s := Fed(ps, |ps|);
      s.list == ps && s.rid == ps[0].h.rid && s.cmd == ps[0].h.cmd && s.isAsync == ps[0].h.isAsync
  {
    hide Body, Put, Fed, ResultAt;
    LosslessDelivery(ps);
    SequenceNumbersFit(ps, ps);
    FedIsOpen(ps, |ps| - 1);
    LastPut(ps);
    PutOutcome(Fed(ps, |ps| - 1), ps[|ps| - 1]);
  }

  /** A completed reader holds the message, and tells what its first packet's header says. */
  lemma CompletedIsTheMessage(d: seq<Packet>, ps: seq<Packet>)
    requires IsMessage(ps) && |ps| <= SAFE_PACKETS && d != [] && DeliveryOf(d, ps) && Completes(d)
    ensures var s := Fed(d, |d|);
      s.list == ps && s.rid == ps[0].h.rid && s.cmd == ps[0].h.cmd && s.isAsync == ps[0].h.isAsync
  {
    hide Body, Put, Fed, ResultAt, DeliveryOf;
    HostileDelivery(d, ps);
    SequenceNumbersFit(d, ps);
    FedIsOpen(d, |d| - 1);
    LastPut(d);
    PutOutcome(Fed(d, |d| - 1), d[|d| - 1]);
  }

  // ----- starting over

  /** The reader somewhere in a message delivered behind other packets: the byte count includes those. */
  ghost predicate TakenBehind(s: ReaderState, count: nat, ps: seq<Packet>, m: nat) {
    && 0 < m <= |ps| && s.cPackets == 1
    && s.list == ps[..m] && s.cbSize == count + |Body(ps[..m])|
    && s.nextSeq == SeqAt(ps[0].h.seqNo, m) && s.packetsLeft == |ps| - m
  }

  lemma RestartBehind(s: ReaderState, ps: seq<Packet>)
    requires IsMessage(ps) && |ps| < U64 && ps[0].h.seqNo < U16 && (s.cPackets == 0 ==> s.list == [])
    ensures TakenBehind(Put(s, ps[0]).0, s.cbSize, ps, 1)
    ensures Put(s, ps[0]).1 == if s.cbSize + |ps[0].payload| > CONFIG_MAX_REQUEST_SIZE then Failed
                               else if |ps| == 1 then Complete else NextPacket
  {
    hide SeqAt, Wrap64, Body;
    assert Framed(ps[0], ps[0].h, 0, |ps|);
    WrapSmall(|ps| - 1);
    SeqStep(ps[0].h.seqNo, 0);
    SeqAtZero(ps[0].h.seqNo);
    NothingHeld();
    BodyAppend([], ps[0]);
    assert ps[..1] == [] + [ps[0]];
  }

  lemma TakeNextBehind(s: ReaderState, count: nat, ps: seq<Packet>, m: nat)
    requires IsMessage(ps) && |ps| < U64 && m < |ps| && TakenBehind(s, count, ps, m)
    ensures TakenBehind(Put(s, ps[m]).0, count, ps, m + 1)
    ensures Put(s, ps[m]).1 == if count + |Body(ps[..m + 1])| > CONFIG_MAX_REQUEST_SIZE then Failed
                               else if m == |ps| - 1 then Complete else NextPacket
  {
    hide SeqAt, Wrap64, Body;
    assert Framed(ps[m], ps[0].h, m, |ps|);
    WrapSmall(|ps| - m - 1);
    SeqStep(ps[0].h.seqNo, m);
    assert ps[..m + 1] == ps[..m] + [ps[m]];
    BodyAppend(ps[..m], ps[m]);
  }

  /** After the first m packets of the message, if all so far fits. */
  lemma {:induction false} FedBehind(pre: seq<Packet>, ps: seq<Packet>, m: nat)
    requires IsMessage(ps) && |ps| < U64 && ps[0].h.seqNo < U16 && 0 < m <= |ps|
    requires StillOpen(pre, |pre|) && |Body(pre)| + |Body(ps[..m - 1])| <= CONFIG_MAX_REQUEST_SIZE
    ensures var d, k := pre + ps, |pre| + m;
      && TakenBehind(Fed(d, k), |Body(pre)|, ps, m) && StillOpen(d, k - 1)
      && ResultAt(d, k - 1) == if |Body(pre)| + |Body(ps[..m])| > CONFIG_MAX_REQUEST_SIZE then Failed
                               else if m == |ps| then Complete else NextPacket
    decreases m
  {
    hide Body, Put, IsMessage;
    var d, k := pre + ps, |pre| + m;
    FedPrefix(pre, ps, |pre|);
    assert d[k - 1] == ps[m - 1];
    if m == 1 {
      CountsAllDelivered(pre, |pre|);
      assert pre[..|pre|] == pre;
      OpenOrNew(pre, |pre|);
      RestartBehind(Fed(pre, |pre|), ps);
      NothingHeld();
      BodyAppend([], ps[0]);
      assert ps[..1] == [] + [ps[0]];
      forall i | 0 <= i < k - 1 ensures ResultAt(d, i) == NextPacket {
        FedPrefix(pre, ps, i);
      }
    } else {
      BodyOfPrefix(ps, m - 1);
      FedBehind(pre, ps, m - 1);
      TakeNextBehind(Fed(d, k - 1), |Body(pre)|, ps, m - 1);
    }
  }

  lemma {:induction false} FedPrefix(pre: seq<Packet>, rest: seq<Packet>, m: nat)
    requires m <= |pre|
    ensures Fed(pre + rest, m) == Fed(pre, m)
    ensures m < |pre| ==> ResultAt(pre + rest, m) == ResultAt(pre, m)
  {
    hide Put;
    if m > 0 {
      FedPrefix(pre, rest, m - 1);
    }
  }

  /** A reader that is still open has counted a first packet, or holds nothing. */
  lemma {:induction false} OpenOrNew(d: seq<Packet>, m: nat)
    requires m <= |d| && StillOpen(d, m)
    ensures Fed(d, m).cPackets == 0 ==> Fed(d, m).list == []
  {
    if m > 0 {
      assert ResultAt(d, m - 1) == NextPacket;
    }
  }

  /** The shorter prefix carries no more than the longer one. */
  lemma BodyOfPrefix(ps: seq<Packet>, m: nat)
    requires 0 < m <= |ps|
    ensures |Body(ps[..m - 1])| <= |Body(ps[..m])|
  {
    assert ps[..m] == ps[..m - 1] + [ps[m - 1]];
    BodyAppend(ps[..m - 1], ps[m - 1]);
  }

  /** A message delivered whole and in order behind packets that left the reader open completes if and only if
      it fits together with everything delivered before. */
  lemma RestartedCompletesIff(pre: seq<Packet>, ps: seq<Packet>)
    requires IsMessage(ps) && |ps| < U64 && ps[0].h.seqNo < U16 && StillOpen(pre, |pre|)
    ensures pre + ps != []
    ensures Completes(pre + ps) <==> |Body(pre)| + |Body(ps)| <= CONFIG_MAX_REQUEST_SIZE
    ensures Completes(pre + ps) ==> Fed(pre + ps, |pre| + |ps|).list == ps
  {
    hide Body, Put, IsMessage, Fed, ResultAt;
    NotNothing(ps);
    var n := |ps|;
    assert ps[..n] == ps;
    if |Body(pre)| + |Body(ps[..n - 1])| <= CONFIG_MAX_REQUEST_SIZE {
      FedBehind(pre, ps, n);
    } else {
      BodyOfPrefix(ps, n);
      FailsBefore(pre, ps, n - 1);
    }
  }

  lemma NotNothing(ps: seq<Packet>)
    requires IsMessage(ps)
    ensures ps != []
  {
  }

  lemma {:induction false} FailsBefore(pre: seq<Packet>, ps: seq<Packet>, m: nat)
    requires IsMessage(ps) && |ps| < U64 && ps[0].h.seqNo < U16 && m < |ps| && StillOpen(pre, |pre|)
    requires |Body(pre)| + |Body(ps[..m])| > CONFIG_MAX_REQUEST_SIZE
    ensures !StillOpen(pre + ps, |pre| + |ps| - 1)
    decreases m
  {
    hide Body, Put, IsMessage, Fed, ResultAt;
    if m == 0 {
      NothingHeld();
      assert ps[..0] == [];
      OpenFits(pre, |pre|);
    } else if |Body(pre)| + |Body(ps[..m - 1])| <= CONFIG_MAX_REQUEST_SIZE {
      FedBehind(pre, ps, m);
      assert ResultAt(pre + ps, |pre| + m - 1) == Failed;
    } else {
      FailsBefore(pre, ps, m - 1);
    }
  }

  /** What leaves the reader open fits the request buffer. */
  lemma OpenFits(d: seq<Packet>, m: nat)
    requires m == |d| && StillOpen(d, m)
    ensures |Body(d)| <= CONFIG_MAX_REQUEST_SIZE
  {
    hide Body;
    CountsAllDelivered(d, m);
    assert d[..m] == d;
    if m > 0 {
      assert ResultAt(d, m - 1) == NextPacket;
    }
  }

  /** A message of n packets that all carry as many bytes. */
  function EvenMessage(n: nat, cb: nat): (ps: seq<Packet>)
    ensures |ps| == n
    ensures forall i | 0 <= i < n :: ps[i].h == LongHeader(i, n) && |ps[i].payload| == cb
  {
    seq(n, i requires i >= 0 => Packet(LongHeader(i, n), seq(cb, _ => 0)))
  }

  lemma {:induction false} EvenBody(ps: seq<Packet>, cb: nat)
    requires forall i | 0 <= i < |ps| :: |ps[i].payload| == cb
    ensures |Body(ps)| == cb * |ps|
  {
    if ps != [] {
      Distribute(cb, |ps| - 1, 1);
      EvenBody(ps[..|ps| - 1], cb);
    }
  }

  /** 716 full packets fit the request buffer; with the first one delivered twice they are refused. */
  lemma RepeatedFirstPacketFails()
    ensures var ps := EvenMessage(716, 1464);
      && IsMessage(ps) && |Body(ps)| <= CONFIG_MAX_REQUEST_SIZE
      && Completes(ps) && !Completes([ps[0]] + ps)
  {
    hide Body, EvenMessage;
    var ps := EvenMessage(716, 1464);
    SeqAtZero(0);
    forall i | 0 <= i < 716 ensures Framed(ps[i], ps[0].h, i, 716) {
    }
    EvenBody(ps, 1464);
    NothingHeld();
    RestartedCompletesIff([], ps);
    assert [] + ps == ps;
    EvenBody([ps[0]], 1464);
    RestartBehind(NEW_READER, ps);
    assert Fed([ps[0]], 0) == NEW_READER && ResultAt([ps[0]], 0) == NextPacket;
    RestartedCompletesIff([ps[0]], ps);
  }

  // ----- the bound is sharp

  function LongHeader(i: nat, n: nat): Header {
    Header(1, SeqAt(0, i), 1, if i == 0 then n else 0, false, i == 0, i == n - 1)
  }

  /** A message of n packets of which only packet 1 carries anything. */
  function LongMessage(n: nat): (ps: seq<Packet>)
    ensures |ps| == n
    ensures forall i | 0 <= i < n :: ps[i] == Packet(LongHeader(i, n), if i == 1 then [7] else [])
  {
    seq(n, i requires i >= 0 => Packet(LongHeader(i, n), if i == 1 then [7] else []))
  }

  lemma {:induction false} AllEmpty(ps: seq<Packet>)
    requires forall i | 0 <= i < |ps| :: ps[i].payload == []
    ensures Body(ps) == []
  {
    if ps != [] {
      AllEmpty(ps[..|ps| - 1]);
    }
  }

  /** A longer message, with packet 65537 delivered in the place of packet 1: the reader reports
      COMPLETE and its body is not the message's. */
  lemma TooLongMessageIsUnsafe(n: nat)
    requires SAFE_PACKETS < n < MAX_PACKETS
    ensures var ps := LongMessage(n); var d := ps[1 := ps[65537]];
      && IsMessage(ps) && DeliveryOf(d, ps)
      && StillOpen(d, n - 1) && ResultAt(d, n - 1) == Complete
      && Body(Fed(d, n).list) != Body(ps)
  {
    hide Body, Fed, Put;
    var ps := LongMessage(n);
    var d := ps[1 := ps[65537]];
    SeqAtZero(0);
    forall i | 0 <= i < n ensures Framed(ps[i], ps[0].h, i, n) {
    }
    forall i | 0 <= i < n ensures Framed(d[i], ps[0].h, i, n) && d[i].payload == [] && d[i] in ps {
      if i == 1 {
        assert ps[65537] in ps;
        assert SeqAt(0, 65537) == SeqAt(0, 1);
      } else {
        assert d[i] == ps[i];
      }
    }
    AllEmpty(d);
    PlausibleIsTaken(d, ps[0].h, n, n);
    assert d[..n] == d;
    SomethingCarried(ps, 1);
  }

  /** Whatever is delivered of whatever message of n packets, COMPLETE means the message's body. */
  ghost predicate SafeLength(n: nat) {
    forall ps, d | |ps| == n && IsMessage(ps) && d != [] && DeliveryOf(d, ps) && Completes(d) ::
      Body(Fed(d, |d|).list) == Body(ps)
  }

  ghost predicate Completes(d: seq<Packet>)
    requires d != []
  {
    StillOpen(d, |d| - 1) && ResultAt(d, |d| - 1) == Complete
  }

  /** The reader is safe for the lengths up to 65538 and for no others that the header can announce. */
  lemma SafeLengthIff(n: nat)
    requires 0 < n < MAX_PACKETS
    ensures SafeLength(n) <==> n <= SAFE_PACKETS
  {
    hide IsMessage, DeliveryOf, Body, Fed, ResultAt, StillOpen, LongMessage;
    if n <= SAFE_PACKETS {
      forall ps, d | |ps| == n && IsMessage(ps) && d != [] && DeliveryOf(d, ps) && Completes(d)
        ensures Body(Fed(d, |d|).list) == Body(ps)
      {
        HostileDelivery(d, ps);
      }
    } else {
      TooLongMessageIsUnsafe(n);
      LongLength(n);
      var ps := LongMessage(n);
      var d := ps[1 := ps[65537]];
      assert |ps| == n && d != [] && Completes(d);
    }
  }

  lemma LongLength(n: nat)
    ensures |LongMessage(n)| == n
  {
  }

  lemma {:induction false} SomethingCarried(ps: seq<Packet>, i: nat)
    requires i < |ps| && ps[i].payload != []
    ensures Body(ps) != []
    decreases |ps|
  {
    if i < |ps| - 1 {
      SomethingCarried(ps[..|ps| - 1], i);
    }
  }
}
