/** Server::rxThread: packets of many senders, interleaved, are sorted into one reader per
    node id; a reader that completes is posted, one that completes or fails is forgotten. */
module Demux {
  import opened Base
  import opened Packets
  import opened ReaderModel
  import opened Reassembly

  type NodeId = nat

  /** Address, port and request id in disjoint bit fields of one 64-bit word, where or-ing is adding. */
  function NodeIdOf(addr: nat, port: nat, rid: nat): (id: NodeId)
    ensures addr < U32 && port < U16 && rid < U16 ==> id < U64
  {
    addr * U32 + port * U16 + rid
  }

  lemma NodeIdInjective(a: nat, p: nat, r: nat, a': nat, p': nat, r': nat)
    requires a < U32 && p < U16 && r < U16 && a' < U32 && p' < U16 && r' < U16
    ensures NodeIdOf(a, p, r) == NodeIdOf(a', p', r') <==> a == a' && p == p' && r == r'
  {
    if NodeIdOf(a, p, r) == NodeIdOf(a', p', r') {
      FieldsApart(a * U16 + p, r, a' * U16 + p', r');
      FieldsApart(a, p, a', p');
    }
  }

  lemma FieldsApart(hi: nat, lo: nat, hi': nat, lo': nat)
    requires lo < U16 && lo' < U16 && hi * U16 + lo == hi' * U16 + lo'
    ensures hi == hi' && lo == lo'
  {
  }

  /** A packet as it arrives, with the address and port it comes from. */
  datatype Arrival = Arrival(addr: nat, port: nat, packet: Packet) {
    function Node(): NodeId {
      NodeIdOf(addr, port, packet.h.rid)
    }

    /** All three are machine words. */
    predicate InWords() {
      addr < U32 && port < U16 && packet.h.rid < U16
    }
  }

  /** What is left of one sender's reader, if it has one, and the messages posted for the sender so far. */
  datatype Lone = Lone(reader: Option<ReaderState>, posted: seq<ReaderState>)

  const IDLE := Lone(None, [])

  /** A reader of one sender alone, made anew after each message that completed or failed. */
  function LoneStep(l: Lone, p: Packet): Lone {
    var (s, r) := Put(if l.reader.Some? then l.reader.value else NEW_READER, p);
    match r {
      case NextPacket => Lone(Some(s), l.posted)
      case Complete => Lone(None, l.posted + [s])
      case Failed => Lone(None, l.posted)
    }
  }

  function LoneRun(d: seq<Packet>): Lone {
    if d == [] then IDLE else LoneStep(LoneRun(d[..|d| - 1]), d[|d| - 1])
  }

  /** The packets of one node among the first m arrivals. */
  function From(arrivals: seq<Arrival>, node: NodeId, m: nat): seq<Packet>
    requires m <= |arrivals|
  {
    if m == 0 then []
    else From(arrivals, node, m - 1) + if arrivals[m - 1].Node() == node then [arrivals[m - 1].packet] else []
  }

  datatype Post = Post(node: NodeId, request: ReaderState)

  function PostedFor(posts: seq<Post>, node: NodeId): seq<ReaderState> {
    if posts == [] then []
    else
      var last := posts[|posts| - 1];
      PostedFor(posts[..|posts| - 1], node) + if last.node == node then [last.request] else []
  }

  lemma PostedForAppend(posts: seq<Post>, p: Post, node: NodeId)
    ensures PostedFor(posts + [p], node) == PostedFor(posts, node) + if p.node == node then [p.request] else []
  {
    assert (posts + [p])[..|posts|] == posts;
  }

  lemma LoneRunAppend(d: seq<Packet>, p: Packet)
    ensures LoneRun(d + [p]) == LoneStep(LoneRun(d), p)
  {
    assert (d + [p])[..|d|] == d;
  }

  // ----- what must be posted, and what must be forgotten

  /** A lone reader that has one behaves like a reader fed with what came since it was made. */
  lemma {:induction false} LoneIsFed(d: seq<Packet>, e: seq<Packet>)
    requires LoneRun(d).reader.None? && StillOpen(e, |e|)
    ensures LoneRun(d + e) == if e == [] then LoneRun(d) else Lone(Some(Fed(e, |e|)), LoneRun(d).posted)
  {
    hide Put;
    if e == [] {
      assert d + [] == d;
    } else {
      var n := |e| - 1;
      var front := e[..n];
      assert front + e[n..] == e;
      forall i | 0 <= i < n ensures ResultAt(front, i) == NextPacket {
        FedPrefix(front, e[n..], i);
        assert ResultAt(e, i) == NextPacket;
      }
      FedPrefix(front, e[n..], n);
      LoneIsFed(d, front);
      assert d + e == (d + front) + [e[n]];
      LoneRunAppend(d + front, e[n]);
      assert ResultAt(e, n) == NextPacket;
    }
  }

  /** Once a node has no reader, a message of its own, whole and in order, is posted: exactly once, as it was sent,
      and the node has no reader again. */
  lemma WholeMessageIsPosted(d: seq<Packet>, ps: seq<Packet>)
    requires LoneRun(d).reader.None?
    requires IsMessage(ps) && |ps| < U64 && ps[0].h.seqNo < U16 && |Body(ps)| <= CONFIG_MAX_REQUEST_SIZE
    ensures var l := LoneRun(d + ps);
      && l.reader.None? && |l.posted| == |LoneRun(d).posted| + 1
      && l.posted[..|LoneRun(d).posted|] == LoneRun(d).posted
      && IsRequest(l.posted[|LoneRun(d).posted|], ps)
  {
    hide Put, IsMessage, Body, Fed;
    NotNothing(ps);
    LosslessDelivery(ps);
    var n := |ps| - 1;
    var front := ps[..n];
    assert front + ps[n..] == ps && d + ps == (d + front) + [ps[n]];
    forall i | 0 <= i < n ensures ResultAt(front, i) == NextPacket {
      FedPrefix(front, ps[n..], i);
      assert ResultAt(ps, i) == NextPacket;
    }
    FedPrefix(front, ps[n..], n);
    LoneIsFed(d, front);
    LoneRunAppend(d + front, ps[n]);
    LastPut(ps);
    NoneFed();
    LosslessHeader(ps);
  }

  lemma NoneFed()
    ensures Fed([], 0) == NEW_READER
  {
  }

  /** The request holds the message and knows its id, command and flag. */
  ghost predicate IsRequest(s: ReaderState, ps: seq<Packet>) {
    && ps != [] && s.list == ps
    && s.rid == ps[0].h.rid && s.cmd == ps[0].h.cmd && s.isAsync == ps[0].h.isAsync
  }

  /** A packet that begins nothing leaves no trace of itself. */
  lemma StrayLeavesNoTrace(d: seq<Packet>, p: Packet)
    requires LoneRun(d).reader.None? && !p.h.first
    ensures LoneRun(d + [p]) == LoneRun(d)
  {
    LoneRunAppend(d, p);
  }

  /** A gap in the sequence makes the node start afresh, with nothing posted. */
  lemma GapForgets(d: seq<Packet>, p: Packet)
    requires LoneRun(d).reader.Some? && LoneRun(d).reader.value.cPackets > 0
    requires !p.h.first && p.h.seqNo != LoneRun(d).reader.value.nextSeq
    ensures LoneRun(d + [p]) == Lone(None, LoneRun(d).posted)
  {
    LoneRunAppend(d, p);
  }

  /** So does any other failure: the reader is deleted, and what it held is not posted. */
  lemma FailureForgets(d: seq<Packet>, p: Packet)
    requires LoneRun(d).reader.Some? && Put(LoneRun(d).reader.value, p).1 == Failed
    ensures LoneRun(d + [p]) == Lone(None, LoneRun(d).posted)
  {
    LoneRunAppend(d, p);
  }

  /** All the packets of some messages, one message after the other. */
  function Joined(ms: seq<seq<Packet>>): seq<Packet> {
    if ms == [] then [] else Joined(ms[..|ms| - 1]) + ms[|ms| - 1]
  }

  /** Messages sent one after the other, whole and in order, are all posted, in this order. */
  lemma {:induction false} MessagesArePosted(ms: seq<seq<Packet>>)
    requires forall i | 0 <= i < |ms| ::
      && IsMessage(ms[i]) && |ms[i]| < U64 && ms[i][0].h.seqNo < U16
      && |Body(ms[i])| <= CONFIG_MAX_REQUEST_SIZE
    ensures var l := LoneRun(Joined(ms));
      l.reader.None? && |l.posted| == |ms| && forall i | 0 <= i < |ms| :: IsRequest(l.posted[i], ms[i])
  {
    hide IsMessage, Body, LoneStep, IsRequest;
    if ms != [] {
      var n := |ms| - 1;
      MessagesArePosted(ms[..n]);
      WholeMessageIsPosted(Joined(ms[..n]), ms[n]);
      var before, after := LoneRun(Joined(ms[..n])).posted, LoneRun(Joined(ms)).posted;
      assert forall i | 0 <= i < n :: after[i] == after[..n][i] == before[i];
    }
  }

  class RxThread {
    var rmap: map<NodeId, PacketReader>   // m_rmap
    var posted: seq<Post>                 // what has gone to m_rxQueue

    /** Each node has a reader of its own. */
    ghost predicate Valid()
      reads this
    {
      forall n, m | n in rmap && m in rmap && n != m :: rmap[n] != rmap[m]
    }

    ghost function View(node: NodeId): Lone
      reads this, rmap.Values
    {
      Lone(if node in rmap then
             assert rmap[node] in rmap.Values;
             Some(rmap[node].State())
           else None,
           PostedFor(posted, node))
    }

    constructor ()
      ensures Valid() && rmap.Values == {} && forall node :: View(node) == IDLE
    {
      rmap, posted := map[], [];
    }

    /** One pass of the loop: find or make the node's reader, put, and post or drop it. */
    method Receive(a: Arrival)
      requires Valid()
      modifies this, rmap.Values
      ensures Valid() && fresh(rmap.Values - old(rmap.Values))
      ensures View(a.Node()) == LoneStep(old(View(a.Node())), a.packet)
      ensures forall node | node != a.Node() :: View(node) == old(View(node))
    {
      hide Put, NodeIdOf;
      var nodeId := NodeIdOf(a.addr, a.port, a.packet.h.rid);
      var request: PacketReader;
      if nodeId in rmap {
        request := rmap[nodeId];
      } else {
        request := new PacketReader();
        rmap := rmap[nodeId := request];
      }
      var result := request.PutPacket(a.packet);
      match result {
        case NextPacket =>
        case Complete =>
          rmap := rmap - {nodeId};
          forall node ensures PostedFor(posted + [Post(nodeId, request.State())], node) ==
            PostedFor(posted, node) + if nodeId == node then [request.State()] else []
          {
            PostedForAppend(posted, Post(nodeId, request.State()), node);
          }
          posted := posted + [Post(nodeId, ReaderState(request.cPackets, request.list, request.cbSize, request.nextSeq,
                                                       request.packetsLeft, request.rid, request.cmd,
                                                       request.isAsync))];
        case Failed =>
          rmap := rmap - {nodeId};
      }
    }
  }

  lemma NothingFrom(arrivals: seq<Arrival>)
    ensures forall node :: LoneRun(From(arrivals, node, 0)) == IDLE
  {
  }

  lemma OneMoreFrom(arrivals: seq<Arrival>, m: nat)
    requires m < |arrivals|
    ensures forall node ::
      LoneRun(From(arrivals, node, m + 1)) ==
      if arrivals[m].Node() == node then LoneStep(LoneRun(From(arrivals, node, m)), arrivals[m].packet)
      else LoneRun(From(arrivals, node, m))
  {
    hide LoneRun, LoneStep;
    forall node
      ensures LoneRun(From(arrivals, node, m + 1)) ==
        if arrivals[m].Node() == node then LoneStep(LoneRun(From(arrivals, node, m)), arrivals[m].packet)
        else LoneRun(From(arrivals, node, m))
    {
      LoneRunAppend(From(arrivals, node, m), arrivals[m].packet);
      assert From(arrivals, node, m) + [] == From(arrivals, node, m);
    }
  }

  /** The packets one sender has sent under one request id, among the first m arrivals. */
  function Sent(arrivals: seq<Arrival>, addr: nat, port: nat, rid: nat, m: nat): seq<Packet>
    requires m <= |arrivals|
  {
    if m == 0 then []
    else
      var a := arrivals[m - 1];
      Sent(arrivals, addr, port, rid, m - 1) +
      if a.addr == addr && a.port == port && a.packet.h.rid == rid then [a.packet] else []
  }

  /** Node ids keep the streams apart. */
  lemma {:induction false} FromIsSent(arrivals: seq<Arrival>, addr: nat, port: nat, rid: nat, m: nat)
    requires m <= |arrivals| && (forall a | a in arrivals :: a.InWords()) && addr < U32 && port < U16 && rid < U16
    ensures From(arrivals, NodeIdOf(addr, port, rid), m) == Sent(arrivals, addr, port, rid, m)
  {
    hide NodeIdOf;
    if m > 0 {
      var a := arrivals[m - 1];
      assert a in arrivals;
      FromIsSent(arrivals, addr, port, rid, m - 1);
      NodeIdInjective(a.addr, a.port, a.packet.h.rid, addr, port, rid);
    }
  }

  /** The receive loop over any sequence of arrivals: for every address, port and request id, what has been posted and
      the reader that is kept are those of a lone reader fed with that stream's packets only. */
  method RxLoop(arrivals: seq<Arrival>) returns (rx: RxThread)
    requires forall a | a in arrivals :: a.InWords()
    ensures fresh(rx) && rx.Valid()
    ensures forall addr: nat, port: nat, rid: nat | addr < U32 && port < U16 && rid < U16 ::
      rx.View(NodeIdOf(addr, port, rid)) == LoneRun(Sent(arrivals, addr, port, rid, |arrivals|))
  {
    hide LoneStep, LoneRun, From, Sent, NodeIdOf, RxThread.View, RxThread.Valid, PostedFor;
    NothingFrom(arrivals);
    rx := new RxThread();
    for m := 0 to |arrivals|
      invariant fresh(rx) && rx.Valid() && fresh(rx.rmap.Values)
      invariant forall node :: rx.View(node) == LoneRun(From(arrivals, node, m))
    {
      OneMoreFrom(arrivals, m);
      rx.Receive(arrivals[m]);
    }
    forall addr: nat, port: nat, rid: nat | addr < U32 && port < U16 && rid < U16
      ensures rx.View(NodeIdOf(addr, port, rid)) == LoneRun(Sent(arrivals, addr, port, rid, |arrivals|))
    {
      FromIsSent(arrivals, addr, port, rid, |arrivals|);
    }
  }

  /** The receive loop on such streams: what one sender sends as whole messages under one id, in order, is posted for
      it message by message, whatever arrives in between from others. */
  method RxLoopOnMessages(arrivals: seq<Arrival>, ghost addr: nat, ghost port: nat, ghost rid: nat,
                          ghost ms: seq<seq<Packet>>)
    returns (rx: RxThread)
    requires (forall a | a in arrivals :: a.InWords()) && addr < U32 && port < U16 && rid < U16
    requires Sent(arrivals, addr, port, rid, |arrivals|) == Joined(ms)
    requires forall i | 0 <= i < |ms| ::
      && IsMessage(ms[i]) && |ms[i]| < U64 && ms[i][0].h.seqNo < U16
      && |Body(ms[i])| <= CONFIG_MAX_REQUEST_SIZE
    ensures fresh(rx) && rx.Valid()
    ensures var posted := PostedFor(rx.posted, NodeIdOf(addr, port, rid));
      |posted| == |ms| && forall i | 0 <= i < |ms| :: IsRequest(posted[i], ms[i])
  {
    hide LoneRun, Sent, NodeIdOf, PostedFor, IsMessage, Body, IsRequest, Joined, RxThread.Valid;
    MessagesArePosted(ms);
    rx := RxLoop(arrivals);
    assert rx.View(NodeIdOf(addr, port, rid)) == LoneRun(Joined(ms));
  }

  /** If everything a node sent belongs to one message, then whatever was lost, repeated or reordered on
      the way, and whatever other nodes sent meanwhile, each request posted for the node is that message. */
  lemma {:induction false} PostsAreTheMessage(d: seq<Packet>, ps: seq<Packet>)
    requires IsMessage(ps) && |ps| <= SAFE_PACKETS && DeliveryOf(d, ps)
    ensures var l := LoneRun(d);
      && (l.reader.Some? ==> HoldsPrefix(l.reader.value, ps))
      && forall i | 0 <= i < |l.posted| :: l.posted[i].list == ps
  {
    hide Put, IsMessage, HoldsPrefix;
    if d != [] {
      var front, p := d[..|d| - 1], d[|d| - 1];
      PostsAreTheMessage(front, ps);
      var before := LoneRun(front);
      assert p in ps;
      DeliverOne(if before.reader.Some? then before.reader.value else NEW_READER, ps, p);
    }
  }
}
