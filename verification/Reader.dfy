/** PacketReader: reassembles one message from the packets delivered to it. */
module ReaderModel {
  import opened Base
  import opened Packets

  datatype Result = NextPacket | Failed | Complete

  /** The reader's fields. Before the first packet only cPackets, list and cbSize mean anything. */
  datatype ReaderState = ReaderState(cPackets: nat, list: seq<Packet>, cbSize: nat,
                                     nextSeq: nat, packetsLeft: nat, rid: nat, cmd: nat, isAsync: bool)

  const NEW_READER := ReaderState(0, [], 0, 0, 0, 0, 0, false)

  /** Takes the packet into the list and decides how the message stands. */
  function Accept(s: ReaderState, p: Packet): (ReaderState, Result) {
    var s' := s.(list := s.list + [p], cbSize := s.cbSize + |p.payload|);
    (s',
     if s'.cbSize > CONFIG_MAX_REQUEST_SIZE then Failed
     else if p.h.last then (if s'.packetsLeft != 0 then Failed else Complete)
     else if s'.packetsLeft == 0 then Failed
     else NextPacket)
  }

  /** PacketReader::put. A first packet restarts the message but does not reset the byte count. */
  function Put(s: ReaderState, p: Packet): (ReaderState, Result) {
    var s0 := if p.h.first && s.cPackets > 0 then s.(list := [], cPackets := 0) else s;
    if s0.cPackets == 0 then
      if !p.h.first then (s0.(cPackets := 1), Failed)
      else
        Accept(s0.(cPackets := 1, rid := p.h.rid, nextSeq := (p.h.seqNo + 1) % U16,
                   packetsLeft := Wrap64(p.h.packets - 1), isAsync := p.h.isAsync, cmd := p.h.cmd), p)
    else if s0.nextSeq != p.h.seqNo then (s0, Failed)
    else Accept(s0.(nextSeq := (s0.nextSeq + 1) % U16, packetsLeft := Wrap64(s0.packetsLeft - 1)), p)
  }

  class PacketReader {
    var cPackets: nat
    var list: seq<Packet>     // m_head .. m_tail
    var cbSize: nat
    var nextSeq: nat
    var packetsLeft: nat
    var rid: nat
    var cmd: nat
    var isAsync: bool

    ghost function State(): ReaderState
      reads this
    {
      ReaderState(cPackets, list, cbSize, nextSeq, packetsLeft, rid, cmd, isAsync)
    }

    constructor ()
      ensures State() == NEW_READER
    {
      cPackets, list, cbSize := 0, [], 0;
      nextSeq, packetsLeft, rid, cmd, isAsync := 0, 0, 0, 0, false;
    }

    method PutPacket(packet: Packet) returns (r: Result)
      modifies this
      ensures (State(), r) == Put(old(State()), packet)
    {
      var header := packet.h;
      if header.first && cPackets > 0 {
        list := [];
        cPackets := 0;
      }
      if cPackets == 0 {
        cPackets := cPackets + 1;
        if !header.first {
          return Failed;
        }
        rid := header.rid;
        nextSeq := (header.seqNo + 1) % U16;
        packetsLeft := Wrap64(header.packets - 1);
        isAsync := header.isAsync;
        cmd := header.cmd;
      } else {
        if nextSeq != header.seqNo {
          return Failed;
        }
        nextSeq := (nextSeq + 1) % U16;
        packetsLeft := Wrap64(packetsLeft - 1);
      }
      list := list + [packet];
      cbSize := cbSize + |packet.payload|;
      if cbSize > CONFIG_MAX_REQUEST_SIZE {
        return Failed;
      }
      if header.last {
        if packetsLeft != 0 {
          return Failed;
        }
        return Complete;
      } else if packetsLeft == 0 {
        return Failed;
      }
      return NextPacket;
    }

    /** Copies the held payloads one after the other; -1 as soon as one does not fit. */
    method CopyToBuffer(buffer: array<Byte>) returns (n: int)
      requires list != []
      modifies this, buffer
      ensures n == -1 <==> |Body(old(list))| > buffer.Length
      ensures n != -1 ==> n == |Body(old(list))| && buffer[..n] == Body(old(list)) && list == []
    {
      ghost var all := list;
      var packet := 0;
      var cbSize := 0;
      assert all[..0] == [];
      while packet < |list|
        invariant list == all && 0 <= packet <= |all|
        invariant cbSize == |Body(all[..packet])| <= buffer.Length
        invariant buffer[..cbSize] == Body(all[..packet])
        modifies buffer
      {
        var payload := list[packet].payload;
        BodyAppend(all[..packet], all[packet]);
        assert all[..packet + 1] == all[..packet] + [all[packet]];
        if cbSize + |payload| > buffer.Length {
          PrefixIsShorter(all, packet + 1);
          return -1;
        }
        forall k | 0 <= k < |payload| {
          buffer[cbSize + k] := payload[k];
        }
        assert buffer[..cbSize + |payload|] == Body(all[..packet]) + payload;
        cbSize := cbSize + |payload|;
        packet := packet + 1;
      }
      assert all[..|all|] == all;
      list := [];
      n := cbSize;
    }
  }

  /** What the reader holds in the middle of a message. */
  ghost predicate Chained(list: seq<Packet>) {
    && list != []
    && (forall i | 0 <= i < |list| :: (list[i].h.first <==> i == 0) && list[i].h.seqNo == SeqAt(list[0].h.seqNo, i))
  }

  ghost predicate Holding(s: ReaderState) {
    && s.cPackets == 1
    && Chained(s.list)
    && NoLast(s.list)
    && s.list[0].h.seqNo < U16
    && s.nextSeq == SeqAt(s.list[0].h.seqNo, |s.list|)
    && s.packetsLeft == Wrap64(s.list[0].h.packets - |s.list|)
    && s.rid == s.list[0].h.rid && s.cmd == s.list[0].h.cmd && s.isAsync == s.list[0].h.isAsync
    && |Body(s.list)| <= s.cbSize <= CONFIG_MAX_REQUEST_SIZE
  }

  /** A reader that is still being fed: new, or in the middle of a message. */
  ghost predicate Open(s: ReaderState) {
    (s.cPackets == 0 && s.list == [] && s.cbSize == 0) || Holding(s)
  }

  /** What put calls COMPLETE: a chain from a first to a last packet, as long as the first one says, that fits the
      buffer. */
  ghost predicate Whole(s: ReaderState) {
    && Chained(s.list)
    && LastAtEnd(s.list)
    && Wrap64(s.list[0].h.packets - |s.list|) == 0
    && s.rid == s.list[0].h.rid && s.cmd == s.list[0].h.cmd && s.isAsync == s.list[0].h.isAsync
    && |Body(s.list)| <= CONFIG_MAX_REQUEST_SIZE
  }

  /** Short of 2^64 packets, a whole message has exactly the announced number of them. */
  lemma WholeLength(s: ReaderState)
    requires Whole(s) && |s.list| < U64 && s.list[0].h.packets < U64
    ensures |s.list| == s.list[0].h.packets
  {
  }

  lemma WrapPredecessor(a: int, n: nat)
    ensures Wrap64(Wrap64(a - n) - 1) == Wrap64(a - (n + 1))
  {
    WrapAdd(a - n, -1);
  }

  ghost predicate NoLast(list: seq<Packet>) {
    forall i | 0 <= i < |list| :: !list[i].h.last
  }

  ghost predicate LastAtEnd(list: seq<Packet>) {
    forall i | 0 <= i < |list| :: list[i].h.last <==> i == |list| - 1
  }

  lemma ChainStarts(p: Packet)
    requires p.h.first && p.h.seqNo < U16
    ensures Chained([p]) && (p.h.last ==> LastAtEnd([p])) && (!p.h.last ==> NoLast([p]))
    ensures Body([p]) == p.payload && SeqAt(p.h.seqNo, 1) == (p.h.seqNo + 1) % U16
  {
    BodyAppend([], p);
    assert [] + [p] == [p];
  }

  lemma ChainGrows(list: seq<Packet>, p: Packet)
    requires Chained(list) && NoLast(list) && list[0].h.seqNo < U16
    requires !p.h.first && p.h.seqNo == SeqAt(list[0].h.seqNo, |list|)
    ensures Chained(list + [p]) && (p.h.last ==> LastAtEnd(list + [p])) && (!p.h.last ==> NoLast(list + [p]))
    ensures Body(list + [p]) == Body(list) + p.payload
    ensures SeqAt(list[0].h.seqNo, |list| + 1) == (p.h.seqNo + 1) % U16
  {
    hide SeqAt, Body;
    BodyAppend(list, p);
    SeqStep(list[0].h.seqNo, |list|);
  }

  /** COMPLETE is exact, and the invariant of a fed reader is kept, for packets from anywhere. */
  lemma PutOutcome(s: ReaderState, p: Packet)
    requires Open(s) && p.h.seqNo < U16
    ensures var (s', r) := Put(s, p);
      && (r == NextPacket ==> Holding(s'))
      && (r == Complete ==> Whole(s'))
      && (r != Failed ==> s'.list == if p.h.first then [p] else s.list + [p])
      && (r != Failed ==> s'.cbSize == s.cbSize + |p.payload|)
  {
    hide SeqAt, Wrap64, Body, Chained, NoLast, LastAtEnd;
    if p.h.first {
      ChainStarts(p);
      assert [] + [p] == [p];
    } else if s.cPackets > 0 && s.nextSeq == p.h.seqNo {
      NotEmpty(s);
      ChainGrows(s.list, p);
      WrapPredecessor(s.list[0].h.packets, |s.list|);
    }
  }

  lemma NotEmpty(s: ReaderState)
    requires Chained(s.list)
    ensures s.list != []
  {
  }

  /** The reader after the first m packets of a delivery. */
  function Fed(d: seq<Packet>, m: nat): ReaderState
    requires m <= |d|
  {
    if m == 0 then NEW_READER else Put(Fed(d, m - 1), d[m - 1]).0
  }

  function ResultAt(d: seq<Packet>, m: nat): Result
    requires m < |d|
  {
    Put(Fed(d, m), d[m]).1
  }

  /** The reader asks for another packet after each of the first m. */
  ghost predicate StillOpen(d: seq<Packet>, m: nat)
    requires m <= |d|
  {
    forall i | 0 <= i < m :: ResultAt(d, i) == NextPacket
  }

  lemma {:induction false} FedIsOpen(d: seq<Packet>, m: nat)
    requires m <= |d| && StillOpen(d, m) && forall i | 0 <= i < m :: d[i].h.seqNo < U16
    ensures Open(Fed(d, m))
    decreases m
  {
    hide Put, Open, Holding, Whole;
    if m == 0 {
      NewIsOpen();
    } else {
      FedIsOpen(d, m - 1);
      assert ResultAt(d, m - 1) == NextPacket;
      PutOutcome(Fed(d, m - 1), d[m - 1]);
      HoldingIsOpen(Fed(d, m));
    }
  }

  lemma NewIsOpen()
    ensures Open(NEW_READER)
  {
  }

  lemma HoldingIsOpen(s: ReaderState)
    requires Holding(s)
    ensures Open(s)
  {
  }

  /** The byte count is exactly the payload of everything delivered, restarts or not. */
  lemma {:induction false} CountsAllDelivered(d: seq<Packet>, m: nat)
    requires m <= |d| && StillOpen(d, m)
    ensures Fed(d, m).cbSize == |Body(d[..m])|
    decreases m
  {
    hide Body, Accept;
    if m == 0 {
      assert d[..0] == [];
      NothingHeld();
    } else {
      assert ResultAt(d, m - 1) == NextPacket;
      CountsAllDelivered(d, m - 1);
      CountsOne(Fed(d, m - 1), d[m - 1]);
      assert d[..m] == d[..m - 1] + [d[m - 1]];
      BodyAppend(d[..m - 1], d[m - 1]);
    }
  }

  lemma NothingHeld()
    ensures Body([]) == []
  {
  }

  lemma CountsOne(s: ReaderState, p: Packet)
    requires Put(s, p).1 != Failed
    ensures Put(s, p).0.cbSize == s.cbSize + |p.payload|
  {
  }

  /** The held list is the part of the delivery that starts at its latest first packet. */
  lemma {:induction false} HeldSinceLatestFirst(d: seq<Packet>, m: nat) returns (k: nat)
    requires 0 < m <= |d| && StillOpen(d, m - 1) && ResultAt(d, m - 1) != Failed
    requires forall i | 0 <= i < m :: d[i].h.seqNo < U16
    ensures k < m && d[k].h.first && (forall i | k < i < m :: !d[i].h.first)
    ensures Fed(d, m).list == d[k..m]
    decreases m
  {
    hide Put, Open, Holding, Whole;
    FedIsOpen(d, m - 1);
    PutOutcome(Fed(d, m - 1), d[m - 1]);
    if d[m - 1].h.first {
      k := m - 1;
      assert d[m - 1..m] == [d[m - 1]];
    } else {
      FirstOpens(d, m);
      assert ResultAt(d, m - 2) == NextPacket;
      k := HeldSinceLatestFirst(d, m - 1);
      assert d[k..m] == d[k..m - 1] + [d[m - 1]];
    }
  }

  lemma FirstOpens(d: seq<Packet>, m: nat)
    requires 0 < m <= |d| && ResultAt(d, m - 1) != Failed && !d[m - 1].h.first
    ensures m > 1
  {
  }
}
