/** PacketWriter: cuts written bytes into packets. */
module WriterModel {
  import opened Base
  import opened Arithmetic
  import opened Packets

  /** The n least significant bytes of v, least significant first. */
  function LittleEndian(n: nat, v: nat): (r: Bytes)
    ensures |r| == n
  {
    if n == 0 then [] else [(v % 256) as Byte] + LittleEndian(n - 1, v / 256)
  }

  class PacketWriter {
    const capacity: nat        // payload bytes per packet
    const cmd: nat
    const rid: nat
    const isAsync: bool
    ghost const firstSeq: nat
    var list: seq<Packet>      // m_head .. m_tail; the tail's payload is what has been written to it so far
    var offset: nat            // m_offset - m_start
    var seqNo: nat             // m_seq, the next sequence number
    var packets: nat           // m_packets

    ghost predicate Valid()
      reads this
    {
      && capacity >= 8
      && list != [] && packets == |list|
      && offset == |list[|list| - 1].payload| <= capacity
      && firstSeq < U16 && seqNo == SeqAt(firstSeq, |list|)
      && AllCut(list) && FullButLast(list)
    }

    /** Packet i of the message being written. */
    ghost predicate Cut(p: Packet, i: nat) {
      p.h == Header(rid, SeqAt(firstSeq, i), cmd, 0, isAsync, i == 0, false) && |p.payload| <= capacity
    }

    ghost predicate AllCut(ps: seq<Packet>) {
      forall i | 0 <= i < |ps| :: Cut(ps[i], i)
    }

    /** A packet is left for the next one only when fewer than eight bytes are free in it. */
    ghost predicate FullButLast(ps: seq<Packet>) {
      forall i | 0 <= i < |ps| - 1 :: |ps[i].payload| > capacity - 8
    }

    constructor (cmd: nat, rid: nat, isAsync: bool, seed: nat, capacity: nat)
      requires capacity >= 8 && seed < U16
      ensures Valid() && Body(list) == []
      ensures this.cmd == cmd && this.rid == rid && this.isAsync == isAsync
      ensures this.capacity == capacity && firstSeq == seed
    {
      this.capacity, this.cmd, this.rid, this.isAsync, firstSeq := capacity, cmd, rid, isAsync, seed;
      list, offset, seqNo, packets := [], 0, seed, 0;
      new;
      SeqStep(firstSeq, 0);
      PreparePacket();
    }

    method PreparePacket()
      requires capacity >= 8 && packets == |list|
      requires firstSeq < U16 && seqNo == SeqAt(firstSeq, |list|) && AllCut(list) && FullButLast(list)
      requires list != [] ==> |list[|list| - 1].payload| > capacity - 8
      modifies this
      ensures Valid() && offset == 0 && Body(list) == old(Body(list)) && |list| == old(|list|) + 1
    {
      hide SeqAt, Body;
      SeqStep(firstSeq, |list|);
      packets := packets + 1;
      var packet := Packet(Header(rid, seqNo, cmd, 0, isAsync, list == [], false), []);
      seqNo := (seqNo + 1) % U16;
      BodyAppend(list, packet);
      list := list + [packet];
      offset := 0;
    }

    method EnsureSmallSpace(sz: nat)
      requires Valid() && sz <= 8
      modifies this
      ensures Valid() && Body(list) == old(Body(list)) && capacity - offset >= sz
    {
      if capacity - offset >= sz {
        return;
      }
      PreparePacket();
    }

    /** memcpy to m_offset, then m_offset advances. */
    method Put(data: Bytes)
      requires Valid() && offset + |data| <= capacity
      modifies this
      ensures Valid() && Body(list) == old(Body(list)) + data && offset == old(offset) + |data|
    {
      hide SeqAt, Body;
      ghost var front, tail := list[..|list| - 1], list[|list| - 1];
      var tail' := list[|list| - 1].(payload := list[|list| - 1].payload + data);
      BodyAppend(front, tail');
      BodyAppend(front, tail);
      assert list == front + [tail];
      list := list[..|list| - 1] + [tail'];
      offset := offset + |data|;
    }

    /** Byte blocks are split over as many packets as they need. */
    method WriteBytes(data: Bytes)
      requires Valid()
      modifies this
      ensures Valid() && Body(list) == old(Body(list)) + data
    {
      hide SeqAt, Body, AllCut;
      var bytesLeft := |data|;
      while bytesLeft != 0
        invariant Valid() && 0 <= bytesLeft <= |data|
        invariant Body(list) == old(Body(list)) + data[..|data| - bytesLeft]
      {
        var bytesToCopy := bytesLeft;
        if capacity - offset == 0 {
          PreparePacket();
        }
        if bytesToCopy > capacity - offset {
          bytesToCopy := capacity - offset;
        }
        var from := |data| - bytesLeft;
        assert data[..from] + data[from..from + bytesToCopy] == data[..from + bytesToCopy];
        Put(data[from..from + bytesToCopy]);
        bytesLeft := bytesLeft - bytesToCopy;
      }
      assert data[..|data|] == data;
    }

    /** Integers of one, four or eight bytes are never split. */
    method WriteInt(n: nat, value: nat)
      requires Valid() && n <= 8
      modifies this
      ensures Valid() && Body(list) == old(Body(list)) + LittleEndian(n, value)
    {
      EnsureSmallSpace(n);
      Put(LittleEndian(n, value));
    }

    /** The destructor asserts that nothing is left unsent. */
    method Destroy() returns (ok: bool)
      ensures ok <==> list == []
    {
      ok := list == [];
    }

    /** The last eight bytes of every packet's room stay unused if and only if they would in a message of one packet. */
    lemma SlackIff(ps: seq<Packet>)
      requires capacity >= 8 && ps != [] && FullButLast(ps)
      ensures (forall i | 0 <= i < |ps| :: |ps[i].payload| <= capacity - 8) <==> |Body(ps)| <= capacity - 8
    {
      OnePacket(ps[..1]);
      PrefixIsShorter(ps, 1);
      if |ps| == 1 {
        assert ps[..1] == ps;
      }
    }

    /** Full packets carry a message in few of them. */
    lemma FewPackets(ps: seq<Packet>)
      requires capacity >= 8 && ps != [] && FullButLast(ps)
      ensures (capacity - 7) * (|ps| - 1) <= |Body(ps)|
    {
      AllFull(ps[..|ps| - 1]);
    }

    lemma {:induction false} AllFull(ps: seq<Packet>)
      requires capacity >= 8 && forall i | 0 <= i < |ps| :: |ps[i].payload| > capacity - 8
      ensures (capacity - 7) * |ps| <= |Body(ps)|
    {
      if ps != [] {
        Distribute(capacity - 7, |ps| - 1, 1);
        AllFull(ps[..|ps| - 1]);
      }
    }

    lemma OnePacket(ps: seq<Packet>)
      requires |ps| == 1
      ensures Body(ps) == ps[0].payload
    {
      assert ps[..0] == [];
    }

    lemma Stamped(was: seq<Packet>, now: seq<Packet>)
      requires was != [] && AllCut(was) && firstSeq < U16
      requires var tail := |was| - 1;
        var marked := was[tail := was[tail].(h := was[tail].h.(last := true))];
        now == marked[0 := marked[0].(h := marked[0].h.(packets := |was| % MAX_PACKETS))]
      ensures Body(now) == Body(was) && |now| == |was| && (FullButLast(was) ==> FullButLast(now))
      ensures forall i | 0 <= i < |now| :: |now[i].payload| <= capacity && now[i].h.rid == rid
      ensures now[0].h.cmd == cmd && now[0].h.isAsync == isAsync && now[0].h.seqNo == firstSeq
      ensures |now| < MAX_PACKETS ==> IsMessage(now)
    {
      hide SeqAt;
      SeqStep(firstSeq, 0);
      assert Cut(was[0], 0);
      forall i | 0 <= i < |now|
        ensures now[i].payload == was[i].payload && |now[i].payload| <= capacity
        ensures Framed(now[i], now[0].h, i, |now|) && now[i].h.rid == rid
      {
        assert Cut(was[i], i);
      }
      BodyOfPayloads(now, was);
    }

    /** Marks the last packet, stamps the count into the first, and sends them all in order. */
    method Send() returns (sent: seq<Packet>)
      requires Valid()
      modifies this
      ensures list == []
      ensures |sent| == old(|list|) && Body(sent) == old(Body(list))
      ensures |sent| < MAX_PACKETS ==> IsMessage(sent)
      ensures (forall i | 0 <= i < |sent| :: |sent[i].payload| <= capacity - 8) <==> |Body(sent)| <= capacity - 8
      ensures (capacity - 7) * (|sent| - 1) <= |Body(sent)|
      ensures forall i | 0 <= i < |sent| :: |sent[i].payload| <= capacity && sent[i].h.rid == rid
      ensures sent[0].h.cmd == cmd && sent[0].h.isAsync == isAsync && sent[0].h.seqNo == firstSeq
    {
      hide SeqAt, Body;
      SeqStep(firstSeq, 0);
      var tail := |list| - 1;
      list := list[tail := list[tail].(h := list[tail].h.(last := true))];
      list := list[0 := list[0].(h := list[0].h.(packets := packets % MAX_PACKETS))];
      Stamped(old(list), list);
      ghost var all := list;
      SlackIff(all);
      FewPackets(all);
      sent := [];
      while list != []
        invariant sent + list == all
        decreases |list|
      {
        sent := sent + [list[0]];
        list := list[1..];
      }
      assert sent == all;
    }
  }
}
