/** Packets on the wire, and what a well-formed message of several packets is. */
module Packets {
  import opened Base

  const CONFIG_PACKET_SIZE := 1472

  /** sizeof(protocol::Header). */
  const HEADER := 8

  /** The packet count of a header has twenty bits. */
  const MAX_PACKETS := 0x10_0000

  const CONFIG_MAX_REQUEST_SIZE := 0xfffff + 512

  /** protocol::Header: rid and seqNo are 16-bit words, packets a 20-bit field. */
  datatype Header = Header(rid: nat, seqNo: nat, cmd: nat, packets: nat, isAsync: bool, first: bool, last: bool)

  datatype Packet = Packet(h: Header, payload: Bytes)

  /** The bytes carried by a list of packets. */
  function Body(ps: seq<Packet>): Bytes {
    if ps == [] then [] else Body(ps[..|ps| - 1]) + ps[|ps| - 1].payload
  }

  lemma BodyAppend(ps: seq<Packet>, p: Packet)
    ensures Body(ps + [p]) == Body(ps) + p.payload
  {
    assert (ps + [p])[..|ps|] == ps;
  }

  /** The body depends on the payloads alone. */
  lemma {:induction false} BodyOfPayloads(ps: seq<Packet>, qs: seq<Packet>)
    requires |ps| == |qs| && forall i | 0 <= i < |ps| :: ps[i].payload == qs[i].payload
    ensures Body(ps) == Body(qs)
  {
    if ps != [] {
      BodyOfPayloads(ps[..|ps| - 1], qs[..|qs| - 1]);
    }
  }

  lemma {:induction false} PrefixIsShorter(ps: seq<Packet>, i: nat)
    requires i <= |ps|
    ensures |Body(ps[..i])| <= |Body(ps)|
    decreases |ps|
  {
    if i == |ps| {
      assert ps[..i] == ps;
    } else {
      assert ps[..|ps| - 1][..i] == ps[..i];
      PrefixIsShorter(ps[..|ps| - 1], i);
    }
  }

  /** The 16-bit sequence number i places after `start`. */
  function SeqAt(start: nat, i: nat): nat {
    (start + i) % U16
  }

  lemma SeqStep(start: nat, i: nat)
    ensures (SeqAt(start, i) + 1) % U16 == SeqAt(start, i + 1)
    ensures start < U16 ==> SeqAt(start, 0) == start
  {
  }

  /** Framing of packet i of a message of n packets: flags at the two ends, wrapping sequence numbers. */
  predicate Framed(p: Packet, first: Header, i: nat, n: nat) {
    && (p.h.first <==> i == 0)
    && (p.h.last <==> i == n - 1)
    && p.h.seqNo == SeqAt(first.seqNo, i)
  }

  ghost predicate IsMessage(ps: seq<Packet>) {
    && ps != []
    && (forall i | 0 <= i < |ps| :: Framed(ps[i], ps[0].h, i, |ps|))
    && ps[0].h.packets == |ps|
  }
}
