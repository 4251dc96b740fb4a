/** ByteStream: a cursor over a bounded buffer that refuses to run past the end. */
module ByteStreamModel {
  import opened Base
  import opened WriterModel

  /** The number n little-endian bytes stand for. */
  function FromLittleEndian(b: Bytes): nat {
    if b == [] then 0 else b[0] as nat + 256 * FromLittleEndian(b[1..])
  }

  function Pow256(n: nat): nat {
    if n == 0 then 1 else 256 * Pow256(n - 1)
  }

  lemma {:induction false} LittleEndianRoundTrip(n: nat, v: nat)
    requires v < Pow256(n)
    ensures FromLittleEndian(LittleEndian(n, v)) == v
  {
    if n > 0 {
      LittleEndianRoundTrip(n - 1, v / 256);
      assert LittleEndian(n, v)[1..] == LittleEndian(n - 1, v / 256);
    }
  }

  lemma {:induction false} FromLittleEndianBound(b: Bytes)
    ensures FromLittleEndian(b) < Pow256(|b|)
  {
    if b != [] {
      FromLittleEndianBound(b[1..]);
    }
  }

  lemma WordSizes()
    ensures Pow256(1) == 256 && Pow256(4) == U32 && Pow256(8) == U64
  {
    assert Pow256(2) == 0x1_0000;
    assert Pow256(4) == U32;
    assert Pow256(6) == 0x1_0000_0000_0000;
  }

  class ByteStream {
    const buffer: array<Byte>
    const end: nat            // m_end
    var offset: nat           // m_offset

    ghost predicate Valid()
      reads this
    {
      offset <= end <= buffer.Length
    }

    /** What is still to be read. */
    ghost function Rest(): Bytes
      requires Valid()
      reads this, buffer
    {
      buffer[offset..end]
    }

    constructor (buffer: array<Byte>, cbBuffer: nat)
      requires cbBuffer <= buffer.Length
      ensures Valid() && this.buffer == buffer && end == cbBuffer && Rest() == buffer[..cbBuffer]
    {
      this.buffer, end, offset := buffer, cbBuffer, 0;
    }

    /** None is the exception; it is raised exactly when too few bytes are left, and nothing is consumed. */
    method Read(cbBytes: nat) returns (r: Option<Bytes>)
      requires Valid()
      modifies this
      ensures Valid()
      ensures r.None? <==> |old(Rest())| < cbBytes
      ensures r.None? ==> Rest() == old(Rest())
      ensures r.Some? ==> old(Rest()) == r.value + Rest() && |r.value| == cbBytes
    {
      if end - offset < cbBytes {
        return None;
      }
      r := Some(buffer[offset..offset + cbBytes]);
      offset := offset + cbBytes;
    }

    /** readUINT8, readUINT32 and readUINT64. */
    method ReadInt(n: nat) returns (r: Option<nat>)
      requires Valid()
      modifies this
      ensures Valid()
      ensures r.None? <==> |old(Rest())| < n
      ensures r.None? ==> Rest() == old(Rest())
      ensures r.Some? ==>
        && old(Rest()) == old(Rest())[..n] + Rest() && r.value == FromLittleEndian(old(Rest())[..n]) < Pow256(n)
    {
      var bytes := Read(n);
      if bytes.None? {
        return None;
      }
      assert old(Rest())[..n] == bytes.value;
      FromLittleEndianBound(bytes.value);
      r := Some(FromLittleEndian(bytes.value));
    }

    /** write: bounded in the same way. */
    method Write(data: Bytes) returns (ok: bool)
      requires Valid()
      modifies this, buffer
      ensures Valid()
      ensures ok <==> |old(Rest())| >= |data|
      ensures !ok ==> Rest() == old(Rest()) && offset == old(offset)
      ensures ok ==> offset == old(offset) + |data| && Rest() == old(Rest())[|data|..]
      ensures ok ==> buffer[..offset] == old(buffer[..offset]) + data && buffer[end..] == old(buffer[end..])
    {
      if end - offset < |data| {
        return false;
      }
      forall i | 0 <= i < |data| {
        buffer[offset + i] := data[i];
      }
      assert buffer[..offset] == old(buffer[..offset]);
      assert buffer[offset..offset + |data|] == data;
      offset := offset + |data|;
      ok := true;
    }
  }
}
