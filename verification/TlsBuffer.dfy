/** The record buffer of ssl_buffer.cc, whose offset, size and capacity are 16-bit numbers. */
module TlsBuffer {
  import opened Common

  const U16: nat := 0x1_0000
  /** SSL3_ALIGN_PAYLOAD. */
  const ALIGN: nat := 8

  /** OPENSSL_memcpy. */
  method Copy(to: array<byte>, at: nat, bytes: seq<byte>)
    requires at + |bytes| <= to.Length
    modifies to
    ensures to[at..at + |bytes|] == bytes
    ensures to[..at] == old(to[..at]) && to[at + |bytes|..] == old(to[at + |bytes|..])
  {
    var i := 0;
    while i < |bytes|
      invariant i <= |bytes| && to[at..at + i] == bytes[..i]
      invariant to[..at] == old(to[..at]) && to[at + |bytes|..] == old(to[at + |bytes|..])
    {
      to[at + i] := bytes[i];
      i := i + 1;
    }
  }

  class SSLBuffer {
    var buf: array?<byte>
    var offset: nat
    var size: nat
    var cap: nat

    ghost predicate Valid()
      reads this
    {
      && offset < U16 && size <= cap < U16
      && (if buf == null then offset == 0 && cap == 0 else offset + cap <= buf.Length)
    }

    function Contents(): (s: seq<byte>)
      reads this, buf
      requires Valid()
      ensures |s| == size
    {
      if buf == null then [] else buf[offset..offset + size]
    }

    /** The offset stays within 16 bits however the contents are consumed. */
    ghost predicate Addressable()
      reads this
    {
      offset + size <= U16
    }

    constructor ()
      ensures Valid() && buf == null && size == cap == 0
    {
      buf, offset, size, cap := null, 0, 0, 0;
    }

    /** SSLBuffer::Clear. */
    method Clear()
      modifies this
      ensures Valid() && buf == null && Contents() == [] && size == cap == 0
    {
      buf, offset, size, cap := null, 0, 0, 0;
    }

    /** SSLBuffer::EnsureCap; |address| is where malloc puts the new buffer, if it does.
        The contents are kept, at an offset of at most seven bytes if they are moved. */
    method EnsureCap(headerLen: nat, newCap: nat, address: Option<nat>) returns (ok: bool)
      requires Valid()
      modifies this
      ensures Valid() && Contents() == old(Contents()) && size == old(size)
      ensures ok ==> cap >= newCap && newCap < U16
      ensures ok <==> newCap < U16 && (old(cap) >= newCap || address.Some?)
      ensures buf == old(buf) || fresh(buf)
      ensures ok && old(cap) < newCap ==> offset < ALIGN && cap == newCap && fresh(buf)
      ensures ok && old(cap) < newCap ==>
                offset == (0 - (headerLen + address.value)) % ALIGN && forall i | 0 <= i < offset :: buf[i] == 0
      ensures !ok || old(cap) >= newCap ==> buf == old(buf) && offset == old(offset) && cap == old(cap)
    {
      if newCap > 0xffff {
        return false;
      }
      if cap >= newCap {
        return true;
      }
      if address.None? {
        return false;
      }
      var newBuf := new byte[newCap + ALIGN - 1](_ => 0);
      var misaligned: int := headerLen + address.value;
      var newOffset := (0 - misaligned) % ALIGN;
      if buf != null {
        Copy(newBuf, newOffset, Contents());
      }
      buf, offset, cap := newBuf, newOffset, newCap;
      ok := true;
    }

    /** Bytes are put into the room after the contents, and DidWrite makes them part of it. */
    method Append(bytes: seq<byte>)
      requires Valid() && |bytes| <= cap - size
      modifies this`size, buf
      ensures Valid() && Contents() == old(Contents()) + bytes && size == old(size) + |bytes|
      ensures buf != null ==> forall i | 0 <= i < offset :: buf[i] == old(buf[i])
    {
      if buf != null {
        Copy(buf, offset + size, bytes);
        assert buf[offset..offset + size + |bytes|] == buf[offset..offset + size] + bytes;
      }
      size := size + |bytes|;
    }

    /** SSLBuffer::Consume.  The offset is kept in 16 bits: if it would grow beyond, it
        wraps around, and what is left of the contents is looked for in the wrong place. */
    method Consume(len: nat)
      requires Valid() && len <= size
      modifies this`offset, this`size, this`cap
      ensures Valid() && size == old(size) - len
      ensures old(offset) + len < U16 ==> Contents() == old(Contents())[len..]
      ensures offset == OffsetAfter(old(offset), len)
      ensures old(Addressable()) && len < old(size) ==> Addressable() && offset == old(offset) + len
    {
      assert offset + len < U16 ==> (offset + len) % U16 == offset + len;
      offset := OffsetAfter(offset, len);
      size := size - len;
      cap := cap - len;
    }
  }

  /** The offset after consuming |len| bytes. */
  function OffsetAfter(offset: nat, len: nat): nat {
    (offset + len) % U16
  }

  /** Contents can be consumed in any steps without losing the place, exactly if they do
      not reach beyond 2^16. */
  lemma ConsumingIsSafe(offset: nat, size: nat)
    requires offset < U16
    ensures offset + size <= U16 <==> forall len | 0 <= len < size :: OffsetAfter(offset, len) == offset + len
  {
    if offset + size > U16 {
      assert OffsetAfter(offset, U16 - offset) == 0;
    }
  }

  /** Where it goes wrong: of a buffer filled to a capacity of 65535 bytes at offset seven
      65530 bytes are consumed.  The five that are left begin at 65537, but are looked for
      at one, in front of where the contents began. */
  method ConsumingGoesWrong() returns (b: SSLBuffer, left: seq<byte>)
    ensures b.Valid() && b.size == |left| == 5 && b.Contents() != left
  {
    b := new SSLBuffer();
    var ok := b.EnsureCap(1, 65535, Some(0));
    assert b.offset == 7;
    b.Append(seq(65535, i => 1));
    left := b.Contents()[65530..];
    assert left[0] == 1;
    ghost var bytes := b.buf[..];
    b.Consume(65530);
    assert b.offset == 1 && b.buf[1] == bytes[1] == 0;
    assert b.Contents()[0] == b.buf[1];
  }
}
