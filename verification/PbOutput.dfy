/** pb_ostream_t and the writers of pb_encode.c that work on it directly. */
module PbOutput {
  import opened Common
  import opened PbWire
  import opened PbEncode

  class OStream {
    /** A stream without callback only counts. */
    const sizing: bool
    const buf: array<byte>
    const maxSize: nat
    var state: nat
    var bytesWritten: nat

    ghost predicate Valid()
      reads this
    {
      sizing || (bytesWritten <= maxSize && state + (maxSize - bytesWritten) <= buf.Length)
    }

    /** What is in the buffer so far. */
    ghost function Prefix(): seq<byte>
      reads this, buf
      requires Valid()
    {
      if sizing then [] else buf[..state]
    }

    ghost predicate Fits(e: seq<byte>)
      reads this
    {
      sizing || bytesWritten + |e| <= maxSize
    }

    /** The stream after |e| was written to it when it held |prefix|. */
    ghost predicate Holds(written: nat, prefix: seq<byte>, e: seq<byte>)
      reads this, buf
      requires Valid()
    {
      bytesWritten == written + |e| && Prefix() == if sizing then [] else prefix + e
    }

    /** pb_ostream_from_buffer. */
    constructor (buf: array<byte>, size: nat)
      requires size <= buf.Length
      ensures Valid() && this.buf == buf && maxSize == size && !sizing && bytesWritten == 0 && state == 0
    {
      this.buf, maxSize, sizing, bytesWritten, state := buf, size, false, 0, 0;
    }

    /** PB_OSTREAM_SIZING. */
    constructor Sizing()
      ensures Valid() && sizing && bytesWritten == 0 && fresh(buf)
    {
      buf := new byte[0];
      sizing, maxSize, bytesWritten, state := true, 0, 0, 0;
    }

    /** The substream of pb_encode_submessage, for |size| bytes of |stream|. */
    constructor Limited(stream: OStream, size: nat)
      requires !stream.sizing && stream.state + size <= stream.buf.Length
      ensures Valid() && buf == stream.buf && maxSize == size && !sizing
      ensures bytesWritten == 0 && state == stream.state
    {
      buf, maxSize, sizing, bytesWritten, state := stream.buf, size, false, 0, stream.state;
    }

    /** pb_write. */
    method Write(b: seq<byte>) returns (ok: bool)
      requires Valid()
      modifies this, buf
      ensures Valid() && ok == old(Fits(b))
      ensures ok ==> Holds(old(bytesWritten), old(Prefix()), b)
    {
      if !sizing {
        if bytesWritten + |b| > maxSize {
          return false;
        }
        var i := 0;
        while i < |b|
          modifies buf
          invariant i <= |b|
          invariant buf[..state] == old(buf[..state]) && buf[state..state + i] == b[..i]
        {
          buf[state + i] := b[i];
          i := i + 1;
        }
        assert buf[..state + |b|] == buf[..state] + buf[state..state + |b|];
        state := state + |b|;
      }
      bytesWritten := bytesWritten + |b|;
      ok := true;
    }

    /** pb_write without data, on a stream that only counts. */
    method Count(ghost b: seq<byte>, count: nat) returns (ok: bool)
      requires Valid() && sizing && count == |b|
      modifies this
      ensures ok && Valid() && Holds(old(bytesWritten), old(Prefix()), b)
    {
      bytesWritten := bytesWritten + count;
      ok := true;
    }

    /** pb_encode_varint: seven bits at a time, every byte but the last marked. */
    method EncodeVarint(v: nat) returns (ok: bool)
      requires Valid()
      modifies this, buf
      ensures Valid() && ok == old(Fits(PbWire.EncodeVarint(v)))
      ensures ok ==> Holds(old(bytesWritten), old(Prefix()), PbWire.EncodeVarint(v))
    {
      if v <= 0x7F {
        ok := Write([v]);
        return;
      }
      var buffer: seq<byte> := [];
      var value := v;
      ghost var e := PbWire.EncodeVarint(v);
      while value != 0
        invariant value != 0 ==> e == buffer + PbWire.EncodeVarint(value)
        invariant value == 0 ==> |buffer| == |e| && e == buffer[|buffer| - 1 := buffer[|buffer| - 1] % 128]
      {
        ghost var before, rest := buffer, PbWire.EncodeVarint(value);
        buffer := buffer + [value % 128 + 128];
        value := value / 128;
        assert value != 0 ==> e == buffer + rest[1..];
      }
      buffer := buffer[|buffer| - 1 := buffer[|buffer| - 1] % 128];
      ok := Write(buffer);
    }

    /** pb_encode_tag. */
    method EncodeTag(tag: nat, wireType: nat) returns (ok: bool)
      requires Valid()
      modifies this, buf
      ensures Valid() && ok == old(Fits(PbEncode.EncodeTag(tag, wireType)))
      ensures ok ==> Holds(old(bytesWritten), old(Prefix()), PbEncode.EncodeTag(tag, wireType))
    {
      ok := EncodeVarint(tag * 8 + wireType);
    }

    /** pb_encode_string. */
    method EncodeString(b: seq<byte>) returns (ok: bool)
      requires Valid()
      modifies this, buf
      ensures Valid() && ok == old(Fits(LenPrefixed(b)))
      ensures ok ==> Holds(old(bytesWritten), old(Prefix()), LenPrefixed(b))
    {
      ok := EncodeVarint(|b|);
      if ok {
        ghost var written, prefix := bytesWritten, Prefix();
        ok := Write(b);
        if ok {
          Appended(this, old(bytesWritten), old(Prefix()), PbWire.EncodeVarint(|b|), written, prefix, b);
        }
      }
    }

    /** pb_encode_svarint: value << 1, complemented if it was negative. */
    method EncodeSVarint(n: int) returns (ok: bool)
      requires Valid()
      modifies this, buf
      ensures Valid() && ok == old(Fits(PbWire.EncodeVarint(ZigZag(n))))
      ensures ok ==> Holds(old(bytesWritten), old(Prefix()), PbWire.EncodeVarint(ZigZag(n)))
    {
      var shifted := (U64(n) * 2) % TWO64;
      ok := EncodeVarint(if n < 0 then TWO64 - 1 - shifted else shifted);
    }

    /** pb_encode_fixed32. */
    method EncodeFixed32(v: nat) returns (ok: bool)
      requires Valid()
      modifies this, buf
      ensures Valid() && ok == old(Fits(LittleEndian(v, 4)))
      ensures ok ==> Holds(old(bytesWritten), old(Prefix()), LittleEndian(v, 4))
    {
      var b := Split(v);
      SplitIsLittleEndian(v);
      ok := Write(b);
    }

    /** pb_encode_fixed64. */
    method EncodeFixed64(v: nat) returns (ok: bool)
      requires Valid()
      modifies this, buf
      ensures Valid() && ok == old(Fits(LittleEndian(v, 8)))
      ensures ok ==> Holds(old(bytesWritten), old(Prefix()), LittleEndian(v, 8))
    {
      var b := Split(v) + Split(Shr32(v));
      SplitTwice(v);
      ok := Write(b);
    }
  }

  /** Two writes in a row are one write of both. */
  lemma Appended(s: OStream, written: nat, prefix: seq<byte>, done: seq<byte>, written': nat, prefix': seq<byte>, x: seq<byte>)
    requires s.Valid() && written' == written + |done| && prefix' == if s.sizing then [] else prefix + done
    requires s.Holds(written', prefix', x)
    ensures s.Holds(written, prefix, done + x)
  {
    assert prefix + done + x == prefix + (done + x);
  }

  lemma Assoc(a: seq<byte>, b: seq<byte>, c: seq<byte>)
    ensures a + (b + c) == a + b + c
  {
  }

  /** v >> 32. */
  function Shr32(v: nat): nat {
    v / 0x100 / 0x100 / 0x100 / 0x100
  }

  /** The four bytes of a 32-bit word shifted out. */
  function Split(v: nat): seq<byte> {
    [v % 0x100, v / 0x100 % 0x100, v / 0x100 / 0x100 % 0x100, v / 0x100 / 0x100 / 0x100 % 0x100]
  }

  lemma SplitIsLittleEndian(v: nat)
    ensures Split(v) == LittleEndian(v, 4)
  {
    assert LittleEndian(v / 0x100 / 0x100, 2) == [v / 0x100 / 0x100 % 0x100, v / 0x100 / 0x100 / 0x100 % 0x100];
  }

  lemma {:induction false} LittleEndianSplits(v: nat, len: nat)
    ensures LittleEndian(v, 4 + len) == Split(v) + LittleEndian(Shr32(v), len)
  {
    var v1 := v / 0x100;
    var v2 := v1 / 0x100;
    var v3 := v2 / 0x100;
    var rest := LittleEndian(v3 / 0x100, len);
    assert LittleEndian(v3, 1 + len) == [v3 % 0x100] + rest;
    assert LittleEndian(v2, 2 + len) == [v2 % 0x100] + LittleEndian(v3, 1 + len);
    assert LittleEndian(v1, 3 + len) == [v1 % 0x100] + LittleEndian(v2, 2 + len);
    assert LittleEndian(v, 4 + len) == [v % 0x100] + LittleEndian(v1, 3 + len);
    assert LittleEndian(v, 4 + len) == [v % 0x100, v1 % 0x100, v2 % 0x100, v3 % 0x100] + rest;
  }

  lemma SplitTwice(v: nat)
    ensures Split(v) + Split(Shr32(v)) == LittleEndian(v, 8)
  {
    SplitIsLittleEndian(Shr32(v));
    LittleEndianSplits(v, 4);
  }
}
