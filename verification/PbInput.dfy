/** pb_istream_t and the readers of pb_decode.c that work on it directly.  Every
    method is proved against the function of module PbWire or PbDecode that says
    what is read, and leaves the stream where that function stops. */
module PbInput {
  import opened Common
  import opened Bits
  import opened PbWire
  import opened PbSchema
  import opened PbDecode

  // ----- accumulating a varint from its low end -----

  lemma {:induction false} ShlAdds(x: nat, y: nat, bits: nat)
    ensures Shl(x + y, bits) == Shl(x, bits) + Shl(y, bits)
  {
    if bits > 0 {
      ShlAdds(x, y, bits - 1);
    }
  }

  lemma {:induction false} ShlTwice(x: nat, bits: nat)
    ensures Shl(2 * x, bits) == 2 * Shl(x, bits)
  {
    if bits > 0 {
      ShlTwice(x, bits - 1);
    }
  }

  lemma Shl128(x: nat, bits: nat)
    ensures Shl(128 * x, bits) == Shl(x, bits + 7)
  {
    ShlTwice(64 * x, bits);
    ShlTwice(32 * x, bits);
    ShlTwice(16 * x, bits);
    ShlTwice(8 * x, bits);
    ShlTwice(4 * x, bits);
    ShlTwice(2 * x, bits);
    ShlTwice(x, bits);
    assert Shl(x, bits + 2) == 4 * Shl(x, bits);
    assert Shl(x, bits + 4) == 16 * Shl(x, bits);
    assert Shl(x, bits + 6) == 64 * Shl(x, bits);
  }

  /** A group followed by higher ones, shifted into place. */
  lemma ShlGroup(digit: nat, v: nat, bits: nat)
    ensures Shl(digit + 128 * v, bits) == Shl(digit, bits) + Shl(v, bits + 7)
  {
    ShlAdds(digit, 128 * v, bits);
    Shl128(v, bits);
  }

  /** |r| read at bit |bitpos|, above the lower groups worth |low|. */
  function Above(low: nat, bitpos: nat, r: Res<nat>): Res<nat> {
    if r.Ok? then Ok(low + Shl(r.v, bitpos), r.rest) else Bad
  }

  lemma NextGroup64(low: nat, n: nat, bs: seq<byte>)
    requires n < 10 && bs != []
    ensures var low' := low + Shl(bs[0] % if n == 9 then 2 else 128, 7 * n);
            Above(low, 7 * n, Groups64(bs, n)) == if bs[0] < 128 then Ok(low', bs[1..])
                                                  else Above(low', 7 * n + 7, Groups64(bs[1..], n + 1))
  {
    var digit := bs[0] % if n == 9 then 2 else 128;
    var r := Groups64(bs[1..], n + 1);
    if bs[0] >= 128 && r.Ok? {
      ShlGroup(digit, r.v, 7 * n);
    }
  }

  lemma NextGroup32(low: nat, n: nat, bs: seq<byte>)
    requires n < 4 && bs != []
    ensures var low' := low + Shl(bs[0] % 128, 7 * n);
            Above(low, 7 * n, Groups32(bs, n)) == if bs[0] < 128 then Ok(low', bs[1..])
                                                  else Above(low', 7 * n + 7, Groups32(bs[1..], n + 1))
  {
    var r := Groups32(bs[1..], n + 1);
    if bs[0] >= 128 && r.Ok? {
      ShlGroup(bs[0] % 128, r.v, 7 * n);
    }
  }

  /** |value| if the extension bytes are in order. */
  function Extended(value: nat, r: Res<()>): Res<nat> {
    if r.Ok? then Ok(value, r.rest) else Bad
  }

  /** What reading on from group |n| will give, |low| being the value so far. */
  function Pending(n: nat, low: nat, bs: seq<byte>): Res<nat> {
    if n <= 4 then Above(low, 7 * n, Groups32(bs, n))
    else Extended(low, Extension(bs, 7 * n, low >= TWO31))
  }

  lemma Shl28(x: nat)
    ensures Shl(x, 28) == 0x1000_0000 * x
  {
    Shl128(x, 21);
    Shl128(128 * x, 14);
    Shl128(128 * 128 * x, 7);
    Shl128(128 * 128 * 128 * x, 0);
  }

  lemma FifthGroup32(low: nat, bs: seq<byte>)
    requires low < 0x1000_0000 && bs != []
    ensures var low' := low + Shl(bs[0] % 16, 28);
            Pending(4, low, bs) == if bs[0] >= 128 then Pending(5, low', bs[1..])
                                   else if bs[0] >= 16 then Bad else Ok(low', bs[1..])
  {
    Shl28(bs[0] % 16);
    SignBit(low, bs[0]);
  }

  lemma SignBit(low: nat, b: byte)
    requires low < 0x1000_0000
    ensures var nibble: nat := b % 16;
            low + 0x1000_0000 * nibble >= TWO31 <==> b / 8 % 2 == 1
  {
  }

  /** The first four groups fill 28 bits. */
  lemma {:induction false} GroupsFit(digit: nat, n: nat)
    requires digit < 128
    ensures Shl(digit, 7 * n) + Shl(1, 7 * n) <= Shl(1, 7 * n + 7)
  {
    ShlAdds(digit, 1, 7 * n);
    Shl128(1, 7 * n);
    ShlMono(digit + 1, 128, 7 * n);
  }

  lemma {:induction false} ShlMono(x: nat, y: nat, bits: nat)
    requires x <= y
    ensures Shl(x, bits) <= Shl(y, bits)
  {
    if bits > 0 {
      ShlMono(x, y, bits - 1);
    }
  }

  lemma NextPending(n: nat, low: nat, bs: seq<byte>)
    requires bs != [] && (n <= 4 ==> low < Shl(1, 7 * n))
    ensures n < 4 ==> var low' := low + Shl(bs[0] % 128, 7 * n);
              && low' < Shl(1, 7 * n + 7)
              && Pending(n, low, bs) == if bs[0] < 128 then Ok(low', bs[1..]) else Pending(n + 1, low', bs[1..])
    ensures n == 4 ==> var low' := low + Shl(bs[0] % 16, 28);
              Pending(n, low, bs) == if bs[0] >= 128 then Pending(5, low', bs[1..])
                                     else if bs[0] >= 16 then Bad else Ok(low', bs[1..])
    ensures n > 4 ==>
              Pending(n, low, bs) == if BadExtension(bs[0], 7 * n, low >= TWO31) then Bad
                                     else if bs[0] < 128 then Ok(low, bs[1..])
                                     else Pending(n + 1, low, bs[1..])
  {
    if n < 4 {
      NextGroup32(low, n, bs);
      GroupsFit(bs[0] % 128, n);
    } else if n == 4 {
      Shl28(1);
      FifthGroup32(low, bs);
    }
  }

  // ----- the stream -----

  class IStream {
    /** The caller's buffer, and how far |state| has moved into it. */
    const data: seq<byte>
    var state: nat
    var bytesLeft: nat

    ghost predicate Valid()
      reads this
    {
      state + bytesLeft <= |data|
    }

    /** What the stream still has to offer. */
    ghost function Left(): (s: seq<byte>)
      reads this
      requires Valid()
      ensures |s| == bytesLeft
    {
      data[state..state + bytesLeft]
    }

    /** pb_istream_from_buffer. */
    constructor (buf: seq<byte>)
      ensures Valid() && data == buf && state == 0 && Left() == buf
    {
      data, state, bytesLeft := buf, 0, |buf|;
      new;
      assert data[0..|data|] == data;
    }

    /** The substream of pb_make_string_substream: a copy limited to |size| bytes. */
    constructor Limited(stream: IStream, size: nat)
      requires stream.Valid() && size <= stream.bytesLeft
      ensures Valid() && data == stream.data && state == stream.state && bytesLeft == size
      ensures Left() == stream.Left()[..size]
    {
      data, state, bytesLeft := stream.data, stream.state, size;
    }

    /** pb_read from a memory buffer. */
    method Read(count: nat) returns (ok: bool, buf: seq<byte>)
      requires Valid()
      modifies this
      ensures Valid() && state + bytesLeft == old(state + bytesLeft)
      ensures ok == (count <= old(bytesLeft))
      ensures ok ==> Take(old(Left()), count) == Ok(buf, Left())
      ensures !ok ==> state == old(state)
    {
      if bytesLeft < count {
        return false, [];
      }
      buf := data[state..state + count];
      ghost var before := Left();
      state := state + count;
      bytesLeft := bytesLeft - count;
      assert before[..count] == buf && before[count..] == Left();
      ok := true;
    }

    /** pb_readbyte. */
    method ReadByte() returns (ok: bool, b: byte)
      requires Valid()
      modifies this
      ensures Valid() && state + bytesLeft == old(state + bytesLeft)
      ensures ok == (old(Left()) != [])
      ensures ok ==> b == old(Left())[0] && Left() == old(Left())[1..]
      ensures !ok ==> state == old(state)
    {
      if bytesLeft == 0 {
        return false, 0;
      }
      ghost var before := Left();
      b := data[state];
      state := state + 1;
      bytesLeft := bytesLeft - 1;
      assert before[1..] == Left();
      ok := true;
    }

    /** pb_decode_varint.  The source ors each group in at |bitpos|, which adds it
        because the bits below are the only ones in use (PbWire.OrIsAdd); the shift
        by 63 keeps a single bit. */
    method DecodeVarint() returns (ok: bool, dest: nat)
      requires Valid()
      modifies this
      ensures Valid() && state + bytesLeft == old(state + bytesLeft)
      ensures ok == Varint64(old(Left())).Ok?
      ensures ok ==> Varint64(old(Left())) == Ok(dest, Left())
    {
      ghost var bs := Left();
      var bitpos: nat := 0;
      dest := 0;
      ghost var n := 0;
      while true
        invariant Valid() && state + bytesLeft == old(state + bytesLeft)
        invariant n <= 10 && bitpos == 7 * n
        invariant Varint64(bs) == Above(dest, bitpos, Groups64(Left(), n))
        decreases bytesLeft
      {
        if bitpos >= 64 {
          return false, 0;
        }
        ghost var left := Left();
        var got, b := ReadByte();
        if !got {
          return false, 0;
        }
        NextGroup64(dest, n, left);
        dest := dest + Shl(b % if bitpos == 63 then 2 else 128, bitpos);
        bitpos, n := bitpos + 7, n + 1;
        if b < 128 {
          return true, dest;
        }
      }
    }

    /** One round of the loop of pb_decode_varint32_eof, for group |n|. */
    method NextByte32(bitpos: nat, dest0: nat, ghost n: nat) returns (ok: bool, dest: nat, b: byte)
      requires Valid() && n >= 1 && bitpos == 7 * n && (n <= 4 ==> dest0 < Shl(1, bitpos))
      modifies this
      ensures Valid() && state + bytesLeft == old(state + bytesLeft)
      ensures !ok ==> Pending(n, dest0, old(Left())).Bad?
      ensures ok && b >= 128 ==> Pending(n, dest0, old(Left())) == Pending(n + 1, dest, Left())
      ensures ok && b < 128 ==>
                Pending(n, dest0, old(Left())) == if n == 4 && b >= 16 then Bad else Ok(dest, Left())
      ensures ok && n < 4 ==> dest < Shl(1, bitpos + 7)
      ensures ok ==> bytesLeft < old(bytesLeft)
    {
      dest := dest0;
      ghost var left := Left();
      ok, b := ReadByte();
      if !ok {
        return;
      }
      NextPending(n, dest, left);
      if bitpos >= 32 {
        ok := !BadExtension(b, bitpos, dest >= TWO31);
      } else {
        dest := dest + Shl(b % if bitpos == 28 then 16 else 128, bitpos);
      }
    }

    /** pb_decode_varint32_eof; |eof| is only raised by an empty stream. */
    method DecodeVarint32Eof() returns (ok: bool, dest: nat, eof: bool)
      requires Valid()
      modifies this
      ensures Valid() && state + bytesLeft == old(state + bytesLeft)
      ensures ok == Varint32(old(Left())).Ok?
      ensures ok ==> Varint32(old(Left())) == Ok(dest, Left())
      ensures eof == (old(Left()) == [])
    {
      ghost var bs := Left();
      var got, b := ReadByte();
      dest, eof := 0, false;
      if !got {
        return false, 0, true;
      }
      if b < 128 {
        return true, b, false;
      }
      NextPending(0, 0, bs);
      var bitpos: nat := 7;
      dest := b % 128;
      ghost var n := 1;
      while b >= 128
        invariant Valid() && state + bytesLeft == old(state + bytesLeft)
        invariant n >= 1 && bitpos == 7 * n && (n <= 4 ==> dest < Shl(1, bitpos))
        invariant b >= 128 ==> Varint32(bs) == Pending(n, dest, Left())
        invariant b < 128 ==> Varint32(bs) == if n == 5 && b >= 16 then Bad else Ok(dest, Left())
        decreases bytesLeft, b
      {
        got, dest, b := NextByte32(bitpos, dest, n);
        if !got {
          return false, 0, false;
        }
        bitpos, n := bitpos + 7, n + 1;
      }
      ok := bitpos != 35 || b < 16;
    }

    /** pb_skip_varint. */
    method SkipVarint() returns (ok: bool)
      requires Valid()
      modifies this
      ensures Valid() && state + bytesLeft == old(state + bytesLeft)
      ensures ok == PbDecode.SkipVarint(old(Left())).Ok?
      ensures ok ==> PbDecode.SkipVarint(old(Left())) == Ok((), Left())
    {
      ghost var bs := Left();
      var b: byte := 0x80;
      while b >= 128
        invariant Valid() && state + bytesLeft == old(state + bytesLeft)
        invariant PbDecode.SkipVarint(bs) == if b >= 128 then PbDecode.SkipVarint(Left()) else Ok((), Left())
        decreases bytesLeft, b
      {
        var got, buf := Read(1);
        if !got {
          return false;
        }
        b := buf[0];
      }
      ok := true;
    }

    /** pb_skip_string. */
    method SkipString() returns (ok: bool)
      requires Valid()
      modifies this
      ensures Valid() && state + bytesLeft == old(state + bytesLeft)
      ensures ok == Payload(old(Left())).Ok?
      ensures ok ==> Drop(Payload(old(Left()))) == Ok((), Left())
    {
      var got, length, _ := DecodeVarint32Eof();
      if !got {
        return false;
      }
      var whole, _ := Read(length);
      ok := whole;
    }

    /** pb_skip_field. */
    method SkipField(wireType: nat) returns (ok: bool)
      requires Valid()
      modifies this
      ensures Valid() && state + bytesLeft == old(state + bytesLeft)
      ensures ok == Skip(wireType, old(Left())).Ok?
      ensures ok ==> Skip(wireType, old(Left())) == Ok((), Left())
    {
      if wireType == WT_VARINT {
        ok := SkipVarint();
      } else if wireType == WT_64BIT {
        var whole, _ := Read(8);
        ok := whole;
      } else if wireType == WT_STRING {
        ok := SkipString();
      } else if wireType == WT_32BIT {
        var whole, _ := Read(4);
        ok := whole;
      } else {
        ok := false;
      }
    }

    /** pb_decode_tag; a key of zero reports the end of the message. */
    method DecodeTag() returns (ok: bool, wireType: nat, tag: nat, eof: bool)
      requires Valid()
      modifies this
      ensures Valid() && state + bytesLeft == old(state + bytesLeft)
      ensures var r := Varint32(old(Left()));
              && ok == (r.Ok? && r.v != 0)
              && eof == (old(Left()) == [] || (r.Ok? && r.v == 0))
              && (r.Ok? ==> Left() == r.rest && tag == r.v / 8 && wireType == r.v % 8)
    {
      var got, temp;
      got, temp, eof := DecodeVarint32Eof();
      if !got {
        return false, 0, 0, eof;
      }
      if temp == 0 {
        return false, 0, 0, true;
      }
      return true, temp % 8, temp / 8, eof;
    }

    /** The bytes after an open substream that will be left when it is closed. */
    ghost function Beyond(sub: IStream): seq<byte>
      reads this, sub
      requires sub.state + sub.bytesLeft + bytesLeft <= |data|
    {
      data[sub.state + sub.bytesLeft..sub.state + sub.bytesLeft + bytesLeft]
    }

    /** pb_make_string_substream: the parent gives up the bytes at once but only
        moves on when the substream is closed. */
    method MakeSubstream() returns (ok: bool, sub: IStream)
      requires Valid()
      modifies this
      ensures Valid() && sub.Valid() && data == sub.data && fresh(sub)
      ensures ok == Payload(old(Left())).Ok?
      ensures ok ==> sub.Left() == Payload(old(Left())).v
      ensures ok ==> sub.state == state && sub.bytesLeft < old(bytesLeft)
      ensures ok ==> sub.state + sub.bytesLeft + bytesLeft == old(state + bytesLeft)
      ensures ok ==> Payload(old(Left())).rest == Beyond(sub)
      ensures !ok ==> state + bytesLeft == old(state + bytesLeft)
    {
      var got, size, _ := DecodeVarint32Eof();
      if !got || bytesLeft < size {
        sub := new IStream.Limited(this, 0);
        return false, sub;
      }
      sub := new IStream.Limited(this, size);
      ghost var left := Left();
      bytesLeft := bytesLeft - size;
      assert left[size..] == Beyond(sub);
      ok := true;
    }

    /** pb_close_string_substream: whatever |sub| has left over is skipped, so the
        parent continues right after the announced length. */
    method CloseSubstream(sub: IStream) returns (ok: bool)
      requires Valid() && sub.Valid() && sub != this && data == sub.data
      requires sub.state + sub.bytesLeft + bytesLeft <= |data|
      modifies this, sub
      ensures ok && Valid() && bytesLeft == old(bytesLeft)
      ensures state == old(sub.state + sub.bytesLeft) && Left() == old(Beyond(sub))
    {
      if sub.bytesLeft != 0 {
        var got, _ := sub.Read(sub.bytesLeft);
        if !got {
          return false;
        }
      }
      state := sub.state;
      ok := true;
    }
  }
}
