/** One incoming handshake message being put together: hm_fragment of d1_both.cc and
    its bitmask of the bytes received. */
module DtlsFragment {
  import opened Common
  import opened Bits
  import opened DtlsTypes

  // ----- the bitmask -----

  /** bit_range: the bits from |start| up to but not including |end|. */
  function BitRange(start: nat, end: nat): (b: byte)
    requires start <= 8 && end <= 8
  {
    OnesFit(start, 32);
    assert Pow2(8) == 256;
    Low(And(Ones(32) - Ones(start), Ones(end)), 8)
  }

  lemma BitRangeBits(start: nat, end: nat, k: nat)
    requires start <= 8 && end <= 8
    ensures Bit(BitRange(start, end), k) <==> start <= k < end
  {
    hide Pow2, And, Low;
    OnesFit(start, 32);
    LowBits(And(Ones(32) - Ones(start), Ones(end)), 8, k);
    AndBits(Ones(32) - Ones(start), Ones(end), k);
    NotBits(Ones(start), 32, k);
    OnesBits(start, k);
    OnesBits(end, k);
  }

  /** Whether byte |k| of the message is marked. */
  predicate Marked(mask: seq<byte>, k: nat)
    requires k < 8 * |mask|
  {
    Bit(mask[k / 8], k % 8)
  }

  function OrByte(a: byte, b: byte): byte {
    assert Pow2(8) == 256;
    OrFits(a, b, 8);
    Or(a, b)
  }

  function OrAt(mask: seq<byte>, i: nat, b: byte): seq<byte>
    requires i < |mask|
  {
    mask[i := OrByte(mask[i], b)]
  }

  /** Oring a range of bits into one byte of the mask marks just those bytes. */
  lemma OrAtMarks(mask: seq<byte>, i: nat, from: nat, to: nat, k: nat)
    requires i < |mask| && from <= 8 && to <= 8 && k < 8 * |mask|
    ensures Marked(OrAt(mask, i, BitRange(from, to)), k) <==> Marked(mask, k) || 8 * i + from <= k < 8 * i + to
  {
    if k / 8 == i {
      OrBits(mask[i], BitRange(from, to), k % 8);
      BitRangeBits(from, to, k % 8);
    }
  }

  lemma FullByte(b: byte)
    ensures b == 0xff <==> forall j | 0 <= j < 8 :: Bit(b, j)
  {
    LowByte(b, 8);
    assert Ones(8) == 0xff;
  }

  /** A byte without bits from |n| on is the full range exactly if it has all below. */
  lemma LowByte(b: byte, n: nat)
    requires n <= 8 && forall j | n <= j < 8 :: !Bit(b, j)
    ensures b as int == Ones(n) <==> forall j | 0 <= j < n :: Bit(b, j)
  {
    assert Pow2(8) == 256;
    OnesFit(n, 8);
    if b as int == Ones(n) {
      forall j | 0 <= j < n ensures Bit(b, j) {
        OnesBits(n, j);
      }
    }
    if forall j | 0 <= j < n :: Bit(b, j) {
      forall j | 0 <= j < 8 ensures Bit(b, j) == Bit(Ones(n), j) {
        OnesBits(n, j);
      }
      SameBits(b, Ones(n), 8);
    }
  }

  lemma RangeFromZero(n: nat)
    requires n <= 8
    ensures BitRange(0, n) as int == Ones(n)
  {
    assert Pow2(8) == 256;
    OnesFit(n, 8);
    forall j | 0 <= j < 8 ensures Bit(BitRange(0, n), j) == Bit(Ones(n), j) {
      BitRangeBits(0, n, j);
      OnesBits(n, j);
    }
    SameBits(BitRange(0, n), Ones(n), 8);
  }

  /** The mask says of every byte whether it is in |marked|, and nothing beyond the end. */
  ghost predicate Records(mask: seq<byte>, marked: set<nat>, len: nat) {
    && |mask| == (len + 7) / 8
    && (forall k | k in marked :: k < len)
    && (forall k | 0 <= k < 8 * |mask| :: Marked(mask, k) == (k in marked))
  }

  /** A message as far as it has been received: its bytes by position. */
  datatype Partial = Partial(typ: byte, len: nat, got: map<nat, byte>)
  {
    ghost predicate Complete() {
      forall k | 0 <= k < len :: k in got
    }

    /** The message with a fragment laid over it. */
    function Over(off: nat, body: seq<byte>): Partial {
      var covered := Range(off, off + |body|);
      this.(got := got + map k | k in covered :: body[k - off])
    }

    function Body(): seq<byte>
      requires Complete()
    {
      seq(len, k requires 0 <= k < len => got[k])
    }
  }

  class HmFragment {
    const typ: byte
    const msgSeq: nat
    const msgLen: nat
    /** The message header and room for the body. */
    const data: array<byte>
    /** The bytes received; freed when there are none missing. */
    var reassembly: array?<byte>
    ghost var marked: set<nat>

    ghost predicate Valid()
      reads this, data, reassembly
    {
      && msgLen < 0x100_0000 && msgSeq < 0x1_0000
      && data.Length == FRAGMENT_HEADER + msgLen
      && data[..FRAGMENT_HEADER] == HeaderBytes(Header(typ, msgLen, msgSeq, 0, msgLen))
      && reassembly != data
      && (reassembly != null ==> Records(reassembly[..], marked, msgLen))
      && (forall k | k in marked :: k < msgLen)
      && (reassembly == null <==> AllMarked())
    }

    /** The objects the message consists of. */
    ghost function Parts(): set<object>
      reads this
    {
      {this, data} + if reassembly == null then {} else {reassembly}
    }

    ghost function View(): Partial
      reads this, data, reassembly
      requires Valid()
    {
      Partial(typ, msgLen, map k | k in marked :: At(k))
    }

    /** Byte |k| of the body. */
    function At(k: nat): byte
      reads data
      requires FRAGMENT_HEADER + k < data.Length
    {
      data[FRAGMENT_HEADER + k]
    }

    /** Every byte has been received. */
    ghost predicate AllMarked()
      reads this
    {
      forall k | 0 <= k < msgLen :: k in marked
    }

    /** dtls1_hm_fragment_new; an empty message is complete from the start. */
    constructor (hdr: Header)
      requires hdr.Fits()
      ensures Valid() && fresh(Parts()) && View() == Partial(hdr.typ, hdr.msgLen, map[]) && fresh(data) && (reassembly != null ==> fresh(reassembly)) && marked == {}
      ensures typ == hdr.typ && msgSeq == hdr.msgSeq && msgLen == hdr.msgLen
    {
      typ, msgSeq, msgLen := hdr.typ, hdr.msgSeq, hdr.msgLen;
      var bytes := HeaderBytes(Header(hdr.typ, hdr.msgLen, hdr.msgSeq, 0, hdr.msgLen));
      data := new byte[FRAGMENT_HEADER + hdr.msgLen](i => if 0 <= i < |bytes| then bytes[i] else 0);
      marked := {};
      if hdr.msgLen > 0 {
        reassembly := new byte[(hdr.msgLen + 7) / 8](_ => 0);
      } else {
        reassembly := null;
      }
      new;
      if reassembly != null {
        forall k | 0 <= k < 8 * reassembly.Length ensures !Marked(reassembly[..], k) {
          ZeroBits(k % 8);
        }
        assert 0 !in marked;
      }
    }

    method Copy(off: nat, body: seq<byte>)
      requires Valid() && off + |body| <= msgLen
      modifies data
      ensures Valid()
      ensures forall k | 0 <= k < msgLen :: At(k) == if off <= k < off + |body| then body[k - off] else old(At(k))
    {
      forall i | 0 <= i < |body| {
        data[FRAGMENT_HEADER + off + i] := body[i];
      }
    }

    /** Copies the body of a fragment into the message and marks its bytes. */
    method Store(off: nat, body: seq<byte>)
      requires Valid() && reassembly != null && off + |body| <= msgLen
      modifies this`reassembly, this`marked, data, reassembly
      ensures Valid() && View() == old(View()).Over(off, body)
      ensures old(Parts()) >= Parts()
    {
      hide Records, HeaderBytes;
      Copy(off, body);
      Mark(off, off + |body|);
      LaidOver(old(View()), off, body);
    }

    lemma LaidOver(before: Partial, off: nat, body: seq<byte>)
      requires Valid() && before.typ == typ && before.len == msgLen && off + |body| <= msgLen
      requires marked == before.got.Keys + Range(off, off + |body|)
      requires forall k | k in marked :: At(k) == if off <= k < off + |body| then body[k - off] else before.got[k]
      ensures View() == before.Over(off, body)
    {
      hide Records, HeaderBytes;
      ghost var now, goal := View().got, before.Over(off, body).got;
      assert now.Keys == goal.Keys;
      assert now == goal;
    }

    /** dtls1_hm_fragment_mark: the message is complete exactly when every byte is marked,
        and the mask is then given up. */
    method Mark(start: nat, end: nat)
      requires Valid() && reassembly != null && start <= end <= msgLen
      modifies this`reassembly, this`marked, reassembly
      ensures Valid() && marked == old(marked) + Range(start, end)
      ensures old(Parts()) >= Parts()
      ensures reassembly == old(reassembly) || reassembly == null
    {
      if start == end {
        return;
      }
      SetBits(reassembly, start, end);
      marked := marked + Range(start, end);
      RecordsMore(old(reassembly[..]), reassembly[..], old(marked), msgLen, start, end);
      var done := AllSet(reassembly, msgLen, marked);
      if done {
        reassembly := null;
      }
    }
  }

  function Range(start: nat, end: nat): (r: set<nat>)
    ensures forall k :: k in r <==> start <= k < end
    decreases end - start
  {
    if start >= end then {} else {start} + Range(start + 1, end)
  }

  /** |after| is |before| with the bits from |start| up to |end| set. */
  ghost predicate Sets(before: seq<byte>, after: seq<byte>, start: nat, end: nat) {
    && |after| == |before|
    && forall k | 0 <= k < 8 * |before| :: Marked(after, k) == (Marked(before, k) || start <= k < end)
  }

  lemma RecordsMore(before: seq<byte>, after: seq<byte>, marked: set<nat>, len: nat, start: nat, end: nat)
    requires Records(before, marked, len) && end <= len && Sets(before, after, start, end)
    ensures Records(after, marked + Range(start, end), len)
  {
  }

  /** Setting a range within one byte. */
  method SetInByte(mask: array<byte>, i: nat, from: nat, to: nat)
    requires i < mask.Length && from <= to <= 8
    modifies mask
    ensures Sets(old(mask[..]), mask[..], 8 * i + from, 8 * i + to)
  {
    ghost var before := mask[..];
    mask[i] := OrByte(mask[i], BitRange(from, to));
    assert mask[..] == OrAt(before, i, BitRange(from, to));
    forall k | 0 <= k < 8 * |before|
      ensures Marked(mask[..], k) == (Marked(before, k) || 8 * i + from <= k < 8 * i + to)
    {
      OrAtMarks(before, i, from, to, k);
    }
  }

  lemma SetsTwice(a: seq<byte>, b: seq<byte>, c: seq<byte>, start: nat, mid: nat, end: nat)
    requires start <= mid <= end && Sets(a, b, start, mid) && Sets(b, c, mid, end)
    ensures Sets(a, c, start, end)
  {
  }

  lemma FullByteSets(before: seq<byte>, i: nat)
    requires i < |before|
    ensures Sets(before, before[i := 0xff], 8 * i, 8 * i + 8)
  {
    var after := before[i := 0xff];
    FullByte(0xff);
    forall k | 0 <= k < 8 * |before|
      ensures Marked(after, k) == (Marked(before, k) || 8 * i <= k < 8 * i + 8)
    {
    }
  }

  /** The marking part of dtls1_hm_fragment_mark, byte by byte of the mask. */
  method SetBits(mask: array<byte>, start: nat, end: nat)
    requires start < end <= 8 * mask.Length
    modifies mask
    ensures Sets(old(mask[..]), mask[..], start, end)
  {
    ghost var before := mask[..];
    if start / 8 == end / 8 {
      SetInByte(mask, start / 8, start % 8, end % 8);
    } else {
      SetInByte(mask, start / 8, start % 8, 8);
      var i := start / 8 + 1;
      while i < end / 8
        invariant start / 8 < i <= end / 8
        invariant Sets(before, mask[..], start, 8 * i)
      {
        ghost var mid := mask[..];
        FullByteSets(mid, i);
        mask[i] := 0xff;
        assert mask[..] == mid[i := 0xff];
        SetsTwice(before, mid, mask[..], start, 8 * i, 8 * i + 8);
        i := i + 1;
      }
      if end % 8 != 0 {
        ghost var mid := mask[..];
        SetInByte(mask, end / 8, 0, end % 8);
        SetsTwice(before, mid, mask[..], start, 8 * i, end);
      }
    }
  }

  /** The final test of dtls1_hm_fragment_mark: whole bytes first, then the last bits. */
  method AllSet(mask: array<byte>, len: nat, ghost marked: set<nat>) returns (all: bool)
    requires Records(mask[..], marked, len)
    ensures all <==> forall k | 0 <= k < len :: k in marked
  {
    hide BitRange, Marked;
    var i := 0;
    while i < len / 8
      invariant i <= len / 8 && forall k | 0 <= k < 8 * i :: k in marked
    {
      ByteTest(mask[..], marked, len, i, 8);
      if mask[i] != 0xff {
        return false;
      }
      i := i + 1;
    }
    if len % 8 != 0 {
      ByteTest(mask[..], marked, len, i, len % 8);
      if mask[i] != BitRange(0, len % 8) {
        return false;
      }
    }
    all := true;
  }

  lemma ByteTest(mask: seq<byte>, marked: set<nat>, len: nat, i: nat, n: nat)
    requires Records(mask, marked, len) && i < |mask| && n <= 8 && (n == 8 || 8 * i + n == len)
    ensures mask[i] == BitRange(0, n) <==> forall k | 8 * i <= k < 8 * i + n :: k in marked
    ensures BitRange(0, 8) == 0xff
  {
    hide BitRange, Digit;
    forall j | 0 <= j < 8 ensures Bit(mask[i], j) == (8 * i + j in marked) {
      assert Marked(mask, 8 * i + j) == (8 * i + j in marked);
    }
    LowByte(mask[i], n);
    RangeFromZero(n);
    RangeFromZero(8);
    assert Ones(8) == 0xff;
    if forall j | 0 <= j < n :: Bit(mask[i], j) {
      forall k | 8 * i <= k < 8 * i + n ensures k in marked {
        assert Bit(mask[i], k - 8 * i);
      }
    }
    if forall k | 8 * i <= k < 8 * i + n :: k in marked {
      forall j | 0 <= j < n ensures Bit(mask[i], j) {
        assert 8 * i + j in marked;
      }
    }
  }
}
