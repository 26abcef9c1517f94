/** DTLS handshake fragments and record protection, as bytes. */
module DtlsTypes {
  import opened Common

  const RECORD_HEADER: nat := 13
  const FRAGMENT_HEADER: nat := 12
  const MAX_PLAIN: nat := 16384
  const MAX_ENCRYPTED: nat := 16384 + 256 + 64
  const VERSION_MAJOR: nat := 0xfe

  const CHANGE_CIPHER_SPEC: byte := 20
  const ALERT: byte := 21
  const HANDSHAKE: byte := 22
  const APPLICATION_DATA: byte := 23
  const CCS_BODY: seq<byte> := [1]

  /** Record protection in one direction.  |open| is the partial inverse of |seal|:
      both see the record type, the version and the eight bytes of epoch and number. */
  datatype Cipher = Cipher(isNull: bool, version: nat, explicitNonce: nat, overhead: nat,
                           seal: (byte, nat, seq<byte>, seq<byte>) -> Option<seq<byte>>,
                           open: (byte, nat, seq<byte>, seq<byte>) -> Option<seq<byte>>)
  {
    /** Whatever fits into a record can be sealed, with no more added than |overhead|. */
    ghost predicate Reliable() {
      && explicitNonce <= overhead
      && forall typ, version, sequence, plain | |plain| < 0x1_0000 ::
           var c := seal(typ, version, sequence, plain); c.Some? && |c.value| <= |plain| + overhead
    }
  }

  /** No protection, in force until the first keys are. */
  const NULL_CIPHER: Cipher :=
    Cipher(true, 0xfeff, 0, 0, (typ, version, sequence, plain) => Some(plain), (typ, version, sequence, c) => Some(c))

  /** Handshake messages are numbered with 16 bits. */
  const SEQ_SPACE: nat := 0x1_0000

  datatype Message = Message(typ: byte, body: seq<byte>)

  // ----- big-endian integers -----

  function U16(n: nat): seq<byte> {
    [n / 0x100 % 0x100, n % 0x100]
  }

  function U24(n: nat): seq<byte> {
    [n / 0x1_0000 % 0x100, n / 0x100 % 0x100, n % 0x100]
  }

  function Get16(bs: seq<byte>, i: nat): (n: nat)
    requires i + 2 <= |bs|
    ensures n < 0x1_0000
  {
    0x100 * bs[i] as int + bs[i + 1]
  }

  function Get24(bs: seq<byte>, i: nat): (n: nat)
    requires i + 3 <= |bs|
    ensures n < 0x100_0000
  {
    0x1_0000 * bs[i] as int + 0x100 * bs[i + 1] as int + bs[i + 2]
  }

  lemma U16Reads(n: nat)
    requires n < 0x1_0000
    ensures Get16(U16(n), 0) == n
  {
  }

  lemma U24Reads(n: nat)
    requires n < 0x100_0000
    ensures Get24(U24(n), 0) == n
  {
    assert n / 0x1_0000 % 0x100 == n / 0x1_0000;
    assert n == 0x100 * (n / 0x100) + n % 0x100;
    assert n / 0x100 == 0x100 * (n / 0x1_0000) + n / 0x100 % 0x100;
  }

  // ----- handshake fragments -----

  datatype Header = Header(typ: byte, msgLen: nat, msgSeq: nat, fragOff: nat, fragLen: nat)
  {
    predicate Fits() {
      && msgLen < 0x100_0000 && msgSeq < 0x1_0000
      && fragOff < 0x100_0000 && fragLen < 0x100_0000
    }
  }

  function HeaderBytes(h: Header): (bs: seq<byte>)
    ensures |bs| == FRAGMENT_HEADER
  {
    [h.typ] + U24(h.msgLen) + U16(h.msgSeq) + U24(h.fragOff) + U24(h.fragLen)
  }

  datatype Fragment = Fragment(hdr: Header, body: seq<byte>, rest: seq<byte>)

  /** dtls1_parse_fragment. */
  function ParseFragment(bs: seq<byte>): (r: Option<Fragment>)
    ensures r.Some? ==> r.value.hdr.Fits() && |r.value.body| == r.value.hdr.fragLen
    ensures r.Some? ==> |r.value.rest| + FRAGMENT_HEADER <= |bs|
  {
    if |bs| < FRAGMENT_HEADER then None
    else
      var h := Header(bs[0], Get24(bs, 1), Get16(bs, 4), Get24(bs, 6), Get24(bs, 9));
      if |bs| - FRAGMENT_HEADER < h.fragLen then None
      else Some(Fragment(h, bs[FRAGMENT_HEADER..FRAGMENT_HEADER + h.fragLen], bs[FRAGMENT_HEADER + h.fragLen..]))
  }

  lemma HeaderReads(h: Header, tail: seq<byte>)
    requires h.Fits()
    ensures var bs := HeaderBytes(h) + tail;
            && bs[0] == h.typ && Get24(bs, 1) == h.msgLen && Get16(bs, 4) == h.msgSeq
            && Get24(bs, 6) == h.fragOff && Get24(bs, 9) == h.fragLen
  {
    U24Reads(h.msgLen);
    U16Reads(h.msgSeq);
    U24Reads(h.fragOff);
    U24Reads(h.fragLen);
  }

  /** A fragment put together is taken apart again. */
  lemma FragmentReads(h: Header, body: seq<byte>, rest: seq<byte>)
    requires h.Fits() && h.fragLen == |body|
    ensures ParseFragment(HeaderBytes(h) + body + rest) == Some(Fragment(h, body, rest))
  {
    var bs := HeaderBytes(h) + body + rest;
    assert bs == HeaderBytes(h) + (body + rest);
    HeaderReads(h, body + rest);
    assert bs[FRAGMENT_HEADER..FRAGMENT_HEADER + |body|] == body;
    assert bs[FRAGMENT_HEADER + |body|..] == rest;
  }

  /** A whole message as dtls1_finish_message leaves it: one fragment with everything. */
  function Raw(typ: byte, msgSeq: nat, body: seq<byte>): seq<byte> {
    HeaderBytes(Header(typ, |body|, msgSeq, 0, |body|)) + body
  }

  /** The fragment of a message that holds |len| bytes from |off| on. */
  function Piece(typ: byte, msgSeq: nat, body: seq<byte>, off: nat, len: nat): seq<byte>
    requires off + len <= |body|
  {
    HeaderBytes(Header(typ, |body|, msgSeq, off, len)) + body[off..off + len]
  }
}
