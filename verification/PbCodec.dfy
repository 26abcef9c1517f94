/** The codec used end to end: encode into a buffer, decode from it. */
module PbCodec {
  import opened Common
  import opened PbSchema
  import opened PbEncode
  import opened PbProject
  import opened PbOutput
  import opened PbInput
  import PbEncoder
  import PbDecoder

  lemma {:induction false} TablesAreWellFormed(fields: seq<Field>)
    requires WellFormed(fields)
    ensures PbEncoder.Table(fields) && PbDecoder.Table(fields)
    decreases fields, 0
  {
    forall i | 0 <= i < |fields|
      ensures PbEncoder.SubTable(fields[i]) && PbDecoder.SubTable(fields[i]) && fields[i].tag != 0
    {
      FieldsAreWellFormed(fields[i]);
    }
  }

  lemma {:induction false} FieldsAreWellFormed(f: Field)
    requires WellFormedField(f)
    ensures PbEncoder.SubTable(f) && PbDecoder.SubTable(f)
    decreases f, 0
  {
    if f.kind.Message? {
      TablesAreWellFormed(f.kind.fields);
    }
  }

  /** pb_encode into |buf| with one description and pb_decode of the result with a
      selection of it.  Encoding succeeds if and only if the message is in order and
      its encoded size is at most the size of the buffer; decoding then always
      succeeds, consumes every byte and shows the message as far as |dec| goes. */
  method Exchange(enc: seq<Field>, dec: seq<Field>, m: Msg, dest: Msg, buf: array<byte>)
      returns (sent: bool, received: bool, d: Msg)
    requires WellFormed(enc) && WellFormed(dec) && Selects(dec, enc)
    requires ValidMsg(enc, m) && PbEncoder.Shaped(enc, m)
    modifies buf
    ensures sent == (MsgOk(enc, m) && |EncodeMsg(enc, m)| <= buf.Length)
    ensures sent ==> buf[..|EncodeMsg(enc, m)|] == EncodeMsg(enc, m)
    ensures sent ==> received && Matches(dec, enc, m, d)
  {
    TablesAreWellFormed(enc);
    TablesAreWellFormed(dec);
    var ostream := new OStream(buf, buf.Length);
    sent := PbEncoder.Encode(ostream, enc, m);
    received, d := false, dest;
    if sent {
      Projection(dec, enc, m, dest);
      assert buf[..ostream.bytesWritten] == EncodeMsg(enc, m);
      var istream := new IStream(buf[..ostream.bytesWritten]);
      received, d := PbDecoder.Decode(istream, dec, dest);
      assert istream.Left() == [];
    }
  }
}
