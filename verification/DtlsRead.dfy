/** Opening DTLS records: dtls_open_record and dtls1_set_read_state. */
module DtlsRead {
  import opened Common
  import opened DtlsTypes
  import opened DtlsReplay

  datatype Record = Record(typ: byte, version: nat, sequence: seq<byte>, body: seq<byte>, rest: seq<byte>)

  /** The header and body of the record at the front of a packet. */
  function ParseRecord(bs: seq<byte>): (r: Option<Record>)
    ensures r.Some? ==> |r.value.sequence| == 8 && |r.value.rest| < |bs|
  {
    if |bs| < RECORD_HEADER then None
    else
      var len := Get16(bs, 11);
      if |bs| - RECORD_HEADER < len || len > MAX_ENCRYPTED then None
      else Some(Record(bs[0], Get16(bs, 1), bs[3..11],
                       bs[RECORD_HEADER..RECORD_HEADER + len], bs[RECORD_HEADER + len..]))
  }

  datatype Opened = CloseNotify | Partial | Discard | Fail | Alert(body: seq<byte>) | Success(typ: byte, body: seq<byte>)
  {
    /** The record was authentic and its contents are handed on. */
    predicate Accepted() {
      Alert? || Success?
    }
  }

  predicate VersionOk(cipher: Cipher, version: nat) {
    if cipher.isNull then version / 0x100 == VERSION_MAJOR else version == cipher.version
  }

  class RecordReader {
    var rEpoch: nat
    var cipher: Cipher
    const window: ReplayWindow
    var readShutdown: bool

    ghost predicate Valid()
      reads this, window
    {
      rEpoch < 0x1_0000 && window.Valid()
    }

    constructor (cipher: Cipher)
      ensures Valid() && fresh(window) && rEpoch == 0 && window.recorded == {} && this.cipher == cipher && !readShutdown
    {
      rEpoch, readShutdown, this.cipher := 0, false, cipher;
      window := new ReplayWindow();
    }

    /** The records that are taken: of this version and epoch, not seen before, not
        older than the window, authentic, and of acceptable length. */
    ghost predicate Acceptable(r: Record)
      reads this, window
      requires |r.sequence| == 8
    {
      var plain := cipher.open(r.typ, r.version, r.sequence, r.body);
      && VersionOk(cipher, r.version)
      && Get16(r.sequence, 0) == rEpoch
      && BigEndian(r.sequence) !in window.recorded
      && !TooOld(window.recorded, BigEndian(r.sequence))
      && plain.Some? && |plain.value| <= MAX_PLAIN
    }

    /** dtls_open_record.  A number is noted exactly when its record is accepted, so
        none is accepted twice and a forged record leaves the window as it is. */
    method OpenRecord(bs: seq<byte>) returns (r: Opened, consumed: nat)
      requires Valid()
      modifies window
      ensures Valid() && consumed <= |bs|
      ensures r.Accepted() <==>
                !readShutdown && ParseRecord(bs).Some? && old(Acceptable(ParseRecord(bs).value))
      ensures r.Accepted() ==>
                var rec := ParseRecord(bs).value;
                && Some(r.body) == cipher.open(rec.typ, rec.version, rec.sequence, rec.body)
                && (r.Success? ==> r.typ == rec.typ) && (r.Alert? <==> rec.typ == ALERT)
                && BigEndian(rec.sequence) !in old(window.recorded)
                && window.recorded == old(window.recorded) + {BigEndian(rec.sequence)}
                && consumed == |bs| - |rec.rest|
      ensures !r.Accepted() ==> window.recorded == old(window.recorded) && unchanged(window)
      ensures (r.CloseNotify? <==> readShutdown) && (r.Partial? <==> !readShutdown && bs == [])
      ensures bs != [] && (ParseRecord(bs).None? || !VersionOk(cipher, ParseRecord(bs).value.version)) && !readShutdown ==>
                r.Discard? && consumed == |bs|
      ensures ParseRecord(bs).Some? && VersionOk(cipher, ParseRecord(bs).value.version) && !readShutdown ==>
                var rec := ParseRecord(bs).value; var plain := cipher.open(rec.typ, rec.version, rec.sequence, rec.body);
                && consumed == |bs| - |rec.rest|
                && (r.Fail? <==> Get16(rec.sequence, 0) == rEpoch && BigEndian(rec.sequence) !in old(window.recorded)
                                 && !TooOld(old(window.recorded), BigEndian(rec.sequence)) && plain.Some? && |plain.value| > MAX_PLAIN)
    {
      if readShutdown {
        return CloseNotify, 0;
      }
      if bs == [] {
        return Partial, 0;
      }
      var parsed := ParseRecord(bs);
      if parsed.None? {
        return Discard, |bs|;
      }
      var rec := parsed.value;
      if !VersionOk(cipher, rec.version) {
        return Discard, |bs|;
      }
      consumed := |bs| - |rec.rest|;
      var stale := window.ShouldDiscard(rec.sequence);
      if Get16(rec.sequence, 0) != rEpoch || stale {
        return Discard, consumed;
      }
      var plain := cipher.open(rec.typ, rec.version, rec.sequence, rec.body);
      if plain.None? {
        return Discard, consumed;
      }
      if |plain.value| > MAX_PLAIN {
        return Fail, consumed;
      }
      window.Record(rec.sequence);
      r := if rec.typ == ALERT then Alert(plain.value) else Success(rec.typ, plain.value);
    }

    /** dtls1_set_read_state: a new epoch starts with an empty window, unless handshake
        data of the old one is still waiting. */
    method SetReadState(next: Cipher, unprocessed: bool) returns (ok: bool)
      requires Valid()
      modifies this, window
      ensures Valid() && ok == !unprocessed
      ensures ok ==> rEpoch == (old(rEpoch) + 1) % 0x1_0000 && cipher == next && window.recorded == {}
      ensures !ok ==> unchanged(this) && unchanged(window)
    {
      if unprocessed {
        return false;
      }
      rEpoch := (rEpoch + 1) % 0x1_0000;
      window.Reset();
      cipher := next;
      ok := true;
    }
  }
}
