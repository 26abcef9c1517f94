/** The TLS write path of s3_both.cc and s3_pkt.cc: sealed records wait in two queues,
    the pending handshake flight and the write buffer, while the transport accepts what
    it likes. */
module TlsWrite {
  import opened Common
  import opened TlsBuffer

  const CHANGE_CIPHER_SPEC: byte := 20
  const ALERT: byte := 21
  const HANDSHAKE: byte := 22
  const APPLICATION_DATA: byte := 23
  const MAX_PLAIN: nat := 16384
  const INT_MAX: nat := 0x7FFF_FFFF

  // ----- sealed records -----

  /** A record and the call to the record protection, counted from zero, that made it. */
  datatype Sealed = Sealed(call: nat, typ: byte, plain: seq<byte>, bytes: seq<byte>)

  /** The bytes of the records in the order they were sealed. */
  function Wire(records: seq<Sealed>): seq<byte> {
    if records == [] then [] else Wire(records[..|records| - 1]) + records[|records| - 1].bytes
  }

  /** The plaintext of the records of one type, in the order they were sealed. */
  function PlainOf(records: seq<Sealed>, typ: byte): seq<byte> {
    if records == [] then []
    else
      var r := records[|records| - 1];
      PlainOf(records[..|records| - 1], typ) + if r.typ == typ then r.plain else []
  }

  lemma WireMore(records: seq<Sealed>, r: Sealed)
    ensures Wire(records + [r]) == Wire(records) + r.bytes
  {
    assert (records + [r])[..|records|] == records;
  }

  lemma PlainMore(records: seq<Sealed>, r: Sealed, typ: byte)
    ensures PlainOf(records + [r], typ) == if r.typ == typ then PlainOf(records, typ) + r.plain else PlainOf(records, typ)
  {
    assert (records + [r])[..|records|] == records;
  }

  /** Bytes added at the end of the last queue. */
  lemma AddedLast(written: seq<byte>, contents: seq<byte>, unsent: seq<byte>, c: seq<byte>)
    ensures written + contents + (unsent + c) == written + contents + unsent + c
  {
  }

  /** Bytes moved from the front of one queue to the end of the one before. */
  lemma Moved(a: seq<byte>, b: seq<byte>, r: nat)
    requires r <= |b|
    ensures a + b[..r] + b[r..] == a + b
  {
    assert b[..r] + b[r..] == b;
  }

  /** Bytes written, with nothing in the queue between. */
  lemma MovedToWire(written: seq<byte>, unsent: seq<byte>, r: nat)
    requires r <= |unsent|
    ensures written + unsent[..r] + [] + unsent[r..] == written + [] + unsent
  {
    Moved(written, unsent, r);
    assert written + [] == written && written + unsent[..r] + [] == written + unsent[..r];
  }

  lemma Within(s: seq<byte>, a: nat, b: nat, c: nat, d: nat)
    requires a <= b <= |s| && c <= d <= b - a
    ensures s[a..b][c..d] == s[a + c..a + d]
  {
    var x, y := s[a..b][c..d], s[a + c..a + d];
    forall k | 0 <= k < d - c ensures x[k] == y[k] {
    }
  }

  lemma Dropped(s: seq<byte>, a: nat, b: nat)
    requires a + b <= |s|
    ensures s[a..][b..] == s[a + b..]
  {
  }

  // ----- the transport -----

  /** A stream BIO: how much it takes of what it is offered is up to the environment. */
  class StreamBio {
    const writeResult: nat -> int
    const flushResult: nat -> int
    var calls: nat
    ghost var written: seq<byte>

    /** Offered |len| bytes from call number |call| on, the BIO takes them all before it blocks. */
    ghost predicate Takes(call: nat, len: nat)
      decreases len
    {
      len == 0 || (writeResult(call) > 0 && (writeResult(call) >= len || Takes(call + 1, len - writeResult(call))))
    }

    /** The number of calls until it has taken them or has blocked. */
    ghost function CallsFor(call: nat, len: nat): nat
      decreases len
    {
      if len == 0 then 0
      else if writeResult(call) <= 0 || writeResult(call) >= len then 1
      else 1 + CallsFor(call + 1, len - writeResult(call))
    }

    lemma NothingToTake()
      ensures forall call :: Takes(call, 0) && CallsFor(call, 0) == 0
    {
    }

    constructor (writeResult: nat -> int, flushResult: nat -> int)
      ensures written == [] && calls == 0 && this.writeResult == writeResult && this.flushResult == flushResult
    {
      this.writeResult, this.flushResult, calls, written := writeResult, flushResult, 0, [];
    }

    method Write(data: seq<byte>) returns (r: int)
      modifies this
      ensures r == (if writeResult(old(calls)) > |data| then |data| else writeResult(old(calls)))
      ensures calls == old(calls) + 1
      ensures written == if r > 0 then old(written) + data[..r] else old(written)
    {
      r := writeResult(calls);
      if r > |data| {
        r := |data|;
      }
      calls := calls + 1;
      if r > 0 {
        written := written + data[..r];
      }
    }

    method Flush() returns (r: int)
      modifies this
      ensures written == old(written) && r == flushResult(old(calls))
    {
      r := flushResult(calls);
      calls := calls + 1;
    }
  }

  class TlsWriter {
    const bio: StreamBio
    const buffer: SSLBuffer
    /** Record protection; the first argument numbers the calls. */
    const seal: (nat, byte, seq<byte>) -> Option<seq<byte>>
    /** Where malloc puts a buffer, if it does; the argument is the number of the call to |seal|. */
    const malloc: nat -> Option<nat>
    const maxOverhead: nat
    const alignPrefix: nat
    const maxSendFragment: nat
    const movingBuffer: bool
    const partialWrite: bool

    var seals: nat
    var pendingFlight: Option<seq<byte>>
    var flightOffset: nat
    var wnum: nat
    var wpendTot: nat
    var wpendBuf: nat
    var wpendType: byte
    var wpendRet: nat
    var wpendPending: bool
    var writeShutdown: bool
    var alertDispatch: bool
    var sendAlert: seq<byte>
    var canEarlyWrite: bool
    var maxEarlyData: nat
    var earlyDataWritten: nat

    /** The sum of what calls to write application data have reported as written. */
    ghost var acked: nat
    /** Every record sealed so far. */
    ghost var sealed: seq<Sealed>
    /** The offset of the write buffer has wrapped around with contents left in it. */
    ghost var lost: bool
    /** A write has been prepared that needs more than the 16-bit offset can address. */
    ghost var oversized: bool
    /** The early data sealed so far, and that of it which is still to be flushed. */
    ghost var earlySealed: nat
    ghost var earlyPending: nat

    ghost predicate Valid()
      reads this`pendingFlight, this`flightOffset, this`seals, this`sealed, this`lost, this`oversized
      reads this`wpendPending, this`wpendRet, this`wpendTot, this`wpendType
      reads this`maxEarlyData, this`earlySealed, this`earlyPending
      reads buffer, buffer.buf, bio`written
    {
      && buffer.Valid()
      && flightOffset <= |Flight()|
      && maxSendFragment > 0
      && (wpendPending ==> wpendRet == wpendTot > 0)
      && (buffer.size == 0 ==> buffer.offset < ALIGN)
      && earlySealed <= maxEarlyData && (earlyPending > 0 ==> earlyPending == Pend())
      && (!lost ==> Conserved())
      && (!oversized ==> buffer.Addressable() && !lost)
      && Genuine(sealed, seals)
    }

    /** The bytes of every record are what the record protection made of its type and its
        plaintext, at a call of its own among the first |calls|, in the order of the calls. */
    ghost predicate Genuine(records: seq<Sealed>, calls: nat) {
      && (forall i | 0 <= i < |records| ::
            records[i].call < calls && seal(records[i].call, records[i].typ, records[i].plain) == Some(records[i].bytes))
      && forall i, j | 0 <= i < j < |records| :: records[i].call < records[j].call
    }

    lemma GenuineMore(records: seq<Sealed>, r: Sealed)
      requires Genuine(records, r.call) && seal(r.call, r.typ, r.plain) == Some(r.bytes)
      ensures Genuine(records + [r], r.call + 1)
    {
    }

    lemma GenuineStill(records: seq<Sealed>, calls: nat)
      requires Genuine(records, calls)
      ensures Genuine(records, calls + 1)
    {
    }

    /** What is sealed and what is written only grows, by records of type |typ|. */
    twostate predicate Onward(typ: byte)
      reads this`sealed, bio`written
    {
      && old(bio.written) <= bio.written && old(sealed) <= sealed
      && forall i | |old(sealed)| <= i < |sealed| :: sealed[i].typ == typ
    }

    /** Call |n| to the record protection makes a record that is not too long. */
    ghost predicate ProtectsAt(n: nat, typ: byte, input: seq<byte>) {
      var out := seal(n, typ, input);
      out.Some? && |out.value| <= |input| + maxOverhead
    }

    /** The next call does. */
    ghost predicate Protects(typ: byte, input: seq<byte>)
      reads this`seals
    {
      ProtectsAt(seals, typ, input)
    }

    /** The record that it makes. */
    ghost function NextRecord(typ: byte, input: seq<byte>): Sealed
      reads this`seals
      requires Protects(typ, input)
    {
      Sealed(seals, typ, input, seal(seals, typ, input).value)
    }

    /** Early data is counted: what has been sealed has been written or is pending. */
    ghost predicate EarlyCounted()
      reads this`canEarlyWrite, this`earlySealed, this`earlyDataWritten, this`earlyPending
      reads this`wpendPending, this`wpendType, this`wpendTot
    {
      canEarlyWrite ==> earlyPending == Pend() && earlySealed == earlyDataWritten + earlyPending
    }

    /** A record of |len| bytes, its overhead and the pending flight can be addressed with
        16 bits wherever in its first seven bytes the buffer begins. */
    ghost predicate Fits(len: nat)
      reads this`pendingFlight, this`flightOffset
      requires flightOffset <= |Flight()|
    {
      len + maxOverhead + FlightLen() <= U16 - ALIGN + 1
    }

    function Flight(): seq<byte>
      reads this`pendingFlight
    {
      if pendingFlight.Some? then pendingFlight.value else []
    }

    /** The part of the pending flight that has not been written. */
    function Unsent(): seq<byte>
      reads this`pendingFlight, this`flightOffset
      requires flightOffset <= |Flight()|
    {
      Flight()[flightOffset..]
    }

    /** The bytes a write has to make room for, besides its own record. */
    function FlightLen(): nat
      reads this`pendingFlight, this`flightOffset
      requires flightOffset <= |Flight()|
    {
      |Unsent()|
    }

    /** Wire order is sealing order: what has been written, what is in the write buffer
        and what is pending are together exactly the records sealed. */
    ghost predicate Conserved()
      reads this`pendingFlight, this`flightOffset, this`sealed, buffer, buffer.buf, bio`written
      requires buffer.Valid() && flightOffset <= |Flight()|
    {
      bio.written + buffer.Contents() + Unsent() == Wire(sealed)
    }

    constructor (bio: StreamBio, seal: (nat, byte, seq<byte>) -> Option<seq<byte>>, malloc: nat -> Option<nat>,
                 maxOverhead: nat, alignPrefix: nat, maxSendFragment: nat, movingBuffer: bool, partialWrite: bool,
                 maxEarlyData: nat)
      requires bio.written == [] && maxSendFragment > 0
      ensures Valid() && EarlyCounted() && fresh(buffer) && this.bio == bio && sealed == [] && !oversized
      ensures wnum == 0 && acked == 0 && !wpendPending && !writeShutdown
      ensures this.seal == seal && this.malloc == malloc && this.partialWrite == partialWrite
      ensures buffer.size == buffer.cap == 0 && buffer.buf == null
      ensures canEarlyWrite == (maxEarlyData > 0) && seals == 0
      ensures this.maxSendFragment == maxSendFragment && this.maxOverhead == maxOverhead && FlightLen() == 0
    {
      this.bio, this.seal, this.malloc := bio, seal, malloc;
      this.maxOverhead, this.alignPrefix, acked := maxOverhead, alignPrefix, 0;
      this.maxSendFragment, this.movingBuffer, this.partialWrite := maxSendFragment, movingBuffer, partialWrite;
      this.maxEarlyData, earlyDataWritten, canEarlyWrite := maxEarlyData, 0, maxEarlyData > 0;
      buffer := new SSLBuffer();
      seals, pendingFlight, flightOffset := 0, None, 0;
      wnum, wpendTot, wpendBuf, wpendType, wpendRet, wpendPending := 0, 0, 0, 0, 0, false;
      writeShutdown, alertDispatch, sendAlert := false, false, [];
      sealed, lost, oversized, earlySealed, earlyPending := [], false, false, 0, 0;
    }

    // ----- the pending flight -----

    /** A record has been sealed onto the end of the pending flight. */
    lemma FlightGrows(before: seq<Sealed>, unsent: seq<byte>, r: Sealed)
      requires buffer.Valid() && flightOffset <= |Flight()|
      requires bio.written + buffer.Contents() + unsent == Wire(before)
      requires sealed == before + [r] && Unsent() == unsent + r.bytes
      ensures Conserved()
    {
      hide SSLBuffer.Contents, Flight;
      WireMore(before, r);
      AddedLast(bio.written, buffer.Contents(), unsent, r.bytes);
    }

    /** The buffer for the pending flight is there, if empty. */
    method StartFlight()
      requires Valid()
      modifies this`pendingFlight
      ensures Valid() && pendingFlight.Some? && Flight() == old(Flight())
    {
      hide Wire, SSLBuffer.Contents, SSLBuffer.Valid, SSLBuffer.Addressable, Genuine;
      if pendingFlight.None? {
        pendingFlight := Some([]);
      }
    }

    /** add_record_to_flight. */
    method AddRecordToFlight(typ: byte, input: seq<byte>) returns (ok: bool)
      requires Valid()
      modifies this`seals, this`pendingFlight, this`sealed
      ensures Valid() && pendingFlight.Some? && ok == old(Protects(typ, input))
      ensures sealed == if ok then old(sealed) + [old(NextRecord(typ, input))] else old(sealed)
    {
      hide Wire, PlainOf, SSLBuffer.Contents, SSLBuffer.Valid, SSLBuffer.Addressable, Conserved, Genuine;
      StartFlight();
      var out := seal(seals, typ, input);
      GenuineStill(sealed, seals);
      seals := seals + 1;
      if out.None? || |out.value| > |input| + maxOverhead {
        return false;
      }
      ghost var before, unsent, r := sealed, Unsent(), old(NextRecord(typ, input));
      if !lost {
        ConservedMeans();
      }
      GenuineMore(before, r);
      sealed := before + [r];
      pendingFlight := Some(Flight() + out.value);
      assert Unsent() == unsent + out.value;
      if !lost {
        FlightGrows(before, unsent, r);
      }
      ok := true;
    }

    /** The handshake records |more| hold |msg|, none more than a fragment of it. */
    ghost predicate Splits(more: seq<Sealed>, msg: seq<byte>) {
      && PlainOf(more, HANDSHAKE) == msg
      && forall i | 0 <= i < |more| :: more[i].typ == HANDSHAKE && |more[i].plain| <= maxSendFragment
    }

    lemma SplitsMore(more: seq<Sealed>, msg: seq<byte>, r: Sealed)
      requires Splits(more, msg) && r.typ == HANDSHAKE && |r.plain| <= maxSendFragment
      ensures Splits(more + [r], msg + r.plain)
    {
      PlainMore(more, r, HANDSHAKE);
    }

    /** ssl3_add_message: a message goes into as many records as it needs, an empty one
        into a single record. */
    method AddMessage(msg: seq<byte>) returns (ok: bool, ghost more: seq<Sealed>)
      requires Valid()
      modifies this`seals, this`pendingFlight, this`sealed
      ensures Valid() && sealed == old(sealed) + more
      ensures ok ==> Splits(more, msg) && more != []
      ensures (forall n, plain | |plain| <= maxSendFragment :: ProtectsAt(n, HANDSHAKE, plain)) ==> ok
      ensures PlainOf(sealed, APPLICATION_DATA) == old(PlainOf(sealed, APPLICATION_DATA))
    {
      hide Wire, PlainOf, Conserved, Genuine;
      more := [];
      ghost var done: seq<byte> := [];
      assert Splits(more, done) by { EmptySplits(); }
      var rest, first := msg, true;
      while first || rest != []
        invariant Valid() && sealed == old(sealed) + more
        invariant done + rest == msg && Splits(more, done) && (first || more != [])
        invariant PlainOf(sealed, APPLICATION_DATA) == old(PlainOf(sealed, APPLICATION_DATA))
        decreases |rest|, first
      {
        var n := if |rest| < maxSendFragment then |rest| else maxSendFragment;
        var chunk := rest[..n];
        assert done + chunk + rest[n..] == msg by { Moved(done, rest, n); }
        rest, first := rest[n..], false;
        ghost var before := sealed;
        ok := AddRecordToFlight(HANDSHAKE, chunk);
        if !ok {
          return;
        }
        ghost var r := sealed[|before|];
        PlainMore(before, r, APPLICATION_DATA);
        SplitsMore(more, done, r);
        more, done := more + [r], done + chunk;
      }
      ok := true;
    }

    lemma EmptySplits()
      ensures Splits([], [])
    {
    }

    /** ssl3_add_change_cipher_spec. */
    method AddChangeCipherSpec() returns (ok: bool)
      requires Valid()
      modifies this`seals, this`pendingFlight, this`sealed
      ensures Valid() && pendingFlight.Some? && ok == old(Protects(CHANGE_CIPHER_SPEC, [1]))
      ensures sealed == if ok then old(sealed) + [old(NextRecord(CHANGE_CIPHER_SPEC, [1]))] else old(sealed)
    {
      ok := AddRecordToFlight(CHANGE_CIPHER_SPEC, [1]);
    }

    /** ssl3_add_alert. */
    method AddAlert(level: byte, desc: byte) returns (ok: bool)
      requires Valid()
      modifies this`seals, this`pendingFlight, this`sealed
      ensures Valid() && pendingFlight.Some? && ok == old(Protects(ALERT, [level, desc]))
      ensures sealed == if ok then old(sealed) + [old(NextRecord(ALERT, [level, desc]))] else old(sealed)
    {
      ok := AddRecordToFlight(ALERT, [level, desc]);
    }

    // ----- draining -----

    /** Part of the write buffer has been written. */
    lemma Drained(written: seq<byte>, contents: seq<byte>, r: nat)
      requires buffer.Valid() && flightOffset <= |Flight()| && r <= |contents|
      requires written + contents + Unsent() == Wire(sealed)
      requires bio.written == written + contents[..r] && buffer.Contents() == contents[r..]
      ensures Conserved()
    {
      hide Wire, SSLBuffer.Contents;
      Moved(written, contents, r);
    }

    /** One round of tls_write_buffer_flush. */
    method WriteSome() returns (r: int)
      requires buffer.Valid() && buffer.size > 0 && flightOffset <= |Flight()| && (!lost ==> Conserved())
      modifies this`lost, buffer`offset, buffer`size, buffer`cap, bio
      ensures buffer.Valid() && (!lost ==> Conserved())
      ensures old(buffer.Addressable()) ==> lost == old(lost) && (buffer.size != 0 ==> buffer.Addressable())
      ensures bio.calls == old(bio.calls) + 1 && old(bio.written) <= bio.written
      ensures r == (if bio.writeResult(old(bio.calls)) > old(buffer.size) then old(buffer.size) else bio.writeResult(old(bio.calls)))
      ensures if r > 0 then buffer.size == old(buffer.size) - r
              else unchanged(buffer) && lost == old(lost)
    {
      hide Wire, SSLBuffer.Contents, Conserved, StreamBio.Takes, StreamBio.CallsFor;
      ghost var contents, before := buffer.Contents(), bio.written;
      if !lost {
        ConservedMeans();
      }
      r := bio.Write(buffer.Contents());
      if r <= 0 {
        return;
      }
      lost := lost || (buffer.offset + r >= U16 && r < buffer.size);
      buffer.Consume(r);
      assert buffer.Contents() == contents[r..] || lost;
      if !lost {
        Drained(before, contents, r);
      }
    }

    /** tls_write_buffer_flush. */
    method FlushWriteBuffer() returns (ret: int)
      requires Valid()
      modifies this`lost, buffer, bio
      ensures Valid() && (buffer.buf == old(buffer.buf) || buffer.buf == null)
      ensures old(bio.written) <= bio.written
      ensures ret > 0 ==> buffer.size == buffer.cap == 0
      ensures lost ==> old(lost) || !old(buffer.Addressable())
      ensures ret > 0 <==> bio.Takes(old(bio.calls), old(buffer.size))
      ensures bio.calls == old(bio.calls) + bio.CallsFor(old(bio.calls), old(buffer.size))
    {
      hide Wire, PlainOf, SSLBuffer.Contents, Conserved, Genuine;
      while buffer.size != 0
        invariant buffer.Valid() && buffer.buf == old(buffer.buf) && (!lost ==> Conserved())
        invariant old(buffer.Addressable()) ==> lost == old(lost) && (buffer.size != 0 ==> buffer.Addressable())
        invariant old(bio.written) <= bio.written
        invariant bio.Takes(old(bio.calls), old(buffer.size)) == bio.Takes(bio.calls, buffer.size)
        invariant old(bio.calls) + bio.CallsFor(old(bio.calls), old(buffer.size)) == bio.calls + bio.CallsFor(bio.calls, buffer.size)
        decreases buffer.size
      {
        var r := WriteSome();
        if r <= 0 {
          return r;
        }
      }
      assert buffer.Contents() == [];
      if !lost {
        ConservedMeans();
      }
      buffer.Clear();
      if !lost {
        Drained(bio.written, [], 0);
      }
      ret := 1;
    }

    lemma ConservedMeans()
      requires buffer.Valid() && flightOffset <= |Flight()| && Conserved()
      ensures bio.written + buffer.Contents() + Unsent() == Wire(sealed)
    {
    }

    /** Part of the flight has been written while the write buffer is empty. */
    lemma StillConserved(written: seq<byte>, unsent: seq<byte>, r: nat)
      requires buffer.Valid() && flightOffset <= |Flight()| && buffer.Contents() == [] && r <= |unsent|
      requires written + [] + unsent == Wire(sealed)
      requires bio.written == written + unsent[..r] && Unsent() == unsent[r..]
      ensures Conserved()
    {
      hide Wire;
      MovedToWire(written, unsent, r);
    }

    /** One round of the loop below. */
    method WriteFlightSome() returns (r: int)
      requires Valid() && pendingFlight.Some? && buffer.size == 0 && flightOffset < |Flight()|
      modifies this`flightOffset, bio
      ensures Valid() && bio.calls == old(bio.calls) + 1 && old(bio.written) <= bio.written
      ensures r == (if bio.writeResult(old(bio.calls)) > old(FlightLen()) then old(FlightLen()) else bio.writeResult(old(bio.calls)))
      ensures FlightLen() == old(FlightLen()) - (if r > 0 then r else 0)
    {
      hide Wire, PlainOf, SSLBuffer.Contents, SSLBuffer.Valid, SSLBuffer.Addressable, Conserved, Genuine,
           StreamBio.Takes, StreamBio.CallsFor;
      ghost var written, unsent := bio.written, Unsent();
      assert buffer.Contents() == [];
      if !lost {
        ConservedMeans();
      }
      r := bio.Write(pendingFlight.value[flightOffset..]);
      if r <= 0 {
        return;
      }
      Dropped(pendingFlight.value, flightOffset, r);
      flightOffset := flightOffset + r;
      assert bio.written == written + unsent[..r] && Unsent() == unsent[r..];
      if !lost {
        StillConserved(written, unsent, r);
      }
    }

    /** The loop of ssl3_flush_flight that writes the pending flight. */
    method WriteFlight() returns (ret: int)
      requires Valid() && pendingFlight.Some? && buffer.size == 0
      modifies this`flightOffset, bio
      ensures Valid() && (ret > 0 ==> Unsent() == []) && old(bio.written) <= bio.written
      ensures ret > 0 <==> bio.Takes(old(bio.calls), old(FlightLen()))
      ensures bio.calls == old(bio.calls) + bio.CallsFor(old(bio.calls), old(FlightLen()))
    {
      hide Wire, PlainOf, SSLBuffer.Contents, SSLBuffer.Valid, SSLBuffer.Addressable, Conserved, Genuine;
      while flightOffset < |pendingFlight.value|
        invariant Valid() && old(bio.written) <= bio.written
        invariant bio.Takes(old(bio.calls), old(FlightLen())) == bio.Takes(bio.calls, FlightLen())
        invariant old(bio.calls) + bio.CallsFor(old(bio.calls), old(FlightLen())) == bio.calls + bio.CallsFor(bio.calls, FlightLen())
        decreases |pendingFlight.value| - flightOffset
      {
        var r := WriteFlightSome();
        if r <= 0 {
          return r;
        }
      }
      ret := 1;
    }

    /** The BIO takes what is in the write buffer, then the pending flight, and flushes. */
    ghost predicate Flushes()
      reads this`pendingFlight, this`flightOffset, this`writeShutdown, buffer`size, bio`calls
      requires flightOffset <= |Flight()|
    {
      var atFlight := bio.calls + bio.CallsFor(bio.calls, buffer.size);
      && !writeShutdown && |Flight()| <= INT_MAX
      && bio.Takes(bio.calls, buffer.size) && bio.Takes(atFlight, FlightLen())
      && bio.flushResult(atFlight + bio.CallsFor(atFlight, FlightLen())) > 0
    }

    /** With both queues empty, everything sealed has been written. */
    lemma NothingLeft()
      requires buffer.Valid() && flightOffset <= |Flight()| && buffer.Contents() == Unsent() == []
      ensures Conserved() <==> bio.written == Wire(sealed)
    {
      hide Wire;
      assert bio.written + [] + [] == bio.written;
    }

    /** ssl3_flush_flight: the write buffer goes first, then the flight; on success both are empty. */
    method FlushFlight() returns (ret: int)
      requires Valid()
      modifies this`pendingFlight, this`flightOffset, this`lost, buffer, bio
      ensures Valid() && (buffer.buf == old(buffer.buf) || buffer.buf == null)
      ensures ret > 0 ==> pendingFlight.None?
      ensures ret > 0 && old(pendingFlight).Some? ==> buffer.size == 0 && (!lost ==> bio.written == Wire(sealed))
      ensures old(bio.written) <= bio.written && (lost ==> old(lost) || !old(buffer.Addressable()))
      ensures ret > 0 <==> old(pendingFlight.None? || Flushes())
    {
      hide Wire, PlainOf, SSLBuffer.Contents, SSLBuffer.Valid, Conserved, Genuine, StreamBio.Takes, StreamBio.CallsFor;
      if pendingFlight.None? {
        return 1;
      }
      if writeShutdown || |pendingFlight.value| > INT_MAX {
        return -1;
      }
      bio.NothingToTake();
      if buffer.size != 0 {
        ret := FlushWriteBuffer();
        if ret <= 0 {
          return;
        }
      }
      ret := WriteFlight();
      if ret <= 0 {
        return;
      }
      var flushed := bio.Flush();
      if flushed <= 0 {
        return -1;
      }
      assert buffer.Contents() == [];
      if !lost {
        NothingLeft();
      }
      pendingFlight, flightOffset := None, 0;
      if !lost {
        NothingLeft();
      }
      ret := 1;
    }

    // ----- records of their own -----

    /** A retry must be with at least as much data, of the same type, and from the same
        place unless it may move. */
    predicate Refused(typ: byte, addr: nat, len: nat)
      reads this`wpendTot, this`wpendBuf, this`wpendType
    {
      wpendTot > len || (!movingBuffer && wpendBuf != addr) || wpendType != typ
    }

    /** ssl3_write_pending: what was sealed before is flushed; the caller must offer at least
        as much data of the same type again, and from the same place unless it may move. */
    method WritePending(typ: byte, addr: nat, len: nat) returns (ret: int)
      requires Valid() && wpendPending
      modifies this`wpendPending, this`earlyPending, this`lost, buffer, bio
      ensures Valid() && (buffer.buf == old(buffer.buf) || buffer.buf == null)
      ensures Refused(typ, addr, len) ==> ret == -1 && bio.written == old(bio.written) && buffer.Contents() == old(buffer.Contents())
      ensures ret > 0 ==> !wpendPending && ret == wpendRet && buffer.size == buffer.cap == 0 && earlyPending == 0
      ensures ret <= 0 ==> wpendPending && earlyPending == old(earlyPending)
      ensures ret > 0 <==> !Refused(typ, addr, len) && bio.Takes(old(bio.calls), old(buffer.size))
      ensures !Refused(typ, addr, len) ==> bio.calls == old(bio.calls) + bio.CallsFor(old(bio.calls), old(buffer.size))
      ensures old(bio.written) <= bio.written
    {
      hide Wire, PlainOf, SSLBuffer.Contents, Genuine, StreamBio.Takes, StreamBio.CallsFor;
      if Refused(typ, addr, len) {
        return -1;
      }
      ret := FlushWriteBuffer();
      if ret <= 0 {
        return;
      }
      wpendPending, earlyPending := false, 0;
      ret := wpendRet;
    }

    /** What is pending is moved to the write buffer, so that it goes out first. */
    method MoveFlight()
      requires Valid() && buffer.size == 0 && FlightLen() <= buffer.cap
      requires buffer.offset + FlightLen() <= U16 || oversized
      modifies this`pendingFlight, this`flightOffset, buffer`size, buffer.buf
      ensures Valid() && pendingFlight.None?
      ensures buffer.size == old(FlightLen())
    {
      hide Wire, PlainOf, SSLBuffer.Contents, Genuine;
      if pendingFlight.Some? {
        buffer.Append(Unsent());
        pendingFlight, flightOffset := None, 0;
      }
    }

    /** A record has been sealed onto the end of the write buffer. */
    lemma BufferGrows(before: seq<Sealed>, contents: seq<byte>, r: Sealed)
      requires buffer.Valid() && flightOffset <= |Flight()| && Unsent() == []
      requires bio.written + contents + [] == Wire(before)
      requires sealed == before + [r] && buffer.Contents() == contents + r.bytes
      ensures Conserved()
    {
      hide SSLBuffer.Contents, Flight;
      WireMore(before, r);
      assert bio.written + contents + [] == bio.written + contents;
      assert bio.written + (contents + r.bytes) + [] == bio.written + contents + r.bytes;
    }

    /** Seals a record into the rest of the write buffer. */
    method SealIntoBuffer(typ: byte, input: seq<byte>) returns (ok: bool)
      requires Valid() && pendingFlight.None? && input != [] && !wpendPending
      requires buffer.offset + buffer.size + |input| + maxOverhead <= U16 || oversized
      requires |input| + maxOverhead <= buffer.cap - buffer.size
      modifies this`seals, this`sealed, buffer`size, buffer.buf
      ensures Valid() && ok == old(Protects(typ, input)) && seals == old(seals) + 1
      ensures if !ok then sealed == old(sealed)
              else var r := old(NextRecord(typ, input)); sealed == old(sealed) + [r] && buffer.size == old(buffer.size) + |r.bytes|
    {
      hide Wire, PlainOf, SSLBuffer.Contents, Conserved, Genuine;
      var out := seal(seals, typ, input);
      GenuineStill(sealed, seals);
      seals := seals + 1;
      if out.None? || |out.value| > |input| + maxOverhead {
        return false;
      }
      ghost var before, contents, r := sealed, buffer.Contents(), old(NextRecord(typ, input));
      if !lost {
        ConservedMeans();
      }
      GenuineMore(before, r);
      sealed := before + [r];
      buffer.Append(out.value);
      if !lost {
        BufferGrows(before, contents, r);
      }
      ok := true;
    }

    /** There is room for a record behind what is pending, and the record can be made. */
    ghost predicate CanSeal(typ: byte, input: seq<byte>)
      reads this`pendingFlight, this`flightOffset, this`seals, buffer`cap
      requires flightOffset <= |Flight()|
    {
      var maxOut := |input| + maxOverhead + FlightLen();
      maxOut < U16 && (buffer.cap >= maxOut || malloc(seals).Some?) && Protects(typ, input)
    }

    /** Makes room for a record and seals it behind whatever is pending. */
    method SealNext(typ: byte, input: seq<byte>) returns (ok: bool)
      requires Valid() && buffer.size == 0 && input != [] && !wpendPending
      modifies this`pendingFlight, this`flightOffset, this`seals, this`sealed, this`oversized, buffer, buffer.buf
      ensures Valid() && (buffer.buf == old(buffer.buf) || fresh(buffer.buf)) && ok == old(CanSeal(typ, input))
      ensures if !ok then sealed == old(sealed)
              else var r := old(NextRecord(typ, input));
                   && sealed == old(sealed) + [r] && seals == old(seals) + 1
                   && pendingFlight.None? && buffer.size == old(FlightLen()) + |r.bytes|
      ensures old(Fits(|input|)) ==> oversized == old(oversized)
      ensures FlightLen() <= old(FlightLen())
    {
      hide Wire, PlainOf, SSLBuffer.Contents, Genuine;
      var flightLen := FlightLen();
      var maxOut := |input| + maxOverhead + flightLen;
      ok := buffer.EnsureCap(flightLen + alignPrefix, maxOut, malloc(seals));
      if !ok {
        return;
      }
      oversized := oversized || buffer.offset + maxOut > U16;
      MoveFlight();
      ok := SealIntoBuffer(typ, input);
    }

    /** The arguments of a write, for a retry. */
    method Remember(typ: byte, len: nat, addr: nat, ghost early: bool)
      requires Valid() && !wpendPending && len > 0
      requires early ==> typ == APPLICATION_DATA && earlySealed + len <= maxEarlyData
      modifies this`wpendTot, this`wpendBuf, this`wpendType, this`wpendRet, this`wpendPending
      modifies this`earlySealed, this`earlyPending
      ensures Valid() && wpendPending && wpendTot == wpendRet == len && wpendType == typ && wpendBuf == addr
      ensures earlySealed == old(earlySealed) + (if early then len else 0) && earlyPending == if early then len else 0
    {
      hide Wire, PlainOf, SSLBuffer.Contents, SSLBuffer.Valid, Conserved, Genuine;
      if early {
        earlySealed, earlyPending := earlySealed + len, len;
      }
      wpendTot, wpendBuf, wpendType, wpendRet, wpendPending := len, addr, typ, len, true;
    }

    /** A record is sealed for |input|: nothing is left over from another record. */
    ghost predicate CanWrite(typ: byte, input: seq<byte>)
      reads this`pendingFlight, this`flightOffset, this`seals, this`wpendPending, buffer`size, buffer`cap
      requires flightOffset <= |Flight()|
    {
      !wpendPending && buffer.size == 0 && 0 < |input| <= MAX_PLAIN && CanSeal(typ, input)
    }

    /** do_ssl3_write; |early| marks early data. */
    method DoWrite(typ: byte, input: seq<byte>, addr: nat, ghost early: bool) returns (ret: int)
      requires Valid() && (early ==> typ == APPLICATION_DATA)
      requires early && !wpendPending ==> earlySealed + |input| <= maxEarlyData
      modifies this`pendingFlight, this`flightOffset, this`seals, this`sealed, this`lost, this`oversized
      modifies this`wpendTot, this`wpendBuf, this`wpendType, this`wpendRet, this`wpendPending
      modifies this`earlySealed, this`earlyPending, buffer, buffer.buf, bio
      ensures Valid() && (buffer.buf == old(buffer.buf) || buffer.buf == null || fresh(buffer.buf))
      ensures old(Fits(|input|)) ==> oversized == old(oversized)
      ensures FlightLen() <= old(FlightLen()) && old(bio.written) <= bio.written
      ensures ret > 0 ==> !wpendPending && buffer.size == buffer.cap == 0 && earlyPending == 0
      ensures old(wpendPending) ==>
                && sealed == old(sealed) && earlySealed == old(earlySealed)
                && wpendTot == old(wpendTot) && wpendType == old(wpendType)
                && (ret > 0 <==> !old(Refused(typ, addr, |input|)) && bio.Takes(old(bio.calls), old(buffer.size)))
                && seals == old(seals) && FlightLen() == old(FlightLen())
                && (ret > 0 ==> ret == wpendTot && bio.calls == old(bio.calls) + bio.CallsFor(old(bio.calls), old(buffer.size)))
                && (ret <= 0 ==> wpendPending && earlyPending == old(earlyPending))
      ensures !old(wpendPending) && !old(CanWrite(typ, input)) ==>
                ret <= 0 && !wpendPending && sealed == old(sealed) && earlySealed == old(earlySealed)
      ensures old(CanWrite(typ, input)) ==>
                var r := old(NextRecord(typ, input)); var len := old(FlightLen()) + |r.bytes|;
                && sealed == old(sealed) + [r] && seals == old(seals) + 1 && FlightLen() == 0
                && earlySealed == old(earlySealed) + (if early then |input| else 0)
                && (ret > 0 <==> bio.Takes(old(bio.calls), len)) && bio.calls == old(bio.calls) + bio.CallsFor(old(bio.calls), len)
                && (ret > 0 ==> ret == |input|)
                && (ret <= 0 ==> wpendPending && wpendTot == |input| && wpendType == typ
                                 && earlyPending == if early then |input| else 0)
    {
      hide Wire, PlainOf, SSLBuffer.Contents, SSLBuffer.Valid, Conserved, Genuine, StreamBio.Takes, StreamBio.CallsFor, Protects;
      if wpendPending {
        ret := WritePending(typ, addr, |input|);
        return;
      }
      if |input| > MAX_PLAIN || buffer.size > 0 {
        return -1;
      }
      if |input| == 0 {
        return 0;
      }
      var ok := SealNext(typ, input);
      if !ok {
        return -1;
      }
      Remember(typ, |input|, addr, early);
      ret := WritePending(typ, addr, |input|);
    }

    // ----- application data -----

    /** Application data that has been sealed but not been reported as written. */
    function Pend(): nat
      reads this`wpendPending, this`wpendType, this`wpendTot
    {
      if wpendPending && wpendType == APPLICATION_DATA then wpendTot else 0
    }

    /** Of the caller's data just the first bytes have been sealed, each in one record:
        those reported, |tot| more that are flushed, and those of a record still pending. */
    ghost predicate PrefixAt(data: seq<byte>, tot: nat)
      reads this`acked, this`sealed, this`wpendPending, this`wpendType, this`wpendTot
    {
      var n := acked + tot + Pend();
      n <= |data| && PlainOf(sealed, APPLICATION_DATA) == data[..n]
    }

    /** Between calls |wnum| notes what has been flushed but not reported. */
    ghost predicate SealedPrefix(data: seq<byte>)
      reads this
    {
      PrefixAt(data, wnum)
    }

    /** The caller offers the data that follows what was reported. */
    ghost predicate Follows(data: seq<byte>, input: seq<byte>, len: nat)
      reads this`acked
      requires len <= |input|
    {
      acked + len <= |data| && input[..len] == data[acked..acked + len]
    }

    /** One more record of the caller's data. */
    lemma PrefixGrows(before: seq<Sealed>, data: seq<byte>, done: nat, r: Sealed)
      requires done + |r.plain| <= |data| && r.typ == APPLICATION_DATA
      requires PlainOf(before, APPLICATION_DATA) == data[..done] && r.plain == data[done..done + |r.plain|]
      ensures PlainOf(before + [r], APPLICATION_DATA) == data[..done + |r.plain|]
    {
      hide PlainOf;
      PlainMore(before, r, APPLICATION_DATA);
    }

    lemma SamePart(data: seq<byte>, input: seq<byte>, from: nat, len: nat, tot: nat, n: nat)
      requires len <= |input| && from + len <= |data| && input[..len] == data[from..from + len] && tot + n <= len
      ensures input[tot..tot + n] == data[from + tot..from + tot + n]
    {
      Within(input, 0, len, tot, tot + n);
      Within(data, from, from + len, tot, tot + n);
      assert input[0..len] == input[..len];
    }

    /** A record sealed from the caller's data after what was sealed before. */
    lemma ChunkSealed(before: seq<Sealed>, data: seq<byte>, input: seq<byte>, len: nat, tot: nat, r: Sealed)
      requires len <= |input| && Follows(data, input, len) && tot + |r.plain| <= len
      requires r.typ == APPLICATION_DATA && r.plain == input[tot..tot + |r.plain|]
      requires PlainOf(before, APPLICATION_DATA) == data[..acked + tot]
      ensures PlainOf(before + [r], APPLICATION_DATA) == data[..acked + tot + |r.plain|]
    {
      hide PlainOf;
      SamePart(data, input, acked, len, tot, |r.plain|);
      PrefixGrows(before, data, acked + tot, r);
    }

    /** At call |n| to the record protection and |call| to the BIO, with |flight| bytes pending and
        a buffer of |cap| bytes, a writer that waits for nothing seals |chunk|, and the BIO takes it. */
    ghost predicate Goes(n: nat, call: nat, flight: nat, cap: nat, chunk: seq<byte>) {
      var out, maxOut := seal(n, APPLICATION_DATA, chunk), |chunk| + maxOverhead + flight;
      && 0 < |chunk| <= MAX_PLAIN && maxOut < U16 && (cap >= maxOut || malloc(n).Some?)
      && ProtectsAt(n, APPLICATION_DATA, chunk) && bio.Takes(call, flight + |out.value|)
    }

    /** How much of |data| goes out, record by record, before the first that does not. */
    ghost function Flushed(n: nat, call: nat, flight: nat, cap: nat, data: seq<byte>): (f: nat)
      requires maxSendFragment > 0
      ensures f <= |data|
      decreases |data|
    {
      var len := if |data| > maxSendFragment then maxSendFragment else |data|;
      if !Goes(n, call, flight, cap, data[..len]) then 0
      else if partialWrite || len == |data| then len
      else len + Flushed(n + 1, CallAfter(n, call, flight, data[..len]), 0, 0, data[len..])
    }

    /** The number of the call to the BIO that follows when it has taken the record. */
    ghost function CallAfter(n: nat, call: nat, flight: nat, chunk: seq<byte>): nat {
      var out := seal(n, APPLICATION_DATA, chunk);
      call + bio.CallsFor(call, flight + if out.Some? then |out.value| else 0)
    }

    /** The caller repeats a write from |addr| on as it is supposed to: application data, as
        much of it as is pending, and from the same place unless it may move. */
    ghost predicate Repeats(addr: nat, len: nat)
      reads this`wpendTot, this`wpendBuf, this`wpendType
    {
      wpendType == APPLICATION_DATA && wpendTot <= len && (movingBuffer || wpendBuf == addr)
    }

    /** How much of the data from |tot| on a call will flush, what is pending included. */
    ghost function Progress(input: seq<byte>, len: nat, addr: nat, tot: nat): (f: nat)
      requires tot <= len <= |input| && maxSendFragment > 0 && flightOffset <= |Flight()|
      reads this`wpendPending, this`wpendTot, this`wpendBuf, this`wpendType, this`pendingFlight, this`flightOffset
      reads this`seals, bio`calls, buffer`size, buffer`cap
    {
      if wpendPending then
        if !Repeats(addr + tot, if len - tot > maxSendFragment then maxSendFragment else len - tot)
           || !bio.Takes(bio.calls, buffer.size) then 0
        else if partialWrite || tot + wpendTot == len then wpendTot
        else wpendTot + Flushed(seals, bio.calls + bio.CallsFor(bio.calls, buffer.size), FlightLen(), 0, input[tot + wpendTot..len])
      else if buffer.size > 0 then 0
      else Flushed(seals, bio.calls, FlightLen(), buffer.cap, input[tot..len])
    }

    /** One round of ssl3_write_app_data: at most |max| bytes from offset |tot|. */
    method WriteChunk(input: seq<byte>, len: nat, addr: nat, tot: nat, max: nat, ghost early: bool, ghost data: seq<byte>)
        returns (ret: int)
      requires Valid() && tot <= len <= |input| && max > 0
      requires early ==> canEarlyWrite && EarlyCounted() && earlyDataWritten + max <= maxEarlyData
      modifies this`pendingFlight, this`flightOffset, this`seals, this`sealed, this`lost, this`oversized
      modifies this`wpendTot, this`wpendBuf, this`wpendType, this`wpendRet, this`wpendPending
      modifies this`earlySealed, this`earlyPending, buffer, buffer.buf, bio
      ensures Valid() && (buffer.buf == old(buffer.buf) || buffer.buf == null || fresh(buffer.buf))
      ensures old(Fits(max)) ==> oversized == old(oversized)
      ensures FlightLen() <= old(FlightLen())
      ensures early ==> earlyPending == Pend() && earlySealed == earlyDataWritten + (if ret > 0 then ret else 0) + earlyPending
      ensures ret > 0 ==> !wpendPending && Pend() == 0 && buffer.size == 0 && ret <= max && tot + ret <= len
      ensures Follows(data, input, len) && old(PrefixAt(data, tot)) ==>
                PrefixAt(data, tot + if ret > 0 then ret else 0)
      ensures Onward(APPLICATION_DATA)
      ensures old(wpendPending) ==>
                (ret > 0 <==>
                   && old(Repeats(addr + tot, if len - tot > max then max else len - tot))
                   && bio.Takes(old(bio.calls), old(buffer.size)))
      ensures old(wpendPending) && ret > 0 ==>
                && ret == old(wpendTot) && buffer.cap == 0 && seals == old(seals) && FlightLen() == old(FlightLen())
                && bio.calls == old(bio.calls) + bio.CallsFor(old(bio.calls), old(buffer.size))
      ensures !old(wpendPending) && old(buffer.size) > 0 ==> ret <= 0
      ensures !old(wpendPending) && old(buffer.size) == 0 ==>
                var chunk := input[tot..if len - tot > max then tot + max else len];
                && (ret > 0 <==> Goes(old(seals), old(bio.calls), old(FlightLen()), old(buffer.cap), chunk))
                && (ret > 0 ==>
                      && ret == |chunk| && seals == old(seals) + 1 && FlightLen() == 0 && buffer.cap == 0
                      && bio.calls == CallAfter(old(seals), old(bio.calls), old(FlightLen()), chunk))
    {
      hide Wire, PlainOf, SSLBuffer.Contents, SSLBuffer.Valid, SSLBuffer.Addressable, Conserved, Follows, FlightLen,
           Genuine, StreamBio.Takes, StreamBio.CallsFor;
      var n := len - tot;
      var nw := if n > max then max else n;
      var chunk := input[tot..tot + nw];
      ghost var before := sealed;
      ret := DoWrite(APPLICATION_DATA, chunk, addr + tot, early);
      if Follows(data, input, len) && old(PrefixAt(data, tot)) && sealed != before {
        ChunkSealed(before, data, input, len, tot, sealed[|before|]);
        FitsData(data, input, len);
      }
    }

    lemma FitsData(data: seq<byte>, input: seq<byte>, len: nat)
      requires len <= |input| && Follows(data, input, len)
      ensures acked + len <= |data|
    {
    }

    /** The first record of the data left, cut from the caller's. */
    lemma FlushedFrom(n: nat, call: nat, flight: nat, cap: nat, input: seq<byte>, tot: nat, len: nat)
      requires tot <= len <= |input| && maxSendFragment > 0
      ensures var to := if len - tot > maxSendFragment then tot + maxSendFragment else len;
              var chunk := input[tot..to];
              Flushed(n, call, flight, cap, input[tot..len])
              == if !Goes(n, call, flight, cap, chunk) then 0
                 else if partialWrite || to == len then |chunk|
                 else |chunk| + Flushed(n + 1, CallAfter(n, call, flight, chunk), 0, 0, input[to..len])
    {
      hide Goes, CallAfter;
      var rest, to := input[tot..len], if len - tot > maxSendFragment then tot + maxSendFragment else len;
      assert rest[..to - tot] == input[tot..to] && rest[to - tot..] == input[to..len];
    }

    /** The body of the loop of ssl3_write_app_data; |more| when it goes on. */
    method WriteRound(input: seq<byte>, len: nat, addr: nat, tot: nat, isEarly: bool, ghost data: seq<byte>)
        returns (ret: int, needsHandshake: bool, more: bool)
      requires Valid() && tot <= len <= |input| && wnum == 0 && EarlyCounted() && (isEarly <==> canEarlyWrite)
      modifies this`pendingFlight, this`flightOffset, this`seals, this`sealed, this`lost, this`oversized
      modifies this`wpendTot, this`wpendBuf, this`wpendType, this`wpendRet, this`wpendPending
      modifies this`earlySealed, this`earlyPending, buffer, buffer.buf, bio
      modifies this`wnum, this`canEarlyWrite, this`earlyDataWritten
      ensures Valid() && EarlyCounted() && (buffer.buf == old(buffer.buf) || buffer.buf == null || fresh(buffer.buf))
      ensures (old(Fits(maxSendFragment)) ==> oversized == old(oversized)) && FlightLen() <= old(FlightLen())
      ensures if ret <= 0 then wnum == tot && !more
              else ret <= len - tot && wnum == 0 && Pend() == 0 && buffer.size == 0 && canEarlyWrite == old(canEarlyWrite)
                   && (more <==> ret != len - tot && !partialWrite)
      ensures Follows(data, input, len) && old(PrefixAt(data, tot)) ==> PrefixAt(data, tot + if ret > 0 then ret else 0)
      ensures Onward(APPLICATION_DATA)
      ensures !isEarly ==>
                var f := old(Progress(input, len, addr, tot));
                if !more then f == (if ret > 0 then ret else 0) && (ret > 0 ==> partialWrite || tot + ret == len)
                else f == ret + Progress(input, len, addr, tot + ret)
    {
      hide Wire, PlainOf, SSLBuffer.Contents, SSLBuffer.Valid, SSLBuffer.Addressable, Conserved, Follows, PrefixAt, Pend,
           FlightLen, Genuine, Goes, CallAfter, Repeats, StreamBio.Takes, StreamBio.CallsFor, Flushed;
      var max := maxSendFragment;
      if isEarly && max > maxEarlyData - earlyDataWritten {
        max := maxEarlyData - earlyDataWritten;
        if max == 0 {
          wnum, canEarlyWrite := tot, false;
          return -1, true, false;
        }
      }
      FlushedFrom(seals, bio.calls, FlightLen(), buffer.cap, input, tot, len);
      ret := WriteChunk(input, len, addr, tot, max, isEarly, data);
      if ret <= 0 {
        wnum := tot;
        return ret, false, false;
      }
      if isEarly {
        earlyDataWritten := earlyDataWritten + ret;
      }
      needsHandshake, more := false, ret != len - tot && !partialWrite;
    }

    /** The loop of ssl3_write_app_data, from offset |tot0| on. */
    method WriteChunks(input: seq<byte>, len: nat, addr: nat, tot0: nat, isEarly: bool, ghost data: seq<byte>)
        returns (ret: int, needsHandshake: bool)
      requires Valid() && tot0 <= len <= |input| && wnum == 0 && EarlyCounted() && (isEarly <==> canEarlyWrite)
      modifies this`pendingFlight, this`flightOffset, this`seals, this`sealed, this`lost, this`oversized
      modifies this`wpendTot, this`wpendBuf, this`wpendType, this`wpendRet, this`wpendPending
      modifies this`earlySealed, this`earlyPending, buffer, buffer.buf, bio
      modifies this`wnum, this`canEarlyWrite, this`earlyDataWritten
      ensures Valid() && EarlyCounted() && (buffer.buf == old(buffer.buf) || buffer.buf == null || fresh(buffer.buf))
      ensures (old(Fits(maxSendFragment)) ==> oversized == old(oversized)) && FlightLen() <= old(FlightLen())
      ensures if ret > 0 then ret <= len && wnum == 0 && Pend() == 0 && buffer.size == 0 else tot0 <= wnum <= len
      ensures Follows(data, input, len) && old(PrefixAt(data, tot0)) ==> PrefixAt(data, wnum + if ret > 0 then ret else 0)
      ensures Onward(APPLICATION_DATA)
      ensures !isEarly ==>
                var f := old(Progress(input, len, addr, tot0));
                && tot0 + f == (if ret > 0 then ret else wnum)
                && (ret > 0 <==> f > 0 && (partialWrite || tot0 + f == len))
    {
      hide Wire, PlainOf, SSLBuffer.Contents, SSLBuffer.Valid, SSLBuffer.Addressable, Conserved, Follows, PrefixAt, Pend,
           FlightLen, EarlyCounted, Genuine, Progress;
      var tot, more := tot0, true;
      ret, needsHandshake := 0, false;
      ghost var follows := Follows(data, input, len) && PrefixAt(data, tot);
      while more
        invariant Valid() && EarlyCounted() && tot0 <= tot <= len && (tot0 < tot ==> tot < len && !partialWrite)
        invariant buffer.buf == old(buffer.buf) || buffer.buf == null || fresh(buffer.buf)
        invariant (old(Fits(maxSendFragment)) ==> oversized == old(oversized)) && FlightLen() <= old(FlightLen())
        invariant more ==> wnum == 0 && (isEarly <==> canEarlyWrite) && (follows ==> PrefixAt(data, tot))
        invariant !more ==>
                    && (if ret > 0 then tot + ret <= len && wnum == 0 && Pend() == 0 && buffer.size == 0 else wnum == tot)
                    && (follows ==> PrefixAt(data, tot + if ret > 0 then ret else 0))
        invariant Onward(APPLICATION_DATA)
        invariant !isEarly ==>
                    var f := old(Progress(input, len, addr, tot0));
                    if more then tot0 + f == tot + Progress(input, len, addr, tot)
                    else tot0 + f == tot + (if ret > 0 then ret else 0) && (ret > 0 ==> partialWrite || tot + ret == len)
        decreases len - tot, more
      {
        ret, needsHandshake, more := WriteRound(input, len, addr, tot, isEarly, data);
        if more {
          tot := tot + ret;
        }
      }
      if ret > 0 {
        ret := tot + ret;
      }
    }

    /** ssl3_write_app_data.  Retried with the same data after a blocked write, it seals
        every byte once and in order, and reports just the bytes that were flushed.  A retry
        with less data than was already flushed fails and forgets that: then, and only then,
        the next call would seal bytes again. */
    method WriteAppData(input: seq<byte>, len: int, addr: nat, ghost data: seq<byte>)
        returns (ret: int, needsHandshake: bool)
      requires Valid() && EarlyCounted() && len <= |input|
      modifies this, buffer, buffer.buf, bio
      ensures Valid() && EarlyCounted() && (old(Fits(maxSendFragment)) ==> oversized == old(oversized))
      ensures FlightLen() <= old(FlightLen()) && (buffer.buf == old(buffer.buf) || buffer.buf == null || fresh(buffer.buf))
      ensures !old(oversized) && old(Fits(maxSendFragment)) ==> Conserved()
      ensures acked == old(acked) + if ret > 0 then ret else 0
      ensures ret > 0 ==> ret <= len && wnum == 0 && Pend() == 0 && buffer.size == 0
      ensures old(SealedPrefix(data)) && len >= old(wnum) && old(Follows(data, input, len)) ==> SealedPrefix(data)
      ensures old(SealedPrefix(data)) && !old(writeShutdown) && len < old(wnum) ==>
                ret == -1 && sealed == old(sealed) && (SealedPrefix(data) <==> old(wnum) == 0)
      ensures Onward(APPLICATION_DATA) && writeShutdown == old(writeShutdown)
      ensures !old(canEarlyWrite) && !writeShutdown && old(wnum) <= len && !old(wpendPending) && old(buffer.size) == 0 ==>
                var f := Flushed(old(seals), old(bio.calls), old(FlightLen()), old(buffer.cap), input[old(wnum)..len]);
                && old(wnum) + f == (if ret > 0 then ret else wnum)
                && (ret > 0 <==> f > 0 && (partialWrite || old(wnum) + f == len))
      ensures !old(canEarlyWrite) && !writeShutdown && old(wnum) <= len && old(wpendPending) ==>
                var chunk, done := (if len - old(wnum) > maxSendFragment then maxSendFragment else len - old(wnum)), old(wnum + wpendTot);
                if old(wpendType) == APPLICATION_DATA && old(wpendTot) <= chunk && (movingBuffer || old(wpendBuf) == addr + old(wnum))
                   && bio.Takes(old(bio.calls), old(buffer.size))
                then
                  if partialWrite || done == len then ret == done
                  else
                    var call := old(bio.calls) + bio.CallsFor(old(bio.calls), old(buffer.size));
                    var f := Flushed(old(seals), call, old(FlightLen()), 0, input[done..len]);
                    done + f == (if ret > 0 then ret else wnum) && (ret > 0 <==> done + f == len)
                else ret <= 0 && wnum == old(wnum)
      ensures !old(canEarlyWrite) && !old(wpendPending) && old(buffer.size) > 0 ==> ret <= 0
    {
      hide Wire, SSLBuffer.Contents, SSLBuffer.Valid, Conserved, Genuine, Goes, StreamBio.Takes, StreamBio.CallsFor, Flushed;
      needsHandshake := false;
      if writeShutdown {
        return -1, false;
      }
      var tot := wnum;
      wnum := 0;
      if len < 0 || len < tot {
        return -1, false;
      }
      ret, needsHandshake := WriteChunks(input, len, addr, tot, canEarlyWrite, data);
      if ret > 0 {
        acked := acked + ret;
      }
    }

    /** The server rejects early data: SSL_write starts failing at once. */
    method RejectEarlyData()
      requires Valid() && EarlyCounted()
      modifies this`canEarlyWrite
      ensures Valid() && EarlyCounted() && !canEarlyWrite && earlySealed <= maxEarlyData
    {
      canEarlyWrite := false;
    }

    // ----- alerts -----

    /** All that the account of application data depends on. */
    ghost function AppState(): (seq<byte>, nat, nat, nat)
      reads this`acked, this`wnum, this`sealed, this`wpendPending, this`wpendType, this`wpendTot
    {
      (PlainOf(sealed, APPLICATION_DATA), acked, wnum, Pend())
    }

    /** ssl_send_alert. */
    method SendAlert(level: byte, desc: byte) returns (ret: int)
      requires Valid() && EarlyCounted()
      modifies this, buffer, buffer.buf, bio
      ensures Valid() && EarlyCounted() && writeShutdown && (old(Fits(2)) ==> oversized == old(oversized))
      ensures FlightLen() <= old(FlightLen()) && (!old(oversized) && old(Fits(2)) ==> Conserved())
      ensures old(writeShutdown) ==> ret == -1 && sealed == old(sealed)
      ensures old(buffer.size) > 0 && !old(writeShutdown) ==> ret == -1 && alertDispatch && sealed == old(sealed)
      ensures old(CanWrite(ALERT, [level, desc])) && !old(writeShutdown) ==>
                var r := old(NextRecord(ALERT, [level, desc]));
                && sealed == old(sealed) + [r] && (ret > 0 <==> bio.Takes(old(bio.calls), old(FlightLen()) + |r.bytes|))
      ensures !old(writeShutdown) ==> alertDispatch == (ret <= 0)
      ensures AppState() == old(AppState()) && Onward(ALERT)
    {
      hide Wire, PlainOf, SSLBuffer.Contents, SSLBuffer.Valid, Conserved, Genuine, StreamBio.Takes, StreamBio.CallsFor;
      if writeShutdown {
        return -1;
      }
      writeShutdown := true;
      alertDispatch := true;
      sendAlert := [level, desc];
      if buffer.size == 0 {
        ret := DispatchAlert();
      } else {
        ret := -1;
      }
    }

    /** ssl3_dispatch_alert. */
    method DispatchAlert() returns (ret: int)
      requires Valid() && EarlyCounted() && |sendAlert| == 2
      modifies this, buffer, buffer.buf, bio
      ensures Valid() && EarlyCounted() && writeShutdown == old(writeShutdown) && (old(Fits(2)) ==> oversized == old(oversized))
      ensures FlightLen() <= old(FlightLen()) && (!old(oversized) && old(Fits(2)) ==> Conserved())
      ensures ret > 0 ==> ret == 1 && !alertDispatch && buffer.size == 0
      ensures !old(wpendPending) && !old(CanWrite(ALERT, sendAlert)) ==> ret <= 0 && sealed == old(sealed)
      ensures old(CanWrite(ALERT, sendAlert)) ==>
                var r := old(NextRecord(ALERT, sendAlert));
                && sealed == old(sealed) + [r] && (ret > 0 <==> bio.Takes(old(bio.calls), old(FlightLen()) + |r.bytes|))
      ensures ret <= 0 ==> alertDispatch == old(alertDispatch)
      ensures AppState() == old(AppState()) && Onward(ALERT)
    {
      hide Wire, PlainOf, SSLBuffer.Contents, SSLBuffer.Valid, Conserved, Genuine, CanSeal, Protects, CanWrite,
           FlightLen, Flight, Unsent, StreamBio.Takes, StreamBio.CallsFor;
      ghost var before := sealed;
      var written := DoWrite(ALERT, sendAlert, 0, false);
      if sealed != before {
        PlainMore(before, sealed[|before|], APPLICATION_DATA);
      }
      if written <= 0 {
        return written;
      }
      alertDispatch := false;
      if sendAlert[0] == 2 {
        var _ := bio.Flush();
      }
      ret := 1;
    }
  }

  /** A record in the clear but for its shape: a header, the plaintext, and a tag of 16 bytes. */
  function Framed(typ: byte, plain: seq<byte>): (r: seq<byte>)
    ensures |r| == |plain| + 21
  {
    [typ, 3, 3, (|plain| + 16) / 256 % 256, (|plain| + 16) % 256] + plain + seq(16, i => 0)
  }

  /** Of 1024 bytes, written in records of 512, the first record is flushed, and the second
      blocked. */
  method HalfWritten(data: seq<byte>) returns (w: TlsWriter, ret: int)
    requires |data| == 1024
    ensures w.Valid() && w.EarlyCounted() && w.maxSendFragment == 512 && ret <= 0 && w.wnum == 512
    ensures w.SealedPrefix(data) && !w.writeShutdown
    ensures fresh(w) && fresh(w.buffer) && (w.buffer.buf != null ==> fresh(w.buffer.buf)) && fresh(w.bio)
  {
    hide Wire, PlainOf, SSLBuffer.Contents, SSLBuffer.Valid, TlsWriter.Conserved, TlsWriter.Valid, TlsWriter.Genuine, Framed;
    var bio := new StreamBio(n => if n == 0 then 533 else -1, n => 1);
    w := new TlsWriter(bio, (n, typ, plain) => Some(Framed(typ, plain)), n => Some(0), 21, 5, 512, true, false, 0);
    assert w.SealedPrefix(data) by { NothingSealed(); }
    assert data[0..1024] == data && data[..512] != [];
    assert w.Flushed(0, 0, 0, 0, data) == 512;
    var handshake;
    ret, handshake := w.WriteAppData(data, 1024, 0, data);
  }

  /** The retry that forgets: with no data it fails, and from then on the bytes sealed are no
      longer those that have been accounted for. */
  method ShortRetry(data: seq<byte>) returns (w: TlsWriter, ret: int)
    requires |data| == 1024
    ensures w.Valid() && w.maxSendFragment == 512 && ret == -1 && !w.SealedPrefix(data)
  {
    hide Wire, PlainOf, SSLBuffer.Contents, SSLBuffer.Valid, TlsWriter.Conserved, TlsWriter.Valid, TlsWriter.Genuine;
    w, ret := HalfWritten(data);
    var handshake;
    ret, handshake := w.WriteAppData(data, 0, 0, data);
  }

  lemma NothingSealed()
    ensures PlainOf([], APPLICATION_DATA) == []
  {
  }
}
