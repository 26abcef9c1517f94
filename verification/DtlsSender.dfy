/** Sending flights of handshake messages: the outgoing half of d1_both.cc and the
    retransmission timer of d1_lib.cc. */
module DtlsSender {
  import opened Common
  import opened DtlsTypes
  import opened DtlsReplay
  import opened DtlsWrite
  import opened DtlsFlight

  const MIN_MTU: nat := 256 - 28
  const DEFAULT_MTU: nat := 1500 - 28
  const MTU_TIMEOUTS: nat := 2
  const MAX_TIMEOUTS: nat := 12

  /** A datagram BIO: the outcome of every call is up to the environment. */
  class DatagramBio {
    const writeResult: nat -> int
    const flushResult: nat -> int
    var calls: nat
    ghost var packets: seq<seq<byte>>

    constructor (writeResult: nat -> int, flushResult: nat -> int)
      ensures packets == [] && calls == 0 && this.writeResult == writeResult && this.flushResult == flushResult
    {
      this.writeResult, this.flushResult, calls, packets := writeResult, flushResult, 0, [];
    }

    method Write(packet: seq<byte>) returns (r: int)
      modifies this
      ensures r == writeResult(old(calls)) && calls == old(calls) + 1
      ensures packets == if r > 0 then old(packets) + [packet] else old(packets)
    {
      r := writeResult(calls);
      calls := calls + 1;
      if r > 0 {
        packets := packets + [packet];
      }
    }

    method Flush() returns (r: int)
      modifies this
      ensures r == flushResult(old(calls)) && packets == old(packets)
    {
      r := flushResult(calls);
      calls := calls + 1;
    }
  }

  datatype SealResult = SealError | NoProgress | SealPartial | SealSuccess

  /** Why a call that sends ended: everything was written and flushed; the BIO took no
      more, which the source reports as SSL_WRITING; a record could not be sealed, or the
      MTU is too small for any; or the connection is shut down. */
  datatype Why = Written | Blocked | NotSealed | ShutDown

  class FlightSender {
    const maxFlight: nat
    const writer: RecordWriter
    const bio: DatagramBio
    const noQueryMtu: bool
    const initialTimeoutMs: nat
    var handshakeWriteSeq: nat
    var outgoing: seq<Outgoing>
    var written: nat
    var offset: nat
    var complete: bool
    var hasReply: bool
    var mtu: nat
    var writeShutdown: bool
    var numTimeouts: nat
    var timeoutMs: nat

    /** Every message queued so far. */
    ghost var messages: seq<Message>
    /** Every record sealed so far, whether it was sent or not. */
    ghost var sealed: seq<Sent>
    /** The records of every packet written so far, and how many packets had been written
        before the flight was last rewound. */
    ghost var log: seq<seq<Sent>>
    ghost var rewound: nat

    ghost predicate Valid()
      reads this, writer, writer.writeSequence, writer.lastWriteSequence, bio
    {
      && writer.Valid() && |outgoing| <= maxFlight && Placed()
      && (noQueryMtu ==> mtu >= MIN_MTU)
      && rewound <= |log| && (!complete ==> Here() == BEGINNING && rewound == |log|)
      && Queued() && History() && OnTheWire() && Covering()
    }

    // ----- what holds of the records -----

    ghost function Here(): Position
      reads this`written, this`offset
    {
      Position(written, offset)
    }

    /** The position is one the current flight has. */
    ghost predicate Placed()
      reads this`outgoing, this`written, this`offset
    {
      && written <= |outgoing|
      && (offset == 0 || (written < |outgoing| && offset < |Body(outgoing[written])|))
    }

    /** The flight is made of messages queued, which are numbered one after the other. */
    ghost predicate Queued()
      reads this`outgoing, this`messages, this`handshakeWriteSeq
    {
      && handshakeWriteSeq == |messages| % SEQ_SPACE
      && forall i | 0 <= i < |outgoing| :: outgoing[i].epoch < 0x1_0000 && Known(outgoing[i], messages)
    }

    /** Every record is sealed as it should be, under a number of its own, and carries part
        of a message that was queued. */
    ghost predicate History()
      reads this`sealed, this`messages, writer
    {
      && AllSealed(sealed, writer.ciphers) && Rising(sealed, writer.used, writer.wrapped)
      && forall i | 0 <= i < |sealed| :: Known(sealed[i].source, messages)
    }

    /** The packets written are made of records that were sealed, in that order. */
    ghost predicate OnTheWire()
      reads this`log, this`sealed, bio`packets
    {
      && Carried(bio.packets, log)
      && PartOfAll(Flat(log), sealed)
    }

    /** The packets written since the flight was last rewound, as records. */
    ghost function Run(): seq<Sent>
      reads this`log, this`rewound
      requires rewound <= |log|
    {
      Flat(log[rewound..])
    }

    /** How far the receiver of all these packets is able to put the flight together. */
    ghost function Covered(): Option<Position>
      reads this`log, this`rewound, this`outgoing
      requires rewound <= |log|
    {
      Covers(outgoing, Some(BEGINNING), Run())
    }

    /** What has been written covers the flight up to the current position, or there is a
        gap before it, and then later packets do not fill it. */
    ghost predicate Covering()
      reads this`log, this`rewound, this`outgoing, this`written, this`offset, writer`ciphers
      requires rewound <= |log|
    {
      && AllSealed(Run(), writer.ciphers) && OfFlight(outgoing, Run())
      && (Covered().Some? ==> Covered().value.AtMost(Here()))
    }

    /** There is no gap. */
    ghost predicate Intact()
      reads this`log, this`rewound, this`outgoing, this`written, this`offset
      requires rewound <= |log|
    {
      Covered() == Some(Here())
    }

    /** The packets written since the flight was last rewound carry all of it. */
    ghost predicate FlightWritten()
      reads this`rewound, this`outgoing, writer`ciphers, bio`packets
    {
      rewound <= |bio.packets| && WholeFlight(bio.packets[rewound..], outgoing, writer.ciphers)
    }

    /** Nothing that has happened is undone: numbers stay used, records stay sealed,
        and packets stay written.  Every attempt to seal a record gave one, but for
        at most |failures|. */
    twostate predicate Onward(failures: nat)
      reads this, writer, bio
    {
      && Spent(old(writer.attempts), |sealed| - |old(sealed)|, failures)
      && old(writer.used) <= writer.used && old(writer.wrapped) <= writer.wrapped
      && writer.ciphers == old(writer.ciphers) && writer.wEpoch == old(writer.wEpoch) && writer.cipher == old(writer.cipher)
      && old(sealed) <= sealed && old(log) <= log && old(bio.packets) <= bio.packets
    }

    constructor (maxFlight: nat, writer: RecordWriter, bio: DatagramBio, mtu: nat, noQueryMtu: bool, timeoutMs: nat)
      requires writer.Valid() && bio.packets == [] && (noQueryMtu ==> mtu >= MIN_MTU)
      ensures Valid() && this.writer == writer && this.bio == bio && this.maxFlight == maxFlight && this.mtu == mtu
      ensures outgoing == [] && messages == [] && sealed == [] && log == [] && handshakeWriteSeq == 0 && !complete && !writeShutdown
    {
      this.maxFlight, this.writer, this.bio, this.mtu, this.noQueryMtu := maxFlight, writer, bio, mtu, noQueryMtu;
      handshakeWriteSeq, outgoing, written, offset, complete, hasReply := 0, [], 0, 0, false, false;
      writeShutdown, numTimeouts, this.timeoutMs, initialTimeoutMs := false, 0, timeoutMs, timeoutMs;
      messages, sealed, log, rewound := [], [], [], 0;
    }

    ghost predicate Spent(before: nat, made: int, failures: nat)
      reads writer`attempts
    {
      before + made <= writer.attempts <= before + made + failures
    }

    /** The law of record numbers: before 2^48 attempts to seal a record, the numbers of all
        the records sealed in an epoch, sent or not, rise; so none is used twice. */
    lemma NumbersRise()
      requires Valid() && writer.attempts < SEQ_LIMIT
      ensures Ascending(sealed) && Ascending(Flat(log))
    {
      hide ParseFragment, Number, PartOfAll, Flat;
      writer.WrapsLate();
      PartAscends(Flat(log), sealed);
    }

    lemma NothingSent()
      requires Valid() && !complete
      ensures Here() == BEGINNING
    {
    }

    lemma ValidMeans()
      requires Valid()
      ensures Placed() && rewound <= |log| == |bio.packets|
      ensures !complete ==> rewound == |log| && Intact()
    {
      hide ParseFragment, RecordWriter.Valid, History, Queued;
      if !complete {
        Rewound();
      }
    }

    lemma AllAreSealed()
      requires Valid()
      ensures writer.Valid() && AllSealed(sealed, writer.ciphers)
    {
    }

    // ----- queueing -----

    /** dtls_clear_outgoing_messages. */
    method ClearOutgoing()
      requires Valid()
      modifies this`outgoing, this`written, this`offset, this`complete, this`hasReply, this`rewound
      ensures Valid() && outgoing == [] && !complete && !hasReply
    {
      hide ParseFragment, History, OnTheWire, RecordWriter.Valid, Covering;
      outgoing, written, offset, complete, hasReply := [], 0, 0, false, false;
      rewound := |log|;
      Rewound();
    }

    /** The message becomes the last one of the flight. */
    method Append(isCcs: bool, data: seq<byte>, ghost msg: Message)
      requires Valid() && !complete && |outgoing| < maxFlight
      requires !isCcs ==> |msg.body| < 0x100_0000 && data == Raw(msg.typ, handshakeWriteSeq, msg.body)
      modifies this`outgoing, this`messages, this`handshakeWriteSeq
      ensures Valid() && outgoing == old(outgoing) + [Outgoing(data, writer.wEpoch, isCcs)]
      ensures messages == if isCcs then old(messages) else old(messages) + [msg]
      ensures handshakeWriteSeq == if isCcs then old(handshakeWriteSeq) else (old(handshakeWriteSeq) + 1) % SEQ_SPACE
    {
      hide ParseFragment, OnTheWire, Known, SealedAs, Rising, Covers;
      ghost var before := messages;
      if !isCcs {
        messages := messages + [msg];
        NewMessage(before, msg, writer.wEpoch);
        handshakeWriteSeq := (handshakeWriteSeq + 1) % SEQ_SPACE;
      }
      assert Known(Outgoing(data, writer.wEpoch, isCcs), messages) by {
        CcsIsKnown(Outgoing(data, writer.wEpoch, isCcs));
      }
      Longer(outgoing, Outgoing(data, writer.wEpoch, isCcs));
      outgoing := outgoing + [Outgoing(data, writer.wEpoch, isCcs)];
      StillKnown(before);
    }

    lemma CcsIsKnown(m: Outgoing)
      ensures m.isCcs ==> Known(m, messages)
    {
    }

    /** A message more at the end changes nothing about what has been sent, which before
        a flush is nothing. */
    lemma Longer(msgs: seq<Outgoing>, m: Outgoing)
      requires rewound == |log|
      ensures Run() == [] && Covers(msgs + [m], Some(BEGINNING), []) == Some(BEGINNING)
    {
    }

    /** add_outgoing: a message is queued for the epoch current at the time; the first
        one after a complete flight starts a new flight. */
    method AddOutgoing(isCcs: bool, data: seq<byte>, ghost msg: Message) returns (ok: bool)
      requires Valid()
      requires !isCcs ==> |msg.body| < 0x100_0000 && data == Raw(msg.typ, handshakeWriteSeq, msg.body)
      modifies this
      ensures Valid() && !complete && mtu == old(mtu) && writeShutdown == old(writeShutdown)
      ensures var flight := if old(complete) then [] else old(outgoing);
              && ok == (|flight| < maxFlight && |data| <= 0xFFFF_FFFF)
              && outgoing == if ok then flight + [Outgoing(data, writer.wEpoch, isCcs)] else flight
      ensures messages == if ok && !isCcs then old(messages) + [msg] else old(messages)
      ensures handshakeWriteSeq == if ok && !isCcs then (old(handshakeWriteSeq) + 1) % SEQ_SPACE else old(handshakeWriteSeq)
      ensures sealed == old(sealed) && log == old(log)
    {
      hide ParseFragment, Valid;
      if complete {
        StopTimer();
        ClearOutgoing();
      }
      if |outgoing| >= maxFlight || |data| > 0xFFFF_FFFF {
        return false;
      }
      Append(isCcs, data, msg);
      ok := true;
    }

    lemma NewMessage(before: seq<Message>, msg: Message, epoch: nat)
      requires handshakeWriteSeq == |before| % SEQ_SPACE && |msg.body| < 0x100_0000
      ensures Known(Outgoing(Raw(msg.typ, handshakeWriteSeq, msg.body), epoch, false), before + [msg])
    {
      if |before| < SEQ_SPACE {
        FinishedMessage(msg.typ, |before|, msg.body, epoch, before + [msg]);
      }
    }

    lemma StillKnown(before: seq<Message>)
      requires before <= messages
      ensures forall m: Outgoing :: Known(m, before) ==> Known(m, messages)
    {
      forall m: Outgoing | Known(m, before) ensures Known(m, messages) {
        KnownStill(m, before, messages);
      }
    }

    /** dtls1_init_message, dtls1_finish_message and dtls1_add_message: the message gets the
        next number, and goes out under it however often and in whatever pieces. */
    method AddMessage(typ: byte, body: seq<byte>) returns (ok: bool)
      requires Valid()
      modifies this
      ensures Valid() && mtu == old(mtu) && sealed == old(sealed) && log == old(log) && writeShutdown == old(writeShutdown)
      ensures var flight := if old(complete) then [] else old(outgoing);
              && ok == (|body| < 0x100_0000 && |flight| < maxFlight)
              && if |body| >= 0x100_0000 then outgoing == old(outgoing) && complete == old(complete)
                 else !complete
                      && outgoing == if ok then flight + [Outgoing(Raw(typ, old(handshakeWriteSeq), body), writer.wEpoch, false)]
                                     else flight
      ensures messages == if ok then old(messages) + [Message(typ, body)] else old(messages)
      ensures handshakeWriteSeq == if ok then (old(handshakeWriteSeq) + 1) % SEQ_SPACE else old(handshakeWriteSeq)
      ensures ok ==> Body(outgoing[|outgoing| - 1]) == body
      ensures ok && |messages| <= SEQ_SPACE ==> IsMessage(outgoing[|outgoing| - 1], messages, |messages| - 1)
    {
      hide ParseFragment, History, OnTheWire, Covering, Known, RecordWriter.Valid;
      if |body| >= 0x100_0000 {
        return false;
      }
      FinishedMessage(typ, handshakeWriteSeq, body, writer.wEpoch,
                      seq(handshakeWriteSeq, _ => Message(typ, body)) + [Message(typ, body)]);
      if |messages| < SEQ_SPACE {
        FinishedMessage(typ, handshakeWriteSeq, body, writer.wEpoch, messages + [Message(typ, body)]);
      }
      ok := AddOutgoing(false, Raw(typ, handshakeWriteSeq, body), Message(typ, body));
    }

    /** dtls1_add_change_cipher_spec. */
    method AddChangeCipherSpec() returns (ok: bool)
      requires Valid()
      modifies this
      ensures Valid() && mtu == old(mtu) && messages == old(messages) && sealed == old(sealed) && log == old(log)
      ensures var flight := if old(complete) then [] else old(outgoing);
              && ok == (|flight| < maxFlight)
              && outgoing == if ok then flight + [Outgoing([], writer.wEpoch, true)] else flight
      ensures !complete && writeShutdown == old(writeShutdown) && handshakeWriteSeq == old(handshakeWriteSeq)
    {
      ok := AddOutgoing(true, [], Message(0, []));
    }

    // ----- timers -----

    /** dtls1_stop_timer; the duration starts over from the initial one. */
    method StopTimer()
      requires Valid()
      modifies this`numTimeouts, this`timeoutMs
      ensures Valid() && numTimeouts == 0 && timeoutMs == initialTimeoutMs
    {
      hide ParseFragment, History, OnTheWire, Queued, Covering, RecordWriter.Valid;
      numTimeouts, timeoutMs := 0, initialTimeoutMs;
    }

    // ----- sealing -----

    /** What sealing the next message depends on. */
    ghost predicate Ready()
      reads this, writer, writer.writeSequence, writer.lastWriteSequence
    {
      writer.Valid() && written < |outgoing| && Placed() && Queued() && History()
    }

    /** What sealing does to the writer. */
    twostate predicate Grown()
      reads writer
    {
      && old(writer.used) <= writer.used && old(writer.wrapped) <= writer.wrapped
      && writer.ciphers == old(writer.ciphers) && writer.wEpoch == old(writer.wEpoch)
      && writer.cipher == old(writer.cipher) && writer.lastCipher == old(writer.lastCipher)
    }

    /** The current message goes out in one of the two epochs in use. */
    ghost predicate InEpoch(previous: bool)
      reads this, writer
    {
      && written < |outgoing|
      && (previous ==> writer.wEpoch >= 1) && outgoing[written].epoch == writer.EpochOf(previous)
    }

    /** A record was made of the part of the current message from |from| on. */
    ghost predicate Made(sent: Sent, from: nat, out: seq<byte>, maxOut: nat)
      reads this, writer
    {
      && written < |outgoing| && sent.source == outgoing[written] && sent.message == written && sent.offset == from
      && SealedAs(sent, writer.ciphers) && out == RecordOf(sent) && |out| <= maxOut
    }

    // ----- why sealing fails -----

    /** The epoch is the current one or the one before. */
    ghost predicate InUse(epoch: nat)
      reads writer`wEpoch, writer`ciphers
    {
      epoch < |writer.ciphers| && (epoch == writer.wEpoch || epoch + 1 == writer.wEpoch)
    }

    /** The current message cannot be sealed at all, or attempt number |n| has been spent on
        it in vain: the cipher failed then, or the numbers were used up, or the MTU allows
        records too long for their length. */
    ghost predicate Unsealable(n: nat)
      reads this`outgoing, this`written, this`mtu, writer`wEpoch, writer`ciphers, writer`attempts
    {
      && written < |outgoing|
      && var m := outgoing[written];
         || !InUse(m.epoch) || !WellFormed(m) || !writer.ciphers[m.epoch].Reliable()
         || (writer.attempts == n + 1
             && ((!writer.ciphers[m.epoch].isNull && writer.fails(n)) || n + 1 >= SEQ_LIMIT || mtu >= 0x1_0000))
    }

    /** The least room for a record of a message. */
    ghost function Needs(m: Outgoing): nat
      requires InUse(m.epoch)
      reads writer`wEpoch, writer`ciphers
    {
      RECORD_HEADER + writer.ciphers[m.epoch].overhead + if m.isCcs then 1 else FRAGMENT_HEADER + 1
    }

    /** There is not enough for message |k|. */
    ghost predicate Short(k: nat, room: nat)
      reads this`outgoing, writer`wEpoch, writer`ciphers
    {
      k < |outgoing| && InUse(outgoing[k].epoch)
      && (room < Needs(outgoing[k]) || !writer.ciphers[outgoing[k].epoch].Reliable())
    }

    /** Attempt number |n| made the record, so the cipher did not fail. */
    ghost predicate Worked(s: Sent, n: nat)
      reads writer`ciphers
    {
      s.source.epoch < |writer.ciphers| && (writer.ciphers[s.source.epoch].isNull || !writer.fails(n))
    }

    /** The records were made one after the other, from attempt number |n| on. */
    ghost predicate AllWorked(run: seq<Sent>, n: nat)
      reads writer`ciphers
    {
      forall i | 0 <= i < |run| :: Worked(run[i], n + i)
    }

    lemma WhySealFails(typ: byte, plain: seq<byte>, maxOut: nat, previous: bool)
      requires writer.Valid() && (previous ==> writer.wEpoch >= 1) && !writer.Seals(typ, plain, maxOut, previous)
      requires writer.CipherOf(previous).Reliable()
      requires RECORD_HEADER + writer.CipherOf(previous).overhead + |plain| <= maxOut < 0x1_0000
      ensures writer.Fails(previous) || writer.attempts + 1 >= SEQ_LIMIT
    {
      hide RecordWriter.Counts, BigEndian;
      var c := writer.CipherOf(previous).seal(typ, writer.cipher.version, writer.SequenceOf(previous), plain);
      assert c.Some?;
    }

    lemma SealsOrNot(typ: byte, plain: seq<byte>, maxOut: nat, previous: bool)
      requires writer.Valid() && InEpoch(previous) && maxOut <= mtu
      requires writer.writeSequence.Length == 8 && writer.lastWriteSequence.Length == 8
      ensures writer.Seals(typ, plain, maxOut, previous) ==> maxOut >= RECORD_HEADER && !writer.Fails(previous)
      ensures !writer.Seals(typ, plain, maxOut, previous) && RECORD_HEADER + writer.CipherOf(previous).overhead + |plain| <= maxOut ==>
                || !writer.CipherOf(previous).Reliable() || writer.Fails(previous)
                || writer.attempts + 1 >= SEQ_LIMIT || mtu >= 0x1_0000
    {
      hide RecordWriter.Valid, Cipher.Reliable;
      if !writer.Seals(typ, plain, maxOut, previous) && writer.CipherOf(previous).Reliable() && maxOut < 0x1_0000
         && RECORD_HEADER + writer.CipherOf(previous).overhead + |plain| <= maxOut {
        WhySealFails(typ, plain, maxOut, previous);
      }
    }

    lemma SequenceReads(previous: bool)
      requires writer.Valid() && (previous ==> writer.wEpoch >= 1)
      ensures writer.writeSequence.Length == 8 && writer.lastWriteSequence.Length == 8
      ensures writer.cipher.version < 0x1_0000
      ensures var bs := writer.SequenceOf(previous);
              |bs| == 8 && Get16(bs, 0) == writer.EpochOf(previous) && BigEndian(bs[2..]) == writer.Next(previous)
      ensures writer.EpochOf(previous) < |writer.ciphers|
      ensures writer.ciphers[writer.EpochOf(previous)] == writer.CipherOf(previous)
    {
      U16Reads(writer.EpochOf(previous));
      var six := if previous then writer.lastWriteSequence[2..] else writer.writeSequence[2..];
      assert writer.SequenceOf(previous)[2..] == six;
    }

    /** Seals |len| bytes of the current message from the current offset on.  The record
        gets a number that no other has, unless the epoch's counter has wrapped. */
    method SealPart(plain: seq<byte>, len: nat, maxOut: nat, previous: bool)
        returns (ok: bool, out: seq<byte>, ghost sent: Sent)
      requires Ready() && InEpoch(previous) && WellFormed(outgoing[written])
      requires offset + len <= |Body(outgoing[written])| && plain == Plain(outgoing[written], offset, len)
      requires maxOut <= mtu
      modifies this`sealed, writer, writer.writeSequence, writer.lastWriteSequence
      ensures writer.Valid() && Grown() && History()
      ensures ok == old(writer.Seals(TypeOf(outgoing[written]), plain, maxOut, previous))
      ensures ok ==> Made(sent, offset, out, maxOut) && sent.len == len && sealed == old(sealed) + [sent]
      ensures !ok ==> sealed == old(sealed)
      ensures writer.attempts == old(writer.attempts) + if maxOut < RECORD_HEADER then 0 else 1
      ensures ok ==> Worked(sent, old(writer.attempts)) && Spent(old(writer.attempts), 1, 0)
      ensures !ok && RECORD_HEADER + writer.CipherOf(previous).overhead + |plain| <= maxOut ==> Unsealable(old(writer.attempts))
    {
      hide ParseFragment, RecordBytes, RecordWriter.Valid, Rising, RecordWriter.Seals, Cipher.Reliable;
      SequenceReads(previous);
      SealsOrNot(TypeOf(outgoing[written]), plain, maxOut, previous);
      ghost var version, sequence, n := writer.cipher.version, writer.SequenceOf(previous), writer.Next(previous);
      ghost var used, wrapped := writer.used, writer.wrapped;
      var typ := TypeOf(outgoing[written]);
      var record := writer.SealRecord(typ, plain, maxOut, previous);
      if record.None? {
        RisingStill(sealed, used, wrapped, writer.used, writer.wrapped);
        return false, [], Sent(outgoing[written], 0, 0, 0, 0, [], []);
      }
      ghost var c := old(writer.CipherOf(previous)).seal(typ, version, sequence, plain);
      sent := Sent(outgoing[written], written, offset, len, version, sequence, c.value);
      assert SealedAs(sent, writer.ciphers) && Number(sent) == (outgoing[written].epoch, n);
      RisingMore(sealed, used, wrapped, sent, writer.used, writer.wrapped);
      sealed := sealed + [sent];
      return true, record.value, sent;
    }

    /** Why the attempt to seal the current message, number |n|, ended as it did. */
    ghost predicate Explains(r: SealResult, sent: Sent, maxOut: nat, n: nat)
      reads this`outgoing, this`written, this`mtu, writer
    {
      match r
      case SealError => Unsealable(n) && Spent(n, 0, 1)
      case NoProgress => Short(written, maxOut) && Spent(n, 0, 0)
      case _ => Worked(sent, n) && Spent(n, 1, 0)
    }

    /** The ChangeCipherSpec branch of seal_next_message: whole, or not at all. */
    method SealCcs(maxOut: nat, overhead: nat, previous: bool) returns (r: SealResult, out: seq<byte>, ghost sent: Sent)
      requires Ready() && outgoing[written].isCcs && InEpoch(previous) && maxOut <= mtu
      requires overhead == RECORD_HEADER + writer.CipherOf(previous).overhead
      modifies this`sealed, writer, writer.writeSequence, writer.lastWriteSequence
      ensures writer.Valid() && Grown() && History()
      ensures r == if maxOut < |CCS_BODY| + overhead then NoProgress
                   else if old(writer.Seals(CHANGE_CIPHER_SPEC, CCS_BODY, maxOut, previous)) then SealSuccess
                   else SealError
      ensures r.SealSuccess? ==>
                && Made(sent, offset, out, maxOut) && sealed == old(sealed) + [sent]
                && After(outgoing, Some(Here()), sent) == Some(Position(written + 1, 0))
      ensures !r.SealSuccess? ==> sealed == old(sealed)
      ensures Explains(r, sent, maxOut, old(writer.attempts))
    {
      hide ParseFragment, Rising, RecordBytes, RecordWriter.Valid, RecordWriter.Seals, Worked, Unsealable;
      SequenceReads(previous);
      out, sent := [], Sent(outgoing[written], 0, 0, 0, 0, [], []);
      if maxOut < |CCS_BODY| + overhead {
        return NoProgress, out, sent;
      }
      var ok;
      ok, out, sent := SealPart(CCS_BODY, 0, maxOut, previous);
      r := if ok then SealSuccess else SealError;
    }

    /** Takes the message apart and decides how much of the rest goes into the next
        fragment: all of it, or as much as there is room for. */
    method ChooseFragment(maxOut: nat, overhead: nat, prefix: nat)
        returns (r: SealResult, frag: seq<byte>, todo: nat, left: nat)
      requires Ready() && !outgoing[written].isCcs
      ensures r.SealError? || r.NoProgress? || r.SealSuccess?
      ensures r.SealSuccess? ==>
                && WellFormed(outgoing[written]) && offset + left == |Body(outgoing[written])|
                && FRAGMENT_HEADER + overhead < maxOut
                && todo == (if left > maxOut - FRAGMENT_HEADER - overhead then maxOut - FRAGMENT_HEADER - overhead else left)
                && frag == Plain(outgoing[written], offset, todo)
      ensures r.NoProgress? ==> maxOut < FRAGMENT_HEADER + 1 + overhead || maxOut < prefix
      ensures r.SealError? ==> !WellFormed(outgoing[written]) || overhead < prefix
    {
      frag, todo, left := [], 0, 0;
      var parsed := ParseFragment(outgoing[written].data);
      if parsed.None? {
        return SealError, frag, todo, left;
      }
      var hdr, body := parsed.value.hdr, parsed.value.body;
      if hdr.fragOff != 0 || hdr.msgLen != |body| || offset > |body| || parsed.value.rest != [] {
        return SealError, frag, todo, left;
      }
      if maxOut < FRAGMENT_HEADER + 1 + overhead || maxOut < prefix {
        return NoProgress, frag, todo, left;
      }
      left := |body| - offset;
      todo := left;
      if todo > maxOut - FRAGMENT_HEADER - overhead {
        todo := maxOut - FRAGMENT_HEADER - overhead;
      }
      frag := Piece(hdr.typ, hdr.msgSeq, body, offset, todo);
      r := if |frag| > maxOut - prefix then SealError else SealSuccess;
    }

    /** What a record that continues the flight at |from| leads to. */
    ghost predicate Continues(r: SealResult, from: Position, sent: Sent)
      reads this
    {
      && After(outgoing, Some(from), sent) == Some(if r.SealSuccess? then Position(written + 1, 0) else Here())
      && (r.SealSuccess? ==> offset == 0) && Placed()
    }

    /** Its handshake branch: as much of the rest of the message as there is room for. */
    method SealFragment(maxOut: nat, overhead: nat, prefix: nat, previous: bool)
        returns (r: SealResult, out: seq<byte>, ghost sent: Sent)
      requires Ready() && !outgoing[written].isCcs && InEpoch(previous) && maxOut <= mtu
      requires overhead == RECORD_HEADER + writer.CipherOf(previous).overhead
      requires prefix == RECORD_HEADER + writer.CipherOf(previous).explicitNonce
      modifies this`offset, this`sealed, writer, writer.writeSequence, writer.lastWriteSequence
      ensures writer.Valid() && Grown() && History()
      ensures r.SealError? || r.NoProgress? ==> offset == old(offset) && sealed == old(sealed)
      ensures r.SealPartial? || r.SealSuccess? ==>
                && Made(sent, old(offset), out, maxOut) && sealed == old(sealed) + [sent]
                && Continues(r, old(Here()), sent)
      ensures r.SealPartial? ==> FRAGMENT_HEADER + overhead + sent.len == maxOut
      ensures r.SealSuccess? ==>
                && old(offset) + sent.len == |Body(outgoing[written])|
                && FRAGMENT_HEADER + overhead + sent.len <= maxOut
      ensures Explains(r, sent, maxOut, old(writer.attempts))
    {
      hide ParseFragment, Rising, RecordBytes, RecordWriter.Valid, History, Queued, RecordWriter.Seals, Worked;
      SequenceReads(previous);
      var frag, todo, left;
      r, frag, todo, left := ChooseFragment(maxOut, overhead, prefix);
      out, sent := [], Sent(outgoing[written], 0, 0, 0, 0, [], []);
      if !r.SealSuccess? {
        return;
      }
      var ok;
      ok, out, sent := SealPart(frag, todo, maxOut, previous);
      if !ok {
        r := SealError;
      } else if todo == left {
        offset := 0;
      } else {
        offset := offset + todo;
        r := SealPartial;
      }
    }

    /** seal_next_message, for at most |maxOut| bytes.  The record made, if any, continues
        the flight at the current position, under the epoch the message was queued in. */
    method SealNextMessage(maxOut: nat) returns (r: SealResult, out: seq<byte>, ghost sent: Sent)
      requires Ready() && maxOut <= mtu
      modifies this`offset, this`sealed, writer, writer.writeSequence, writer.lastWriteSequence
      ensures writer.Valid() && Grown() && History()
      ensures r.SealError? || r.NoProgress? ==> offset == old(offset) && sealed == old(sealed)
      ensures r.SealPartial? || r.SealSuccess? ==>
                && Made(sent, old(offset), out, maxOut) && sealed == old(sealed) + [sent]
                && Continues(r, old(Here()), sent)
      ensures Explains(r, sent, maxOut, old(writer.attempts))
    {
      hide ParseFragment, Rising, RecordBytes, RecordWriter.Valid, History, Queued, RecordWriter.Seals;
      out, sent := [], Sent(outgoing[written], 0, 0, 0, 0, [], []);
      var msg := outgoing[written];
      var previous := writer.wEpoch >= 1 && msg.epoch == writer.wEpoch - 1;
      if !previous && msg.epoch != writer.wEpoch {
        r := SealError;
        return;
      }
      var aead := writer.CipherOf(previous);
      var overhead, prefix := RECORD_HEADER + aead.overhead, RECORD_HEADER + aead.explicitNonce;
      if msg.isCcs {
        r, out, sent := SealCcs(maxOut, overhead, previous);
      } else {
        r, out, sent := SealFragment(maxOut, overhead, prefix, previous);
      }
    }

    /** |run| is sealed into |packet| and leads from |start| to the current position. */
    ghost predicate Holds(start: Position, packet: seq<byte>, run: seq<Sent>)
      reads this, writer
    {
      InPacket(outgoing, writer.ciphers, start, Here(), packet, run) && |packet| <= mtu
    }

    lemma HoldsNothing()
      ensures Holds(Here(), [], [])
    {
    }

    lemma Advanced(start: Position, packet: seq<byte>, run: seq<Sent>)
      requires Holds(start, packet, run)
      ensures start.AtMost(Here()) && (run != [] ==> start.Before(Here()))
    {
      CoversAdvances(outgoing, start, run);
    }

    /** Adds the next record to a packet, if it can be sealed and there is room for it. */
    method AddRecord(ghost start: Position, packet: seq<byte>, ghost run: seq<Sent>)
        returns (r: SealResult, longer: seq<byte>, ghost run': seq<Sent>, ghost sent: Sent)
      requires Ready() && Holds(start, packet, run)
      modifies this`offset, this`sealed, writer, writer.writeSequence, writer.lastWriteSequence
      ensures writer.Valid() && Grown() && History() && Placed() && |longer| <= mtu
      ensures if r.SealPartial? || r.SealSuccess? then run' == run + [sent] && sealed == old(sealed) + [sent]
              else run' == run && longer == packet && sealed == old(sealed)
      ensures !r.SealSuccess? ==> Holds(start, longer, run')
      ensures r.SealError? || r.NoProgress? ==> offset == old(offset)
      ensures r.SealSuccess? ==>
                offset == 0 && InPacket(outgoing, writer.ciphers, start, Position(written + 1, 0), longer, run')
      ensures r.SealPartial? ==> offset > 0
      ensures Explains(r, sent, mtu - |packet|, old(writer.attempts))
    {
      hide ParseFragment, Covers, Packet, RecordWriter.Valid, History, Queued, Rising;
      longer, run' := packet, run;
      ghost var here := Here();
      var out;
      r, out, sent := SealNextMessage(mtu - |packet|);
      if r.SealPartial? || r.SealSuccess? {
        PacketGrows(outgoing, writer.ciphers, start, here, packet, run, sent);
        longer, run' := packet + out, run + [sent];
      }
    }

    /** seal_next_packet: fills a packet of at most |mtu| bytes with records that continue
        the flight, until it is full.  When a record cannot be sealed the position has moved
        past those that were sealed before it. */
    method SealNextPacket() returns (ok: bool, packet: seq<byte>, ghost run: seq<Sent>)
      requires Ready()
      modifies this`written, this`offset, this`sealed, writer, writer.writeSequence, writer.lastWriteSequence
      ensures writer.Valid() && Grown() && History() && Placed()
      ensures Holds(old(Here()), packet, run) && sealed == old(sealed) + run
      ensures AllWorked(run, old(writer.attempts)) && Spent(old(writer.attempts), |run|, if ok then 0 else 1)
      ensures ok ==> run != [] && (written == |outgoing| || offset > 0 || Short(written, mtu - |packet|))
      ensures !ok ==> Unsealable(old(writer.attempts) + |run|) || Short(written, mtu)
    {
      hide InPacket, ParseFragment, RecordWriter.Valid, History, Queued, Body, Unsealable, Short, Worked;
      packet, run := [], [];
      ghost var start := Here();
      HoldsNothing();
      var full, madeProgress := false, false;
      while written < |outgoing| && !full
        modifies this`written, this`offset, this`sealed, writer, writer.writeSequence, writer.lastWriteSequence
        invariant writer.Valid() && Grown() && History() && Placed()
        invariant Holds(start, packet, run) && madeProgress == (run != []) && sealed == old(sealed) + run
        invariant AllWorked(run, old(writer.attempts)) && Spent(old(writer.attempts), |run|, 0)
        invariant full ==> (run != [] && offset > 0) || Short(written, mtu - |packet|)
        invariant run == [] ==> packet == [] && written == start.message
        decreases |outgoing| - written, if full then 0 else 1
      {
        var r;
        ghost var sent;
        r, packet, run, sent := AddRecord(start, packet, run);
        if r.SealError? {
          return false, packet, run;
        }
        madeProgress := madeProgress || !r.NoProgress?;
        if r.SealSuccess? {
          written := written + 1;
        } else {
          full := true;
        }
      }
      ok := madeProgress;
    }

    // ----- sending -----

    /** dtls1_update_mtu; |query| is the answer of the BIO. */
    method UpdateMtu(query: int)
      requires Valid()
      modifies this`mtu
      ensures Valid() && mtu >= MIN_MTU
      ensures mtu == if old(mtu) >= MIN_MTU || noQueryMtu then old(mtu)
                     else if MIN_MTU <= query <= 0x4000_0000 then query else DEFAULT_MTU
    {
      hide ParseFragment, History, OnTheWire, Queued, Covers, Flat;
      if mtu < MIN_MTU && !noQueryMtu {
        mtu := if MIN_MTU <= query <= 0x4000_0000 then query else DEFAULT_MTU;
      }
    }

    /** Another packet is on the wire: what is written now covers the flight up to the
        current position, or has a gap as before. */
    lemma Continued(start: Position, packet: seq<byte>, run: seq<Sent>, before: seq<seq<Sent>>)
      requires Holds(start, packet, run) && run != [] && rewound <= |before| && log == before + [run]
      requires AllSealed(Flat(before[rewound..]), writer.ciphers) && OfFlight(outgoing, Flat(before[rewound..]))
      requires var c := Covers(outgoing, Some(BEGINNING), Flat(before[rewound..]));
               c.Some? ==> c.value.AtMost(start)
      ensures Covering()
      ensures Intact() <==> Covers(outgoing, Some(BEGINNING), Flat(before[rewound..])) == Some(start)
    {
      hide ParseFragment, SealedAs;
      assert log[rewound..] == before[rewound..] + [run];
      FlatMore(before[rewound..], run);
      CoversBoth(outgoing, Some(BEGINNING), Flat(before[rewound..]), run);
      var c := Covers(outgoing, Some(BEGINNING), Flat(before[rewound..]));
      if c != Some(start) {
        StaysBehind(outgoing, c, start, run);
      }
    }

    /** The packet holds all that there is of the flight, or all that there was room for:
        it ends within a message, or is too full for the next one. */
    ghost predicate Packed(run: seq<Sent>)
      reads this`outgoing, this`mtu, writer`wEpoch, writer`ciphers
    {
      && run != [] && |Packet(run)| <= mtu
      && var last := run[|run| - 1];
         var end := After(outgoing, Some(Position(last.message, last.offset)), last);
         && end.Some?
         && (end.value.message == |outgoing| || end.value.offset > 0 || Short(end.value.message, mtu - |Packet(run)|))
    }

    lemma PacketIsPacked(start: Position, packet: seq<byte>, run: seq<Sent>)
      requires Holds(start, packet, run) && run != []
      requires written == |outgoing| || offset > 0 || Short(written, mtu - |packet|)
      ensures Packed(run)
    {
      hide Packet, Short, Body;
    }

    /** One round of send_flight.  A packet that could not be written is rolled back, and
        its records will be sealed again, under new numbers.  A record that could not be
        sealed does not take those before it in the packet back: they are lost. */
    method SendPacket() returns (why: Why, ret: int, ghost packet: seq<byte>, ghost run: seq<Sent>)
      requires Valid() && complete && written < |outgoing|
      modifies this`written, this`offset, this`sealed, this`log
      modifies writer, writer.writeSequence, writer.lastWriteSequence, bio
      ensures Valid() && Onward(if why.NotSealed? then 1 else 0)
      ensures sealed == old(sealed) + run && OfFlight(outgoing, run) && AllWorked(run, old(writer.attempts))
      ensures match why
              case Written =>
                && ret > 0 && bio.packets == old(bio.packets) + [packet] && packet == Packet(run) && |packet| <= mtu
                && log == old(log) + [run] && Packed(run)
                && old(Here()).Before(Here()) && Intact() == old(Intact())
              case Blocked =>
                ret <= 0 && Here() == old(Here()) && log == old(log) && bio.packets == old(bio.packets) && Intact() == old(Intact())
              case NotSealed =>
                && ret == -1 && old(Here()).AtMost(Here()) && log == old(log) && bio.packets == old(bio.packets)
                && Intact() == (old(Intact()) && Here() == old(Here()))
                && (Unsealable(old(writer.attempts) + |run|) || Short(written, mtu))
              case ShutDown => false
      ensures !why.Blocked? ==> Covers(outgoing, Some(old(Here())), run) == Some(Here())
      ensures bio.calls == old(bio.calls) + if why.NotSealed? then 0 else 1
      ensures !why.NotSealed? ==> (why.Blocked? <==> bio.writeResult(old(bio.calls)) <= 0)
    {
      hide ParseFragment, Packet, Covers, After, RecordWriter.Valid, Rising, Queued, SealedAs, Flat, Body,
           Unsealable, Short, Worked, Packed, PartOfAll;
      var oldWritten, oldOffset := written, offset;
      ghost var start, before := Here(), log;
      var ok, bytes;
      ok, bytes, run := SealNextPacket();
      packet := bytes;
      Advanced(start, packet, run);
      PartOfMore(Flat(log), old(sealed), run);
      FlatMore(log, run);
      if !ok {
        return NotSealed, -1, packet, run;
      }
      PacketIsPacked(start, packet, run);
      ret := bio.Write(bytes);
      if ret <= 0 {
        written, offset := oldWritten, oldOffset;
        return Blocked, ret, packet, run;
      }
      log := log + [run];
      Continued(start, packet, run, before);
      why := Written;
    }

    /** The packets written from number |i| on keep to the MTU. */
    ghost predicate Fitting(i: nat)
      reads this`mtu, bio`packets
    {
      forall k | i <= k < |bio.packets| :: |bio.packets[k]| <= mtu
    }

    lemma FittingNone()
      ensures Fitting(|bio.packets|)
    {
    }

    /** The bytes left to send, as a measure. */
    ghost function Rest(): nat
      reads this
    {
      if written < |outgoing| && offset <= |Body(outgoing[written])| then |Body(outgoing[written])| - offset else 0
    }

    lemma WrittenWhole()
      requires Valid() && written == |outgoing| && Intact()
      ensures FlightWritten()
    {
      hide ParseFragment, RecordWriter.Valid, History, Queued, SealedAs, Covers, Packet, Flat;
      assert CarryFlight(bio.packets[rewound..], log[rewound..], outgoing, writer.ciphers);
    }

    /** The packets hold the records from the first on, in order, and each packet is packed. */
    ghost predicate Packaged(all: seq<Sent>, packets: seq<seq<Sent>>, n: nat)
      reads this`outgoing, this`mtu, writer`wEpoch, writer`ciphers
    {
      && OfFlight(outgoing, all) && AllWorked(all, n) && Flat(packets) <= all
      && forall i | 0 <= i < |packets| :: Packed(packets[i])
    }

    lemma NothingPackaged(n: nat)
      ensures Packaged([], [], n) && Covers(outgoing, Some(Here()), []) == Some(Here())
    {
    }

    /** One more packet, which may not have been written. */
    lemma PackagedMore(all: seq<Sent>, packets: seq<seq<Sent>>, n: nat, run: seq<Sent>)
      requires Packaged(all, packets, n) && AllWorked(run, n + |all|) && OfFlight(outgoing, run)
      ensures Packaged(all + run, packets, n)
      ensures Flat(packets) == all && Packed(run) ==> Packaged(all + run, packets + [run], n) && Flat(packets + [run]) == all + run
    {
      hide Packed, Worked;
      FlatMore(packets, run);
    }

    /** How a call that began at |from| ended: what it sealed, it sealed one record after the
        other from there on, and packaged; and if it stopped at a record that could not be
        sealed, why. */
    twostate predicate Accounted(why: Why, from: Position)
      reads this`outgoing, this`written, this`offset, this`mtu, this`sealed, this`log, writer
      requires |old(sealed)| <= |sealed| && |old(log)| <= |log|
    {
      var all, packets := sealed[|old(sealed)|..], log[|old(log)|..];
      && Packaged(all, packets, old(writer.attempts))
      && (!why.Blocked? ==> Covers(outgoing, Some(from), all) == Some(Here()))
      && (why.Written? ==> Flat(packets) == all)
      && (why.NotSealed? ==> Unsealable(old(writer.attempts) + |all|) || Short(written, mtu))
    }

    /** What has been sealed and written since the position was |from|, with no failure. */
    ghost predicate Account(from: Position, all: seq<Sent>, packets: seq<seq<Sent>>, n: nat)
      reads this`outgoing, this`written, this`offset, this`mtu, writer`wEpoch, writer`ciphers, writer`attempts
    {
      && Packaged(all, packets, n) && Flat(packets) == all
      && Covers(outgoing, Some(from), all) == Some(Here()) && Spent(n, |all|, 0)
    }

    /** A round, on top of the account of those before. */
    method SendNext(ghost from: Position, ghost all: seq<Sent>, ghost packets: seq<seq<Sent>>, ghost n: nat)
        returns (why: Why, ret: int, ghost run: seq<Sent>)
      requires Valid() && complete && written < |outgoing| && Account(from, all, packets, n)
      modifies this`written, this`offset, this`sealed, this`log
      modifies writer, writer.writeSequence, writer.lastWriteSequence, bio
      ensures Valid() && Onward(if why.NotSealed? then 1 else 0) && written <= |outgoing|
      ensures sealed == old(sealed) + run && log == if why.Written? then old(log) + [run] else old(log)
      ensures why.Written? || (ret <= 0 && (why.Blocked? || why.NotSealed?))
      ensures why.Written? ==>
                && Account(from, all + run, packets + [run], n)
                && (written > old(written) || (written == old(written) && Rest() < old(Rest())))
      ensures !why.Written? ==> Packaged(all + run, packets, n)
      ensures why.NotSealed? ==>
                && Covers(outgoing, Some(from), all + run) == Some(Here())
                && (Unsealable(n + |all + run|) || Short(written, mtu))
                && (old(Intact()) ==> Covered().Some?) && (Intact() ==> old(Intact()))
      ensures !why.NotSealed? ==> Intact() == old(Intact())
      ensures bio.calls >= old(bio.calls) && (why.Blocked? ==> bio.writeResult(old(bio.calls)) <= 0)
      ensures forall i: nat | i <= |old(bio.packets)| && old(Fitting(i)) :: Fitting(i)
    {
      hide Valid, ParseFragment, Covers, After, Flat, Body, Covered, Packaged, Unsealable, Short, Packed, Worked;
      ValidMeans();
      ghost var packet;
      why, ret, packet, run := SendPacket();
      ValidMeans();
      PackagedMore(all, packets, n, run);
      CoversBoth(outgoing, Some(from), all, run);
    }

    /** The loop of send_flight.  It ends because every packet moves the flight on. */
    method SendPackets() returns (why: Why, ret: int)
      requires Valid() && complete
      modifies this`written, this`offset, this`sealed, this`log
      modifies writer, writer.writeSequence, writer.lastWriteSequence, bio
      ensures Valid() && Onward(if why.NotSealed? then 1 else 0) && Accounted(why, old(Here()))
      ensures Fitting(|old(bio.packets)|)
      ensures why.Written? || (ret <= 0 && (why.Blocked? || why.NotSealed?))
      ensures !why.NotSealed? ==> Intact() == old(Intact())
      ensures why.NotSealed? && old(Intact()) ==> Covered().Some?
      ensures why.NotSealed? && Intact() ==> old(Intact())
      ensures why.Written? ==> written == |outgoing|
      ensures bio.calls >= old(bio.calls) && (why.Blocked? ==> exists k :: old(bio.calls) <= k && bio.writeResult(k) <= 0)
      ensures old(written) == |outgoing| ==>
                why.Written? && log == old(log) && bio.packets == old(bio.packets) && bio.calls == old(bio.calls)
    {
      hide Valid, ParseFragment, Covers, After, Flat, Body, Covered, Intact, Rest, Packaged, Unsealable, Short, Packed, Worked,
           Fitting;
      why, ret := Written, 1;
      ghost var all, packets := [], [];
      assert Fitting(|bio.packets|) by { FittingNone(); }
      NothingPackaged(writer.attempts);
      ValidMeans();
      while written < |outgoing|
        invariant Valid() && complete && Onward(0) && Intact() == old(Intact()) && old(written) <= written <= |outgoing|
        invariant why.Written? && Fitting(|old(bio.packets)|)
        invariant sealed == old(sealed) + all && log == old(log) + packets && Account(old(Here()), all, packets, old(writer.attempts))
        invariant bio.calls >= old(bio.calls)
        invariant old(written) == |outgoing| ==>
                    log == old(log) && bio.packets == old(bio.packets) && bio.calls == old(bio.calls)
        decreases |outgoing| - written, Rest()
      {
        ghost var run;
        why, ret, run := SendNext(old(Here()), all, packets, old(writer.attempts));
        all := all + run;
        if !why.Written? {
          assert sealed[|old(sealed)|..] == all && log[|old(log)|..] == packets;
          return;
        }
        packets := packets + [run];
      }
    }

    /** send_flight.  Blocking loses nothing; a record that cannot be sealed leaves a gap
        exactly if the position has moved since the last packet. */
    method SendFlight(query: int) returns (why: Why, ret: int)
      requires Valid() && complete
      modifies this`written, this`offset, this`mtu, this`sealed, this`log
      modifies writer, writer.writeSequence, writer.lastWriteSequence, bio
      ensures Valid() && Onward(if why.NotSealed? then 1 else 0) && Accounted(why, old(Here()))
      ensures (ret == 1 <==> why.Written?) && (ret <= 0 || ret == 1)
      ensures Fitting(|old(bio.packets)|)
      ensures (why.ShutDown? <==> writeShutdown) && (old(mtu) >= MIN_MTU ==> mtu == old(mtu))
      ensures why.ShutDown? ==> Here() == old(Here()) && bio.packets == old(bio.packets) && log == old(log)
      ensures !why.NotSealed? ==> Intact() == old(Intact())
      ensures why.NotSealed? && old(Intact()) ==> Covered().Some?
      ensures why.NotSealed? && Intact() ==> old(Intact())
      ensures why.Written? ==> written == |outgoing| && (Covered() == Some(Position(|outgoing|, 0)) <==> old(Intact()))
      ensures why.Written? && old(Intact()) ==> FlightWritten()
      ensures why.Blocked? ==> exists k :: old(bio.calls) <= k && (bio.writeResult(k) <= 0 || bio.flushResult(k) <= 0)
      ensures old(written) == |outgoing| && !writeShutdown ==>
                log == old(log) && bio.packets == old(bio.packets) && (why.Written? <==> bio.flushResult(old(bio.calls)) > 0)
    {
      hide ParseFragment, Covers, RecordWriter.Valid, Queued, Flat, Body, History, OnTheWire, Covering, WholeFlight,
           Packaged, Unsealable, Short;
      if writeShutdown {
        NothingPackaged(writer.attempts);
        assert sealed[|sealed|..] == [] && log[|log|..] == [];
        return ShutDown, -1;
      }
      UpdateMtu(query);
      why, ret := SendPackets();
      if !why.Written? {
        return;
      }
      var flushed := bio.Flush();
      if flushed <= 0 {
        return Blocked, -1;
      }
      if Intact() {
        WrittenWhole();
      }
      ret := 1;
    }

    method MarkComplete()
      requires Valid()
      modifies this`complete
      ensures Valid() && complete
    {
      hide ParseFragment, History, OnTheWire, Covering, Queued, Covers, Flat;
      complete := true;
    }

    /** dtls1_flush_flight. */
    method FlushFlight(query: int) returns (why: Why, ret: int)
      requires Valid()
      modifies this`complete, this`written, this`offset, this`mtu, this`sealed, this`log
      modifies writer, writer.writeSequence, writer.lastWriteSequence, bio
      ensures Valid() && complete && Onward(if why.NotSealed? then 1 else 0) && Accounted(why, old(Here()))
      ensures (ret == 1 <==> why.Written?) && (ret <= 0 || ret == 1)
      ensures Fitting(|old(bio.packets)|)
      ensures (why.ShutDown? <==> writeShutdown) && (old(mtu) >= MIN_MTU ==> mtu == old(mtu))
      ensures !why.NotSealed? ==> Intact() == old(Intact())
      ensures why.NotSealed? && Intact() ==> old(Intact())
      ensures why.Written? ==> (Covered() == Some(Position(|outgoing|, 0)) <==> old(Intact()))
      ensures why.Written? && old(Intact()) ==> FlightWritten()
      ensures why.Written? ==> written == |outgoing|
      ensures why.Blocked? ==> exists k :: old(bio.calls) <= k && (bio.writeResult(k) <= 0 || bio.flushResult(k) <= 0)
    {
      hide ParseFragment, Valid, Covers, WholeFlight, Flat, Packaged, Unsealable, Short;
      MarkComplete();
      why, ret := SendFlight(query);
    }

    /** A new flight, flushed again as long as the BIO blocks, as ssl_run_handshake does
        between waits: however often it blocks, in the end all of the flight is on the wire. */
    method FlushWhileBlocked(times: nat, query: int) returns (why: Why)
      requires Valid() && !complete
      modifies this`complete, this`written, this`offset, this`mtu, this`sealed, this`log
      modifies writer, writer.writeSequence, writer.lastWriteSequence, bio
      ensures Valid() && Onward(if why.NotSealed? then 1 else 0)
      ensures why.Written? ==> WholeFlight(bio.packets[|old(bio.packets)|..], outgoing, writer.ciphers)
    {
      hide Valid, WholeFlight, Covered, Accounted;
      ValidMeans();
      var ret;
      why, ret := FlushFlight(query);
      var i := 0;
      while why.Blocked? && i < times
        invariant Valid() && Onward(if why.NotSealed? then 1 else 0)
        invariant why.Blocked? ==> Intact()
        invariant why.Written? ==> FlightWritten()
      {
        why, ret := FlushFlight(query);
        i := i + 1;
      }
    }

    /** dtls1_retransmit_outgoing_messages: the flight is sent from the start, so if the
        call reports success all of it has been written since, whatever happened before. */
    method Retransmit(query: int) returns (why: Why, ret: int)
      requires Valid() && complete
      modifies this`written, this`offset, this`mtu, this`sealed, this`log, this`rewound
      modifies writer, writer.writeSequence, writer.lastWriteSequence, bio
      ensures Valid() && Onward(if why.NotSealed? then 1 else 0) && Accounted(why, BEGINNING)
      ensures (ret == 1 <==> why.Written?) && (ret <= 0 || ret == 1)
      ensures Fitting(|old(bio.packets)|)
      ensures !why.NotSealed? ==> Intact()
      ensures (why.ShutDown? <==> writeShutdown) && (why.Written? ==> written == |outgoing|)
      ensures why.Blocked? ==> exists k :: old(bio.calls) <= k && (bio.writeResult(k) <= 0 || bio.flushResult(k) <= 0)
      ensures why.Written? ==> WholeFlight(bio.packets[|old(bio.packets)|..], outgoing, writer.ciphers)
    {
      hide ParseFragment, History, Queued, WholeFlight, Covers, Flat, Packaged, Unsealable, Short;
      written, offset, rewound := 0, 0, |log|;
      Rewound();
      why, ret := SendFlight(query);
    }

    lemma Rewound()
      requires rewound == |log| && Here() == BEGINNING
      ensures Covering() && Intact()
    {
    }

    /** dtls1_check_timeout_num; |fallback| is the answer of the BIO. */
    method CheckTimeoutNum(fallback: int) returns (ok: bool)
      requires Valid()
      modifies this`numTimeouts, this`mtu
      ensures Valid() && numTimeouts == old(numTimeouts) + 1 && ok == (numTimeouts <= MAX_TIMEOUTS)
      ensures mtu == if numTimeouts > MTU_TIMEOUTS && !noQueryMtu && MIN_MTU <= fallback <= 0x4000_0000
                     then fallback else old(mtu)
    {
      hide ParseFragment, History, Queued, OnTheWire, Covering;
      numTimeouts := numTimeouts + 1;
      if numTimeouts > MTU_TIMEOUTS && !noQueryMtu {
        if MIN_MTU <= fallback <= 0x4000_0000 {
          mtu := fallback;
        }
      }
      ok := numTimeouts <= MAX_TIMEOUTS;
    }

    /** dtls1_double_timeout, on a 32-bit number of milliseconds: up to a minute, except that
        a duration of 2^31 or more wraps around. */
    method DoubleTimeout()
      requires Valid() && timeoutMs < 0x1_0000_0000
      modifies this`timeoutMs
      ensures Valid()
      ensures old(timeoutMs) <= 30000 ==> timeoutMs == 2 * old(timeoutMs)
      ensures 30000 < old(timeoutMs) < 0x8000_0000 ==> timeoutMs == 60000
      ensures old(timeoutMs) >= 0x8000_0000 ==>
                timeoutMs == if old(timeoutMs) > 0x8000_0000 + 30000 then 60000 else 2 * (old(timeoutMs) - 0x8000_0000)
    {
      hide ParseFragment, History, Queued, OnTheWire, Covering;
      timeoutMs := (2 * timeoutMs) % 0x1_0000_0000;
      if timeoutMs > 60000 {
        timeoutMs := 60000;
      }
    }

    /** DTLSv1_handle_timeout; whether the timer has expired is up to the clock. */
    method HandleTimeout(expired: bool, fallback: int, query: int) returns (ret: int, ghost why: Why)
      requires Valid() && complete && timeoutMs < 0x1_0000_0000
      modifies this`written, this`offset, this`mtu, this`sealed, this`log, this`rewound, this`numTimeouts, this`timeoutMs
      modifies writer, writer.writeSequence, writer.lastWriteSequence, bio
      ensures Valid() && Onward(1) && ret <= 1
      ensures ret == 1 ==> expired && WholeFlight(bio.packets[|old(bio.packets)|..], outgoing, writer.ciphers)
      ensures !expired ==> ret == 0 && bio.packets == old(bio.packets) && numTimeouts == old(numTimeouts)
      ensures expired ==> numTimeouts == old(numTimeouts) + 1
      ensures expired && old(numTimeouts) < MAX_TIMEOUTS ==>
                && Accounted(why, BEGINNING) && (ret == 1 <==> why.Written?) && (why.ShutDown? <==> writeShutdown)
                && (why.Blocked? ==> exists k :: old(bio.calls) <= k && (bio.writeResult(k) <= 0 || bio.flushResult(k) <= 0))
      ensures expired && old(numTimeouts) >= MAX_TIMEOUTS ==> ret == -1 && bio.packets == old(bio.packets)
      ensures expired && old(numTimeouts) < MAX_TIMEOUTS && old(timeoutMs) <= 30000 ==> timeoutMs == 2 * old(timeoutMs)
    {
      hide ParseFragment, History, Queued, OnTheWire, Covering, WholeFlight, Packaged, Unsealable, Short, Covers;
      why := Written;
      if !expired {
        return 0, why;
      }
      var ok := CheckTimeoutNum(fallback);
      if !ok {
        return -1, why;
      }
      DoubleTimeout();
      var result;
      result, ret := Retransmit(query);
      why := result;
    }

    // ----- the handshake goes on -----

    /** The part of dtls1_next_message that concerns the flight: it has been answered. */
    method MessageTaken()
      requires Valid()
      modifies this`hasReply
      ensures Valid() && hasReply == (old(hasReply) || complete)
    {
      hide ParseFragment, History, Queued, OnTheWire, Covering;
      if complete {
        hasReply := true;
      }
    }

    /** dtls1_on_handshake_complete: a final flight nobody answers is kept. */
    method OnHandshakeComplete()
      requires Valid()
      modifies this`numTimeouts, this`timeoutMs
      modifies this`outgoing, this`written, this`offset, this`complete, this`hasReply, this`rewound
      ensures Valid() && numTimeouts == 0 && timeoutMs == initialTimeoutMs
      ensures if old(hasReply) then outgoing == [] && !complete
              else outgoing == old(outgoing) && complete == old(complete) && Here() == old(Here())
    {
      hide ParseFragment, History, Queued, OnTheWire, Covering;
      StopTimer();
      if hasReply {
        ClearOutgoing();
      }
    }

    /** dtls1_set_write_state while a flight is queued: its messages keep their epochs. */
    method SetWriteState(next: Cipher)
      requires Valid() && writer.wEpoch + 1 < 0x1_0000 && next.version < 0x1_0000
      modifies writer, writer.writeSequence, writer.lastWriteSequence
      ensures Valid() && writer.wEpoch == old(writer.wEpoch) + 1 && writer.ciphers == old(writer.ciphers) + [next]
      ensures writer.used == old(writer.used) && writer.wrapped == old(writer.wrapped)
      ensures writer.attempts == old(writer.attempts) && writer.cipher == next && writer.lastCipher == old(writer.cipher)
    {
      hide ParseFragment, RecordWriter.Valid, Queued, OnTheWire, Rising, SealedAs, Covers;
      ghost var before := writer.ciphers;
      writer.SetWriteState(next);
      SealedStill(sealed, before, writer.ciphers);
      SealedStill(Run(), before, writer.ciphers);
    }
  }

}
