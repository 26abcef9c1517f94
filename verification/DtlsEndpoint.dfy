/** One end of a DTLS connection as it hears the other: packets are read record by record,
    and the messages put together from them are handed up. */
module DtlsEndpoint {
  import opened Common
  import opened DtlsTypes
  import opened DtlsReplay
  import opened DtlsRead
  import opened DtlsWrite
  import opened DtlsFlight
  import opened DtlsSender
  import opened DtlsWindow
  import opened DtlsReceive
  import opened DtlsLink
  import opened DtlsHear

  /** The packet is made of records the peer sealed, each with part of one of its messages. */
  ghost predicate Genuine(packet: seq<byte>, run: seq<Sent>, ciphers: seq<Cipher>, messages: seq<Message>) {
    && packet == Packet(run) && AllSealed(run, ciphers)
    && forall i | 0 <= i < |run| :: Known(run[i].source, messages)
  }

  /** Every packet a flight was sent in is one. */
  lemma SentPacket(s: FlightSender, i: nat)
    requires s.Valid() && i < |s.bio.packets|
    ensures |s.log| == |s.bio.packets|
    ensures Genuine(s.bio.packets[i], s.log[i], s.writer.ciphers, s.messages)
  {
    hide ParseFragment, SealedAs, Known, Packet, RecordWriter.Valid, Covers, Rising;
    forall j | 0 <= j < |s.log[i]| ensures SealedAs(s.log[i][j], s.writer.ciphers) && Known(s.log[i][j].source, s.messages) {
      InFlat(s.log, i, j);
      var k :| 0 <= k < |Flat(s.log)| && Flat(s.log)[k] == s.log[i][j];
      PartIsIn(Flat(s.log), s.sealed, k);
    }
  }

  lemma {:induction false} PacketFront(run: seq<Sent>)
    requires run != []
    ensures Packet(run) == RecordOf(run[0]) + Packet(run[1..])
  {
    hide RecordOf;
    var n := |run| - 1;
    if n == 0 {
      assert run[..n] == [] && run[1..] == [];
    } else {
      PacketFront(run[..n]);
      assert run[1..][..n - 1] == run[..n][1..];
    }
  }

  lemma RecordIsLong(s: Sent)
    requires |s.sequence| == 8
    ensures |RecordOf(s)| == RECORD_HEADER + |s.sealed|
  {
  }

  /** What is read of a handshake record is a piece of one of the messages. */
  lemma PieceOfMessage(s: Sent, ciphers: seq<Cipher>, messages: seq<Message>)
    requires SealedAs(s, ciphers) && Known(s.source, messages) && !s.source.isCcs && |messages| <= SEQ_SPACE
    ensures PieceOf(Plain(s.source, s.offset, s.len), messages)
  {
    hide ParseFragment, Plain, WellFormed;
    var n :| IsMessage(s.source, messages, n);
    assert IsPiece(Plain(s.source, s.offset, s.len), messages, s.source, n, s.offset, s.len);
  }

  /** With no bytes left of a packet there are no records left. */
  lemma NoneLeft(run: seq<Sent>)
    ensures Packet(run) == [] <==> run == []
  {
    if run != [] {
      PacketFront(run);
    }
  }

  lemma CcsContents(s: Sent)
    ensures (s.source.isCcs ==> Contents(s) == CCS_BODY) && TypeOf(s.source) != ALERT
  {
  }

  /** A packet cut off at the front is what is left of it. */
  lemma FrontGone(run: seq<Sent>, consumed: nat)
    requires run != [] && |run[0].sequence| == 8 && consumed == RECORD_HEADER + |run[0].sealed|
    ensures consumed <= |Packet(run)| && Packet(run)[consumed..] == Packet(run[1..])
  {
    PacketFront(run);
    RecordIsLong(run[0]);
  }

  /** The record at the front of a packet, unless it is too long to be read. */
  lemma FrontReads(run: seq<Sent>, ciphers: seq<Cipher>)
    requires run != [] && SealedAs(run[0], ciphers)
    ensures var s := run[0];
            ParseRecord(Packet(run)) == if |s.sealed| > MAX_ENCRYPTED then None
                                        else Some(Record(TypeOf(s.source), s.version, s.sequence, s.sealed, Packet(run[1..])))
    ensures |Packet(run)| == RECORD_HEADER + |run[0].sealed| + |Packet(run[1..])|
  {
    hide ParseFragment, WellFormed, Body, Plain;
    var s, bs := run[0], Packet(run);
    PacketFront(run);
    RecordIsLong(s);
    if |s.sealed| <= MAX_ENCRYPTED {
      RecordReads(TypeOf(s.source), s.version, s.sequence, s.sealed, Packet(run[1..]));
    } else {
      U16Reads(|s.sealed|);
      assert bs[11] == U16(|s.sealed|)[0] && bs[12] == U16(|s.sealed|)[1];
    }
  }

  /** What is read of the front record in its epoch is what it carries. */
  lemma FrontOpens(s: Sent, ciphers: seq<Cipher>, c: Cipher)
    requires SealedAs(s, ciphers) && ciphers[s.source.epoch] == c && Inverse(c)
    ensures c.open(TypeOf(s.source), s.version, s.sequence, s.sealed) == Some(Plain(s.source, s.offset, s.len))
    ensures Get16(s.sequence, 0) == s.source.epoch
  {
    hide ParseFragment, WellFormed, Body, Plain;
  }

  class Endpoint {
    const reader: RecordReader
    const receiver: Receiver
    /** The messages handed up so far, with their headers. */
    var handedUp: seq<seq<byte>>

    /** What has happened, and the messages the peer has queued so far. */
    ghost var events: seq<Event>
    ghost var messages: seq<Message>

    ghost predicate Valid()
      reads this, reader, reader.window, receiver, receiver.Repr
    {
      && reader.Valid() && receiver.Valid() && !receiver.hasMessage
      && {this, reader, reader.window} !! receiver.Repr
      && State(receiver.View(), handedUp) == Run(START, events)
      && Heard(events, messages)
    }

    /** Whatever has arrived is part of the messages. */
    ghost predicate Heard(events: seq<Event>, messages: seq<Message>) {
      forall i | 0 <= i < |events| :: events[i].Arrive? ==> PieceOf(events[i].record, messages)
    }

    /** The messages handed up are the first of those the peer queued, in order. */
    ghost predicate Correct()
      reads this
    {
      && |handedUp| <= |messages|
      && forall k | 0 <= k < |handedUp| :: handedUp[k] == Raw(messages[k].typ, k, messages[k].body)
    }

    /** End to end, for this endpoint. */
    lemma AlwaysCorrect()
      requires Valid() && |messages| < SEQ_SPACE
      ensures Correct()
    {
      hide RecordReader.Valid, Receiver.Valid, Receiver.View;
      EndToEnd(events, messages);
    }

    constructor (cipher: Cipher, flight: nat)
      requires flight > 0
      ensures Valid() && handedUp == [] && messages == [] && reader.cipher == cipher && reader.rEpoch == 0
      ensures fresh(reader) && fresh(reader.window) && fresh(receiver) && fresh(receiver.Repr)
    {
      reader := new RecordReader(cipher);
      receiver := new Receiver(flight);
      handedUp, events, messages := [], [], [];
    }

    lemma ViewIsFaithful()
      requires Valid() && |messages| < SEQ_SPACE
      ensures receiver.Valid() && FaithfulWindow(receiver.View(), messages)
    {
      hide RecordReader.Valid, Receiver.Valid, Receiver.View;
      EndToEnd(events, messages);
    }

    lemma HeardMore(more: seq<Message>)
      requires Heard(events, messages) && messages <= more
      ensures Heard(events, more)
    {
      forall i | 0 <= i < |events| && events[i].Arrive? ensures PieceOf(events[i].record, more) {
        var m, n, off, len :| IsPiece(events[i].record, messages, m, n, off, len);
        assert IsPiece(events[i].record, more, m, n, off, len);
      }
    }

    /** The peer has queued more messages. */
    ghost method Learn(more: seq<Message>)
      requires Valid() && messages <= more
      modifies this`messages
      ensures Valid() && messages == more
    {
      hide ParseFragment, PieceOf, RecordReader.Valid, Receiver.Valid, Receiver.View, Run;
      HeardMore(more);
      messages := more;
    }

    lemma Apart()
      requires Valid()
      ensures {this, reader, reader.window, receiver} !! receiver.Repr && receiver.incoming in receiver.Repr && receiver.Valid()
    {
      ReceiverApart();
    }

    /** What has been heard in the current epoch, and under which keys. */
    ghost function Hears(): Ear
      requires receiver.Valid()
      reads reader.window`recorded, receiver`handshakeReadSeq, receiver`Repr, receiver`hasChangeCipherSpec, receiver.Repr
    {
      Ear(reader.window.recorded, receiver.View(), receiver.hasChangeCipherSpec)
    }

    ghost function Now(): Keys
      reads reader
    {
      Keys(reader.readShutdown, reader.rEpoch, reader.cipher)
    }

    /** What the keys of the current epoch are: those the peer has for it. */
    ghost predicate Keyed(ciphers: seq<Cipher>)
      reads this, reader
    {
      reader.rEpoch < |ciphers| && reader.cipher == ciphers[reader.rEpoch] && Inverse(reader.cipher)
    }

    /** dtls1_open_handshake on the record at the front of what has been read. */
    method OpenFront(rest: seq<byte>, e: Env, ghost run: seq<Sent>, ghost ciphers: seq<Cipher>)
        returns (more: bool, consumed: nat)
      requires Valid() && e.flight == receiver.flight && run != []
      requires Genuine(rest, run, ciphers, messages) && |messages| < SEQ_SPACE && Keyed(ciphers)
      modifies this`events, reader.window, receiver`Repr, receiver`hasChangeCipherSpec, receiver.Repr
      ensures Valid() && fresh(receiver.Repr - old(receiver.Repr)) && Keyed(ciphers)
      ensures more ==> consumed == |rest| || consumed == RECORD_HEADER + |run[0].sealed|
      ensures ReadRun(old(Hears()), Now(), e, run)
              == if !more then Reading(false, Hears())
                 else if consumed == |rest| then Reading(true, Hears())
                 else ReadRun(Hears(), Now(), e, run[1..])
    {
      hide ParseFragment, ParseRecord, SealedAs, Known, Packet, Plain, RecordOf, Inverse, TakeRecord, PieceOf,
           RecordReader.Valid, ReplayWindow.Valid, Receiver.Valid, Receiver.View, TypeOf;
      FrontReads(run, ciphers);
      NoneLeft(run[1..]);
      CcsContents(run[0]);
      assert SealedAs(run[0], ciphers) && |run[0].sequence| == 8 && Get16(run[0].sequence, 0) == run[0].source.epoch by {
        EpochRead(run[0], ciphers);
      }
      if run[0].source.epoch == reader.rEpoch {
        FrontOpens(run[0], ciphers, reader.cipher);
      }
      var r;
      r, consumed := reader.OpenRecord(rest);
      if r.Discard? {
        return true, consumed;
      }
      if !r.Success? {
        return false, consumed;
      }
      more := Hand(e, r.typ, r.body, run[0], ciphers);
    }

    lemma EpochRead(s: Sent, ciphers: seq<Cipher>)
      requires SealedAs(s, ciphers)
      ensures |s.sequence| == 8 && Get16(s.sequence, 0) == s.source.epoch
    {
    }

    lemma ReceiverApart()
      requires receiver.Valid()
      ensures receiver !in receiver.Repr && receiver.incoming in receiver.Repr
      ensures receiver.View().readSeq == receiver.handshakeReadSeq
    {
    }

    lemma RunMore(before: seq<Event>, ev: Event)
      ensures Run(START, before + [ev]) == Step(Run(START, before), ev)
    {
      assert (before + [ev])[..|before|] == before;
    }

    lemma HeardAlso(before: seq<Event>, ev: Event)
      requires Heard(before, messages) && (ev.Arrive? ==> PieceOf(ev.record, messages))
      ensures Heard(before + [ev], messages)
    {
    }

    /** The contents of a record are handed to the handshake. */
    method Hand(e: Env, typ: byte, body: seq<byte>, ghost s: Sent, ghost ciphers: seq<Cipher>) returns (ok: bool)
      requires Valid() && e.flight == receiver.flight && |messages| < SEQ_SPACE
      requires SealedAs(s, ciphers) && Known(s.source, messages)
      requires typ == TypeOf(s.source) && body == Plain(s.source, s.offset, s.len)
      modifies this`events, receiver`Repr, receiver`hasChangeCipherSpec, receiver.Repr
      ensures Valid() && fresh(receiver.Repr - old(receiver.Repr))
      ensures Reading(ok, Hears()) == HandOver(old(Hears()), reader.cipher, e, s)
    {
      hide ParseFragment, SealedAs, Known, Plain, TakeRecord, PieceOf, Run, Heard, ReplayWindow.Valid, Receiver.Valid, Receiver.View;
      ReceiverApart();
      CcsContents(s);
      var o := receiver.OpenHandshake(e, reader.cipher.isNull, typ, body);
      if typ == HANDSHAKE {
        PieceOfMessage(s, ciphers, messages);
        ghost var before := events;
        events := events + [Arrive(e, body)];
        RunMore(before, Arrive(e, body));
        HeardAlso(before, Arrive(e, body));
      }
      ok := o != OpenError;
    }

    /** A packet of the peer is read record by record. */
    method ReceivePacket(packet: seq<byte>, e: Env, ghost run: seq<Sent>, ghost ciphers: seq<Cipher>, ghost known: seq<Message>)
        returns (ok: bool)
      requires Valid() && e.flight == receiver.flight && e.rEpoch == reader.rEpoch
      requires messages <= known && |known| < SEQ_SPACE && Genuine(packet, run, ciphers, known) && Keyed(ciphers)
      modifies this`events, this`messages, reader.window, receiver`Repr, receiver`hasChangeCipherSpec, receiver.Repr
      ensures Valid() && fresh(receiver.Repr - old(receiver.Repr)) && Keyed(ciphers)
      ensures messages == known && Correct()
      ensures ReadRun(old(Hears()), Now(), e, run) == Reading(ok, Hears())
    {
      hide ParseFragment, SealedAs, Known, Packet, Plain, RecordOf, Inverse, PieceOf, Run,
           RecordReader.Valid, ReplayWindow.Valid, Receiver.Valid, Receiver.View;
      HeardMore(known);
      messages := known;
      NoneLeft(run);
      var rest := packet;
      ghost var left := run;
      ok := true;
      while rest != [] && ok
        invariant Valid() && fresh(receiver.Repr - old(receiver.Repr)) && Keyed(ciphers)
        invariant messages == known && (ok ==> Genuine(rest, left, ciphers, messages) || rest == [])
        invariant ReadRun(old(Hears()), Now(), e, run)
                  == if !ok || rest == [] then Reading(ok, Hears()) else ReadRun(Hears(), Now(), e, left)
        decreases |rest|, ok
      {
        var consumed;
        assert left != [] by { NoRecords(); }
        ok, consumed := OpenFront(rest, e, left, ciphers);
        if ok {
          FrontReads(left, ciphers);
          FrontGoes(left, ciphers);
          rest := rest[consumed..];
          left := left[1..];
        }
      }
      AlwaysCorrect();
    }

    lemma NoRecords()
      ensures Packet([]) == []
    {
    }

    lemma FrontGoes(run: seq<Sent>, ciphers: seq<Cipher>)
      requires run != [] && SealedAs(run[0], ciphers)
      ensures |Packet(run)| >= RECORD_HEADER + |run[0].sealed|
      ensures Packet(run)[RECORD_HEADER + |run[0].sealed|..] == Packet(run[1..])
    {
      hide ParseFragment, WellFormed, Body, Plain;
      FrontGone(run, RECORD_HEADER + |run[0].sealed|);
    }

    /** dtls1_open_change_cipher_spec and dtls1_set_read_state: the ChangeCipherSpec that was
        flagged starts a new epoch, unless messages of the old one are waiting. */
    method ChangeReadState(next: Cipher) returns (ok: bool)
      requires Valid()
      modifies reader, reader.window, receiver`hasChangeCipherSpec
      ensures Valid() && handedUp == old(handedUp)
      ensures ok <==> old(receiver.hasChangeCipherSpec) && forall s :: !receiver.View().Begun(s)
      ensures ok ==> reader.rEpoch == (old(reader.rEpoch) + 1) % 0x1_0000 && reader.cipher == next
      ensures !ok ==> reader.rEpoch == old(reader.rEpoch) && reader.cipher == old(reader.cipher)
    {
      hide ParseFragment, PieceOf, ReplayWindow.Valid, Receiver.Valid, Receiver.View, Run, Heard;
      ReceiverApart();
      ok := receiver.TakeChangeCipherSpec();
      if ok {
        var any := receiver.HasUnprocessed();
        ok := reader.SetReadState(next, any);
      }
    }

    /** dtls1_get_message and dtls1_next_message: the current message is handed up if it is
        complete, and our last flight, if it has been sent, has been answered. */
    method Deliver(sender: FlightSender) returns (ok: bool)
      requires Valid() && |messages| < SEQ_SPACE && sender.Valid()
      requires {sender, sender.writer, sender.writer.writeSequence, sender.writer.lastWriteSequence, sender.bio} !! receiver.Repr
      modifies this`handedUp, this`events, receiver`hasMessage, receiver`handshakeReadSeq, receiver.incoming, sender`hasReply
      ensures Valid() && sender.Valid() && messages == old(messages) && Correct()
      ensures ok == old(receiver.View()).Ready()
      ensures State(receiver.View(), handedUp) == Step(State(old(receiver.View()), old(handedUp)), Event.Deliver)
      ensures sender.hasReply == (old(sender.hasReply) || (ok && sender.complete))
    {
      hide ParseFragment, PieceOf, Raw, Run, Heard, RecordReader.Valid, ReplayWindow.Valid, Receiver.Valid, Receiver.View, FlightSender.Valid;
      ReceiverApart();
      var typ, body, raw;
      ok, typ, body, raw := receiver.GetMessage();
      if ok {
        receiver.NextMessage();
        handedUp := handedUp + [raw];
        ghost var before := events;
        events := events + [Event.Deliver];
        RunMore(before, Event.Deliver);
        HeardAlso(before, Event.Deliver);
        sender.MessageTaken();
      }
      AlwaysCorrect();
    }

    /** A packet is read, and then the current message is handed up if it is complete. */
    method ListenTo(packet: seq<byte>, e: Env, ghost run: seq<Sent>, ghost ciphers: seq<Cipher>, sender: FlightSender)
      requires Valid() && e.flight == receiver.flight && e.rEpoch == reader.rEpoch
      requires |messages| < SEQ_SPACE && Genuine(packet, run, ciphers, messages) && Keyed(ciphers) && sender.Valid()
      requires {sender, sender.writer, sender.writer.writeSequence, sender.writer.lastWriteSequence, sender.bio} !! receiver.Repr
      modifies this`events, this`messages, this`handedUp, reader.window, receiver, receiver.Repr, sender`hasReply
      ensures Valid() && fresh(receiver.Repr - old(receiver.Repr)) && Keyed(ciphers) && sender.Valid()
      ensures messages == old(messages) && old(handedUp) <= handedUp && receiver.Valid()
      ensures Told(Hears(), handedUp) == ListenOne(Told(old(Hears()), old(handedUp)), Now(), e, run)
    {
      hide ParseFragment, FlightSender.Valid, Valid, Genuine, Raw, Inverse, ReadRun, Receiver.View;
      Apart();
      var ok := ReceivePacket(packet, e, run, ciphers, messages);
      Apart();
      ok := Deliver(sender);
      Apart();
    }

    /** The packets of a flight, one after the other, and nothing else. */
    method ReadAll(packets: seq<seq<byte>>, e: Env, ghost runs: seq<seq<Sent>>, ghost ciphers: seq<Cipher>) returns (ok: bool)
      requires Valid() && e.flight == receiver.flight && e.rEpoch == reader.rEpoch
      requires |messages| < SEQ_SPACE && Keyed(ciphers) && |packets| == |runs|
      requires forall i | 0 <= i < |packets| :: Genuine(packets[i], runs[i], ciphers, messages)
      requires AllReadable(Flat(runs), Now()) && Above(reader.window.recorded, Flat(runs), e.rEpoch)
      requires receiver.Valid() && TakeAll(receiver.View(), e, ContentsOf(Flat(runs), e.rEpoch)).ok
      modifies this`events, this`messages, reader.window, receiver`Repr, receiver`hasChangeCipherSpec, receiver.Repr
      ensures Valid() && fresh(receiver.Repr - old(receiver.Repr)) && ok && messages == old(messages)
      ensures receiver.Valid() && HeardSoFar(old(Hears()), Hears(), e, Flat(runs))
    {
      hide ParseFragment, Valid, Genuine, Inverse, ReadRun, Receiver.View, Flat, AllReadable, Above, HeardSoFar, ContentsOf, TakeAll;
      Apart();
      ok := true;
      NothingHeard(Hears(), e);
      FlatNone();
      var i := 0;
      while i < |packets|
        invariant i <= |packets| && Valid() && fresh(receiver.Repr - old(receiver.Repr)) && ok && Keyed(ciphers)
        invariant messages == old(messages) && receiver.Valid() && Now() == old(Now())
        invariant HeardSoFar(old(Hears()), Hears(), e, Flat(runs[..i]))
      {
        ghost var ear := Hears();
        PrefixHeard(old(Hears()), Now(), e, runs, i);
        NextHeard(old(Hears()), ear, Now(), e, Flat(runs[..i]), runs[i]);
        FlatMore(runs[..i], runs[i]);
        assert runs[..i] + [runs[i]] == runs[..i + 1];
        ok := ReceivePacket(packets[i], e, runs[i], ciphers, messages);
        Apart();
        i := i + 1;
      }
      assert runs[..i] == runs;
    }

    /** The messages that are complete are handed up, one after the other. */
    method DeliverAll(n: nat, own: FlightSender)
      requires Valid() && |messages| < SEQ_SPACE && own.Valid() && Parts(own) !! receiver.Repr
      modifies this`handedUp, this`events, receiver`hasMessage, receiver`handshakeReadSeq, receiver.incoming, own`hasReply
      ensures Valid() && own.Valid() && messages == old(messages) && Correct()
      ensures State(receiver.View(), handedUp) == Run(State(old(receiver.View()), old(handedUp)), seq(n, _ => Event.Deliver))
    {
      hide ParseFragment, Valid, FlightSender.Valid, Receiver.View, Raw;
      Apart();
      var i := 0;
      while i < n
        invariant i <= n && Valid() && own.Valid() && messages == old(messages) && receiver.Valid()
        invariant State(receiver.View(), handedUp) == Run(State(old(receiver.View()), old(handedUp)), seq(i, _ => Event.Deliver))
      {
        Apart();
        var ok := Deliver(own);
        Apart();
        RunDeliver(State(old(receiver.View()), old(handedUp)), i);
        i := i + 1;
      }
      AlwaysCorrect();
    }
  }

  lemma FlatNone()
    ensures Flat([]) == []
  {
  }

  lemma RunDeliver(st: State, i: nat)
    ensures Run(st, seq(i + 1, _ => Event.Deliver)) == Step(Run(st, seq(i, _ => Event.Deliver)), Event.Deliver)
  {
    assert seq(i + 1, _ => Event.Deliver)[..i] == seq(i, _ => Event.Deliver);
  }

  /** What holds of all the packets holds of the first ones. */
  lemma PrefixHeard(ear: Ear, k: Keys, e: Env, runs: seq<seq<Sent>>, i: nat)
    requires i < |runs| && AllReadable(Flat(runs), k) && Above(ear.recorded, Flat(runs), k.epoch)
    requires TakeAll(ear.w, e, ContentsOf(Flat(runs), k.epoch)).ok
    ensures var some := Flat(runs[..i]) + runs[i];
            && AllReadable(some, k) && Above(ear.recorded, some, k.epoch)
            && TakeAll(ear.w, e, ContentsOf(some, k.epoch)).ok
  {
    hide ContentsOf, TakeAll, Readable, NumberOf, Flat;
    var some, rest := Flat(runs[..i]) + runs[i], Flat(runs[i + 1..]);
    FlatMore(runs[..i], runs[i]);
    FlatBoth(runs[..i + 1], runs[i + 1..]);
    assert runs[..i] + [runs[i]] == runs[..i + 1] && runs[..i + 1] + runs[i + 1..] == runs;
    ContentsOfBoth(some, rest, k.epoch);
    TakeAllBoth(ear.w, e, ContentsOf(some, k.epoch), ContentsOf(rest, k.epoch));
    var all := Flat(runs);
    assert forall j | 0 <= j < |some| :: some[j] == all[j];
  }

  ghost function Parts(s: FlightSender): set<object> {
    {s, s.writer, s.writer.writeSequence, s.writer.lastWriteSequence, s.bio}
  }

  /** The two senders share no state with each other, nor with what |ep| receives. */
  ghost predicate Separate(ep: Endpoint, peer: FlightSender, own: FlightSender)
    reads ep.receiver`Repr
  {
    own != peer && Parts(peer) !! Parts(own) && Parts(peer) + Parts(own) !! ep.receiver.Repr
  }

  /** One of the packets the peer wrote, and the records it is made of. */
  ghost predicate Wrote(peer: FlightSender, packet: seq<byte>, run: seq<Sent>)
    reads peer`log, peer.bio`packets
  {
    exists j :: 0 <= j < |peer.log| == |peer.bio.packets| && peer.log[j] == run && peer.bio.packets[j] == packet
  }

  /** End to end: out of the packets the peer wrote, in however many flights and however
      often, any arrive, in any order and any number of times.  What is handed up are the
      messages the peer queued, from the first on, each once and as it was queued; and it is
      what the records of the packets come to when they are read one after the other. */
  method Listen(ep: Endpoint, peer: FlightSender, own: FlightSender, packets: seq<seq<byte>>, e: Env,
                ghost runs: seq<seq<Sent>>)
    requires ep.Valid() && peer.Valid() && own.Valid() && Separate(ep, peer, own)
    requires e.flight == ep.receiver.flight && e.rEpoch == ep.reader.rEpoch
    requires ep.messages <= peer.messages && |peer.messages| < SEQ_SPACE && ep.Keyed(peer.writer.ciphers)
    requires |packets| == |runs| && forall i | 0 <= i < |packets| :: Wrote(peer, packets[i], runs[i])
    modifies ep, ep.reader.window, ep.receiver, ep.receiver.Repr, own`hasReply
    ensures ep.Valid() && ep.messages == peer.messages
    ensures |ep.handedUp| <= |peer.messages| && old(ep.handedUp) <= ep.handedUp
    ensures forall k | 0 <= k < |ep.handedUp| :: ep.handedUp[k] == Raw(peer.messages[k].typ, k, peer.messages[k].body)
    ensures Told(ep.Hears(), ep.handedUp) == ListenAll(Told(old(ep.Hears()), old(ep.handedUp)), ep.Now(), e, runs)
  {
    hide ParseFragment, FlightSender.Valid, Endpoint.Valid, Genuine, Raw, Inverse, ListenOne, Endpoint.Hears;
    ep.Apart();
    ghost var before := Told(ep.Hears(), ep.handedUp);
    ep.Learn(peer.messages);
    var i := 0;
    while i < |packets|
      invariant i <= |packets| && ep.Valid() && own.Valid() && peer.Valid() && ep.messages == peer.messages
      invariant fresh(ep.receiver.Repr - old(ep.receiver.Repr)) && ep.Keyed(peer.writer.ciphers)
      invariant ep.reader.rEpoch == e.rEpoch && ep.Now() == old(ep.Now())
      invariant old(ep.handedUp) <= ep.handedUp && peer.bio.packets == old(peer.bio.packets)
      invariant ep.receiver.Valid() && Told(ep.Hears(), ep.handedUp) == ListenAll(before, ep.Now(), e, runs[..i])
    {
      assert Wrote(peer, packets[i], runs[i]);
      ghost var j :| 0 <= j < |peer.log| == |peer.bio.packets| && peer.log[j] == runs[i] && peer.bio.packets[j] == packets[i];
      SentPacket(peer, j);
      ep.Apart();
      ep.ListenTo(packets[i], e, runs[i], peer.writer.ciphers, own);
      assert runs[..i + 1][..i] == runs[..i];
      i := i + 1;
    }
    assert runs[..i] == runs;
    ep.AlwaysCorrect();
  }

  /** The records of the flight just sent, as they arrive in order: their numbers rise. */
  lemma FlightInOrder(peer: FlightSender, recorded: set<nat>, epoch: nat)
    requires peer.Valid() && peer.writer.attempts < SEQ_LIMIT && Unheard(recorded, peer.Run(), epoch)
    ensures Above(recorded, peer.Run(), epoch) && AllSealed(peer.Run(), peer.writer.ciphers) && OfFlight(peer.outgoing, peer.Run())
  {
    hide ParseFragment, RecordWriter.Valid, SealedAs, Covers, Flat, Readable, NumberOf, Number;
    var before, run := peer.log[..peer.rewound], peer.Run();
    peer.NumbersRise();
    FlatBoth(before, peer.log[peer.rewound..]);
    assert before + peer.log[peer.rewound..] == peer.log;
    var all := Flat(peer.log);
    assert forall i | 0 <= i < |run| :: run[i] == all[|Flat(before)| + i];
    AscendingIsAbove(recorded, run, epoch, peer.writer.ciphers);
  }

  /** The peer has reported its flight as sent, the receiver is ready for it, and of its
      records nothing has been heard before. */
  ghost predicate InReach(peer: FlightSender, ear: Ear, k: Keys, e: Env, to: nat)
    reads peer, peer.writer
    requires peer.rewound <= |peer.log|
  {
    && peer.written == |peer.outgoing| && peer.Intact()
    && peer.writer.attempts < SEQ_LIMIT && AllReadable(peer.Run(), k)
    && Unheard(ear.recorded, peer.Run(), k.epoch) && k.epoch == e.rEpoch
    && Expected(ear.w, e, peer.outgoing, peer.messages, to) && |peer.messages| < SEQ_SPACE
  }

  /** All that it takes for the flight to be heard. */
  lemma FlightIsHeard(peer: FlightSender, ear: Ear, k: Keys, e: Env, to: nat)
    requires peer.Valid() && peer.rewound <= |peer.log| && InReach(peer, ear, k, e, to)
    requires FaithfulWindow(ear.w, peer.messages)
    ensures Above(ear.recorded, peer.Run(), e.rEpoch) && TakeAll(ear.w, e, ContentsOf(peer.Run(), e.rEpoch)).ok
    ensures ear.w.readSeq <= to
    ensures var st := State(TakeAll(ear.w, e, ContentsOf(peer.Run(), e.rEpoch)).w, []);
            forall handedUp :: DtlsWindow.Run(st.(handedUp := handedUp), seq(to - ear.w.readSeq, _ => Event.Deliver)).handedUp
                               == handedUp + RawOf(peer.messages, ear.w.readSeq, to)
  {
    hide ParseFragment, FlightSender.Valid, FlightSender.Run, AllReadable, Above, NumberOf, Welcome, Arrived, ContentsOf,
         Covers, TakeAll, FlightHas, IsMessage, RawOf;
    var run := peer.Run();
    peer.ValidMeans();
    FlightInOrder(peer, ear.recorded, k.epoch);
    FlightIsWelcome(peer.outgoing, run, ear.w, e, peer.messages, peer.writer.ciphers, to);
    AllAreTaken(ear.w, e, ContentsOf(run, e.rEpoch), peer.messages);
    forall handedUp ensures
        DtlsWindow.Run(State(TakeAll(ear.w, e, ContentsOf(run, e.rEpoch)).w, handedUp), seq(to - ear.w.readSeq, _ => Event.Deliver)).handedUp
        == handedUp + RawOf(peer.messages, ear.w.readSeq, to) {
      FlightCompletes(peer.outgoing, run, to, State(ear.w, handedUp), e, ContentsOf(run, e.rEpoch), peer.messages);
    }
  }

  /** Delivery, end to end: when the peer has reported a flight as sent, and its packets
      arrive, each once and in order, then all the messages that the flight has in the epoch
      being read are handed up. */
  method HearFlight(ep: Endpoint, peer: FlightSender, own: FlightSender, packets: seq<seq<byte>>, e: Env, to: nat)
    requires ep.Valid() && ep.receiver.Valid() && peer.Valid() && own.Valid() && Separate(ep, peer, own)
    requires e.flight == ep.receiver.flight && e.rEpoch == ep.reader.rEpoch
    requires ep.messages <= peer.messages && ep.Keyed(peer.writer.ciphers)
    requires peer.rewound <= |peer.log| == |peer.bio.packets| && packets == peer.bio.packets[peer.rewound..]
    requires InReach(peer, ep.Hears(), ep.Now(), e, to) && to >= ep.receiver.handshakeReadSeq
    modifies ep, ep.reader.window, ep.receiver, ep.receiver.Repr, own`hasReply
    ensures ep.Valid() && ep.messages == peer.messages
    ensures ep.handedUp == old(ep.handedUp) + RawOf(peer.messages, old(ep.receiver.handshakeReadSeq), to)
  {
    hide ParseFragment, FlightSender.Valid, Endpoint.Valid, Genuine, Inverse, AllReadable, Above, Flat, FaithfulWindow,
         Expected, Receiver.Valid, ContentsOf, Covers, TakeAll, RawOf, FlightSender.Intact, NumberOf;
    ep.Apart();
    ghost var ear, runs := ep.Hears(), peer.log[peer.rewound..];
    ep.Learn(peer.messages);
    ep.ViewIsFaithful();
    FlightIsHeard(peer, ear, ep.Now(), e, to);
    forall i | 0 <= i < |packets| ensures Genuine(packets[i], runs[i], peer.writer.ciphers, peer.messages) {
      SentPacket(peer, peer.rewound + i);
    }
    var ok := ep.ReadAll(packets, e, runs, peer.writer.ciphers);
    ep.Apart();
    ep.DeliverAll(to - ep.receiver.handshakeReadSeq, own);
  }
}
