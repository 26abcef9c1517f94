/** Sender, network and receiver together: what DtlsFlight puts into records is what
    DtlsWindow puts together again. */
module DtlsLink {
  import opened Common
  import opened DtlsTypes
  import opened DtlsRead
  import opened DtlsWrite
  import opened DtlsFlight
  import opened DtlsFragment
  import opened DtlsWindow

  // ----- one record -----

  /** Opening undoes sealing. */
  ghost predicate Inverse(c: Cipher) {
    forall typ: byte, version: nat, sequence: seq<byte>, plain: seq<byte> ::
      c.seal(typ, version, sequence, plain).Some? ==>
        c.open(typ, version, sequence, c.seal(typ, version, sequence, plain).value) == Some(plain)
  }

  /** A record that was sent is read as what it carries, under the epoch of its message. */
  lemma RecordArrives(s: Sent, ciphers: seq<Cipher>, tail: seq<byte>)
    requires SealedAs(s, ciphers) && Inverse(ciphers[s.source.epoch]) && |s.sealed| <= MAX_ENCRYPTED
    ensures var r := ParseRecord(RecordOf(s) + tail);
            && r.Some? && r.value.rest == tail && r.value.typ == TypeOf(s.source)
            && Get16(r.value.sequence, 0) == s.source.epoch
            && ciphers[s.source.epoch].open(r.value.typ, r.value.version, r.value.sequence, r.value.body)
               == Some(Plain(s.source, s.offset, s.len))
  {
    hide ParseFragment;
    RecordReads(TypeOf(s.source), s.version, s.sequence, s.sealed, tail);
  }

  // ----- all records -----

  /** A record that a sender makes of part of a message. */
  ghost predicate PieceOf(record: seq<byte>, messages: seq<Message>) {
    exists m, n, off, len :: IsPiece(record, messages, m, n, off, len)
  }

  ghost predicate IsPiece(record: seq<byte>, messages: seq<Message>, m: Outgoing, n: nat, off: nat, len: nat) {
    IsMessage(m, messages, n) && off + len <= |Body(m)| && record == Plain(m, off, len)
  }

  lemma PieceReads(record: seq<byte>, messages: seq<Message>, m: Outgoing, n: nat, off: nat, len: nat)
    requires IsPiece(record, messages, m, n, off, len)
    ensures var b := messages[n].body;
            off + len <= |b| &&
            ParseFragment(record) == Some(Fragment(Header(messages[n].typ, |b|, n, off, len), b[off..off + len], []))
  {
    var f := ParseFragment(m.data).value;
    FragmentReads(Header(f.hdr.typ, |f.body|, n, off, len), f.body[off..off + len], []);
    assert HeaderBytes(Header(f.hdr.typ, |f.body|, n, off, len)) + f.body[off..off + len] + [] == record;
  }

  lemma PieceIsHonest(record: seq<byte>, messages: seq<Message>, m: Outgoing, n: nat, off: nat, len: nat)
    requires IsPiece(record, messages, m, n, off, len)
    ensures HonestRecord(record, messages)
    ensures CoveredBy(record, n) == Range(off, off + len) && Mentions(record, n) && OnlyOf(record, n)
  {
    PieceReads(record, messages, m, n, off, len);
    assert CoveredBy([], n) == {};
    assert OnlyOf([], n);
  }

  /** End to end: whatever flights are sent, in packets of whatever size, again and again,
      and whatever the network does to the records in them, the receiver hands up the
      messages in order, each exactly once and exactly as it was sent. */
  lemma {:induction false} EndToEnd(events: seq<Event>, messages: seq<Message>)
    requires |messages| < SEQ_SPACE
    requires forall i | 0 <= i < |events| :: events[i].Arrive? ==> PieceOf(events[i].record, messages)
    ensures InOrder(Run(START, events), messages) && FaithfulWindow(Run(START, events).w, messages)
  {
    forall i | 0 <= i < |events| && events[i].Arrive?
      ensures HonestRecord(events[i].record, messages)
    {
      var m, n, off, len :| IsPiece(events[i].record, messages, m, n, off, len);
      PieceIsHonest(events[i].record, messages, m, n, off, len);
    }
    HandsUpWhatWasSent(events, messages);
  }

  // ----- completeness -----

  /** In a delivered flight every byte of every message is in some record. */
  lemma {:induction false} ByteIsSent(msgs: seq<Outgoing>, run: seq<Sent>, k: nat, b: nat) returns (i: nat)
    requires k < |msgs| && b < |Body(msgs[k])|
    requires var p := Covers(msgs, Some(BEGINNING), run); p.Some? && Position(k, b).Before(p.value)
    ensures i < |run| && run[i].message == k && run[i].offset <= b < run[i].offset + run[i].len
  {
    hide ParseFragment, Body;
    var n := |run| - 1;
    var q := Covers(msgs, Some(BEGINNING), run[..n]);
    if Position(k, b).Before(q.value) {
      i := ByteIsSent(msgs, run[..n], k, b);
    } else {
      i := n;
    }
  }

  lemma BodyOf(m: Outgoing, messages: seq<Message>, n: nat)
    requires IsMessage(m, messages, n)
    ensures Body(m) == messages[n].body
  {
  }

  /** Every handshake record of the run in this epoch has arrived. */
  ghost predicate Arrived(run: seq<Sent>, records: seq<seq<byte>>, epoch: nat) {
    forall i | 0 <= i < |run| && !run[i].source.isCcs && run[i].source.epoch == epoch ::
      Plain(run[i].source, run[i].offset, run[i].len) in records
  }

  lemma {:induction false} MessageCompletes(msgs: seq<Outgoing>, run: seq<Sent>, k: nat, n: nat, w0: Window, e: Env,
                                            records: seq<seq<byte>>, messages: seq<Message>)
    requires k < |msgs| && IsMessage(msgs[k], messages, n) && FaithfulWindow(w0, messages)
    requires w0.readSeq <= n < w0.readSeq + e.flight && n < |messages|
    requires Covers(msgs, Some(BEGINNING), run) == Some(Position(|msgs|, 0)) && OfFlight(msgs, run) && Arrived(run, records, msgs[k].epoch)
    requires (forall i | 0 <= i < |records| :: HonestRecord(records[i], messages)) && TakeAll(w0, e, records).ok
    ensures Whole(TakeAll(w0, e, records).w, n)
  {
    hide ParseFragment, Plain, Body, HonestRecord, TakeAll, AllCovered, AnyMentions, WellFormed;
    BodyOf(msgs[k], messages, n);
    forall b | 0 <= b < |Body(msgs[k])| ensures b in AllCovered(records, n) {
      var i := ByteIsSent(msgs, run, k, b);
      RecordInRange(msgs, run, i);
      RecordCounts(msgs, run, i, n, records, messages);
    }
    FlightContents(msgs, run, k);
    var i := SomeRecord(run, k);
    RecordInRange(msgs, run, i);
    RecordCounts(msgs, run, i, n, records, messages);
    CompleteWhenCovered(w0, e, records, messages, n);
  }

  /** Messages |from| to |to| are in the flight, in this epoch. */
  ghost predicate FlightHas(msgs: seq<Outgoing>, messages: seq<Message>, from: nat, to: nat, epoch: nat) {
    forall n | from <= n < to :: HasMessage(msgs, messages, n, epoch)
  }

  ghost predicate HasMessage(msgs: seq<Outgoing>, messages: seq<Message>, n: nat, epoch: nat) {
    exists k: nat :: k < |msgs| && msgs[k].epoch == epoch && IsMessage(msgs[k], messages, n)
  }

  /** Delivery: once every handshake record that a whole flight has in this epoch has arrived,
      among others and in any order, none has been rejected, and the messages of the flight
      are handed up one after the other. */
  lemma {:induction false} FlightCompletes(msgs: seq<Outgoing>, run: seq<Sent>, to: nat, st: State, e: Env,
                                           records: seq<seq<byte>>, messages: seq<Message>)
    requires FaithfulWindow(st.w, messages) && st.w.readSeq <= to <= |messages| < SEQ_SPACE
    requires FlightHas(msgs, messages, st.w.readSeq, to, e.rEpoch)
    requires Covers(msgs, Some(BEGINNING), run) == Some(Position(|msgs|, 0)) && OfFlight(msgs, run)
    requires Arrived(run, records, e.rEpoch)
    requires Welcome(st.w, e, records, messages)
    ensures var r := TakeAll(st.w, e, records);
            && r.ok
            && Run(st.(w := r.w), seq(to - st.w.readSeq, _ => Deliver)).handedUp
               == st.handedUp + RawOf(messages, st.w.readSeq, to)
  {
    hide ParseFragment, Plain, Body, HonestRecord, OnlyOf, TakeAll, Run, IsMessage, Covers, Whole, Arrived;
    AllAreTaken(st.w, e, records, messages);
    forall n | st.w.readSeq <= n < to ensures Whole(TakeAll(st.w, e, records).w, n) {
      assert HasMessage(msgs, messages, n, e.rEpoch);
      var k: nat :| k < |msgs| && msgs[k].epoch == e.rEpoch && IsMessage(msgs[k], messages, n);
      MessageCompletes(msgs, run, k, n, st.w, e, records, messages);
    }
    DeliversAll(st.(w := TakeAll(st.w, e, records).w), to - st.w.readSeq, messages);
  }

  lemma {:induction false} SomeRecord(run: seq<Sent>, k: nat) returns (i: nat)
    requires RecordsOf(run, k) > 0
    ensures i < |run| && run[i].message == k
  {
    var n := |run| - 1;
    if run[n].message == k {
      i := n;
    } else {
      i := SomeRecord(run[..n], k);
    }
  }

  /** The records of a run that covers something stay within their messages. */
  lemma {:induction false} RecordInRange(msgs: seq<Outgoing>, run: seq<Sent>, i: nat)
    requires i < |run| && Covers(msgs, Some(BEGINNING), run).Some?
    ensures run[i].message < |msgs| && run[i].offset + run[i].len <= |Body(msgs[run[i].message])|
  {
    hide ParseFragment, Body;
    if i < |run| - 1 {
      RecordInRange(msgs, run[..|run| - 1], i);
    }
  }

  lemma RecordCounts(msgs: seq<Outgoing>, run: seq<Sent>, i: nat, n: nat,
                     records: seq<seq<byte>>, messages: seq<Message>)
    requires i < |run| && run[i].message < |msgs| && msgs[run[i].message] == run[i].source
    requires IsMessage(run[i].source, messages, n) && run[i].offset + run[i].len <= |Body(run[i].source)|
    requires Arrived(run, records, run[i].source.epoch)
    ensures Range(run[i].offset, run[i].offset + run[i].len) <= AllCovered(records, n)
    ensures AnyMentions(records, n)
  {
    var m := run[i].source;
    var record := Plain(m, run[i].offset, run[i].len);
    PieceIsHonest(record, messages, m, n, run[i].offset, run[i].len);
    var j :| 0 <= j < |records| && records[j] == record;
    assert CoveredBy(records[j], n) <= AllCovered(records, n);
  }
}
