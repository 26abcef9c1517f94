/** A flight of handshake messages as records in packets: which part of which message
    each record carries, and what it means that packets carry the whole flight. */
module DtlsFlight {
  import opened Common
  import opened DtlsTypes
  import opened DtlsReplay
  import opened DtlsWrite

  datatype Outgoing = Outgoing(data: seq<byte>, epoch: nat, isCcs: bool)

  /** A position in a flight: messages sent whole, and bytes sent of the next one. */
  datatype Position = Position(message: nat, offset: nat)
  {
    predicate Before(p: Position) {
      message < p.message || (message == p.message && offset < p.offset)
    }

    predicate AtMost(p: Position) {
      this == p || Before(p)
    }
  }

  const BEGINNING: Position := Position(0, 0)

  /** A record that was sealed: which message of its flight it carries a part of, which
      part, and how it was sealed. */
  datatype Sent = Sent(source: Outgoing, message: nat, offset: nat, len: nat,
                       version: nat, sequence: seq<byte>, sealed: seq<byte>)

  function TypeOf(m: Outgoing): byte {
    if m.isCcs then CHANGE_CIPHER_SPEC else HANDSHAKE
  }

  /** The bytes of a record. */
  function RecordOf(s: Sent): seq<byte> {
    RecordBytes(TypeOf(s.source), s.version, s.sequence, s.sealed)
  }

  /** The message is in the form of dtls1_finish_message: one fragment with all of it. */
  predicate WellFormed(m: Outgoing) {
    m.isCcs ||
    var f := ParseFragment(m.data);
    && f.Some? && f.value.rest == []
    && f.value.hdr.fragOff == 0 && f.value.hdr.msgLen == |f.value.body|
  }

  function Body(m: Outgoing): seq<byte> {
    var f := ParseFragment(m.data);
    if m.isCcs || f.None? then [] else f.value.body
  }

  /** What a record carries in the clear. */
  function Plain(m: Outgoing, off: nat, len: nat): seq<byte> {
    var f := ParseFragment(m.data);
    if m.isCcs || f.None? || off + len > |f.value.body| then CCS_BODY
    else Piece(f.value.hdr.typ, f.value.hdr.msgSeq, f.value.body, off, len)
  }

  /** The record is sealed under the epoch its message was queued in, and holds the
      part of the message it claims to. */
  ghost predicate SealedAs(s: Sent, ciphers: seq<Cipher>) {
    && |s.sequence| == 8 && Get16(s.sequence, 0) == s.source.epoch < |ciphers|
    && s.version < 0x1_0000 && |s.sealed| < 0x1_0000
    && WellFormed(s.source) && s.offset + s.len <= |Body(s.source)|
    && ciphers[s.source.epoch].seal(TypeOf(s.source), s.version, s.sequence, Plain(s.source, s.offset, s.len))
       == Some(s.sealed)
  }

  ghost predicate AllSealed(run: seq<Sent>, ciphers: seq<Cipher>) {
    forall i | 0 <= i < |run| :: SealedAs(run[i], ciphers)
  }

  /** The records are of messages of this flight. */
  ghost predicate OfFlight(msgs: seq<Outgoing>, run: seq<Sent>) {
    forall i | 0 <= i < |run| :: run[i].message < |msgs| && msgs[run[i].message] == run[i].source
  }

  /** Later epochs change nothing about the earlier ones. */
  lemma SealedStill(run: seq<Sent>, ciphers: seq<Cipher>, more: seq<Cipher>)
    requires AllSealed(run, ciphers) && ciphers <= more
    ensures AllSealed(run, more)
  {
    hide ParseFragment;
    forall i | 0 <= i < |run| ensures SealedAs(run[i], more) {
      assert SealedAs(run[i], ciphers);
    }
  }

  // ----- covering a flight -----

  /** Where the receiver of everything up to |p| is after one more record, if that
      record continues exactly there. */
  function After(msgs: seq<Outgoing>, p: Option<Position>, s: Sent): Option<Position> {
    if p != Some(Position(s.message, s.offset)) || s.message >= |msgs| then None
    else
      var end, size := s.offset + s.len, |Body(msgs[s.message])|;
      if end == size then Some(Position(s.message + 1, 0))
      else if end < size && s.len > 0 then Some(Position(s.message, end))
      else None
  }

  /** After a run of records that cover the flight contiguously, each byte once. */
  function Covers(msgs: seq<Outgoing>, p: Option<Position>, run: seq<Sent>): Option<Position> {
    if run == [] then p else After(msgs, Covers(msgs, p, run[..|run| - 1]), run[|run| - 1])
  }

  lemma {:induction false} CoversBoth(msgs: seq<Outgoing>, p: Option<Position>, a: seq<Sent>, b: seq<Sent>)
    ensures Covers(msgs, p, a + b) == Covers(msgs, Covers(msgs, p, a), b)
  {
    if b == [] {
      assert a + b == a;
    } else {
      var n := |b| - 1;
      CoversBoth(msgs, p, a, b[..n]);
      assert (a + b)[..|a + b| - 1] == a + b[..n];
    }
  }

  /** The records up to any one cover, if all of them do. */
  lemma {:induction false} CoversSome(msgs: seq<Outgoing>, p: Option<Position>, run: seq<Sent>, k: nat)
    requires k <= |run| && Covers(msgs, p, run).Some?
    ensures Covers(msgs, p, run[..k]).Some?
  {
    if k < |run| {
      CoversSome(msgs, p, run[..|run| - 1], k);
      assert run[..|run| - 1][..k] == run[..k];
    } else {
      assert run[..k] == run;
    }
  }

  lemma {:induction false} CoversAdvances(msgs: seq<Outgoing>, p: Position, run: seq<Sent>)
    ensures var q := Covers(msgs, Some(p), run);
            q.Some? ==> p.AtMost(q.value) && (run != [] ==> p.Before(q.value))
  {
    if run != [] {
      CoversAdvances(msgs, p, run[..|run| - 1]);
    }
  }

  /** Records from further on do not close a gap. */
  lemma {:induction false} StaysBehind(msgs: seq<Outgoing>, c: Option<Position>, start: Position, run: seq<Sent>)
    requires c.None? || c.value.Before(start)
    requires run != [] && Covers(msgs, Some(start), run).Some?
    ensures Covers(msgs, c, run).None?
  {
    var n := |run| - 1;
    if n > 0 {
      StaysBehind(msgs, c, start, run[..n]);
    }
  }

  /** Records that cover from a position on are of the message there or later ones. */
  lemma {:induction false} NoneBefore(msgs: seq<Outgoing>, p: Position, run: seq<Sent>)
    requires Covers(msgs, Some(p), run).Some?
    ensures forall i | 0 <= i < |run| :: p.message <= run[i].message < |msgs|
  {
    if run != [] {
      NoneBefore(msgs, p, run[..|run| - 1]);
      CoversAdvances(msgs, p, run[..|run| - 1]);
    }
  }

  /** A message takes at most one record more than it has bytes. */
  lemma {:induction false} FewRecords(msgs: seq<Outgoing>, k: nat, run: seq<Sent>)
    requires k + 1 == |msgs| && Covers(msgs, Some(Position(k, 0)), run).Some?
    ensures var q := Covers(msgs, Some(Position(k, 0)), run).value;
            if q.message == k then |run| <= q.offset else |run| <= |Body(msgs[k])| + 1
  {
    hide Body;
    if run != [] {
      FewRecords(msgs, k, run[..|run| - 1]);
      CoversAdvances(msgs, Position(k, 0), run[..|run| - 1]);
    }
  }

  // ----- packets -----

  /** The concatenation of the records of a packet. */
  function Packet(run: seq<Sent>): seq<byte> {
    if run == [] then [] else Packet(run[..|run| - 1]) + RecordOf(run[|run| - 1])
  }

  /** |run| is sealed into |packet| and leads from |start| to |here|. */
  ghost predicate InPacket(msgs: seq<Outgoing>, ciphers: seq<Cipher>, start: Position, here: Position,
                           packet: seq<byte>, run: seq<Sent>)
  {
    && AllSealed(run, ciphers) && OfFlight(msgs, run) && packet == Packet(run)
    && Covers(msgs, Some(start), run) == Some(here)
  }

  /** One more record in a packet. */
  lemma PacketGrows(msgs: seq<Outgoing>, ciphers: seq<Cipher>, start: Position, here: Position,
                    packet: seq<byte>, run: seq<Sent>, s: Sent)
    requires InPacket(msgs, ciphers, start, here, packet, run)
    requires s.message < |msgs| && msgs[s.message] == s.source && SealedAs(s, ciphers)
    requires After(msgs, Some(here), s).Some?
    ensures InPacket(msgs, ciphers, start, After(msgs, Some(here), s).value, packet + RecordOf(s), run + [s])
  {
    assert (run + [s])[..|run|] == run;
  }

  /** The records of several packets. */
  function Flat(log: seq<seq<Sent>>): seq<Sent> {
    if log == [] then [] else Flat(log[..|log| - 1]) + log[|log| - 1]
  }

  lemma FlatMore(log: seq<seq<Sent>>, run: seq<Sent>)
    ensures Flat(log + [run]) == Flat(log) + run
  {
    assert (log + [run])[..|log|] == log;
  }

  lemma {:induction false} FlatBoth(a: seq<seq<Sent>>, b: seq<seq<Sent>>)
    ensures Flat(a + b) == Flat(a) + Flat(b)
  {
    if b == [] {
      assert a + b == a;
    } else {
      var n := |b| - 1;
      FlatBoth(a, b[..n]);
      assert (a + b)[..|a + b| - 1] == a + b[..n];
    }
  }

  /** The records of a packet are among those of all packets. */
  lemma {:induction false} InFlat(log: seq<seq<Sent>>, i: nat, j: nat)
    requires i < |log| && j < |log[i]|
    ensures log[i][j] in Flat(log) && |log[i]| <= |Flat(log)|
  {
    var n := |log| - 1;
    if i < n {
      InFlat(log[..n], i, j);
    } else {
      assert Flat(log)[|Flat(log[..n])| + j] == log[i][j];
    }
  }

  /** Each packet is made of the records of one entry of |log|. */
  ghost predicate Carried(packets: seq<seq<byte>>, log: seq<seq<Sent>>) {
    |packets| == |log| && forall i | 0 <= i < |packets| :: packets[i] == Packet(log[i])
  }

  /** The packets contain every message of the flight, whole, in order and exactly once
      (FlightContents), each sealed under the epoch it was queued in. */
  ghost predicate CarryFlight(packets: seq<seq<byte>>, log: seq<seq<Sent>>, msgs: seq<Outgoing>, ciphers: seq<Cipher>) {
    && Carried(packets, log) && AllSealed(Flat(log), ciphers) && OfFlight(msgs, Flat(log))
    && Covers(msgs, Some(BEGINNING), Flat(log)) == Some(Position(|msgs|, 0))
  }

  ghost predicate WholeFlight(packets: seq<seq<byte>>, msgs: seq<Outgoing>, ciphers: seq<Cipher>) {
    exists log :: CarryFlight(packets, log, msgs, ciphers)
  }

  // ----- numbers -----

  /** Epoch and number of a record. */
  function Number(s: Sent): (nat, nat) {
    if |s.sequence| == 8 then (Get16(s.sequence, 0), BigEndian(s.sequence[2..])) else (0, 0)
  }

  /** In every epoch the numbers rise from record to record, unless its counter has wrapped. */
  ghost predicate Rising(sealed: seq<Sent>, used: set<(nat, nat)>, wrapped: set<nat>) {
    && (forall i | 0 <= i < |sealed| :: Number(sealed[i]) in used)
    && (forall i, j | 0 <= i < j < |sealed| && Number(sealed[i]).0 == Number(sealed[j]).0 ::
          Number(sealed[i]).1 < Number(sealed[j]).1 || Number(sealed[i]).0 in wrapped)
  }

  lemma RisingMore(sealed: seq<Sent>, used: set<(nat, nat)>, wrapped: set<nat>, s: Sent,
                   used': set<(nat, nat)>, wrapped': set<nat>)
    requires Rising(sealed, used, wrapped) && used <= used' && wrapped <= wrapped' && Number(s) in used'
    requires forall n | (Number(s).0, n) in used :: n < Number(s).1 || Number(s).0 in wrapped'
    ensures Rising(sealed + [s], used', wrapped')
  {
    forall i | 0 <= i < |sealed| && Number(sealed[i]).0 == Number(s).0
      ensures Number(sealed[i]).1 < Number(s).1 || Number(s).0 in wrapped'
    {
      assert (Number(s).0, Number(sealed[i]).1) == Number(sealed[i]);
    }
  }

  lemma RisingStill(sealed: seq<Sent>, used: set<(nat, nat)>, wrapped: set<nat>,
                    used': set<(nat, nat)>, wrapped': set<nat>)
    requires Rising(sealed, used, wrapped) && used <= used' && wrapped <= wrapped'
    ensures Rising(sealed, used', wrapped')
  {
  }

  /** The numbers rise, without exception. */
  ghost predicate Ascending(run: seq<Sent>) {
    forall i, j | 0 <= i < j < |run| && Number(run[i]).0 == Number(run[j]).0 :: Number(run[i]).1 < Number(run[j]).1
  }

  /** |some| is what is left of |all| when some records are left out. */
  ghost predicate PartOfAll(some: seq<Sent>, all: seq<Sent>) {
    some == []
    || (all != []
        && (PartOfAll(some, all[..|all| - 1])
            || (some[|some| - 1] == all[|all| - 1] && PartOfAll(some[..|some| - 1], all[..|all| - 1]))))
  }

  lemma {:induction false} PartOfMore(some: seq<Sent>, all: seq<Sent>, run: seq<Sent>)
    requires PartOfAll(some, all)
    ensures PartOfAll(some, all + run) && PartOfAll(some + run, all + run)
  {
    if run == [] {
      assert some + run == some && all + run == all;
    } else {
      var n := |run| - 1;
      PartOfMore(some, all, run[..n]);
      assert (all + run)[..|all + run| - 1] == all + run[..n];
      assert (some + run)[..|some + run| - 1] == some + run[..n];
    }
  }

  lemma {:induction false} PartAscends(some: seq<Sent>, all: seq<Sent>)
    requires PartOfAll(some, all) && Ascending(all)
    ensures Ascending(some)
  {
    if some != [] {
      var n, rest := |some| - 1, all[..|all| - 1];
      if PartOfAll(some, rest) {
        PartAscends(some, rest);
      } else {
        PartAscends(some[..n], rest);
        forall i | 0 <= i < n && Number(some[i]).0 == Number(some[n]).0 ensures Number(some[i]).1 < Number(some[n]).1 {
          PartIsIn(some[..n], rest, i);
          var k :| 0 <= k < |rest| && rest[k] == some[..n][i];
        }
        assert forall i, j | 0 <= i < j < n :: some[..n][i] == some[i] && some[..n][j] == some[j];
      }
    }
  }

  lemma {:induction false} PartIsIn(some: seq<Sent>, all: seq<Sent>, i: nat)
    requires PartOfAll(some, all) && i < |some|
    ensures some[i] in all
  {
    var n, rest := |some| - 1, all[..|all| - 1];
    if PartOfAll(some, rest) {
      PartIsIn(some, rest, i);
    } else if i < n {
      PartIsIn(some[..n], rest, i);
    }
  }

  // ----- the messages a flight is made of -----

  /** A queued handshake message is number |n| of |messages|. */
  ghost predicate IsMessage(m: Outgoing, messages: seq<Message>, n: nat) {
    && !m.isCcs && WellFormed(m) && n < |messages|
    && ParseFragment(m.data).value.hdr.msgSeq == n
    && messages[n] == Message(ParseFragment(m.data).value.hdr.typ, ParseFragment(m.data).value.body)
  }

  /** What dtls1_init_message and dtls1_finish_message make of a message. */
  lemma FinishedMessage(typ: byte, n: nat, body: seq<byte>, epoch: nat, messages: seq<Message>)
    requires n < |messages| && n < SEQ_SPACE && |body| < 0x100_0000 && messages[n] == Message(typ, body)
    ensures IsMessage(Outgoing(Raw(typ, n, body), epoch, false), messages, n)
    ensures Body(Outgoing(Raw(typ, n, body), epoch, false)) == body
  {
    var h := Header(typ, |body|, n, 0, |body|);
    FragmentReads(h, body, []);
    assert HeaderBytes(h) + body + [] == Raw(typ, n, body);
  }

  /** A queued message is one of |messages|, as long as their numbers do not repeat. */
  ghost predicate Known(m: Outgoing, messages: seq<Message>) {
    m.isCcs || |messages| > SEQ_SPACE || exists n :: IsMessage(m, messages, n)
  }

  lemma KnownStill(m: Outgoing, messages: seq<Message>, more: seq<Message>)
    requires Known(m, messages) && messages <= more
    ensures Known(m, more)
  {
    hide ParseFragment;
    if !m.isCcs && |more| <= SEQ_SPACE {
      var n :| IsMessage(m, messages, n);
      assert IsMessage(m, more, n);
    }
  }

  // ----- what a delivered flight contains -----

  /** The bytes of message |k| that a record carries. */
  function PartOf(msgs: seq<Outgoing>, s: Sent, k: nat): seq<byte>
    requires k < |msgs|
  {
    if s.message == k && s.offset + s.len <= |Body(msgs[k])| then Body(msgs[k])[s.offset..s.offset + s.len] else []
  }

  /** The bytes of message |k| that the records carry, in the order they were sent. */
  function BytesOf(msgs: seq<Outgoing>, run: seq<Sent>, k: nat): seq<byte>
    requires k < |msgs|
  {
    if run == [] then [] else BytesOf(msgs, run[..|run| - 1], k) + PartOf(msgs, run[|run| - 1], k)
  }

  /** The bytes of message |k| up to a position. */
  function UpTo(msgs: seq<Outgoing>, p: Position, k: nat): seq<byte>
    requires k < |msgs|
  {
    var b := Body(msgs[k]);
    if k < p.message then b else if k == p.message && p.offset <= |b| then b[..p.offset] else []
  }

  lemma UpToGrows(msgs: seq<Outgoing>, p: Position, s: Sent, k: nat)
    requires k < |msgs| && After(msgs, Some(p), s).Some?
    ensures UpTo(msgs, After(msgs, Some(p), s).value, k) == UpTo(msgs, p, k) + PartOf(msgs, s, k)
  {
    hide ParseFragment;
    if s.message == k {
      var b := Body(msgs[k]);
      assert b[..s.offset] + b[s.offset..s.offset + s.len] == b[..s.offset + s.len];
      assert b[..|b|] == b;
    }
  }

  /** The number of records for message |k|. */
  function RecordsOf(run: seq<Sent>, k: nat): nat {
    if run == [] then 0 else RecordsOf(run[..|run| - 1], k) + if run[|run| - 1].message == k then 1 else 0
  }

  lemma {:induction false} CoveredBytes(msgs: seq<Outgoing>, run: seq<Sent>, k: nat)
    requires k < |msgs| && Covers(msgs, Some(BEGINNING), run).Some?
    ensures BytesOf(msgs, run, k) == UpTo(msgs, Covers(msgs, Some(BEGINNING), run).value, k)
  {
    hide ParseFragment, Body;
    if run != [] {
      CoveredBytes(msgs, run[..|run| - 1], k);
      UpToGrows(msgs, Covers(msgs, Some(BEGINNING), run[..|run| - 1]).value, run[|run| - 1], k);
    }
  }

  lemma {:induction false} CoveredRecords(msgs: seq<Outgoing>, run: seq<Sent>, k: nat)
    requires k < |msgs| && Covers(msgs, Some(BEGINNING), run).Some?
    ensures var p := Covers(msgs, Some(BEGINNING), run).value;
            && (k > p.message || (k == p.message && p.offset == 0) ==> RecordsOf(run, k) == 0)
            && (k < p.message ==> RecordsOf(run, k) >= 1)
            && (k < p.message && Body(msgs[k]) == [] ==> RecordsOf(run, k) == 1)
  {
    hide ParseFragment;
    if run != [] {
      CoveredRecords(msgs, run[..|run| - 1], k);
    }
  }

  /** A delivered flight contains the bytes of every message, in order and exactly once,
      and each ChangeCipherSpec once. */
  lemma FlightContents(msgs: seq<Outgoing>, run: seq<Sent>, k: nat)
    requires k < |msgs| && Covers(msgs, Some(BEGINNING), run) == Some(Position(|msgs|, 0))
    ensures BytesOf(msgs, run, k) == Body(msgs[k])
    ensures RecordsOf(run, k) >= 1 && (msgs[k].isCcs ==> RecordsOf(run, k) == 1)
  {
    CoveredBytes(msgs, run, k);
    CoveredRecords(msgs, run, k);
  }
}
