/** What reading the records of a packet does to one end of the connection, as a function;
    and that the records of a flight, heard in the order they were made, are all taken. */
module DtlsHear {
  import opened Common
  import opened Bits
  import opened DtlsTypes
  import opened DtlsReplay
  import opened DtlsRead
  import opened DtlsFlight
  import opened DtlsWindow
  import opened DtlsLink

  /** What has been heard: the numbers in the epoch being read, the handshake messages,
      and whether a ChangeCipherSpec is waiting. */
  datatype Ear = Ear(recorded: set<nat>, w: Window, ccs: bool)

  /** What does not change while a packet is read. */
  datatype Keys = Keys(shutdown: bool, epoch: nat, cipher: Cipher)

  datatype Reading = Reading(ok: bool, ear: Ear)

  function Contents(s: Sent): seq<byte> {
    Plain(s.source, s.offset, s.len)
  }

  function NumberOf(s: Sent): nat {
    BigEndian(s.sequence)
  }

  /** The contents of a record are handed to the handshake. */
  ghost function HandOver(ear: Ear, c: Cipher, e: Env, s: Sent): Reading {
    if s.source.isCcs then Reading(c.isNull, if c.isNull then ear.(ccs := true) else ear)
    else var t := TakeRecord(ear.w, e, Contents(s)); Reading(t.ok, ear.(w := t.w))
  }

  /** The records of a packet, from the first on: one that cannot be read takes the rest of
      the packet with it; one of another epoch, heard before or too old is passed over. */
  ghost function ReadRun(ear: Ear, k: Keys, e: Env, run: seq<Sent>): Reading
    decreases |run|
  {
    if run == [] then Reading(true, ear)
    else
      var s, n := run[0], NumberOf(run[0]);
      if k.shutdown then Reading(false, ear)
      else if |s.sealed| > MAX_ENCRYPTED || !VersionOk(k.cipher, s.version) then Reading(true, ear)
      else if s.source.epoch != k.epoch || n in ear.recorded || TooOld(ear.recorded, n) then ReadRun(ear, k, e, run[1..])
      else if |Contents(s)| > MAX_PLAIN then Reading(false, ear)
      else
        var r := HandOver(ear.(recorded := ear.recorded + {n}), k.cipher, e, s);
        if r.ok then ReadRun(r.ear, k, e, run[1..]) else r
  }

  /** What has been heard, and the messages that have been handed up. */
  datatype Told = Told(ear: Ear, handedUp: seq<seq<byte>>)

  /** A packet is read, and then the current message is handed up if it is complete. */
  ghost function ListenOne(t: Told, k: Keys, e: Env, run: seq<Sent>): Told {
    var ear := ReadRun(t.ear, k, e, run).ear;
    var st := Step(State(ear.w, t.handedUp), Deliver);
    Told(ear.(w := st.w), st.handedUp)
  }

  ghost function ListenAll(t: Told, k: Keys, e: Env, runs: seq<seq<Sent>>): Told {
    if runs == [] then t else ListenOne(ListenAll(t, k, e, runs[..|runs| - 1]), k, e, runs[|runs| - 1])
  }

  // ----- a flight in order -----

  /** Nothing about the record itself keeps it, or those behind it, from being taken. */
  ghost predicate Readable(s: Sent, k: Keys) {
    && !k.shutdown && |s.sealed| <= MAX_ENCRYPTED && VersionOk(k.cipher, s.version)
    && (s.source.epoch == k.epoch ==> |Contents(s)| <= MAX_PLAIN && (s.source.isCcs ==> k.cipher.isNull))
  }

  ghost predicate AllReadable(run: seq<Sent>, k: Keys) {
    forall i | 0 <= i < |run| :: Readable(run[i], k)
  }

  /** None of the records of the epoch has been heard, nor a later one. */
  ghost predicate Unheard(recorded: set<nat>, run: seq<Sent>, epoch: nat) {
    forall i, n | 0 <= i < |run| && run[i].source.epoch == epoch && n in recorded :: n < NumberOf(run[i])
  }

  /** Nor do the numbers go down. */
  ghost predicate Above(recorded: set<nat>, run: seq<Sent>, epoch: nat) {
    && Unheard(recorded, run, epoch)
    && forall i, j | 0 <= i < j < |run| && run[i].source.epoch == run[j].source.epoch == epoch ::
         NumberOf(run[i]) < NumberOf(run[j])
  }

  predicate Handshakes(s: Sent, epoch: nat) {
    !s.source.isCcs && s.source.epoch == epoch
  }

  /** The contents of the handshake records of an epoch, in order. */
  function ContentsOf(run: seq<Sent>, epoch: nat): seq<seq<byte>> {
    if run == [] then []
    else ContentsOf(run[..|run| - 1], epoch) + if Handshakes(run[|run| - 1], epoch) then [Contents(run[|run| - 1])] else []
  }

  /** A record of the epoch has this number. */
  ghost predicate HasNumber(run: seq<Sent>, epoch: nat, n: nat) {
    exists i :: 0 <= i < |run| && run[i].source.epoch == epoch && NumberOf(run[i]) == n
  }

  lemma {:induction false} ContentsOfBoth(a: seq<Sent>, b: seq<Sent>, epoch: nat)
    ensures ContentsOf(a + b, epoch) == ContentsOf(a, epoch) + ContentsOf(b, epoch)
  {
    hide Contents, Handshakes;
    if b == [] {
      assert a + b == a;
    } else {
      var n := |b| - 1;
      ContentsOfBoth(a, b[..n], epoch);
      assert (a + b)[..|a + b| - 1] == a + b[..n];
    }
  }

  lemma {:induction false} TakeAllBoth(w: Window, e: Env, a: seq<seq<byte>>, b: seq<seq<byte>>)
    requires TakeAll(w, e, a + b).ok
    ensures TakeAll(w, e, a).ok && TakeAll(w, e, a + b) == TakeAll(TakeAll(w, e, a).w, e, b)
  {
    hide TakeRecord;
    if b == [] {
      assert a + b == a;
    } else {
      var n := |b| - 1;
      assert (a + b)[..|a + b| - 1] == a + b[..n];
      TakeAllBoth(w, e, a, b[..n]);
    }
  }

  /** What has been heard after one readable record. */
  ghost function AfterOne(ear: Ear, k: Keys, e: Env, s: Sent): Ear {
    if s.source.epoch == k.epoch then HandOver(ear.(recorded := ear.recorded + {NumberOf(s)}), k.cipher, e, s).ear else ear
  }

  /** The first record of a readable run in order. */
  lemma FirstHeard(ear: Ear, k: Keys, e: Env, run: seq<Sent>)
    requires run != [] && AllReadable(run, k) && Above(ear.recorded, run, k.epoch)
    requires TakeAll(ear.w, e, ContentsOf(run, k.epoch)).ok
    ensures var next := AfterOne(ear, k, e, run[0]);
            && ReadRun(ear, k, e, run) == ReadRun(next, k, e, run[1..])
            && TakeAll(ear.w, e, ContentsOf(run, k.epoch)) == TakeAll(next.w, e, ContentsOf(run[1..], k.epoch))
            && next.recorded == ear.recorded + if run[0].source.epoch == k.epoch then {NumberOf(run[0])} else {}
  {
    hide Contents, NumberOf, TakeRecord, TakeAll, ContentsOf, ReadRun;
    var s, rest := run[0], run[1..];
    assert run == [s] + rest;
    ContentsOfBoth([s], rest, k.epoch);
    TakeAllBoth(ear.w, e, ContentsOf([s], k.epoch), ContentsOf(rest, k.epoch));
    ContentsOfOne(s, k.epoch);
    OneTaken(ear.w, e, Contents(s));
    assert Readable(s, k);
    if s.source.epoch == k.epoch {
      assert !TooOld(ear.recorded, NumberOf(s)) && NumberOf(s) !in ear.recorded;
    }
    ReadFirst(ear, k, e, run);
  }

  lemma ContentsOfOne(s: Sent, epoch: nat)
    ensures ContentsOf([s], epoch) == if Handshakes(s, epoch) then [Contents(s)] else []
  {
    assert [s][..0] == [];
  }

  lemma ReadFirst(ear: Ear, k: Keys, e: Env, run: seq<Sent>)
    requires run != [] && Readable(run[0], k)
    requires var s, n := run[0], NumberOf(run[0]);
             s.source.epoch == k.epoch ==>
               && n !in ear.recorded && !TooOld(ear.recorded, n)
               && HandOver(ear.(recorded := ear.recorded + {n}), k.cipher, e, s).ok
    ensures ReadRun(ear, k, e, run) == ReadRun(AfterOne(ear, k, e, run[0]), k, e, run[1..])
  {
    hide Contents, NumberOf, HandOver;
  }

  /** Every record of a readable run in order is taken if it is of this epoch, and the
      window takes the contents. */
  lemma {:induction false} AllAreHeard(ear: Ear, k: Keys, e: Env, run: seq<Sent>)
    requires AllReadable(run, k) && Above(ear.recorded, run, k.epoch) && TakeAll(ear.w, e, ContentsOf(run, k.epoch)).ok
    ensures var r := ReadRun(ear, k, e, run);
            && r.ok && r.ear.w == TakeAll(ear.w, e, ContentsOf(run, k.epoch)).w
            && forall n | n in r.ear.recorded :: n in ear.recorded || HasNumber(run, k.epoch, n)
    decreases |run|
  {
    hide Contents, NumberOf, TakeRecord, Readable, AfterOne, HasNumber;
    if run != [] {
      FirstHeard(ear, k, e, run);
      var next, rest := AfterOne(ear, k, e, run[0]), run[1..];
      assert run == [run[0]] + rest;
      assert forall n :: HasNumber([run[0]], k.epoch, n) <==> run[0].source.epoch == k.epoch && NumberOf(run[0]) == n by {
        NumberOfOne(run[0], k.epoch);
      }
      StillAbove(ear.recorded, next.recorded, [run[0]], rest, k.epoch);
      assert forall i | 0 <= i < |rest| :: rest[i] == run[i + 1];
      AllAreHeard(next, k, e, rest);
      forall n | n in ReadRun(next, k, e, rest).ear.recorded && n !in ear.recorded ensures HasNumber(run, k.epoch, n) {
        HasNumberBoth([run[0]], rest, k.epoch, n);
      }
    }
  }

  lemma NumberOfOne(s: Sent, epoch: nat)
    ensures forall n :: HasNumber([s], epoch, n) <==> s.source.epoch == epoch && NumberOf(s) == n
  {
    forall n ensures HasNumber([s], epoch, n) <==> s.source.epoch == epoch && NumberOf(s) == n {
      if s.source.epoch == epoch && NumberOf(s) == n {
        assert NumberOf([s][0]) == n;
      }
    }
  }

  lemma OneTaken(w: Window, e: Env, record: seq<byte>)
    ensures TakeAll(w, e, [record]) == TakeRecord(w, e, record) && TakeAll(w, e, []) == Result(true, w)
  {
    assert [record][..0] == [];
  }

  /** Two bytes are what they are read as. */
  lemma SameTwoBytes(a: seq<byte>, b: seq<byte>)
    requires |a| >= 2 && |b| >= 2 && Get16(a, 0) == Get16(b, 0)
    ensures a[..2] == b[..2]
  {
  }

  /** Records of one epoch whose numbers rise have rising numbers of eight bytes. */
  lemma RisesWhole(s: Sent, t: Sent)
    requires |s.sequence| == |t.sequence| == 8
    requires Number(s).0 == Number(t).0 && Number(s).1 < Number(t).1
    ensures NumberOf(s) < NumberOf(t)
  {
    hide BigEndian, Pow2;
    SameTwoBytes(s.sequence, t.sequence);
    BigEndianSplits(s.sequence[..2], s.sequence[2..]);
    BigEndianSplits(t.sequence[..2], t.sequence[2..]);
    assert s.sequence[..2] + s.sequence[2..] == s.sequence && t.sequence[..2] + t.sequence[2..] == t.sequence;
  }

  /** Every handshake record of the epoch is in the contents. */
  lemma {:induction false} ContentsArrive(run: seq<Sent>, epoch: nat, i: nat)
    requires i < |run| && Handshakes(run[i], epoch)
    ensures Contents(run[i]) in ContentsOf(run, epoch)
  {
    hide Contents, Handshakes;
    if i < |run| - 1 {
      ContentsArrive(run[..|run| - 1], epoch, i);
    }
  }

  lemma {:induction false} ContentsFrom(run: seq<Sent>, epoch: nat, c: seq<byte>) returns (i: nat)
    requires c in ContentsOf(run, epoch)
    ensures i < |run| && Handshakes(run[i], epoch) && c == Contents(run[i])
  {
    hide Contents, Handshakes;
    var n := |run| - 1;
    if Handshakes(run[n], epoch) && c == Contents(run[n]) {
      i := n;
    } else {
      i := ContentsFrom(run[..n], epoch, c);
    }
  }

  // ----- packets -----

  /** What has been heard since |ear0|: the contents of |done|, and their numbers. */
  ghost predicate HeardSoFar(ear0: Ear, ear: Ear, e: Env, done: seq<Sent>) {
    && TakeAll(ear0.w, e, ContentsOf(done, e.rEpoch)) == Result(true, ear.w)
    && forall n | n in ear.recorded :: n in ear0.recorded || HasNumber(done, e.rEpoch, n)
  }

  lemma HasNumberBoth(a: seq<Sent>, b: seq<Sent>, epoch: nat, n: nat)
    ensures HasNumber(a + b, epoch, n) <==> HasNumber(a, epoch, n) || HasNumber(b, epoch, n)
  {
    hide NumberOf;
    var all := a + b;
    if HasNumber(b, epoch, n) {
      var i :| 0 <= i < |b| && b[i].source.epoch == epoch && NumberOf(b[i]) == n;
      assert all[|a| + i] == b[i];
    } else if HasNumber(a, epoch, n) {
      var i :| 0 <= i < |a| && a[i].source.epoch == epoch && NumberOf(a[i]) == n;
      assert all[i] == a[i];
    }
  }

  /** The next packet of a flight is heard after those before. */
  lemma NextHeard(ear0: Ear, ear: Ear, k: Keys, e: Env, done: seq<Sent>, run: seq<Sent>)
    requires HeardSoFar(ear0, ear, e, done) && k.epoch == e.rEpoch
    requires AllReadable(done + run, k) && Above(ear0.recorded, done + run, k.epoch)
    requires TakeAll(ear0.w, e, ContentsOf(done + run, k.epoch)).ok
    ensures ReadRun(ear, k, e, run).ok && HeardSoFar(ear0, ReadRun(ear, k, e, run).ear, e, done + run)
  {
    hide ContentsOf, TakeAll, ReadRun, Readable, NumberOf, HasNumber;
    ContentsOfBoth(done, run, k.epoch);
    TakeAllBoth(ear0.w, e, ContentsOf(done, k.epoch), ContentsOf(run, k.epoch));
    var all := done + run;
    assert forall i | 0 <= i < |run| :: run[i] == all[|done| + i];
    assert AllReadable(run, k);
    StillAbove(ear0.recorded, ear.recorded, done, run, k.epoch);
    AllAreHeard(ear, k, e, run);
    forall n | n in ReadRun(ear, k, e, run).ear.recorded && n !in ear0.recorded ensures HasNumber(all, k.epoch, n) {
      HasNumberBoth(done, run, k.epoch, n);
    }
  }

  lemma StillAbove(recorded0: set<nat>, recorded: set<nat>, done: seq<Sent>, run: seq<Sent>, epoch: nat)
    requires Above(recorded0, done + run, epoch)
    requires forall n | n in recorded :: n in recorded0 || HasNumber(done, epoch, n)
    ensures Above(recorded, run, epoch)
  {
    hide NumberOf;
    var all := done + run;
    assert forall i | 0 <= i < |run| :: run[i] == all[|done| + i];
    forall i, n | 0 <= i < |run| && run[i].source.epoch == epoch && n in recorded ensures n < NumberOf(run[i]) {
      assert all[|done| + i] == run[i];
      if n !in recorded0 {
        var j :| 0 <= j < |done| && done[j].source.epoch == epoch && NumberOf(done[j]) == n;
        assert all[j] == done[j];
      }
    }
  }

  lemma NothingHeard(ear: Ear, e: Env)
    ensures HeardSoFar(ear, ear, e, [])
  {
  }

  /** A flight that the receiver is ready for: it holds the next messages, none is further
      than a flight ahead, or too large, and in the epoch of the Finished there is just one. */
  ghost predicate Expected(w: Window, e: Env, msgs: seq<Outgoing>, messages: seq<Message>, to: nat) {
    && w.readSeq <= to <= |messages| <= w.readSeq + e.flight && FlightHas(msgs, messages, w.readSeq, to, e.rEpoch)
    && (forall s | 0 <= s < |messages| :: |messages[s].body| <= e.maxLen)
    && forall m | m in msgs && !m.isCcs && m.epoch == e.rEpoch ::
         exists n :: IsMessage(m, messages, n) && (e.rEpoch == 1 ==> n == w.readSeq)
  }

  /** The numbers of a run in order. */
  lemma AscendingIsAbove(recorded: set<nat>, run: seq<Sent>, epoch: nat, ciphers: seq<Cipher>)
    requires Ascending(run) && AllSealed(run, ciphers) && Unheard(recorded, run, epoch)
    ensures Above(recorded, run, epoch)
  {
    hide ParseFragment, NumberOf, Contents, WellFormed, Plain;
    forall i, j | 0 <= i < j < |run| && run[i].source.epoch == run[j].source.epoch == epoch
      ensures NumberOf(run[i]) < NumberOf(run[j])
    {
      assert SealedAs(run[i], ciphers) && SealedAs(run[j], ciphers);
      RisesWhole(run[i], run[j]);
    }
  }

  /** The contents of the records of a flight are welcome, and all of them have arrived. */
  lemma FlightIsWelcome(msgs: seq<Outgoing>, run: seq<Sent>, w: Window, e: Env, messages: seq<Message>, ciphers: seq<Cipher>,
                        to: nat)
    requires AllSealed(run, ciphers) && OfFlight(msgs, run) && |messages| < SEQ_SPACE && Expected(w, e, msgs, messages, to)
    ensures Welcome(w, e, ContentsOf(run, e.rEpoch), messages) && Arrived(run, ContentsOf(run, e.rEpoch), e.rEpoch)
  {
    hide ParseFragment, HonestRecord, OnlyOf, IsMessage, ContentsOf, WellFormed;
    var records := ContentsOf(run, e.rEpoch);
    forall j | 0 <= j < |records|
      ensures HonestRecord(records[j], messages) && (e.rEpoch == 1 ==> OnlyOf(records[j], w.readSeq))
    {
      var i := ContentsFrom(run, e.rEpoch, records[j]);
      var m := run[i].source;
      assert m == msgs[run[i].message] && SealedAs(run[i], ciphers);
      var n :| IsMessage(m, messages, n) && (e.rEpoch == 1 ==> n == w.readSeq);
      PieceIsHonest(records[j], messages, m, n, run[i].offset, run[i].len);
    }
    forall i | 0 <= i < |run| && !run[i].source.isCcs && run[i].source.epoch == e.rEpoch
      ensures Plain(run[i].source, run[i].offset, run[i].len) in records
    {
      ContentsArrive(run, e.rEpoch, i);
    }
  }
}
