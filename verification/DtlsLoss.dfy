/** How a flight is lost although it is reported as sent: a ChangeCipherSpec and a Finished
    are to go out in one packet, and the Finished cannot be sealed the first time. */
module DtlsLoss {
  import opened Common
  import opened DtlsTypes
  import opened DtlsWrite
  import opened DtlsFlight
  import opened DtlsSender

  const FINISHED: byte := 20

  /** Protection that adds a tag of 16 bytes. */
  const TAGGED: Cipher :=
    Cipher(false, 0xfefd, 0, 16, (typ, version, sequence, plain) => Some(plain + seq(16, i => 0)),
           (typ, version, sequence, c) => if |c| < 16 then None else Some(c[..|c| - 16]))

  lemma BothAreReliable()
    ensures NULL_CIPHER.Reliable() && TAGGED.Reliable()
  {
  }

  /** The flight is queued, and attempt number 1 at sealing is the one that fails. */
  ghost predicate Queued(s: FlightSender, body: seq<byte>)
    reads s, s.writer
  {
    && s.outgoing == [Outgoing([], 0, true), Outgoing(Raw(FINISHED, 0, body), 1, false)] && |body| == 12
    && WellFormed(s.outgoing[1]) && Body(s.outgoing[1]) == body
    && s.writer.wEpoch == 1 && s.writer.ciphers == [NULL_CIPHER, TAGGED] && s.mtu == DEFAULT_MTU && !s.writeShutdown
    && (forall n :: s.writer.fails(n) <==> n == 1) && forall n :: s.bio.writeResult(n) == 1 && s.bio.flushResult(n) == 1
  }

  /** The first record of the flight is the ChangeCipherSpec, the second is of the Finished. */
  lemma {:induction false} InOrder(msgs: seq<Outgoing>, run: seq<Sent>)
    requires |msgs| == 2 && msgs[0].isCcs && Covers(msgs, Some(BEGINNING), run).Some? && run != []
    ensures run[0].message == 0 && Covers(msgs, Some(BEGINNING), run[..1]) == Some(Position(1, 0))
    ensures |run| >= 2 ==> run[1].message == 1
  {
    CoversSome(msgs, Some(BEGINNING), run, 1);
    assert run[..1][..0] == [];
    if |run| >= 2 {
      CoversSome(msgs, Some(BEGINNING), run, 2);
      assert run[..2][..1] == run[..1];
    }
  }

  /** Records made from the first attempt on are at most the ChangeCipherSpec. */
  lemma {:induction false} FirstOnly(s: FlightSender, body: seq<byte>, all: seq<Sent>)
    requires Queued(s, body) && s.AllWorked(all, 0) && OfFlight(s.outgoing, all)
    requires Covers(s.outgoing, Some(BEGINNING), all).Some?
    ensures all == [] || (|all| == 1 && all[0].message == 0 && Covers(s.outgoing, Some(BEGINNING), all) == Some(Position(1, 0)))
  {
    hide ParseFragment, Raw, Covers;
    if all != [] {
      InOrder(s.outgoing, all);
      assert |all| >= 2 ==> !s.Worked(all[1], 1);
      assert |all| == 1 ==> all[..1] == all;
    }
  }

  /** There is room for either message, and the Finished would fit behind the ChangeCipherSpec. */
  lemma RoomForBoth(s: FlightSender, body: seq<byte>)
    requires Queued(s, body)
    ensures forall k, room | room >= 100 :: !s.Short(k, room)
  {
    BothAreReliable();
  }

  lemma CcsIsShort(s: FlightSender, body: seq<byte>, r: Sent)
    requires Queued(s, body) && SealedAs(r, s.writer.ciphers) && r.source == s.outgoing[0]
    ensures |Packet([r])| == RECORD_HEADER + 1
  {
    assert r.sealed == CCS_BODY;
    assert [r][..0] == [];
  }

  /** The queue, and the writer one epoch further on. */
  method TwoQueued(body: seq<byte>) returns (s: FlightSender)
    requires |body| == 12
    ensures s.Valid() && Queued(s, body) && !s.complete && s.sealed == [] && s.log == [] && s.writer.attempts == 0
    ensures fresh(s) && fresh(s.writer) && fresh(s.writer.writeSequence) && fresh(s.writer.lastWriteSequence) && fresh(s.bio)
  {
    hide ParseFragment, FlightSender.Valid, RecordWriter.Valid, Covers;
    var writer := new RecordWriter(NULL_CIPHER, n => n == 1);
    var bio := new DatagramBio(n => 1, n => 1);
    s := new FlightSender(7, writer, bio, DEFAULT_MTU, false, 1000);
    var ok := s.AddChangeCipherSpec();
    s.SetWriteState(TAGGED);
    ok := s.AddMessage(FINISHED, body);
  }

  /** What that flush comes to: nothing is written, and the position is behind the first. */
  lemma Stopped(s: FlightSender, body: seq<byte>, all: seq<Sent>, packets: seq<seq<Sent>>)
    requires Queued(s, body) && s.Packaged(all, packets, 0) && AllSealed(all, s.writer.ciphers)
    requires Covers(s.outgoing, Some(BEGINNING), all) == Some(s.Here())
    ensures s.written < 2
    ensures s.Unsealable(|all|) || s.Short(s.written, s.mtu) ==>
              s.Here() == Position(1, 0) && packets == [] && s.writer.attempts == 2
  {
    hide ParseFragment, Raw, FlightSender.Short, SealedAs;
    FirstOnly(s, body, all);
    RoomForBoth(s, body);
    BothAreReliable();
    if packets != [] {
      NotPacked(s, body, all, packets);
    }
  }

  lemma NotPacked(s: FlightSender, body: seq<byte>, all: seq<Sent>, packets: seq<seq<Sent>>)
    requires Queued(s, body) && AllSealed(all, s.writer.ciphers) && OfFlight(s.outgoing, all)
    requires |all| <= 1 && (all != [] ==> all[0].message == 0 && Covers(s.outgoing, Some(BEGINNING), all) == Some(Position(1, 0)))
    requires Flat(packets) <= all && packets != []
    ensures !s.Packed(packets[0])
  {
    hide ParseFragment, Raw, FlightSender.Short, SealedAs;
    if packets[0] != [] {
      InFlat(packets, 0, 0);
      assert packets[0] == [all[0]];
      CcsIsShort(s, body, all[0]);
      RoomForBoth(s, body);
      assert [all[0]][..0] == [] && all == [all[0]];
    }
  }

  /** The first flush stops between the two, and has written nothing. */
  method FirstFlush(body: seq<byte>) returns (s: FlightSender, why: Why)
    requires |body| == 12
    ensures why.NotSealed? && s.Valid() && Queued(s, body) && s.complete && s.Here() == Position(1, 0)
    ensures s.log == [] && s.writer.attempts == 2
    ensures fresh(s) && fresh(s.writer) && fresh(s.writer.writeSequence) && fresh(s.writer.lastWriteSequence) && fresh(s.bio)
  {
    hide ParseFragment, FlightSender.Valid, RecordWriter.Valid, Covers, FlightSender.Packaged, FlightSender.Unsealable,
         FlightSender.Short;
    s := TwoQueued(body);
    s.NothingSent();
    var ret;
    why, ret := s.FlushFlight(0);
    s.AllAreSealed();
    assert s.sealed[0..] == s.sealed && s.log[0..] == s.log;
    if !why.Blocked? {
      Stopped(s, body, s.sealed, s.log);
    }
  }

  /** The second flush cannot fail, since only one attempt does. */
  lemma {:induction false} NotAgain(s: FlightSender, body: seq<byte>, all: seq<Sent>)
    requires Queued(s, body) && Covers(s.outgoing, Some(Position(1, 0)), all) == Some(s.Here())
    ensures !s.Unsealable(2 + |all|) && !s.Short(s.written, s.mtu)
  {
    hide ParseFragment, Raw;
    FewRecords(s.outgoing, 1, all);
    RoomForBoth(s, body);
    BothAreReliable();
  }

  /** The next call to flush the flight reports success, and no packet ever held the
      ChangeCipherSpec. */
  method LostAfterSealing(body: seq<byte>) returns (s: FlightSender, first: Why, ret: int)
    requires |body| == 12
    ensures first.NotSealed? && ret == 1 && s.Valid() && |s.outgoing| == s.written == 2 && s.outgoing[0].isCcs
    ensures forall i, j | 0 <= i < |s.log| && 0 <= j < |s.log[i]| :: s.log[i][j].message == 1
  {
    hide ParseFragment, FlightSender.Valid, RecordWriter.Valid, Covers, FlightSender.Packaged, FlightSender.Unsealable,
         FlightSender.Short, Flat, WholeFlight;
    s, first := FirstFlush(body);
    ghost var before := s.sealed;
    var why;
    why, ret := s.FlushFlight(0);
    ghost var all := s.sealed[|before|..];
    if !why.Blocked? {
      NotAgain(s, body, all);
      NoneBefore(s.outgoing, Position(1, 0), all);
    }
    assert s.log[0..] == s.log;
    forall i, j | 0 <= i < |s.log| && 0 <= j < |s.log[i]| ensures s.log[i][j].message == 1 {
      InFlat(s.log, i, j);
    }
  }
}
