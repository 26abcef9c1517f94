/** What the receiving half of d1_both.cc does with handshake fragments, as functions
    on the messages received so far; and the theorem that, from an honest peer over a
    network that loses, repeats and reorders, just the messages sent come out. */
module DtlsWindow {
  import opened Common
  import opened DtlsTypes
  import opened DtlsFragment

  /** The next message expected, and by number the messages that have been begun. */
  datatype Window = Window(readSeq: nat, slots: map<nat, Partial>)
  {
    predicate Begun(s: nat) {
      s in slots
    }

    ghost predicate Ready() {
      readSeq in slots && slots[readSeq].Complete()
    }

    /** Only messages that are not over yet and at most a flight ahead have been begun. */
    ghost predicate Valid(flight: nat) {
      && readSeq < SEQ_SPACE
      && forall s | s in slots :: readSeq <= s < readSeq + flight && s < SEQ_SPACE
    }
  }

  /** What the connection contributes: the length of a flight, the largest message
      allowed, and the epoch being read. */
  datatype Env = Env(flight: nat, maxLen: nat, rEpoch: nat)

  datatype Outcome = Rejected | Skipped | Taken(w: Window)

  predicate BadBounds(h: Header, maxLen: nat) {
    h.fragOff > h.msgLen || h.fragOff + h.fragLen > h.msgLen || h.msgLen > maxLen
  }

  /** The message a fragment belongs to is looked up, or begun, and the fragment laid
      over it unless it is complete already. */
  ghost function Lay(w: Window, e: Env, h: Header, body: seq<byte>): Outcome {
    if h.msgSeq < w.readSeq || h.msgSeq - w.readSeq >= e.flight then Rejected
    else if w.Begun(h.msgSeq) && (w.slots[h.msgSeq].typ != h.typ || w.slots[h.msgSeq].len != h.msgLen) then Rejected
    else
      var p := if w.Begun(h.msgSeq) then w.slots[h.msgSeq] else Partial(h.typ, h.msgLen, map[]);
      Taken(w.(slots := w.slots[h.msgSeq := if p.Complete() then p else p.Over(h.fragOff, body)]))
  }

  /** One round of the loop in dtls1_open_handshake.  A fragment exactly one flight ahead
      is let through by the first check on its number and rejected by the second. */
  ghost function Take(w: Window, e: Env, h: Header, body: seq<byte>): Outcome {
    if BadBounds(h, e.maxLen) then Rejected
    else if e.rEpoch == 1 && h.msgSeq != w.readSeq then Rejected
    else if h.msgSeq < w.readSeq || h.msgSeq > w.readSeq + e.flight then Skipped
    else Lay(w, e, h, body)
  }

  datatype Result = Result(ok: bool, w: Window)

  /** The loop over the fragments of a record; a fragment that is rejected ends it, with
      what came before already stored. */
  ghost function TakeRecord(w: Window, e: Env, bs: seq<byte>): Result
    decreases |bs|
  {
    if bs == [] then Result(true, w)
    else
      match ParseFragment(bs)
      case None => Result(false, w)
      case Some(f) =>
        match Take(w, e, f.hdr, f.body)
        case Rejected => Result(false, w)
        case Skipped => TakeRecord(w, e, f.rest)
        case Taken(w') => TakeRecord(w', e, f.rest)
  }

  /** dtls1_next_message. */
  function Next(w: Window): Window {
    Window((w.readSeq + 1) % SEQ_SPACE, w.slots - {w.readSeq})
  }

  // ----- runs -----

  /** A record arrives, or the handshake takes the current message if it is complete. */
  datatype Event = Arrive(e: Env, record: seq<byte>) | Deliver

  datatype State = State(w: Window, handedUp: seq<seq<byte>>)

  ghost function Step(st: State, ev: Event): State {
    match ev
    case Arrive(e, record) => st.(w := TakeRecord(st.w, e, record).w)
    case Deliver =>
      if st.w.Ready() then
        var p := st.w.slots[st.w.readSeq];
        State(Next(st.w), st.handedUp + [Raw(p.typ, st.w.readSeq, p.Body())])
      else st
  }

  ghost function Run(st: State, events: seq<Event>): State {
    if events == [] then st else Step(Run(st, events[..|events| - 1]), events[|events| - 1])
  }

  const START: State := State(Window(0, map[]), [])

  // ----- an honest peer -----

  /** A fragment of one of the messages. */
  predicate Honest(f: Fragment, msgs: seq<Message>) {
    var h := f.hdr;
    && h.msgSeq < |msgs| && h.typ == msgs[h.msgSeq].typ && h.msgLen == |msgs[h.msgSeq].body|
    && h.fragOff + h.fragLen <= h.msgLen
    && f.body == msgs[h.msgSeq].body[h.fragOff..h.fragOff + h.fragLen]
  }

  predicate HonestRecord(bs: seq<byte>, msgs: seq<Message>)
    decreases |bs|
  {
    bs == [] || var f := ParseFragment(bs); f.Some? && Honest(f.value, msgs) && HonestRecord(f.value.rest, msgs)
  }

  /** What has been received of a message is part of what was sent. */
  ghost predicate Faithful(p: Partial, m: Message) {
    p.typ == m.typ && p.len == |m.body| && forall k | k in p.got :: k < |m.body| && p.got[k] == m.body[k]
  }

  ghost predicate FaithfulWindow(w: Window, msgs: seq<Message>) {
    forall s | s in w.slots :: s < |msgs| && Faithful(w.slots[s], msgs[s])
  }

  lemma TakeIsFaithful(w: Window, e: Env, f: Fragment, msgs: seq<Message>)
    requires FaithfulWindow(w, msgs) && Honest(f, msgs)
    ensures var r := Take(w, e, f.hdr, f.body);
            r.Taken? ==> FaithfulWindow(r.w, msgs) && r.w.readSeq == w.readSeq
  {
  }

  lemma {:induction false} RecordIsFaithful(w: Window, e: Env, bs: seq<byte>, msgs: seq<Message>)
    requires FaithfulWindow(w, msgs) && HonestRecord(bs, msgs)
    ensures var r := TakeRecord(w, e, bs); FaithfulWindow(r.w, msgs) && r.w.readSeq == w.readSeq
    decreases |bs|
  {
    if bs != [] {
      var f := ParseFragment(bs).value;
      TakeIsFaithful(w, e, f, msgs);
      var r := Take(w, e, f.hdr, f.body);
      if r.Skipped? {
        RecordIsFaithful(w, e, f.rest, msgs);
      } else if r.Taken? {
        RecordIsFaithful(r.w, e, f.rest, msgs);
      }
    }
  }

  ghost predicate HonestRun(events: seq<Event>, msgs: seq<Message>) {
    forall i | 0 <= i < |events| :: events[i].Arrive? ==> HonestRecord(events[i].record, msgs)
  }

  /** The messages handed up so far, each once and in order, as they were sent. */
  ghost predicate InOrder(st: State, msgs: seq<Message>) {
    && st.w.readSeq == |st.handedUp| <= |msgs|
    && forall k | 0 <= k < |st.handedUp| :: st.handedUp[k] == Raw(msgs[k].typ, k, msgs[k].body)
  }

  lemma DeliverInOrder(st: State, msgs: seq<Message>)
    requires |msgs| < SEQ_SPACE && FaithfulWindow(st.w, msgs) && InOrder(st, msgs)
    ensures FaithfulWindow(Step(st, Deliver).w, msgs) && InOrder(Step(st, Deliver), msgs)
  {
    if st.w.Ready() {
      var s := st.w.readSeq;
      var p := st.w.slots[s];
      assert Faithful(p, msgs[s]);
      assert p.Body() == msgs[s].body;
    }
  }

  /** Reassembly: whatever is lost, repeated, reordered or overlaps, every message handed
      up equals the one sent, in strict order, each exactly once. */
  lemma {:induction false} HandsUpWhatWasSent(events: seq<Event>, msgs: seq<Message>)
    requires |msgs| < SEQ_SPACE && HonestRun(events, msgs)
    ensures FaithfulWindow(Run(START, events).w, msgs) && InOrder(Run(START, events), msgs)
  {
    if events != [] {
      var before, ev := events[..|events| - 1], events[|events| - 1];
      HandsUpWhatWasSent(before, msgs);
      var st := Run(START, before);
      if ev.Arrive? {
        RecordIsFaithful(st.w, ev.e, ev.record, msgs);
      } else {
        DeliverInOrder(st, msgs);
      }
    }
  }

  // ----- when a message is complete -----

  /** The bytes of message |s| that the fragments in a record cover. */
  function CoveredBy(bs: seq<byte>, s: nat): set<nat>
    decreases |bs|
  {
    var f := ParseFragment(bs);
    if f.None? then {}
    else
      var h := f.value.hdr;
      (if h.msgSeq == s then Range(h.fragOff, h.fragOff + h.fragLen) else {}) + CoveredBy(f.value.rest, s)
  }

  /** Whether a record has a fragment of message |s| at all. */
  predicate Mentions(bs: seq<byte>, s: nat)
    decreases |bs|
  {
    var f := ParseFragment(bs);
    f.Some? && (f.value.hdr.msgSeq == s || Mentions(f.value.rest, s))
  }

  function Received(w: Window, s: nat): set<nat> {
    if s in w.slots then w.slots[s].got.Keys else {}
  }

  lemma TakeCovers(w: Window, e: Env, f: Fragment, msgs: seq<Message>, s: nat)
    requires FaithfulWindow(w, msgs) && Honest(f, msgs) && w.readSeq <= s < w.readSeq + e.flight
    ensures var r := Take(w, e, f.hdr, f.body);
            var covered := if f.hdr.msgSeq == s then Range(f.hdr.fragOff, f.hdr.fragOff + f.hdr.fragLen) else {};
            && (r.Skipped? ==> f.hdr.msgSeq != s)
            && (r.Taken? ==> Received(r.w, s) == Received(w, s) + covered)
            && (r.Taken? ==> (r.w.Begun(s) <==> w.Begun(s) || f.hdr.msgSeq == s))
  {
    var h := f.hdr;
    if h.msgSeq == s && s in w.slots && w.slots[s].Complete() {
      assert Faithful(w.slots[s], msgs[s]);
      assert Received(w, s) + Range(h.fragOff, h.fragOff + h.fragLen) == Received(w, s);
    }
  }

  /** The bytes of a message that have been received are those the fragments covered. */
  lemma {:induction false} RecordCovers(w: Window, e: Env, bs: seq<byte>, msgs: seq<Message>, s: nat)
    requires FaithfulWindow(w, msgs) && HonestRecord(bs, msgs) && w.readSeq <= s < w.readSeq + e.flight
    requires TakeRecord(w, e, bs).ok
    ensures var r := TakeRecord(w, e, bs);
            && Received(r.w, s) == Received(w, s) + CoveredBy(bs, s)
            && (r.w.Begun(s) <==> w.Begun(s) || Mentions(bs, s))
    decreases |bs|
  {
    if bs != [] {
      var f := ParseFragment(bs).value;
      TakeCovers(w, e, f, msgs, s);
      TakeIsFaithful(w, e, f, msgs);
      var r := Take(w, e, f.hdr, f.body);
      RecordCovers(if r.Taken? then r.w else w, e, f.rest, msgs, s);
    }
  }

  /** Every fragment in the record is of message |s|. */
  predicate OnlyOf(bs: seq<byte>, s: nat)
    decreases |bs|
  {
    var f := ParseFragment(bs);
    f.Some? ==> f.value.hdr.msgSeq == s && OnlyOf(f.value.rest, s)
  }

  /** From an honest peer a record is rejected only for a message a flight ahead, one too
      large, or one that is not the current one in the encrypted epoch. */
  lemma {:induction false} HonestIsTaken(w: Window, e: Env, bs: seq<byte>, msgs: seq<Message>)
    requires FaithfulWindow(w, msgs) && HonestRecord(bs, msgs) && (e.rEpoch == 1 ==> OnlyOf(bs, w.readSeq))
    requires forall s | 0 <= s < |msgs| :: |msgs[s].body| <= e.maxLen
    requires |msgs| <= w.readSeq + e.flight
    ensures TakeRecord(w, e, bs).ok
    decreases |bs|
  {
    if bs != [] {
      var f := ParseFragment(bs).value;
      TakeIsFaithful(w, e, f, msgs);
      if f.hdr.msgSeq in w.slots {
        assert Faithful(w.slots[f.hdr.msgSeq], msgs[f.hdr.msgSeq]);
      }
      var r := Take(w, e, f.hdr, f.body);
      HonestIsTaken(if r.Taken? then r.w else w, e, f.rest, msgs);
    }
  }

  /** The edge of the window: a fragment exactly one flight ahead is not ignored like
      those further ahead, it fails the connection. */
  lemma ExactlyOneFlightAhead(w: Window, e: Env, h: Header, body: seq<byte>)
    requires !BadBounds(h, e.maxLen) && e.rEpoch != 1
    ensures h.msgSeq == w.readSeq + e.flight ==> Take(w, e, h, body).Rejected?
    ensures h.msgSeq > w.readSeq + e.flight ==> Take(w, e, h, body).Skipped?
  {
  }

  /** What is rejected: a fragment that is not within its message, one of a message that is too
      long, in the encrypted epoch one of any message but the next, and, of a message that is
      not passed over, one at the edge of the window or one that says something else about
      the message than the first did. */
  lemma RejectsExactly(w: Window, e: Env, h: Header, body: seq<byte>)
    ensures Take(w, e, h, body).Rejected? <==>
              || h.fragOff > h.msgLen || h.fragOff + h.fragLen > h.msgLen || h.msgLen > e.maxLen
              || (e.rEpoch == 1 && h.msgSeq != w.readSeq)
              || (w.readSeq <= h.msgSeq <= w.readSeq + e.flight
                  && (h.msgSeq == w.readSeq + e.flight
                      || (h.msgSeq in w.slots && (w.slots[h.msgSeq].typ != h.typ || w.slots[h.msgSeq].len != h.msgLen))))
  {
  }

  /** A fragment with this header is in the record. */
  predicate HasFragment(bs: seq<byte>, h: Header)
    decreases |bs|
  {
    bs != [] && var f := ParseFragment(bs); f.Some? && (f.value.hdr == h || HasFragment(f.value.rest, h))
  }

  /** One bad fragment is enough: the record fails, wherever in it the fragment is. */
  lemma {:induction false} BadFragmentFails(w: Window, e: Env, bs: seq<byte>, h: Header)
    requires HasFragment(bs, h)
    requires || h.fragOff > h.msgLen || h.fragOff + h.fragLen > h.msgLen || h.msgLen > e.maxLen
             || (e.rEpoch == 1 && h.msgSeq != w.readSeq)
    ensures !TakeRecord(w, e, bs).ok
    decreases |bs|
  {
    var f := ParseFragment(bs).value;
    match Take(w, e, f.hdr, f.body)
    case Rejected =>
    case Skipped => BadFragmentFails(w, e, f.rest, h);
    case Taken(w') => BadFragmentFails(w', e, f.rest, h);
  }

  ghost function TakeAll(w: Window, e: Env, records: seq<seq<byte>>): Result {
    if records == [] then Result(true, w)
    else
      var r := TakeAll(w, e, records[..|records| - 1]);
      if r.ok then TakeRecord(r.w, e, records[|records| - 1]) else r
  }

  /** The bytes of message |s| that fragments in any of the records cover. */
  function AllCovered(records: seq<seq<byte>>, s: nat): (r: set<nat>)
    ensures forall i | 0 <= i < |records| :: CoveredBy(records[i], s) <= r
  {
    if records == [] then {} else AllCovered(records[..|records| - 1], s) + CoveredBy(records[|records| - 1], s)
  }

  predicate AnyMentions(records: seq<seq<byte>>, s: nat) {
    exists i | 0 <= i < |records| :: Mentions(records[i], s)
  }

  /** The records of an honest peer that all fit the window. */
  ghost predicate Welcome(w: Window, e: Env, records: seq<seq<byte>>, msgs: seq<Message>) {
    && (forall i | 0 <= i < |records| ::
          HonestRecord(records[i], msgs) && (e.rEpoch == 1 ==> OnlyOf(records[i], w.readSeq)))
    && (forall s | 0 <= s < |msgs| :: |msgs[s].body| <= e.maxLen)
    && |msgs| <= w.readSeq + e.flight
  }

  lemma {:induction false} AllAreTaken(w0: Window, e: Env, records: seq<seq<byte>>, msgs: seq<Message>)
    requires FaithfulWindow(w0, msgs) && Welcome(w0, e, records, msgs)
    ensures var r := TakeAll(w0, e, records); r.ok && FaithfulWindow(r.w, msgs) && r.w.readSeq == w0.readSeq
  {
    hide HonestRecord, TakeRecord, OnlyOf;
    if records != [] {
      var n := |records| - 1;
      AllAreTaken(w0, e, records[..n], msgs);
      var w := TakeAll(w0, e, records[..n]).w;
      HonestIsTaken(w, e, records[n], msgs);
      RecordIsFaithful(w, e, records[n], msgs);
    }
  }

  lemma {:induction false} AllRecordsCover(w0: Window, e: Env, records: seq<seq<byte>>, msgs: seq<Message>, s: nat)
    requires FaithfulWindow(w0, msgs) && w0.readSeq <= s < w0.readSeq + e.flight
    requires forall i | 0 <= i < |records| :: HonestRecord(records[i], msgs)
    requires TakeAll(w0, e, records).ok
    ensures var w := TakeAll(w0, e, records).w;
            && FaithfulWindow(w, msgs) && w.readSeq == w0.readSeq
            && Received(w, s) == Received(w0, s) + AllCovered(records, s)
            && (w.Begun(s) <==> w0.Begun(s) || AnyMentions(records, s))
  {
    hide HonestRecord, TakeRecord, CoveredBy, Mentions;
    if records != [] {
      var n := |records| - 1;
      AllRecordsCover(w0, e, records[..n], msgs, s);
      var r := TakeAll(w0, e, records[..n]);
      RecordCovers(r.w, e, records[n], msgs, s);
      RecordIsFaithful(r.w, e, records[n], msgs);
      assert AnyMentions(records, s) <==> AnyMentions(records[..n], s) || Mentions(records[n], s);
    }
  }

  /** A message has all its bytes. */
  ghost predicate Whole(w: Window, s: nat) {
    s in w.slots && w.slots[s].Complete()
  }

  lemma WholeWhen(w: Window, msgs: seq<Message>, s: nat)
    requires FaithfulWindow(w, msgs) && s < |msgs|
    ensures Whole(w, s) <==> w.Begun(s) && forall k | 0 <= k < |msgs[s].body| :: k in Received(w, s)
  {
    if w.Begun(s) {
      var p := w.slots[s];
      assert Faithful(p, msgs[s]);
      assert Received(w, s) == p.got.Keys;
      forall k | 0 <= k < p.len ensures k in p.got <==> k in Received(w, s) {
      }
      if forall k | 0 <= k < p.len :: k in Received(w, s) {
        assert p.Complete();
      }
    }
  }

  /** A message in the window is complete exactly when fragments of it have been received
      and they cover every byte. */
  lemma {:induction false} CompleteWhenCovered(w0: Window, e: Env, records: seq<seq<byte>>, msgs: seq<Message>, s: nat)
    requires FaithfulWindow(w0, msgs) && w0.readSeq <= s < w0.readSeq + e.flight && s < |msgs|
    requires forall i | 0 <= i < |records| :: HonestRecord(records[i], msgs)
    requires TakeAll(w0, e, records).ok
    ensures Whole(TakeAll(w0, e, records).w, s) <==>
            && (w0.Begun(s) || AnyMentions(records, s))
            && forall k | 0 <= k < |msgs[s].body| :: k in Received(w0, s) + AllCovered(records, s)
  {
    hide HonestRecord, TakeAll, AllCovered, AnyMentions;
    AllRecordsCover(w0, e, records, msgs, s);
    WholeWhen(TakeAll(w0, e, records).w, msgs, s);
  }

  // ----- a whole flight -----

  /** Messages |from| to |to| as they are handed up. */
  function RawOf(msgs: seq<Message>, from: nat, to: nat): seq<seq<byte>>
    requires from <= to <= |msgs|
  {
    seq(to - from, k requires 0 <= k < to - from => Raw(msgs[from + k].typ, from + k, msgs[from + k].body))
  }

  lemma BodyIs(p: Partial, m: Message)
    requires Faithful(p, m) && p.Complete()
    ensures p.Body() == m.body
  {
  }

  lemma RawOfMore(msgs: seq<Message>, from: nat, s: nat)
    requires from <= s < |msgs|
    ensures RawOf(msgs, from, s + 1) == RawOf(msgs, from, s) + [Raw(msgs[s].typ, s, msgs[s].body)]
  {
    hide Raw;
  }

  /** The current message is complete, and is handed up. */
  lemma DeliversOne(st: State, msgs: seq<Message>)
    requires FaithfulWindow(st.w, msgs) && st.w.readSeq < |msgs| < SEQ_SPACE && Whole(st.w, st.w.readSeq)
    ensures var s := st.w.readSeq; var r := Step(st, Deliver);
            && r.handedUp == st.handedUp + [Raw(msgs[s].typ, s, msgs[s].body)]
            && r.w == Window(s + 1, st.w.slots - {s}) && FaithfulWindow(r.w, msgs)
  {
    hide Raw, Partial.Body;
    BodyIs(st.w.slots[st.w.readSeq], msgs[st.w.readSeq]);
  }

  /** Messages that are complete are handed up one after the other. */
  lemma {:induction false} DeliversAll(st: State, n: nat, msgs: seq<Message>)
    requires FaithfulWindow(st.w, msgs) && st.w.readSeq + n <= |msgs| < SEQ_SPACE
    requires forall s | st.w.readSeq <= s < st.w.readSeq + n :: Whole(st.w, s)
    ensures var r := Run(st, seq(n, _ => Deliver));
            && r.handedUp == st.handedUp + RawOf(msgs, st.w.readSeq, st.w.readSeq + n)
            && r.w.readSeq == st.w.readSeq + n && FaithfulWindow(r.w, msgs)
            && forall s | st.w.readSeq + n <= s && Whole(st.w, s) :: Whole(r.w, s)
  {
    hide Raw, Partial.Body, Partial.Complete, FaithfulWindow, RawOf, Step;
    if n == 0 {
      assert RawOf(msgs, st.w.readSeq, st.w.readSeq) == [] by { RawOfNone(msgs, st.w.readSeq); }
    } else {
      DeliversAll(st, n - 1, msgs);
      var events := seq(n, _ => Deliver);
      assert events[..n - 1] == seq(n - 1, _ => Deliver);
      var mid := Run(st, events[..n - 1]);
      assert Whole(mid.w, mid.w.readSeq);
      DeliversOne(mid, msgs);
      RawOfMore(msgs, st.w.readSeq, mid.w.readSeq);
    }
  }

  lemma RawOfNone(msgs: seq<Message>, from: nat)
    requires from <= |msgs|
    ensures RawOf(msgs, from, from) == []
  {
  }
}
