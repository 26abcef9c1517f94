/** The receiving half of d1_both.cc: a ring of slots for the messages of a flight,
    proved to behave as the functions of module DtlsWindow say. */
module DtlsReceive {
  import opened Common
  import opened DtlsTypes
  import opened DtlsFragment
  import opened DtlsWindow

  datatype OpenResult = OpenSuccess | OpenDiscard | OpenError

  class Receiver {
    /** SSL_MAX_HANDSHAKE_FLIGHT. */
    const flight: nat
    const incoming: array<HmFragment?>
    var handshakeReadSeq: nat
    var hasMessage: bool
    var hasChangeCipherSpec: bool
    ghost var Repr: set<object>

    ghost predicate Valid()
      reads this`handshakeReadSeq, this`Repr, Repr
    {
      && incoming in Repr && this !in Repr
      && flight == incoming.Length > 0 && handshakeReadSeq < SEQ_SPACE
      && (forall i | 0 <= i < flight && incoming[i] != null :: SlotValid(i, incoming[i]))
      && (forall i, j | 0 <= i < j < flight && incoming[i] != null && incoming[j] != null ::
            incoming[i].Parts() !! incoming[j].Parts())
    }

    /** The message in slot |i| belongs there: the assertion of dtls1_get_incoming_message. */
    ghost predicate SlotValid(i: nat, f: HmFragment)
      reads this`handshakeReadSeq, this`Repr, Repr
    {
      && f in Repr && f.Parts() <= Repr && {this, incoming} !! f.Parts() && f.Valid()
      && incoming.Length > 0 && f.msgSeq % incoming.Length == i
      && handshakeReadSeq <= f.msgSeq < handshakeReadSeq + incoming.Length && f.msgSeq < SEQ_SPACE
    }

    ghost predicate InSlot(s: nat)
      reads this`handshakeReadSeq, this`Repr, Repr
      requires Valid()
    {
      var f := incoming[s % flight];
      f != null && f.msgSeq == s
    }

    ghost function View(): Window
      reads this`handshakeReadSeq, this`Repr, Repr
      requires Valid()
    {
      Window(handshakeReadSeq, map s | 0 <= s < SEQ_SPACE && InSlot(s) :: incoming[s % flight].View())
    }

    constructor (flight: nat)
      requires flight > 0
      ensures Valid() && fresh(Repr) && this.flight == flight && View() == Window(0, map[])
      ensures !hasMessage && !hasChangeCipherSpec
    {
      this.flight := flight;
      incoming := new HmFragment?[flight](_ => null);
      handshakeReadSeq, hasMessage, hasChangeCipherSpec := 0, false, false;
      new;
      Repr := {incoming};
      assert View().slots == map[];
    }

    /** In the window every number has a slot of its own. */
    lemma SlotOf(s: nat)
      requires Valid() && handshakeReadSeq <= s < handshakeReadSeq + flight
      requires incoming[s % flight] != null
      ensures incoming[s % flight].msgSeq == s
    {
      var t := incoming[s % flight].msgSeq;
      SameResidue(s, t, flight);
    }

    /** The slot of a message that has not been begun is free. */
    lemma FreeSlot(s: nat)
      requires Valid() && s < SEQ_SPACE
      requires incoming[s % flight] == null
      ensures !View().Begun(s)
    {
    }

    /** Puts a new message into its slot. */
    method Insert(h: Header) returns (frag: HmFragment)
      requires Valid() && h.Fits() && handshakeReadSeq <= h.msgSeq < handshakeReadSeq + flight
      requires incoming[h.msgSeq % flight] == null
      modifies this`Repr, incoming
      ensures Valid() && fresh(Repr - old(Repr)) && fresh(frag.Parts())
      ensures frag == incoming[h.msgSeq % flight] && frag.msgSeq == h.msgSeq && frag.msgLen == h.msgLen
      ensures frag.View() == Partial(h.typ, h.msgLen, map[])
      ensures View() == old(View()).(slots := old(View()).slots[h.msgSeq := frag.View()])
    {
      hide HmFragment.Valid, HmFragment.View;
      var idx := h.msgSeq % flight;
      frag := new HmFragment(h);
      incoming[idx] := frag;
      Repr := Repr + frag.Parts();
      ViewWith(h.msgSeq, old(View()).slots);
    }

    /** One more message in the view. */
    lemma ViewWith(s: nat, before: map<nat, Partial>)
      requires Valid() && s < SEQ_SPACE && InSlot(s)
      requires forall t | 0 <= t < SEQ_SPACE && t != s :: t in before <==> InSlot(t)
      requires forall t | 0 <= t < SEQ_SPACE && t != s && InSlot(t) :: before[t] == incoming[t % flight].View()
      requires forall t | t in before :: t < SEQ_SPACE
      ensures View().slots == before[s := incoming[s % flight].View()]
    {
      hide HmFragment.Valid, HmFragment.View;
      assert View().slots.Keys == before.Keys + {s};
    }

    /** dtls1_get_incoming_message. */
    method GetIncoming(h: Header) returns (frag: HmFragment?)
      requires Valid() && h.Fits()
      modifies this`Repr, incoming
      ensures Valid() && fresh(Repr - old(Repr))
      ensures frag == null ==> View() == old(View())
      ensures (frag == null) <==>
                || h.msgSeq < handshakeReadSeq || h.msgSeq - handshakeReadSeq >= flight
                || (old(View()).Begun(h.msgSeq) &&
                    (old(View()).slots[h.msgSeq].typ != h.typ || old(View()).slots[h.msgSeq].len != h.msgLen))
      ensures frag != null ==>
                && frag == incoming[h.msgSeq % flight] && frag.msgSeq == h.msgSeq && frag.msgLen == h.msgLen
                && View() == old(View()).(slots := old(View()).slots[h.msgSeq := frag.View()])
                && frag.View() == if old(View()).Begun(h.msgSeq) then old(View()).slots[h.msgSeq]
                                  else Partial(h.typ, h.msgLen, map[])
    {
      hide Records, HeaderBytes;
      if h.msgSeq < handshakeReadSeq || h.msgSeq - handshakeReadSeq >= flight {
        return null;
      }
      frag := incoming[h.msgSeq % flight];
      if frag != null {
        SlotOf(h.msgSeq);
        assert InSlot(h.msgSeq);
        if frag.typ != h.typ || frag.msgLen != h.msgLen {
          return null;
        }
        assert View().slots == View().slots[h.msgSeq := frag.View()];
      } else {
        FreeSlot(h.msgSeq);
        frag := Insert(h);
      }
    }

    /** Whether the message in a slot has all its bytes. */
    lemma CompleteIfFreed(f: HmFragment)
      requires f.Valid()
      ensures f.reassembly == null <==> f.View().Complete()
    {
      hide Records, HeaderBytes;
      var got := f.View().got;
      assert forall k :: k in got <==> k in f.marked;
      if f.View().Complete() {
        forall k | 0 <= k < f.msgLen ensures k in f.marked {
          assert k in got;
        }
      }
    }

    /** Stores a fragment in its message. */
    method StoreIn(s: nat, off: nat, body: seq<byte>)
      requires Valid() && s < SEQ_SPACE && InSlot(s)
      requires incoming[s % flight].reassembly != null && off + |body| <= incoming[s % flight].msgLen
      modifies Repr
      ensures Valid() && Repr == old(Repr)
      ensures View() == old(View()).(slots := old(View()).slots[s := old(View()).slots[s].Over(off, body)])
    {
      hide Partial.Over, HmFragment.Valid, HmFragment.View;
      var frag := incoming[s % flight];
      frag.Store(off, body);
      ViewWith(s, old(View()).slots);
    }

    /** One round of the loop of dtls1_open_handshake. */
    method HandleFragment(e: Env, h: Header, body: seq<byte>) returns (ok: bool)
      requires Valid() && e.flight == flight && h.Fits() && |body| == h.fragLen
      modifies this`Repr, Repr
      ensures Valid() && fresh(Repr - old(Repr))
      ensures match Take(old(View()), e, h, body)
              case Rejected => !ok && View() == old(View())
              case Skipped => ok && View() == old(View())
              case Taken(w) => ok && View() == w
    {
      hide Lay, HmFragment.Valid, HmFragment.View;
      if h.fragOff > h.msgLen || h.fragOff + h.fragLen > h.msgLen || h.msgLen > e.maxLen {
        return false;
      }
      if e.rEpoch == 1 && h.msgSeq != handshakeReadSeq {
        return false;
      }
      if h.msgSeq < handshakeReadSeq || h.msgSeq > handshakeReadSeq + flight {
        return true;
      }
      ok := LayFragment(e, h, body);
    }

    method LayFragment(e: Env, h: Header, body: seq<byte>) returns (ok: bool)
      requires Valid() && e.flight == flight && h.Fits() && |body| == h.fragLen && h.fragOff + h.fragLen <= h.msgLen
      modifies this`Repr, Repr
      ensures Valid() && fresh(Repr - old(Repr))
      ensures var r := Lay(old(View()), e, h, body);
              if ok then r == Taken(View()) else r.Rejected? && View() == old(View())
    {
      hide HmFragment.Valid, HmFragment.View, Partial.Over, Partial.Complete;
      var frag := GetIncoming(h);
      if frag == null {
        return false;
      }
      CompleteIfFreed(frag);
      ghost var mid := View().slots;
      if frag.reassembly != null {
        StoreIn(h.msgSeq, h.fragOff, body);
        TwoUpdates(old(View()).slots, h.msgSeq, mid[h.msgSeq], View().slots[h.msgSeq]);
      }
      ok := true;
    }

    /** dtls1_open_handshake, given the contents of a record. */
    method OpenHandshake(e: Env, nullCipher: bool, typ: byte, record: seq<byte>) returns (r: OpenResult)
      requires Valid() && e.flight == flight
      modifies this`Repr, this`hasChangeCipherSpec, Repr
      ensures Valid() && fresh(Repr - old(Repr))
      ensures typ == HANDSHAKE ==>
                var t := TakeRecord(old(View()), e, record);
                View() == t.w && r == if t.ok then OpenSuccess else OpenError
      ensures typ != HANDSHAKE ==>
                && View() == old(View())
                && (r == OpenSuccess <==> typ == CHANGE_CIPHER_SPEC && nullCipher && record == CCS_BODY)
                && (r == OpenDiscard <==> typ == APPLICATION_DATA && !nullCipher)
      ensures hasChangeCipherSpec == (old(hasChangeCipherSpec) || (typ == CHANGE_CIPHER_SPEC && r == OpenSuccess))
    {
      if typ == APPLICATION_DATA {
        return if nullCipher then OpenError else OpenDiscard;
      }
      if typ == CHANGE_CIPHER_SPEC {
        if !nullCipher || record != CCS_BODY {
          return OpenError;
        }
        hasChangeCipherSpec := true;
        return OpenSuccess;
      }
      if typ != HANDSHAKE {
        return OpenError;
      }
      var ok := OpenFragments(e, record);
      r := if ok then OpenSuccess else OpenError;
    }

    /** dtls1_open_change_cipher_spec, once a ChangeCipherSpec has been flagged: it is used up. */
    method TakeChangeCipherSpec() returns (ok: bool)
      requires Valid()
      modifies this`hasChangeCipherSpec
      ensures Valid() && View() == old(View()) && ok == old(hasChangeCipherSpec) && !hasChangeCipherSpec
    {
      hide HmFragment.Valid, HmFragment.View, HmFragment.Parts;
      ok := hasChangeCipherSpec;
      hasChangeCipherSpec := false;
    }

    method OpenFragments(e: Env, record: seq<byte>) returns (ok: bool)
      requires Valid() && e.flight == flight
      modifies this`Repr, Repr
      ensures Valid() && fresh(Repr - old(Repr))
      ensures TakeRecord(old(View()), e, record) == Result(ok, View())
    {
      hide Take, HmFragment.Valid, HmFragment.View;
      var cbs := record;
      while cbs != []
        invariant Valid() && fresh(Repr - old(Repr))
        invariant TakeRecord(old(View()), e, record) == TakeRecord(View(), e, cbs)
        decreases |cbs|
      {
        var parsed := ParseFragment(cbs);
        if parsed.None? {
          return false;
        }
        ok := HandleFragment(e, parsed.value.hdr, parsed.value.body);
        if !ok {
          return;
        }
        cbs := parsed.value.rest;
      }
      ok := true;
    }

    /** dtls1_is_current_message_complete. */
    method IsCurrentComplete() returns (complete: bool)
      requires Valid()
      ensures complete == View().Ready()
      ensures complete ==> InSlot(handshakeReadSeq) && incoming[handshakeReadSeq % flight].reassembly == null
    {
      var frag := incoming[handshakeReadSeq % flight];
      if frag != null {
        SlotOf(handshakeReadSeq);
        CompleteIfFreed(frag);
      }
      complete := frag != null && frag.reassembly == null;
    }

    /** dtls1_get_message: the message handed up is the whole of the current one, with the
        header of an unfragmented message in front. */
    method GetMessage() returns (ok: bool, typ: byte, body: seq<byte>, raw: seq<byte>)
      requires Valid()
      modifies this`hasMessage
      ensures Valid() && View() == old(View()) && ok == View().Ready()
      ensures ok ==>
                var p := View().slots[handshakeReadSeq];
                typ == p.typ && body == p.Body() && raw == Raw(p.typ, handshakeReadSeq, p.Body()) && hasMessage
      ensures !ok ==> hasMessage == old(hasMessage)
    {
      hide HmFragment.Valid, HmFragment.View, Partial.Body, Partial.Complete, Raw;
      ok := IsCurrentComplete();
      if !ok {
        return false, 0, [], [];
      }
      var frag := incoming[handshakeReadSeq % flight];
      WholeBody(frag);
      typ, body, raw := frag.typ, frag.data[FRAGMENT_HEADER..], frag.data[..];
      hasMessage := true;
    }

    /** Releases the current message. */
    method ReleaseCurrent()
      requires Valid() && View().Ready()
      modifies incoming
      ensures Valid() && View().slots == old(View()).slots - {handshakeReadSeq} && !InSlot(handshakeReadSeq)
    {
      hide HmFragment.Valid, HmFragment.View, Partial.Complete;
      incoming[handshakeReadSeq % flight] := null;
      ViewWithout(handshakeReadSeq, old(View()).slots);
    }

    lemma NoneLeft()
      requires Valid() && !InSlot(handshakeReadSeq)
      ensures forall i | 0 <= i < flight && incoming[i] != null :: handshakeReadSeq < incoming[i].msgSeq < SEQ_SPACE
    {
      forall i | 0 <= i < flight && incoming[i] != null ensures incoming[i].msgSeq != handshakeReadSeq {
        assert SlotValid(i, incoming[i]);
      }
    }

    /** Moves on to the next number, which wraps around after 16 bits. */
    method AdvanceSeq()
      requires Valid() && !InSlot(handshakeReadSeq)
      modifies this`handshakeReadSeq
      ensures Valid() && View() == Window((old(handshakeReadSeq) + 1) % SEQ_SPACE, old(View()).slots)
    {
      hide HmFragment.Valid, HmFragment.View, HmFragment.Parts;
      ghost var slots := View().slots;
      NoneLeft();
      handshakeReadSeq := (handshakeReadSeq + 1) % SEQ_SPACE;
      assert View().slots == slots;
    }

    /** dtls1_next_message. */
    method NextMessage()
      requires Valid() && hasMessage && View().Ready()
      modifies this`handshakeReadSeq, this`hasMessage, incoming
      ensures Valid() && View() == Next(old(View())) && !hasMessage
    {
      hide HmFragment.Valid, HmFragment.View, HmFragment.Parts, Partial.Complete;
      ReleaseCurrent();
      AdvanceSeq();
      hasMessage := false;
    }

    /** dtls_has_unprocessed_handshake_data: anything received beyond the current message. */
    method HasUnprocessed() returns (any: bool)
      requires Valid() && (hasMessage ==> InSlot(handshakeReadSeq))
      ensures any <==> hasChangeCipherSpec || exists s :: View().Begun(s) && !(hasMessage && s == handshakeReadSeq)
    {
      hide HmFragment.Valid, HmFragment.View, HmFragment.Parts;
      if hasChangeCipherSpec {
        return true;
      }
      var current, i := handshakeReadSeq % flight, 0;
      while i < flight
        invariant i <= flight
        invariant forall k | 0 <= k < i :: (hasMessage && k == current) || incoming[k] == null
      {
        if !(hasMessage && i == current) && incoming[i] != null {
          assert SlotValid(i, incoming[i]);
          assert InSlot(incoming[i].msgSeq);
          assert View().Begun(incoming[i].msgSeq);
          return true;
        }
        i := i + 1;
      }
      any := false;
      forall s | View().Begun(s) ensures hasMessage && s == handshakeReadSeq {
        assert InSlot(s);
      }
    }

    /** The message that was in the view before and is no longer. */
    lemma ViewWithout(s: nat, before: map<nat, Partial>)
      requires Valid() && s < SEQ_SPACE && !InSlot(s)
      requires forall t | 0 <= t < SEQ_SPACE && t != s :: t in before <==> InSlot(t)
      requires forall t | 0 <= t < SEQ_SPACE && t != s && InSlot(t) :: before[t] == incoming[t % flight].View()
      requires forall t | t in before :: t < SEQ_SPACE
      ensures View().slots == before - {s}
    {
      hide HmFragment.Valid, HmFragment.View;
      assert View().slots.Keys == before.Keys - {s};
    }
  }

  lemma WholeBody(f: HmFragment)
    requires f.Valid() && f.reassembly == null
    ensures f.data.Length >= FRAGMENT_HEADER
    ensures f.View().Complete() && f.View().typ == f.typ && f.data[FRAGMENT_HEADER..] == f.View().Body()
    ensures f.data[..] == Raw(f.typ, f.msgSeq, f.View().Body())
  {
    var b := f.View().Body();
    assert f.data[FRAGMENT_HEADER..] == b;
    assert f.data[..] == f.data[..FRAGMENT_HEADER] + f.data[FRAGMENT_HEADER..];
  }

  lemma TwoUpdates(m: map<nat, Partial>, s: nat, a: Partial, b: Partial)
    ensures m[s := a][s := b] == m[s := b]
  {
  }

  lemma NoMultiple(n: int, d: int)
    requires n > 0 && d != 0
    ensures n * d >= n || n * d <= -n
  {
    if d >= 1 {
      assert n * (d - 1) >= 0;
    } else {
      assert n * (-d - 1) >= 0;
    }
  }

  lemma SameResidue(s: int, t: int, n: int)
    requires n > 0 && s % n == t % n && -n < s - t < n
    ensures s == t
  {
    assert s == n * (s / n) + s % n && t == n * (t / n) + t % n;
    assert s - t == n * (s / n - t / n);
    if s / n != t / n {
      NoMultiple(n, s / n - t / n);
    }
  }
}
