/** What a finished handshake means, read off the order of its messages. */
module HsSafety {
  import opened Common
  import opened HsTypes

  /** Message |i| is the Finished of |side|, and its code is taken over exactly the messages
      before it. */
  ghost predicate FinishedAt(c: Crypto, log: seq<Entry>, side: Side, i: nat) {
    && i < |log| && log[i].side == side && log[i].msg.typ == FINISHED
    && log[i].msg.body == c.mac(Bytes(log[..i]), side)
  }

  /** Both sides sent Finished, once, message |cf| of the client and |sf| of the server: the
      client first in a full handshake and the server first when a session is resumed. */
  ghost predicate BothFinished(k: Kind, c: Crypto, log: seq<Entry>, cf: nat, sf: nat) {
    && FinishedAt(c, log, Client, cf) && FinishedAt(c, log, Server, sf)
    && (if k.resumed then sf < cf else cf < sf)
    && forall i | 0 <= i < |log| && log[i].msg.typ == FINISHED :: i == cf || i == sf
  }

  /** Message |i| is the server's key exchange message, signed for the hellos and with the
      key of the certificate that begin the handshake. */
  ghost predicate SignedKeyAt(c: Crypto, log: seq<Entry>, i: nat) {
    && 3 <= i < |log| && log[i].side == Server && log[i].msg.typ == SERVER_KEY_EXCHANGE
    && c.proves(log[0].msg, log[1].msg, log[2].msg, log[i].msg)
  }

  /** The server's certificate comes third and is accepted. */
  ghost predicate PeerVerified(c: Crypto, log: seq<Entry>) {
    |log| >= 3 && log[2].side == Server && log[2].msg.typ == CERTIFICATE && c.trusts(log[2].msg)
  }

  /** The server has proved who it is, and that the key exchange is its own. */
  ghost predicate ServerAuthenticated(c: Crypto, log: seq<Entry>) {
    PeerVerified(c, log) && exists i: nat :: SignedKeyAt(c, log, i)
  }

  /** The log begins with the two hellos, of a version that is modelled. */
  predicate Greeting(c: Crypto, log: seq<Entry>) {
    && |log| >= 2 && log[0].side == Client && log[0].msg.typ == CLIENT_HELLO
    && log[1].side == Server && log[1].msg.typ == SERVER_HELLO
    && c.parse(log[1].msg).Some? && !c.parse(log[1].msg).value.tls13
  }

  /** What a finished handshake means.  Which messages it must have is settled by the hellos:
      the session counts as resumed only if the server returned the id that was offered. */
  ghost predicate SafelyDone(c: Crypto, offer: Option<seq<byte>>, certificate: bool, log: seq<Entry>) {
    && Greeting(c, log)
    && var k := KindOf(c, offer, certificate, log[1].msg);
       && FlowUpTo(k, log, Bound(Done, k.resumed))
       && (exists cf: nat, sf: nat :: BothFinished(k, c, log, cf, sf))
       && (!k.resumed && k.hello.certAuth ==> PeerVerified(c, log))
       && (!k.resumed && k.hello.certAuth && k.hello.keyExchange.ECDHE? ==> ServerAuthenticated(c, log))
  }

  /** In an ordered log the places go up. */
  lemma {:induction false} PlacesGoUp(resumed: bool, log: seq<Entry>, i: nat, j: nat)
    requires Ordered(resumed, log) && i < j < |log|
    ensures 0 <= Place(resumed, log[i]) < Place(resumed, log[j])
    decreases |log|
  {
    var before := log[..|log| - 1];
    if j < |log| - 1 {
      PlacesGoUp(resumed, before, i, j);
    } else {
      TopIsLast(resumed, before);
      if i < |log| - 2 {
        PlacesGoUp(resumed, before, i, j - 1);
      }
    }
  }

  lemma {:induction false} TopIsLast(resumed: bool, log: seq<Entry>)
    requires Ordered(resumed, log)
    ensures Top(resumed, log) >= -1 && (log != [] ==> Top(resumed, log) >= 0)
  {
    if log != [] {
      TopIsLast(resumed, log[..|log| - 1]);
    }
  }

  /** Every place that is taken is taken by a message. */
  lemma {:induction false} PlaceIsTaken(resumed: bool, log: seq<Entry>, p: int) returns (i: nat)
    requires p in Places(resumed, log)
    ensures i < |log| && Place(resumed, log[i]) == p
  {
    if Place(resumed, log[|log| - 1]) == p {
      i := |log| - 1;
    } else {
      i := PlaceIsTaken(resumed, log[..|log| - 1], p);
    }
  }

  /** What each message says holds of the messages before it. */
  lemma {:induction false} AuthenticAt(c: Crypto, log: seq<Entry>, i: nat)
    requires Authentic(c, log) && i < |log|
    ensures TrueOf(c, log[..i], log[i])
  {
    if i < |log| - 1 {
      AuthenticAt(c, log[..|log| - 1], i);
      assert log[..|log| - 1][..i] == log[..i];
    }
  }

  lemma FinishedOnce(k: Kind, c: Crypto, log: seq<Entry>, cf: nat, sf: nat)
    requires Ordered(k.resumed, log) && Authentic(c, log) && cf < |log| && sf < |log|
    requires Place(k.resumed, log[cf]) == if k.resumed then 7 else 12
    requires Place(k.resumed, log[sf]) == if k.resumed then 3 else 14
    ensures BothFinished(k, c, log, cf, sf)
  {
    AuthenticAt(c, log, cf);
    AuthenticAt(c, log, sf);
    hide Authentic, Ordered, Bytes, TrueOf;
    forall i: nat, j: nat | i < j < |log|
      ensures 0 <= Place(k.resumed, log[i]) < Place(k.resumed, log[j])
    {
      PlacesGoUp(k.resumed, log, i, j);
    }
  }

  /** A complete flow is a safe one. */
  lemma CompleteIsSafe(c: Crypto, offer: Option<seq<byte>>, certificate: bool, log: seq<Entry>)
    requires Greeting(c, log) && Authentic(c, log)
    requires var k := KindOf(c, offer, certificate, log[1].msg);
             FlowUpTo(k, log, Bound(Done, k.resumed)) && (!k.resumed && k.hello.certAuth ==> PeerVerified(c, log))
    ensures SafelyDone(c, offer, certificate, log)
  {
    var k := KindOf(c, offer, certificate, log[1].msg);
    var r := Requested(k, log);
    assert Must(k, r, if k.resumed then 7 else 12) && Must(k, r, if k.resumed then 3 else 14);
    var cf := PlaceIsTaken(k.resumed, log, if k.resumed then 7 else 12);
    var sf := PlaceIsTaken(k.resumed, log, if k.resumed then 3 else 14);
    FinishedOnce(k, c, log, cf, sf);
    if !k.resumed && k.hello.certAuth && k.hello.keyExchange.ECDHE? {
      KeyIsSigned(k, c, log, Bound(Done, false));
    }
  }

  /** Past its place, the key exchange message is there, and signed. */
  lemma KeyIsSigned(k: Kind, c: Crypto, log: seq<Entry>, bound: int)
    requires !k.resumed && k.hello.certAuth && k.hello.keyExchange.ECDHE? && bound > 4
    requires FlowUpTo(k, log, bound) && Authentic(c, log) && PeerVerified(c, log)
    ensures ServerAuthenticated(c, log)
  {
    assert Must(k, Requested(k, log), 4);
    var i := PlaceIsTaken(false, log, 4);
    AuthenticAt(c, log, i);
    if i < 3 {
      SmallPlaces(log, i);
    }
    assert SignedKeyAt(c, log, i);
  }

  /** The certificate has the first place a message after the hellos can have. */
  lemma SmallPlaces(log: seq<Entry>, i: nat)
    requires Ordered(false, log) && |log| >= 3 && i < 3 && Place(false, log[2]) == 2
    ensures Place(false, log[i]) == i
  {
    PlacesGoUp(false, log, 0, 1);
    PlacesGoUp(false, log, 1, 2);
  }
}
