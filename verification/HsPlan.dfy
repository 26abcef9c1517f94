/** What a server that plays its part sends, and why a client that keeps to the order of
    messages keeps up with it. */
module HsPlan {
  import opened Common
  import opened HsTypes
  import opened HsSafety

  // ----- our messages -----

  /** The bodies of our messages but for those that are computed from the transcript, and
      the messages with their headers; both are given the number of the message. */
  datatype Author = Author(body: (nat, byte) -> seq<byte>, frame: (nat, byte, seq<byte>) -> seq<byte>)

  /** Our message number |i| of a type, after the messages |before|. */
  function MessageOf(a: Author, c: Crypto, before: seq<Entry>, i: nat, typ: byte): Message {
    var body := if typ == FINISHED then c.mac(Bytes(before), Client)
                else if typ == CERTIFICATE_VERIFY then c.sign(Bytes(before))
                else a.body(i, typ);
    Message(typ, body, a.frame(i, typ, body))
  }

  /** Every message of ours in the log is as we make it, the first with number |from|. */
  predicate Made(a: Author, c: Crypto, from: nat, log: seq<Entry>) {
    log == [] ||
    var before, e := log[..|log| - 1], log[|log| - 1];
    && Made(a, c, from, before)
    && (e.side == Client ==> e.msg == MessageOf(a, c, before, from + |By(Client, before)|, e.msg.typ))
  }

  lemma MadeGrows(a: Author, c: Crypto, from: nat, log: seq<Entry>, e: Entry)
    requires Made(a, c, from, log)
    requires e.side == Client ==> e.msg == MessageOf(a, c, log, from + |By(Client, log)|, e.msg.typ)
    ensures Made(a, c, from, log + [e])
  {
    assert (log + [e])[..|log|] == log;
  }

  lemma {:induction false} MadeAt(a: Author, c: Crypto, from: nat, log: seq<Entry>, i: nat)
    requires Made(a, c, from, log) && i < |log| && log[i].side == Client
    ensures log[i].msg == MessageOf(a, c, log[..i], from + |By(Client, log[..i])|, log[i].msg.typ)
  {
    if i < |log| - 1 {
      MadeAt(a, c, from, log[..|log| - 1], i);
      assert log[..|log| - 1][..i] == log[..i];
    }
  }

  // ----- the server's part -----

  /** The messages of a whole handshake, ours as we make them; in DTLS, perhaps, a
      HelloVerifyRequest that comes before them; the id of the session that is offered; and
      in how many records the server's messages arrive. */
  datatype Plan = Plan(verify: Option<Message>, offer: Option<seq<byte>>, log: seq<Entry>, records: nat)

  function Stream(p: Plan): seq<Message> {
    (if p.verify.Some? then [p.verify.value] else []) + By(Server, p.log)
  }

  /** The messages of |n| records from number |from| on. */
  function Arriving(arrivals: nat -> seq<Message>, from: nat, n: nat): seq<Message>
    decreases n
  {
    if n == 0 then [] else arrivals(from) + Arriving(arrivals, from + 1, n - 1)
  }

  function End(k: Kind): int {
    Bound(Done, k.resumed)
  }

  /** The server plays its part: the messages are those of a complete handshake for what the
      hellos settle, in order, with every code and signature right, a certificate that is
      accepted and an empty ServerHelloDone; it does not return an id that we made up. */
  ghost predicate Sound(p: Plan, c: Crypto, a: Author, certificate: bool, madeUpId: seq<byte>) {
    && Greeting(c, p.log) && Authentic(c, p.log)
    && Made(a, c, if p.verify.Some? then 1 else 0, p.log)
    && (p.verify.Some? ==> p.verify.value.typ == HELLO_VERIFY_REQUEST)
    && var k := KindOf(c, p.offer, certificate, p.log[1].msg);
       && FlowUpTo(k, p.log, End(k))
       && (!k.resumed && k.hello.certAuth ==> PeerVerified(c, p.log))
       && (p.offer.None? ==> madeUpId == [] || k.hello.sessionId != madeUpId)
       && forall i | 0 <= i < |p.log| && p.log[i].side == Server :: p.log[i].msg.typ == SERVER_HELLO_DONE ==> p.log[i].msg.body == []
  }

  // ----- keeping up -----

  /** The first |n| messages have been exchanged, and nothing before place |b| is to come. */
  ghost predicate At(k: Kind, log: seq<Entry>, n: nat, b: int) {
    && FlowUpTo(k, log, End(k)) && n <= |log|
    && (n < |log| ==> Place(k.resumed, log[n]) >= b)
  }

  /** Places that are the server's. */
  predicate Servers(resumed: bool, p: int) {
    if resumed then 1 <= p <= 3 else 1 <= p <= 6 || 13 <= p <= 14
  }

  lemma PlaceSide(resumed: bool, e: Entry)
    requires Place(resumed, e) >= 0
    ensures e.side == Server <==> Servers(resumed, Place(resumed, e))
  {
  }

  lemma {:induction false} OrderedPrefix(resumed: bool, log: seq<Entry>, n: nat)
    requires Ordered(resumed, log) && n <= |log|
    ensures Ordered(resumed, log[..n]) && Places(resumed, log[..n]) <= Places(resumed, log)
  {
    if n < |log| {
      OrderedPrefix(resumed, log[..|log| - 1], n);
      assert log[..|log| - 1][..n] == log[..n];
    } else {
      assert log[..n] == log;
    }
  }

  lemma {:induction false} HasPlace(resumed: bool, log: seq<Entry>, i: nat)
    requires i < |log|
    ensures Place(resumed, log[i]) in Places(resumed, log)
  {
    if i < |log| - 1 {
      HasPlace(resumed, log[..|log| - 1], i);
    }
  }

  lemma {:induction false} PlacesUpToTop(resumed: bool, log: seq<Entry>, p: int)
    requires Ordered(resumed, log) && p in Places(resumed, log)
    ensures 0 <= p <= Top(resumed, log)
  {
    TopIsLast(resumed, log);
    if log != [] && p != Top(resumed, log) {
      PlacesUpToTop(resumed, log[..|log| - 1], p);
    }
  }

  /** The next message comes no later than any that is still missing. */
  lemma NextComes(k: Kind, log: seq<Entry>, n: nat, b: int, m: int)
    requires At(k, log, n, b) && b <= m < End(k) && Must(k, Requested(k, log), m) && Top(k.resumed, log[..n]) < b
    ensures n < |log| && b <= Place(k.resumed, log[n]) <= m
    ensures Must(k, Requested(k, log), Place(k.resumed, log[n])) || May(k, Place(k.resumed, log[n]))
  {
    var i := PlaceIsTaken(k.resumed, log, m);
    if i < n {
      OrderedPrefix(k.resumed, log, n);
      HasPlace(k.resumed, log[..n], i);
      PlacesUpToTop(k.resumed, log[..n], m);
      assert false;
    }
    HasPlace(k.resumed, log, n);
    if n < i {
      PlacesGoUp(k.resumed, log, n, i);
    }
  }

  /** Whether a certificate was asked for is settled when its place has passed. */
  lemma RequestSettled(k: Kind, log: seq<Entry>, n: nat, b: int)
    requires At(k, log, n, b) && b > 5
    ensures Requested(k, log) == Requested(k, log[..n])
  {
    OrderedPrefix(k.resumed, log, n);
    if Requested(k, log) {
      var i := PlaceIsTaken(k.resumed, log, 5);
      if i >= n {
        if i > n {
          PlacesGoUp(k.resumed, log, n, i);
        }
        assert false;
      }
      assert log[..n][i] == log[i];
      HasPlace(k.resumed, log[..n], i);
    }
  }

  /** What we send asks for nothing. */
  lemma OursAskNothing(k: Kind, before: seq<Entry>, more: seq<Entry>)
    requires Ordered(k.resumed, more) && before <= more
    requires forall j | |before| <= j < |more| :: more[j].side == Client
    ensures Requested(k, more) == Requested(k, before)
  {
    assert more[..|before|] == before;
    OrderedPrefix(k.resumed, more, |before|);
    if Requested(k, more) {
      var i := PlaceIsTaken(k.resumed, more, 5);
      PlaceSide(k.resumed, more[i]);
      HasPlace(k.resumed, before, i);
    }
  }

  lemma MustEarly(k: Kind, p: int)
    requires p < 7
    ensures Must(k, true, p) == Must(k, false, p)
  {
  }

  lemma {:induction false} ByBoth(side: Side, a: seq<Entry>, b: seq<Entry>)
    ensures By(side, a + b) == By(side, a) + By(side, b)
  {
    if b == [] {
      assert a + b == a;
    } else {
      var n := |b| - 1;
      ByBoth(side, a, b[..n]);
      assert (a + b)[..|a + b| - 1] == a + b[..n];
    }
  }

  /** If the next message is the server's, it is the next to arrive. */
  lemma NextArrives(log: seq<Entry>, n: nat, waiting: seq<Message>)
    requires n < |log| && log[n].side == Server && By(Server, log) == By(Server, log[..n]) + waiting
    ensures waiting != [] && waiting[0] == log[n].msg
  {
    assert log == log[..n] + [log[n]] + log[n + 1..];
    ByBoth(Server, log[..n] + [log[n]], log[n + 1..]);
    ByGrows(Server, log[..n], log[n]);
    var behind := By(Server, log[n + 1..]);
    assert By(Server, log) == By(Server, log[..n]) + [log[n].msg] + behind;
    assert waiting == By(Server, log)[|By(Server, log[..n])|..];
  }

  /** If nothing was added, nothing was missing. */
  lemma NothingBetween(k: Kind, log: seq<Entry>, b: int, b': int)
    requires FlowUpTo(k, log, b) && FlowUpTo(k, log, b')
    ensures NoOther(k, Requested(k, log), b, b', NONE)
  {
    forall p | Must(k, Requested(k, log), p) && b <= p < b' ensures false {
      PlacesUpToTop(k.resumed, log, p);
    }
  }

  /** Our first message is as planned. */
  lemma SameHello(c: Crypto, a: Author, from: nat, log: seq<Entry>, hello: Message)
    requires log != [] && log[0].side == Client && log[0].msg.typ == hello.typ
    requires Made(a, c, from, log) && Made(a, c, from, [Entry(Client, hello)])
    ensures log[..1] == [Entry(Client, hello)]
  {
    var mine := [Entry(Client, hello)];
    MadeAt(a, c, from, log, 0);
    MadeAt(a, c, from, mine, 0);
    assert log[..0] == [] == mine[..0];
  }

  /** Without a message the client goes on only past places that stay empty. */
  lemma PlanSkips(k: Kind, log: seq<Entry>, n: nat, b: int, b': int, inbox: seq<Message>, coming: seq<Message>)
    requires At(k, log, n, b) && b <= b' && (b > 5 || b' <= 7)
    requires By(Server, log) == By(Server, log[..n]) + (inbox + coming)
    requires NoOther(k, Requested(k, log[..n]), b, b', NONE) && b >= 0
    requires forall p | May(k, p) && b <= p < b' :: inbox != [] && Place(k.resumed, Entry(Server, inbox[0])) != p
    ensures At(k, log, n, b')
  {
    if n < |log| && Place(k.resumed, log[n]) < b' {
      var p := Place(k.resumed, log[n]);
      HasPlace(k.resumed, log, n);
      if b > 5 {
        RequestSettled(k, log, n, b);
      } else {
        MustEarly(k, p);
      }
      assert May(k, p);
      NextArrives(log, n, inbox + coming);
      assert false;
    }
  }

  /** A message of the server that fills the next place is the one planned. */
  lemma PlanTakes(k: Kind, log: seq<Entry>, n: nat, b: int, inbox: seq<Message>, coming: seq<Message>)
    requires At(k, log, n, b) && Top(k.resumed, log[..n]) < b && b >= 0
    requires By(Server, log) == By(Server, log[..n]) + (inbox + coming)
    requires inbox != [] && Place(k.resumed, Entry(Server, inbox[0])) == b
    ensures n < |log| && log[n] == Entry(Server, inbox[0]) && At(k, log, n + 1, b + 1)
  {
    var j := FirstServer(log, n, inbox + coming);
    if n < j {
      PlacesGoUp(k.resumed, log, n, j);
      assert false;
    }
    if n + 1 < |log| {
      PlacesGoUp(k.resumed, log, n, n + 1);
    }
  }

  /** Where the next message to arrive is. */
  lemma {:induction false} FirstServer(log: seq<Entry>, n: nat, waiting: seq<Message>) returns (j: nat)
    requires n <= |log| && waiting != [] && By(Server, log) == By(Server, log[..n]) + waiting
    ensures n <= j < |log| && log[j] == Entry(Server, waiting[0])
    decreases |log| - n
  {
    assert log[..|log|] == log;
    if log[n].side == Server {
      NextArrives(log, n, waiting);
      j := n;
    } else {
      ByGrows(Server, log[..n], log[n]);
      assert log[..n] + [log[n]] == log[..n + 1];
      j := FirstServer(log, n + 1, waiting);
    }
  }

  /** What the client sends is what is planned: |more| has our messages up to place |b'|. */
  lemma {:induction false} PlanSends(k: Kind, c: Crypto, a: Author, from: nat, log: seq<Entry>, more: seq<Entry>, n: nat, i: nat,
                                     b: int, b': int)
    requires At(k, log, n, b) && b <= b' <= End(k) && n <= i <= |more| && FlowUpTo(k, more, b')
    requires i <= |log| && more[..i] == log[..i] && more[..n] == log[..n] && Top(k.resumed, log[..n]) < b
    requires forall j | n <= j < |more| :: more[j].side == Client && b <= Place(k.resumed, more[j]) < b'
    requires forall p | b <= p < b' :: !Servers(k.resumed, p) && !May(k, p)
    requires Requested(k, log) == Requested(k, more) && b >= 0
    requires Made(a, c, from, log) && Made(a, c, from, more)
    ensures more <= log && At(k, log, |more|, b')
    decreases |more| - i
  {
    hide FlowUpTo, Made, MessageOf, Must, May, Servers, By, Requested;
    if i == |more| {
      assert more[..i] == more;
      NoneOfOurs(k, log, more, n, i, b, b');
    } else {
      assert i < |log| && log[i] == more[i] by {
        SameNext(k, log, more, n, i, b, b');
        SameMade(c, a, from, k.resumed, log, more, i);
      }
      assert more[..i + 1] == more[..i] + [more[i]] && log[..i + 1] == log[..i] + [log[i]];
      PlanSends(k, c, a, from, log, more, n, i + 1, b, b');
    }
  }

  /** What the client sends at once is what is planned. */
  lemma PlanSendsAll(k: Kind, c: Crypto, a: Author, from: nat, log: seq<Entry>, before: seq<Entry>, more: seq<Entry>, b: int, b': int)
    requires At(k, log, |before|, b) && 0 <= b <= b' <= End(k) && before <= log && before <= more
    requires FlowUpTo(k, before, b) && FlowUpTo(k, more, b') && (k.resumed || b > 5)
    requires forall j | |before| <= j < |more| :: more[j].side == Client && b <= Place(k.resumed, more[j])
    requires forall p | b <= p < b' :: !Servers(k.resumed, p) && !May(k, p)
    requires Made(a, c, from, log) && Made(a, c, from, more)
    ensures more <= log && At(k, log, |more|, b')
  {
    hide Made, Must, May, Servers;
    var n := |before|;
    assert log[..n] == before == more[..n];
    forall j | n <= j < |more| ensures Place(k.resumed, more[j]) < b' {
      HasPlace(k.resumed, more, j);
      PlacesUpToTop(k.resumed, more, Place(k.resumed, more[j]));
    }
    OursAskNothing(k, before, more);
    if !k.resumed {
      RequestSettled(k, log, n, b);
    }
    PlanSends(k, c, a, from, log, more, n, n, b, b');
  }

  lemma SameMade(c: Crypto, a: Author, from: nat, resumed: bool, log: seq<Entry>, more: seq<Entry>, i: nat)
    requires i < |log| && i < |more| && more[..i] == log[..i] && more[i].side == Client
    requires Place(resumed, log[i]) == Place(resumed, more[i]) >= 0
    requires Made(a, c, from, log) && Made(a, c, from, more)
    ensures log[i] == more[i]
  {
    PlaceNames(resumed, log[i], more[i]);
    MadeAt(a, c, from, log, i);
    MadeAt(a, c, from, more, i);
  }

  /** When all of ours have been sent, the next is none of them. */
  lemma NoneOfOurs(k: Kind, log: seq<Entry>, more: seq<Entry>, n: nat, i: nat, b: int, b': int)
    requires At(k, log, n, b) && b <= b' <= End(k) && n <= i == |more| <= |log| && FlowUpTo(k, more, b')
    requires more[..i] == log[..i]
    requires forall p | b <= p < b' :: !Servers(k.resumed, p) && !May(k, p)
    requires Requested(k, log) == Requested(k, more)
    ensures At(k, log, i, b')
  {
    if n < i < |log| {
      PlacesGoUp(k.resumed, log, n, i);
    }
    if i < |log| && Place(k.resumed, log[i]) < b' {
      Belongs(k, log, more, n, i, b, b');
      assert false;
    }
  }

  lemma PlaceNames(resumed: bool, e: Entry, f: Entry)
    requires Place(resumed, e) == Place(resumed, f) >= 0
    ensures e.side == f.side && e.msg.typ == f.msg.typ
  {
  }

  /** A place of ours that the plan has is one we have filled. */
  lemma Belongs(k: Kind, log: seq<Entry>, more: seq<Entry>, n: nat, i: nat, b: int, b': int)
    requires At(k, log, n, b) && b <= b' <= End(k) && n <= i < |log| && i <= |more| && FlowUpTo(k, more, b')
    requires more[..i] == log[..i]
    requires forall p | b <= p < b' :: !Servers(k.resumed, p) && !May(k, p)
    requires Requested(k, log) == Requested(k, more)
    requires b <= Place(k.resumed, log[i]) < b'
    ensures exists j :: i <= j < |more| && Place(k.resumed, more[j]) == Place(k.resumed, log[i])
  {
    var p := Place(k.resumed, log[i]);
    HasPlace(k.resumed, log, i);
    assert Must(k, Requested(k, more), p);
    var j := PlaceIsTaken(k.resumed, more, p);
    if j < i {
      assert more[..i][j] == log[..i][j];
      PlacesGoUp(k.resumed, log, j, i);
      assert false;
    }
  }

  lemma SameNext(k: Kind, log: seq<Entry>, more: seq<Entry>, n: nat, i: nat, b: int, b': int)
    requires At(k, log, n, b) && b <= b' <= End(k) && n <= i < |more| && FlowUpTo(k, more, b')
    requires i <= |log| && more[..i] == log[..i] && Top(k.resumed, log[..n]) < b && more[..n] == log[..n]
    requires forall p | b <= p < b' :: !Servers(k.resumed, p) && !May(k, p)
    requires Requested(k, log) == Requested(k, more)
    requires forall j | n <= j < |more| :: b <= Place(k.resumed, more[j]) < b'
    ensures i < |log| && Place(k.resumed, log[i]) == Place(k.resumed, more[i])
  {
    hide Ordered, Places, Place, Must, May, Servers;
    var p := Place(k.resumed, more[i]);
    var j := AlsoPlanned(k, log, more, i, b');
    if i < j {
      PlacesGoUp(k.resumed, log, i, j);
      if n < i {
        PlacesGoUp(k.resumed, log, n, i);
      }
      Belongs(k, log, more, n, i, b, b');
      var j' :| i <= j' < |more| && Place(k.resumed, more[j']) == Place(k.resumed, log[i]);
      if i < j' {
        PlacesGoUp(k.resumed, more, i, j');
      }
      assert false;
    }
  }

  /** The next message we have sent is planned, and later than those sent before. */
  lemma AlsoPlanned(k: Kind, log: seq<Entry>, more: seq<Entry>, i: nat, b': int) returns (j: nat)
    requires FlowUpTo(k, log, End(k)) && FlowUpTo(k, more, b') && b' <= End(k) && i < |more|
    requires i <= |log| && more[..i] == log[..i] && Requested(k, log) == Requested(k, more)
    requires !May(k, Place(k.resumed, more[i]))
    ensures i <= j < |log| && Place(k.resumed, log[j]) == Place(k.resumed, more[i]) < b'
  {
    var p := Place(k.resumed, more[i]);
    HasPlace(k.resumed, more, i);
    PlacesUpToTop(k.resumed, more, p);
    assert Must(k, Requested(k, log), p) && p < End(k);
    j := PlaceIsTaken(k.resumed, log, p);
    if j < i {
      assert more[..i][j] == log[..i][j];
      PlacesGoUp(k.resumed, more, j, i);
      assert false;
    }
  }
}
