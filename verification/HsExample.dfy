/** Handshakes that succeed: a server with a certificate and an ephemeral key, and in DTLS one
    that first checks the client's address, resumes its session and renews its ticket. */
module HsExample {
  import opened Common
  import opened HsTypes
  import opened HsSafety
  import opened HsPlan
  import opened HsClient

  /** What the server says in either. */
  const FULL: Hello := Hello(false, [], ECDHE, true, false, false, false, false, false)
  const RESUMED: Hello := Hello(false, [1], ECDHE, true, false, false, true, false, false)

  /** Codes and signatures are empty and every proof is accepted. */
  function CryptoWith(hello: Hello): Crypto {
    Crypto((_, _) => [], _ => [], _ => true, (_, _, _, _) => true, _ => Some(hello))
  }

  const AUTHOR: Author := Author((_, _) => [], (_, _, _) => [])

  function Empty(typ: byte): Message {
    Message(typ, [], [])
  }

  function Ours(typ: byte): Entry {
    Entry(HsTypes.Client, Empty(typ))
  }

  function Theirs(typ: byte): Entry {
    Entry(Server, Empty(typ))
  }

  /** What holds of a log of empty messages, as far as it goes. */
  ghost predicate Good(hello: Hello, from: nat, resumed: bool, log: seq<Entry>, top: int, places: set<int>, sent: seq<Message>) {
    && Authentic(CryptoWith(hello), log) && Made(AUTHOR, CryptoWith(hello), from, log) && Ordered(resumed, log)
    && Top(resumed, log) == top && Places(resumed, log) == places && By(Server, log) == sent
  }

  lemma Begins(hello: Hello, from: nat, resumed: bool)
    ensures Good(hello, from, resumed, [Ours(CLIENT_HELLO), Theirs(SERVER_HELLO)], 1, {0, 1}, [Empty(SERVER_HELLO)])
  {
    hide Good;
    var ch, sh := Ours(CLIENT_HELLO), Theirs(SERVER_HELLO);
    NothingYet(hello, from, resumed);
    Adds(hello, from, resumed, [], -1, {}, [], ch);
    assert [] + [ch] == [ch] && [ch] + [sh] == [ch, sh] && {} + {0} == {0} && {0} + {1} == {0, 1};
    Adds(hello, from, resumed, [ch], 0, {0}, [], sh);
    assert [] + [sh.msg] == [sh.msg];
  }

  lemma NothingYet(hello: Hello, from: nat, resumed: bool)
    ensures Good(hello, from, resumed, [], -1, {}, [])
  {
  }

  /** Any message with nothing in it may be added in its place. */
  lemma Adds(hello: Hello, from: nat, resumed: bool, log: seq<Entry>, top: int, places: set<int>, sent: seq<Message>, e: Entry)
    requires Good(hello, from, resumed, log, top, places, sent) && e.msg == Empty(e.msg.typ) && top < Place(resumed, e)
    ensures Good(hello, from, resumed, log + [e], Place(resumed, e), places + {Place(resumed, e)},
                 if e.side == Server then sent + [e.msg] else sent)
  {
    hide By, Places, Ordered, Bytes;
    AuthenticGrows(CryptoWith(hello), log, e);
    MadeGrows(AUTHOR, CryptoWith(hello), from, log, e);
    FlowGrows(resumed, log, e);
    ByGrows(Server, log, e);
  }

  // ----- a full handshake -----

  const GREETED: seq<Entry> := [Ours(CLIENT_HELLO), Theirs(SERVER_HELLO)]

  function Begun(): seq<Entry> {
    GREETED + [Theirs(CERTIFICATE)] + [Theirs(SERVER_KEY_EXCHANGE)] + [Theirs(SERVER_HELLO_DONE)]
  }

  function FullLog(): seq<Entry> {
    Begun() + [Ours(CLIENT_KEY_EXCHANGE)] + [Ours(FINISHED)] + [Theirs(FINISHED)]
  }

  /** The server's messages before the client's Finished come in one record, its own Finished in
      another. */
  function FullRecords(n: nat): seq<Message> {
    if n == 0 then [Empty(SERVER_HELLO), Empty(CERTIFICATE), Empty(SERVER_KEY_EXCHANGE), Empty(SERVER_HELLO_DONE)]
    else [Empty(FINISHED)]
  }

  lemma BegunIsGood()
    ensures Good(FULL, 0, false, Begun(), 6, {0, 1, 2, 4, 6}, FullRecords(0))
  {
    hide Good;
    Begins(FULL, 0, false);
    var sent := [Empty(SERVER_HELLO)];
    Adds(FULL, 0, false, GREETED, 1, {0, 1}, sent, Theirs(CERTIFICATE));
    var third := GREETED + [Theirs(CERTIFICATE)];
    Adds(FULL, 0, false, third, 2, {0, 1} + {2}, sent + [Empty(CERTIFICATE)], Theirs(SERVER_KEY_EXCHANGE));
    Adds(FULL, 0, false, third + [Theirs(SERVER_KEY_EXCHANGE)], 4, {0, 1} + {2} + {4},
         sent + [Empty(CERTIFICATE)] + [Empty(SERVER_KEY_EXCHANGE)], Theirs(SERVER_HELLO_DONE));
    assert {0, 1} + {2} + {4} + {6} == {0, 1, 2, 4, 6};
    assert sent + [Empty(CERTIFICATE)] + [Empty(SERVER_KEY_EXCHANGE)] + [Empty(SERVER_HELLO_DONE)] == FullRecords(0);
  }

  lemma FullIsGood()
    ensures Good(FULL, 0, false, FullLog(), 14, {0, 1, 2, 4, 6, 8, 12, 14}, FullRecords(0) + FullRecords(1))
  {
    hide Good;
    BegunIsGood();
    var places := {0, 1, 2, 4, 6};
    Adds(FULL, 0, false, Begun(), 6, places, FullRecords(0), Ours(CLIENT_KEY_EXCHANGE));
    var next := Begun() + [Ours(CLIENT_KEY_EXCHANGE)];
    Adds(FULL, 0, false, next, 8, places + {8}, FullRecords(0), Ours(FINISHED));
    Adds(FULL, 0, false, next + [Ours(FINISHED)], 12, places + {8} + {12}, FullRecords(0), Theirs(FINISHED));
    assert places + {8} + {12} + {14} == {0, 1, 2, 4, 6, 8, 12, 14};
  }

  const FULL_PLAN: Plan := Plan(None, None, FullLog(), 2)

  lemma FullIsSound()
    ensures Sound(FULL_PLAN, CryptoWith(FULL), AUTHOR, false, []) && Arriving(FullRecords, 0, 2) == Stream(FULL_PLAN)
  {
    FullIsGood();
    hide By, Places, Ordered, Authentic, Made;
    assert Arriving(FullRecords, 0, 2) == FullRecords(0) + (FullRecords(1) + Arriving(FullRecords, 2, 0));
    assert FlowUpTo(Kind(false, FULL, false), FullLog(), 15);
  }

  /** A client without a session gets through. */
  method FullHandshake() returns (ret: int, early: bool)
    ensures ret == 1 && !early
  {
    var client := new Client(false, false, false, [], [], (_, _) => false, AUTHOR, FullRecords, CryptoWith(FULL), false, false, 22);
    FullIsSound();
    client.StartsOnPlan(FULL_PLAN);
    ret, early := client.RunHandshake(FULL_PLAN);
  }

  // ----- a session is resumed -----

  function ResumedLog(): seq<Entry> {
    GREETED + [Theirs(NEW_SESSION_TICKET)] + [Theirs(FINISHED)] + [Ours(FINISHED)]
  }

  function ResumedRecords(n: nat): seq<Message> {
    if n == 0 then [Empty(HELLO_VERIFY_REQUEST)]
    else if n == 1 then [Empty(SERVER_HELLO), Empty(NEW_SESSION_TICKET)]
    else [Empty(FINISHED)]
  }

  lemma ResumedIsGood()
    ensures Good(RESUMED, 1, true, ResumedLog(), 7, {0, 1, 2, 3, 7}, ResumedRecords(1) + ResumedRecords(2))
  {
    hide Good;
    Begins(RESUMED, 1, true);
    var sent := [Empty(SERVER_HELLO)];
    Adds(RESUMED, 1, true, GREETED, 1, {0, 1}, sent, Theirs(NEW_SESSION_TICKET));
    var third := GREETED + [Theirs(NEW_SESSION_TICKET)];
    assert sent + [Empty(NEW_SESSION_TICKET)] == ResumedRecords(1);
    Adds(RESUMED, 1, true, third, 2, {0, 1} + {2}, ResumedRecords(1), Theirs(FINISHED));
    Adds(RESUMED, 1, true, third + [Theirs(FINISHED)], 3, {0, 1} + {2} + {3}, ResumedRecords(1) + ResumedRecords(2), Ours(FINISHED));
    assert {0, 1} + {2} + {3} + {7} == {0, 1, 2, 3, 7};
  }

  const RESUMED_PLAN: Plan := Plan(Some(Empty(HELLO_VERIFY_REQUEST)), Some([1]), ResumedLog(), 3)

  lemma ResumedIsSound()
    ensures Sound(RESUMED_PLAN, CryptoWith(RESUMED), AUTHOR, false, []) && Arriving(ResumedRecords, 0, 3) == Stream(RESUMED_PLAN)
  {
    ResumedIsGood();
    hide By, Places, Ordered, Authentic, Made;
    assert Arriving(ResumedRecords, 0, 3)
        == ResumedRecords(0) + (ResumedRecords(1) + (ResumedRecords(2) + Arriving(ResumedRecords, 3, 0)));
    assert ResumedRecords(1) + (ResumedRecords(2) + []) == ResumedRecords(1) + ResumedRecords(2);
    assert FlowUpTo(Kind(true, RESUMED, false), ResumedLog(), 8);
  }

  /** A client with a session to resume gets through. */
  method ResumedHandshake() returns (ret: int, early: bool)
    ensures ret == 1 && !early
  {
    var client := new Client(true, false, false, [1], [], (_, _) => false, AUTHOR, ResumedRecords, CryptoWith(RESUMED), true, false, 23);
    ResumedIsSound();
    client.StartsOnPlan(RESUMED_PLAN);
    ret, early := client.RunHandshake(RESUMED_PLAN);
  }
}
