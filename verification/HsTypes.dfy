/** Handshake messages, the order RFC 5246 section 7.3 prescribes for them, and the
    states of the client handshake for TLS up to version 1.2 and DTLS. */
module HsTypes {
  import opened Common

  const CLIENT_HELLO: byte := 1
  const SERVER_HELLO: byte := 2
  const HELLO_VERIFY_REQUEST: byte := 3
  const NEW_SESSION_TICKET: byte := 4
  const CERTIFICATE: byte := 11
  const SERVER_KEY_EXCHANGE: byte := 12
  const CERTIFICATE_REQUEST: byte := 13
  const SERVER_HELLO_DONE: byte := 14
  const CERTIFICATE_VERIFY: byte := 15
  const CLIENT_KEY_EXCHANGE: byte := 16
  const FINISHED: byte := 20
  const CERTIFICATE_STATUS: byte := 22
  const NEXT_PROTO: byte := 67
  const CHANNEL_ID: byte := 203

  /** |raw| is the message with its header, as it goes into the transcript. */
  datatype Message = Message(typ: byte, body: seq<byte>, raw: seq<byte>)

  datatype Side = Client | Server

  /** A message of the handshake and who sent it. */
  datatype Entry = Entry(side: Side, msg: Message)

  /** The bytes of the messages in order. */
  function Bytes(log: seq<Entry>): seq<byte> {
    if log == [] then [] else Bytes(log[..|log| - 1]) + log[|log| - 1].msg.raw
  }

  /** What one side sent. */
  function By(side: Side, log: seq<Entry>): seq<Message> {
    if log == [] then []
    else By(side, log[..|log| - 1]) + if log[|log| - 1].side == side then [log[|log| - 1].msg] else []
  }

  lemma ByGrows(side: Side, log: seq<Entry>, e: Entry)
    ensures By(side, log + [e]) == By(side, log) + if e.side == side then [e.msg] else []
  {
    assert (log + [e])[..|log|] == log;
  }

  // ----- the order of messages -----

  /** The place of a message in the flow of a full or an abbreviated handshake; messages
      that have no place come before everything. */
  function Place(resumed: bool, e: Entry): int {
    match e.side
    case Client =>
      if e.msg.typ == CLIENT_HELLO then 0
      else if resumed then
        (if e.msg.typ == NEXT_PROTO then 5 else if e.msg.typ == CHANNEL_ID then 6
         else if e.msg.typ == FINISHED then 7 else -1)
      else if e.msg.typ == CERTIFICATE then 7
      else if e.msg.typ == CLIENT_KEY_EXCHANGE then 8
      else if e.msg.typ == CERTIFICATE_VERIFY then 9
      else if e.msg.typ == NEXT_PROTO then 10
      else if e.msg.typ == CHANNEL_ID then 11
      else if e.msg.typ == FINISHED then 12
      else -1
    case Server =>
      if e.msg.typ == SERVER_HELLO then 1
      else if resumed then
        (if e.msg.typ == NEW_SESSION_TICKET then 2 else if e.msg.typ == FINISHED then 3 else -1)
      else if e.msg.typ == CERTIFICATE then 2
      else if e.msg.typ == CERTIFICATE_STATUS then 3
      else if e.msg.typ == SERVER_KEY_EXCHANGE then 4
      else if e.msg.typ == CERTIFICATE_REQUEST then 5
      else if e.msg.typ == SERVER_HELLO_DONE then 6
      else if e.msg.typ == NEW_SESSION_TICKET then 13
      else if e.msg.typ == FINISHED then 14
      else -1
  }

  function Top(resumed: bool, log: seq<Entry>): int {
    if log == [] then -1 else Place(resumed, log[|log| - 1])
  }

  /** Every message comes at most once and in its place. */
  predicate Ordered(resumed: bool, log: seq<Entry>) {
    log == [] ||
    (Ordered(resumed, log[..|log| - 1]) && Top(resumed, log[..|log| - 1]) < Place(resumed, log[|log| - 1]))
  }

  function Places(resumed: bool, log: seq<Entry>): set<int> {
    if log == [] then {} else Places(resumed, log[..|log| - 1]) + {Place(resumed, log[|log| - 1])}
  }

  lemma FlowGrows(resumed: bool, log: seq<Entry>, e: Entry)
    requires Ordered(resumed, log) && Top(resumed, log) < Place(resumed, e)
    ensures Ordered(resumed, log + [e]) && Top(resumed, log + [e]) == Place(resumed, e)
    ensures Places(resumed, log + [e]) == Places(resumed, log) + {Place(resumed, e)}
  {
    assert (log + [e])[..|log|] == log;
  }

  lemma BytesGrow(log: seq<Entry>, e: Entry)
    ensures Bytes(log + [e]) == Bytes(log) + e.msg.raw
  {
    assert (log + [e])[..|log|] == log;
  }

  // ----- what the hellos settle -----

  datatype KeyExchange = RSA | ECDHE | PSK

  /** What a ServerHello and its extensions say: a version this model does not cover, the
      session id, the cipher, and which of the optional messages there are to be. */
  datatype Hello = Hello(tls13: bool, sessionId: seq<byte>, keyExchange: KeyExchange, certAuth: bool, ssl3: bool,
                         status: bool, ticket: bool, nextProto: bool, channelId: bool)

  /** What decides which messages a handshake has, besides a request for a certificate:
      whether a session is resumed, the ServerHello, and whether we have a certificate. */
  datatype Kind = Kind(resumed: bool, hello: Hello, certificate: bool)

  /** The messages a handshake cannot do without, |requested| telling whether the server has
      asked for a certificate. */
  predicate Must(k: Kind, requested: bool, p: int) {
    if k.resumed then
      || p == 0 || p == 1 || p == 3 || p == 7
      || (p == 2 && k.hello.ticket) || (p == 5 && k.hello.nextProto) || (p == 6 && k.hello.channelId)
    else
      || p == 0 || p == 1 || p == 6 || p == 8 || p == 12 || p == 14
      || (p == 2 && k.hello.certAuth) || (p == 4 && k.hello.keyExchange.ECDHE?)
      || (p == 7 && requested && (k.certificate || !k.hello.ssl3)) || (p == 9 && requested && k.certificate)
      || (p == 10 && k.hello.nextProto) || (p == 11 && k.hello.channelId) || (p == 13 && k.hello.ticket)
  }

  /** The messages that are up to the server. */
  predicate May(k: Kind, p: int) {
    !k.resumed &&
    ((p == 3 && k.hello.status) || (p == 4 && k.hello.keyExchange.PSK?) || (p == 5 && k.hello.certAuth))
  }

  /** The server has asked for a certificate. */
  predicate Requested(k: Kind, log: seq<Entry>) {
    !k.resumed && 5 in Places(k.resumed, log)
  }

  /** The messages are in order, all before place |bound|, none of the necessary ones before
      it is missing, and there are none that should not be. */
  ghost predicate FlowUpTo(k: Kind, log: seq<Entry>, bound: int) {
    && Ordered(k.resumed, log) && Top(k.resumed, log) < bound
    && (forall p | Must(k, Requested(k, log), p) :: p < bound ==> p in Places(k.resumed, log))
    && forall p | p in Places(k.resumed, log) :: Must(k, Requested(k, log), p) || May(k, p)
  }

  const NONE: int := -2

  /** Between two places no message is necessary but the one in this place. */
  ghost predicate NoOther(k: Kind, requested: bool, from: int, to: int, place: int) {
    forall p | Must(k, requested, p) :: from <= p < to ==> p == place
  }

  lemma FlowAdds(k: Kind, log: seq<Entry>, bound: int, e: Entry, bound': int)
    requires FlowUpTo(k, log, bound) && bound <= Place(k.resumed, e) < bound'
    requires Must(k, Requested(k, log), Place(k.resumed, e)) || May(k, Place(k.resumed, e))
    requires NoOther(k, Requested(k, log) || (!k.resumed && Place(k.resumed, e) == 5), bound, bound', Place(k.resumed, e))
    ensures FlowUpTo(k, log + [e], bound')
    ensures Places(k.resumed, log + [e]) == Places(k.resumed, log) + {Place(k.resumed, e)}
    ensures Requested(k, log + [e]) == (Requested(k, log) || (!k.resumed && Place(k.resumed, e) == 5))
  {
    FlowGrows(k.resumed, log, e);
    forall p | Must(k, Requested(k, log + [e]), p) && p < bound ensures p in Places(k.resumed, log) {
      assert Must(k, Requested(k, log), p);
    }
  }

  lemma FlowSkips(k: Kind, log: seq<Entry>, bound: int, bound': int)
    requires FlowUpTo(k, log, bound) && bound <= bound'
    requires NoOther(k, Requested(k, log), bound, bound', NONE)
    ensures FlowUpTo(k, log, bound')
  {
  }

  /** The hellos, whatever the handshake turns out to be. */
  lemma FlowStarts(k: Kind, ch: Entry, sh: Entry)
    requires ch.side == Client && ch.msg.typ == CLIENT_HELLO && sh.side == Server && sh.msg.typ == SERVER_HELLO
    ensures FlowUpTo(k, [ch, sh], 2) && Places(k.resumed, [ch, sh]) == {0, 1} && !Requested(k, [ch, sh])
  {
    assert [] + [ch] == [ch] && [ch] + [sh] == [ch, sh];
    FlowGrows(k.resumed, [], ch);
    FlowGrows(k.resumed, [ch], sh);
  }

  // ----- what is signed -----

  /** What is left open of the messages: the Finished code of one side over a transcript, our
      signature over a transcript, whether a server's certificate is accepted, whether a key
      exchange message is signed with that certificate's key for these two hellos, and what
      a ServerHello says, if it can be read and is an answer to what was offered. */
  datatype Crypto = Crypto(mac: (seq<byte>, Side) -> seq<byte>, sign: seq<byte> -> seq<byte>,
                           trusts: Message -> bool, proves: (Message, Message, Message, Message) -> bool,
                           parse: Message -> Option<Hello>)

  /** The server has accepted to resume the session whose id was offered, if one was: it
      returns the id. */
  predicate Resumes(offer: Option<seq<byte>>, hello: Hello) {
    offer.Some? && hello.sessionId == offer.value
  }

  /** Which messages the handshake that begins with these hellos has. */
  function KindOf(c: Crypto, offer: Option<seq<byte>>, certificate: bool, serverHello: Message): Kind
    requires c.parse(serverHello).Some?
  {
    Kind(Resumes(offer, c.parse(serverHello).value), c.parse(serverHello).value, certificate)
  }

  /** A key exchange message after a certificate is signed with that certificate's key. */
  predicate Proved(c: Crypto, before: seq<Entry>, msg: Message) {
    |before| >= 3 && before[2].msg.typ == CERTIFICATE ==>
      c.proves(before[0].msg, before[1].msg, before[2].msg, msg)
  }

  /** What a message says about the messages before it is true: a Finished carries their
      code, a CertificateVerify their signature, and a key exchange message is signed. */
  predicate TrueOf(c: Crypto, before: seq<Entry>, e: Entry) {
    && (e.msg.typ == FINISHED ==> e.msg.body == c.mac(Bytes(before), e.side))
    && (e.msg.typ == CERTIFICATE_VERIFY && e.side == Client ==> e.msg.body == c.sign(Bytes(before)))
    && (e.msg.typ == SERVER_KEY_EXCHANGE && e.side == Server ==> Proved(c, before, e.msg))
  }

  predicate Authentic(c: Crypto, log: seq<Entry>) {
    log == [] || (Authentic(c, log[..|log| - 1]) && TrueOf(c, log[..|log| - 1], log[|log| - 1]))
  }

  lemma AuthenticGrows(c: Crypto, log: seq<Entry>, e: Entry)
    requires Authentic(c, log) && TrueOf(c, log, e)
    ensures Authentic(c, log + [e])
  {
    assert (log + [e])[..|log|] == log;
  }

  // ----- states -----

  datatype HsState =
    | StartConnect | EnterEarlyData | ReadHelloVerifyRequest | ReadServerHello | Tls13
    | ReadServerCertificate | ReadCertificateStatus | VerifyServerCertificate | ReadServerKeyExchange
    | ReadCertificateRequest | ReadServerHelloDone | SendClientCertificate | SendClientKeyExchange
    | SendClientCertificateVerify | SendClientFinished | FinishFlight | ReadSessionTicket
    | ProcessChangeCipherSpec | ReadServerFinished | FinishClientHandshake | Done

  datatype Wait =
    | Error | Ok | WaitServerHello | WaitMessage | WaitChangeCipherSpec | Flush | X509Lookup
    | ChannelIdLookup | PrivateKeyOperation | CertificateVerify | EarlyReturn | Tls13Takeover

  /** How far a state is from the end.  The states of the second half are passed in one
      order in a full handshake and in another one when a session is resumed. */
  function Rank(s: HsState, resumed: bool): nat {
    match s
    case StartConnect => 20
    case EnterEarlyData => 19
    case ReadHelloVerifyRequest => 18
    case ReadServerHello => 17
    case Tls13 => 0
    case ReadServerCertificate => 16
    case ReadCertificateStatus => 15
    case VerifyServerCertificate => 14
    case ReadServerKeyExchange => 13
    case ReadCertificateRequest => 12
    case ReadServerHelloDone => 11
    case SendClientCertificate => 10
    case SendClientKeyExchange => 9
    case SendClientCertificateVerify => 8
    case SendClientFinished => 7
    case FinishFlight => 6
    case ReadSessionTicket => if resumed then 10 else 5
    case ProcessChangeCipherSpec => if resumed then 9 else 4
    case ReadServerFinished => if resumed then 8 else 3
    case FinishClientHandshake => 2
    case Done => 0
  }

  /** The first place in the flow that may still be filled when the client is in a state. */
  function Bound(s: HsState, resumed: bool): int {
    match s
    case StartConnect => 0
    case EnterEarlyData | ReadHelloVerifyRequest | ReadServerHello | Tls13 => 1
    case ReadServerCertificate => 2
    case ReadCertificateStatus => 3
    case VerifyServerCertificate | ReadServerKeyExchange => 4
    case ReadCertificateRequest => 5
    case ReadServerHelloDone => 6
    case SendClientCertificate => 7
    case SendClientKeyExchange => 8
    case SendClientCertificateVerify => 9
    case SendClientFinished => if resumed then 4 else 10
    case FinishFlight => if resumed then 8 else 13
    case ReadSessionTicket => if resumed then 2 else 13
    case ProcessChangeCipherSpec | ReadServerFinished => if resumed then 3 else 14
    case FinishClientHandshake | Done => if resumed then 8 else 15
  }

  /** Going from one state to another, with a message in the given place or (NONE) without,
      skips no necessary message and adds none that should not be there. */
  ghost predicate Stepping(k: Kind, requested: bool, s: HsState, t: HsState, place: int) {
    && Bound(s, k.resumed) <= Bound(t, k.resumed)
    && (place != NONE ==>
          && Bound(s, k.resumed) <= place < Bound(t, k.resumed)
          && (Must(k, requested, place) || May(k, place)))
    && NoOther(k, requested || (!k.resumed && place == 5), Bound(s, k.resumed), Bound(t, k.resumed), place)
  }

  /** The steps of a full handshake that read the server's messages. */
  lemma FullSteps(k: Kind, r: bool)
    requires !k.resumed
    ensures k.hello.certAuth ==> Stepping(k, r, ReadServerCertificate, ReadCertificateStatus, 2)
    ensures !k.hello.certAuth ==> Stepping(k, r, ReadServerCertificate, ReadCertificateStatus, NONE)
    ensures k.hello.status ==> Stepping(k, r, ReadCertificateStatus, VerifyServerCertificate, 3)
    ensures Stepping(k, r, ReadCertificateStatus, VerifyServerCertificate, NONE)
    ensures Stepping(k, r, VerifyServerCertificate, ReadServerKeyExchange, NONE)
    ensures !k.hello.keyExchange.RSA? ==> Stepping(k, r, ReadServerKeyExchange, ReadCertificateRequest, 4)
    ensures !k.hello.keyExchange.ECDHE? ==> Stepping(k, r, ReadServerKeyExchange, ReadCertificateRequest, NONE)
    ensures k.hello.certAuth ==> Stepping(k, r, ReadCertificateRequest, ReadServerHelloDone, 5)
    ensures Stepping(k, r, ReadCertificateRequest, ReadServerHelloDone, NONE)
    ensures Stepping(k, r, ReadServerHelloDone, SendClientCertificate, 6)
  {
  }

  /** Those that send the client's. */
  lemma SendSteps(k: Kind, r: bool)
    requires !k.resumed
    ensures if r && (k.certificate || !k.hello.ssl3) then Stepping(k, r, SendClientCertificate, SendClientKeyExchange, 7)
            else Stepping(k, r, SendClientCertificate, SendClientKeyExchange, NONE)
    ensures Stepping(k, r, SendClientKeyExchange, SendClientCertificateVerify, 8)
    ensures if r && k.certificate then Stepping(k, r, SendClientCertificateVerify, SendClientFinished, 9)
            else Stepping(k, r, SendClientCertificateVerify, SendClientFinished, NONE)
  {
  }

  /** The steps both kinds of handshake have. */
  lemma LastSteps(k: Kind, r: bool)
    ensures if k.hello.ticket then Stepping(k, r, ReadSessionTicket, ProcessChangeCipherSpec, if k.resumed then 2 else 13)
            else Stepping(k, r, ReadSessionTicket, ProcessChangeCipherSpec, NONE)
    ensures Stepping(k, r, ProcessChangeCipherSpec, ReadServerFinished, NONE)
    ensures k.resumed ==> Stepping(k, r, ReadServerFinished, SendClientFinished, 3)
    ensures !k.resumed ==> Stepping(k, r, ReadServerFinished, FinishClientHandshake, 14)
    ensures k.resumed ==> Stepping(k, r, FinishFlight, FinishClientHandshake, NONE)
    ensures !k.resumed ==> Stepping(k, r, FinishFlight, ReadSessionTicket, NONE)
    ensures Stepping(k, r, FinishClientHandshake, Done, NONE)
  {
  }

  /** The type of the server's message that is consumed in a state. */
  function Consumed(s: HsState): Option<byte> {
    match s
    case ReadServerHello => Some(SERVER_HELLO)
    case ReadServerCertificate => Some(CERTIFICATE)
    case ReadCertificateStatus => Some(CERTIFICATE_STATUS)
    case ReadServerKeyExchange => Some(SERVER_KEY_EXCHANGE)
    case ReadCertificateRequest => Some(CERTIFICATE_REQUEST)
    case ReadServerHelloDone => Some(SERVER_HELLO_DONE)
    case ReadSessionTicket => Some(NEW_SESSION_TICKET)
    case ReadServerFinished => Some(FINISHED)
    case _ => None
  }

  /** States before it is known whether the session is resumed. */
  predicate BeforeHello(s: HsState) {
    s.StartConnect? || s.EnterEarlyData? || s.ReadHelloVerifyRequest? || s.ReadServerHello?
  }

  /** States of a full handshake before the server's certificate has been verified. */
  predicate BeforeVerified(s: HsState) {
    BeforeHello(s) || s.ReadServerCertificate? || s.ReadCertificateStatus? || s.VerifyServerCertificate?
  }

  /** States of a full handshake before a certificate request can have been received. */
  predicate BeforeRequest(s: HsState) {
    BeforeVerified(s) || s.ReadServerKeyExchange? || s.ReadCertificateRequest?
  }

  /** States that only a full handshake goes through. */
  predicate FullOnly(s: HsState) {
    || s.ReadServerCertificate? || s.ReadCertificateStatus? || s.VerifyServerCertificate?
    || s.ReadServerKeyExchange? || s.ReadCertificateRequest? || s.ReadServerHelloDone?
    || s.SendClientCertificate? || s.SendClientKeyExchange? || s.SendClientCertificateVerify?
  }

  /** States in which what arrives is protected by the keys of this handshake. */
  predicate ReadKeysIn(s: HsState, resumed: bool) {
    || s.ReadServerFinished? || s.FinishClientHandshake? || s.Done?
    || (resumed && (s.SendClientFinished? || s.FinishFlight?))
  }

  /** States in which what is sent is. */
  predicate WriteKeysIn(s: HsState, resumed: bool) {
    || s.FinishFlight? || s.FinishClientHandshake? || s.Done?
    || (!resumed && (s.ReadSessionTicket? || s.ProcessChangeCipherSpec? || s.ReadServerFinished?))
  }

  /** The steps the client takes without waiting. */
  predicate Edge(s: HsState, t: HsState, resumed: bool) {
    match s
    case EnterEarlyData => t.ReadHelloVerifyRequest? || t.ReadServerHello?
    case ReadHelloVerifyRequest => t.ReadServerHello?
    case ReadServerHello => if resumed then t.ReadSessionTicket? else t.ReadServerCertificate?
    case ReadServerCertificate => t.ReadCertificateStatus?
    case ReadCertificateStatus => t.VerifyServerCertificate?
    case VerifyServerCertificate => t.ReadServerKeyExchange?
    case ReadServerKeyExchange => t.ReadCertificateRequest?
    case ReadCertificateRequest => t.ReadServerHelloDone?
    case ReadServerHelloDone => t.SendClientCertificate?
    case SendClientCertificate => t.SendClientKeyExchange?
    case SendClientKeyExchange => t.SendClientCertificateVerify?
    case SendClientCertificateVerify => t.SendClientFinished?
    case FinishFlight => if resumed then t.FinishClientHandshake? else t.ReadSessionTicket?
    case ProcessChangeCipherSpec => t.ReadServerFinished?
    case ReadServerFinished => if resumed then t.SendClientFinished? else t.FinishClientHandshake?
    case FinishClientHandshake => t.Done?
    case _ => false
  }

  /** The steps after which the client waits. */
  predicate WaitEdge(s: HsState, t: HsState, resumed: bool) {
    match s
    case StartConnect => t.EnterEarlyData?
    case EnterEarlyData => t.ReadServerHello?
    case ReadHelloVerifyRequest => t.ReadServerHello?
    case SendClientFinished => t.FinishFlight?
    case FinishFlight => !resumed && t.ReadSessionTicket?
    case ReadSessionTicket => t.ProcessChangeCipherSpec?
    case _ => false
  }

  /** Every step brings the client nearer to the end, although the states can be drawn as
      a graph with a cycle: a full handshake sends its Finished before it reads the
      server's, an abbreviated one after it. */
  lemma StepsGoDown(s: HsState, t: HsState, before: bool, resumed: bool)
    requires Edge(s, t, resumed) || WaitEdge(s, t, resumed)
    requires before == resumed || BeforeHello(s)
    ensures Rank(t, resumed) < Rank(s, before)
  {
  }

  /** Without the distinction there is a cycle, and no rank at all. */
  lemma StepsGoRound()
    ensures Edge(ReadServerFinished, SendClientFinished, true) && WaitEdge(SendClientFinished, FinishFlight, true)
    ensures Edge(FinishFlight, ReadSessionTicket, false) && WaitEdge(ReadSessionTicket, ProcessChangeCipherSpec, false)
    ensures Edge(ProcessChangeCipherSpec, ReadServerFinished, false)
  {
  }
}
