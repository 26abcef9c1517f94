/** The client handshake for TLS up to version 1.2 and DTLS: the handlers of
    handshake_client.cc and the loops that drive them.  What the environment decides is
    answered by an unknown sequence of choices, what the peer's messages mean by unknown
    functions of them. */
module HsClient {
  import opened Common
  import opened HsTypes
  import opened HsSafety
  import opened HsPlan
  import opened HsTranscript

  /** What resolving a wait comes to: ssl_run_handshake returns, tries again, or goes on. */
  datatype Next = Return(ret: int, early: bool) | TryAgain | Proceed

  /** What is left to the environment: whether an operation fails, whether the application
      needs more time for one, whether the transport blocks, whether a record held nothing
      for the handshake, whether the session cannot be offered, whether early data is, whether
      a ticket turns out empty, and whether False Start is possible with these parameters. */
  datatype Question = Fails | Later | Blocks | More | Unusable | Early | EmptyTicket | FalseStartFits

  /** While the handshake buffer is kept. */
  predicate BufferKept(s: HsState, resumed: bool, certAuth: bool, certRequest: bool, certificate: bool) {
    if BeforeHello(s) then true
    else if resumed || !certAuth then false
    else if BeforeRequest(s) then true
    else if s.ReadServerHelloDone? || s.SendClientCertificate? then certRequest
    else if s.SendClientKeyExchange? || s.SendClientCertificateVerify? then certRequest && certificate
    else false
  }

  /** The session ticket, if there is to be one, has not been read. */
  predicate TicketAhead(s: HsState, resumed: bool) {
    Bound(s, resumed) <= if resumed then 2 else 13
  }

  const NO_HELLO: Hello := Hello(false, [], RSA, false, false, false, false, false, false)

  class Client {
    const dtls: bool
    const falseStart: bool
    /** Whether there is a certificate of ours, once the application has had its say. */
    const certificate: bool
    /** The id of the configured session, and the one made up for a server that wants one. */
    const sessionId: seq<byte>
    const madeUpId: seq<byte>
    const decide: (nat, Question) -> bool
    const author: Author
    /** The messages in each record that arrives. */
    const arrivals: nat -> seq<Message>
    const crypto: Crypto
    const transcript: Transcript

    var asked: nat
    /** How many records have been read. */
    var readCount: nat
    var sent: nat
    var state: HsState
    /** hs->wait. */
    var wait: Wait
    /** The messages that have arrived and not been consumed, and how many more times the
        transport can be asked before it blocks for good. */
    var inbox: seq<Message>
    var answers: nat
    /** Every message handed to the transport. */
    var flight: seq<Message>
    /** ssl->session != NULL: offered before the ServerHello, resumed after it. */
    var session: bool
    /** hs->session_id. */
    var helloId: seq<byte>
    var keyExchange: KeyExchange
    var certAuth: bool
    var ssl3: bool
    var earlyDataOffered: bool
    var certificateStatusExpected: bool
    var ticketExpected: bool
    var nextProtoSeen: bool
    var channelIdValid: bool
    /** Where the client's and the server's random and the server's public key come from. */
    var clientHello: Message
    var serverHello: Message
    var peerCertificate: Message
    var certRequest: bool
    var initialComplete: bool
    /** Whether the keys of this handshake are in use, in either direction. */
    var readKeys: bool
    var writeKeys: bool

    /** Every message that has arrived. */
    ghost var received: seq<Message>
    /** The id of the session offered for resumption in the ClientHello, if any. */
    ghost var offer: Option<seq<byte>>
    /** The messages sent and consumed since the last HelloVerifyRequest, and how many
        messages were sent and consumed up to it. */
    ghost var log: seq<Entry>
    ghost var sentBefore: nat
    ghost var takenBefore: nat

    // ----- what holds between the steps -----

    /** The log has each message handed to the transport and each one that has arrived,
        once and in order, except those still in the inbox, and, in DTLS, a first
        ClientHello and the HelloVerifyRequest that answers it. */
    ghost predicate Exchanged()
      reads this`flight, this`sent, this`received, this`inbox, this`log, this`sentBefore, this`takenBefore
    {
      && sentBefore == takenBefore <= 1 && sent == |flight|
      && (takenBefore == 1 ==>
            && dtls && |flight| >= 1 && flight[0].typ == CLIENT_HELLO
            && |received| >= 1 && received[0].typ == HELLO_VERIFY_REQUEST)
      && sentBefore <= |flight| && flight[sentBefore..] == By(HsTypes.Client, log)
      && takenBefore <= |received| && received[takenBefore..] == By(Server, log) + inbox
    }

    /** The transcript is exactly the messages sent and consumed, what is said in them about
        the messages before is true, and ours are as we make them. */
    ghost predicate Recorded()
      reads this`flight, this`sent, this`received, this`inbox, this`log, this`sentBefore, this`takenBefore, transcript
    {
      && transcript.Holds(Bytes(log)) && Authentic(crypto, log) && Made(author, crypto, sentBefore, log)
      && Exchanged()
    }

    /** The session whose id is offered: one with an id, and only in the first handshake. */
    function Offered(): Option<seq<byte>>
      reads this`session, this`initialComplete
    {
      if session && !initialComplete && sessionId != [] then Some(sessionId) else None
    }

    /** Before the ServerHello, at most a ClientHello has been exchanged. */
    ghost predicate Greeted()
      reads this`state, this`session, this`initialComplete, this`offer, this`helloId, this`certRequest
      reads this`log, this`clientHello, this`takenBefore
    {
      && !certRequest && (state.ReadHelloVerifyRequest? ==> dtls) && (!state.ReadServerHello? ==> takenBefore == 0)
      && if state.StartConnect? then log == []
         else
           && log == [Entry(HsTypes.Client, clientHello)] && clientHello.typ == CLIENT_HELLO
           && offer == Offered() && helloId == if offer.Some? then offer.value else madeUpId
    }

    /** What the ServerHello says. */
    function Parameters(): Hello
      reads this`serverHello
    {
      if crypto.parse(serverHello).Some? then crypto.parse(serverHello).value else NO_HELLO
    }

    /** The parameters are those the ServerHello names. */
    ghost predicate Agreed(h: Hello)
      reads this`keyExchange, this`certAuth, this`ssl3, this`certificateStatusExpected, this`ticketExpected
      reads this`nextProtoSeen, this`channelIdValid
    {
      && !h.tls13 && keyExchange == h.keyExchange && certAuth == h.certAuth && ssl3 == h.ssl3
      && certificateStatusExpected == h.status && nextProtoSeen == h.nextProto && channelIdValid == h.channelId
      && ticketExpected == h.ticket
    }

    /** After it, the parameters are those it names, and the session is resumed if and only if
        one was offered and the server returned its id. */
    ghost predicate Settled()
      reads this`state, this`session, this`offer, this`serverHello, this`keyExchange, this`certAuth, this`ssl3
      reads this`certificateStatusExpected, this`ticketExpected, this`nextProtoSeen, this`channelIdValid
    {
      && crypto.parse(serverHello).Some?
      && var h := Parameters();
      && !h.tls13 && keyExchange == h.keyExchange && certAuth == h.certAuth && ssl3 == h.ssl3
      && certificateStatusExpected == h.status && nextProtoSeen == h.nextProto && channelIdValid == h.channelId
      && (TicketAhead(state, session) ==> ticketExpected == h.ticket)
      && session == Resumes(offer, h) && (offer.Some? ==> offer.value == sessionId != [])
    }

    ghost function Flow(): Kind
      reads this`session, this`serverHello
    {
      Kind(session, Parameters(), certificate)
    }

    /** The hellos come first, and after them, in a full handshake with a cipher that is
        authenticated by certificate, the certificate that has been or will be verified. */
    ghost predicate PeerKnown(s: HsState, entries: seq<Entry>)
      reads this`session, this`certAuth, this`clientHello, this`serverHello, this`peerCertificate
    {
      && |entries| >= 2 && entries[0] == Entry(HsTypes.Client, clientHello) && entries[1] == Entry(Server, serverHello)
      && clientHello.typ == CLIENT_HELLO && serverHello.typ == SERVER_HELLO
      && (s.ReadServerCertificate? ==> |entries| == 2)
      && (!session && !s.ReadServerCertificate? ==>
            if certAuth then
              && |entries| >= 3 && entries[2] == Entry(Server, peerCertificate) && peerCertificate.typ == CERTIFICATE
              && (!BeforeVerified(s) ==> crypto.trusts(peerCertificate))
            else
              |entries| >= 3 ==> entries[2].msg.typ != CERTIFICATE)
    }

    /** The messages exchanged are those that belong before the state. */
    ghost predicate Flowing()
      reads this`state, this`session, this`certAuth, this`clientHello, this`serverHello, this`peerCertificate, this`log
    {
      && (FullOnly(state) ==> !session)
      && FlowUpTo(Flow(), log, Bound(state, session)) && PeerKnown(state, log)
    }

    ghost predicate Noted()
      reads this`certRequest, this`session, this`serverHello, this`log
    {
      certRequest == Requested(Flow(), log)
    }

    /** The transcript and the keys are as they are to be in state |s|. */
    ghost predicate Fit(s: HsState)
      reads this`session, this`certAuth, this`certRequest, this`readKeys, this`writeKeys, transcript
    {
      && transcript.buffer.Some? == BufferKept(s, session, certAuth, certRequest, certificate)
      && transcript.hash.Some? == !BeforeHello(s)
      && (ReadKeysIn(s, session) ==> readKeys) && (WriteKeysIn(s, session) ==> writeKeys)
    }

    ghost predicate Inv()
      reads this`flight, this`sent, this`received, this`inbox, this`log, this`sentBefore, this`takenBefore
      reads this`state, this`session, this`initialComplete, this`offer, this`helloId, this`keyExchange, this`certAuth
      reads this`ssl3, this`certificateStatusExpected, this`ticketExpected, this`nextProtoSeen, this`channelIdValid
      reads this`clientHello, this`serverHello, this`peerCertificate, this`certRequest, this`readKeys, this`writeKeys, transcript
    {
      && !state.Tls13? && Recorded() && Fit(state)
      && if BeforeHello(state) then Greeted() else Settled() && Flowing() && Noted()
    }

    constructor (dtls: bool, falseStart: bool, certificate: bool, sessionId: seq<byte>, madeUpId: seq<byte>,
                 decide: (nat, Question) -> bool, author: Author, arrivals: nat -> seq<Message>, crypto: Crypto,
                 session: bool, initialComplete: bool, answers: nat)
      ensures Inv() && state == StartConnect && wait.Ok? && fresh(transcript)
      ensures readCount == 0 && received == [] && this.answers == answers && this.session == session
      ensures this.dtls == dtls && this.falseStart == falseStart && this.certificate == certificate
      ensures this.sessionId == sessionId && this.madeUpId == madeUpId && this.decide == decide && this.author == author
      ensures this.arrivals == arrivals && this.crypto == crypto && this.initialComplete == initialComplete
    {
      this.dtls, this.falseStart, this.certificate, this.decide := dtls, falseStart, certificate, decide;
      this.sessionId, this.madeUpId, helloId, offer := sessionId, madeUpId, [], None;
      this.author, this.arrivals, this.crypto := author, arrivals, crypto;
      transcript := new Transcript();
      asked, readCount, sent, state, wait, inbox, flight := 0, 0, 0, StartConnect, Ok, [], [];
      this.answers, received, sentBefore, takenBefore := answers, [], 0, 0;
      this.session, keyExchange, certAuth, ssl3 := session, RSA, false, false;
      earlyDataOffered, certificateStatusExpected, ticketExpected := false, false, false;
      nextProtoSeen, channelIdValid, certRequest := false, false, false;
      this.initialComplete, readKeys, writeKeys, log := initialComplete, false, false, [];
    }

    // ----- the pieces the handlers are made of -----

    method Ask(q: Question) returns (yes: bool)
      modifies this`asked
      ensures yes == decide(old(asked), q) && asked == old(asked) + 1
    {
      yes := decide(asked, q);
      asked := asked + 1;
    }

    /** Questions were asked meanwhile, and to the last one the answer was yes. */
    twostate predicate Answered(q: Question)
      reads this`asked
    {
      old(asked) < asked && decide(asked - 1, q)
    }

    lemma Logged(before: seq<Entry>, e: Entry)
      requires transcript.Holds(Bytes(before) + e.msg.raw)
      requires Authentic(crypto, before) && TrueOf(crypto, before, e)
      ensures transcript.Holds(Bytes(before + [e])) && Authentic(crypto, before + [e])
      ensures forall side :: By(side, before + [e]) == By(side, before) + if e.side == side then [e.msg] else []
    {
      BytesGrow(before, e);
      AuthenticGrows(crypto, before, e);
      forall side {
        ByGrows(side, before, e);
      }
    }

    /** ssl_add_message_cbb: a message of ours goes into the transcript and to the transport. */
    method AddMessage(typ: byte, body: seq<byte>) returns (ok: bool)
      requires Recorded()
      requires body == MessageOf(author, crypto, log, sent, typ).body
      modifies this`asked, this`sent, this`flight, this`log, transcript
      ensures old(flight) <= flight && asked == old(asked) + 1 && ok == !decide(old(asked), Fails)
      ensures ok ==>
                && Recorded() && |flight| == |old(flight)| + 1 && flight[|old(flight)|].typ == typ
                && log == old(log) + [Entry(HsTypes.Client, flight[|old(flight)|])]
      ensures transcript.buffer.Some? == old(transcript.buffer.Some?) && transcript.hash.Some? == old(transcript.hash.Some?)
    {
      hide Bytes, By, Authentic, Made, TrueOf;
      var fails := Ask(Fails);
      if fails {
        return false;
      }
      var msg := Message(typ, body, author.frame(sent, typ, body));
      sent := sent + 1;
      transcript.Update(msg.raw);
      ghost var e := Entry(HsTypes.Client, msg);
      Logged(log, e);
      MadeGrows(author, crypto, sentBefore, log, e);
      log, flight := log + [e], flight + [msg];
      ok := true;
    }

    /** Hashes the current message and moves on to the next, unless something is wrong with it. */
    method TakeMessage() returns (ok: bool)
      requires inbox != [] && Recorded()
      requires TrueOf(crypto, log, Entry(Server, inbox[0]))
      modifies this`asked, this`inbox, this`log, transcript
      ensures asked == old(asked) + 1 && ok == !decide(old(asked), Fails)
      ensures ok ==> Recorded() && log == old(log) + [Entry(Server, old(inbox)[0])] && inbox == old(inbox)[1..]
      ensures transcript.buffer.Some? == old(transcript.buffer.Some?) && transcript.hash.Some? == old(transcript.hash.Some?)
    {
      hide Bytes, By, Authentic, Made, MessageOf, TrueOf;
      transcript.Update(inbox[0].raw);
      var bad := Ask(Fails);
      if bad {
        return false;
      }
      ghost var e := Entry(Server, inbox[0]);
      Logged(log, e);
      MadeGrows(author, crypto, sentBefore, log, e);
      log, inbox := log + [e], inbox[1..];
      ok := true;
    }

    /** The application may go on before the handshake is over: to send early data while
        resuming, or for False Start in a full handshake with an ephemeral key exchange. */
    ghost predicate EarlyAllowed()
      reads this`state, this`session, this`keyExchange, this`earlyDataOffered
    {
      || (state.ReadServerHello? && earlyDataOffered)
      || (state.ReadSessionTicket? && !session && keyExchange.ECDHE? && falseStart && !dtls)
    }

    // ----- what a step may do -----

    /** The message that has come, or the certificate that was received, is not one the
        handshake can go on with: it is of the wrong type, or what is checked of it fails. */
    ghost predicate Refuses()
      reads this`state, this`inbox, this`log, this`session, this`initialComplete, this`helloId, this`earlyDataOffered
      reads this`certAuth, this`keyExchange, this`ticketExpected, this`clientHello, this`serverHello, this`peerCertificate
    {
      match state
      case ReadServerHello => inbox != [] && (inbox[0].typ != SERVER_HELLO || BadHello(inbox[0]))
      case ReadServerCertificate => certAuth && inbox != [] && inbox[0].typ != CERTIFICATE
      case VerifyServerCertificate => certAuth && !crypto.trusts(peerCertificate)
      case ReadServerKeyExchange =>
        inbox != [] &&
        (if inbox[0].typ != SERVER_KEY_EXCHANGE then keyExchange.ECDHE?
         else keyExchange.RSA? || (certAuth && !crypto.proves(clientHello, serverHello, peerCertificate, inbox[0])))
      case ReadCertificateRequest =>
        certAuth && inbox != [] && inbox[0].typ != SERVER_HELLO_DONE && inbox[0].typ != CERTIFICATE_REQUEST
      case ReadServerHelloDone => inbox != [] && (inbox[0].typ != SERVER_HELLO_DONE || inbox[0].body != [])
      case ReadSessionTicket => ticketExpected && inbox != [] && inbox[0].typ != NEW_SESSION_TICKET
      case ReadServerFinished => inbox != [] && (inbox[0].typ != FINISHED || inbox[0].body != crypto.mac(Bytes(log), Server))
      case _ => false
    }

    /** The ServerHello cannot be read, answers early data with an older version, or returns
        an id without resuming the session: one that we made up, or of another session. */
    predicate BadHello(msg: Message)
      reads this`session, this`initialComplete, this`helloId, this`earlyDataOffered
    {
      match crypto.parse(msg)
      case None => true
      case Some(h) => !h.tls13 && (earlyDataOffered || (!Resumes(Offered(), h) && helloId != [] && h.sessionId == helloId))
    }

    /** The state is one that needs a message to go on. */
    ghost predicate Wants()
      reads this`state, this`certAuth, this`certificateStatusExpected, this`ticketExpected
    {
      match state
      case ReadHelloVerifyRequest | ReadServerHello | ReadServerKeyExchange | ReadServerHelloDone | ReadServerFinished => true
      case ReadServerCertificate | ReadCertificateRequest => certAuth
      case ReadCertificateStatus => certificateStatusExpected
      case ReadSessionTicket => ticketExpected
      case _ => false
    }

    twostate predicate Stays()
      reads this
    {
      && state == old(state) && log == old(log) && session == old(session) && inbox == old(inbox)
      && takenBefore == old(takenBefore) && offer == old(offer)
    }

    /** Nothing was exchanged.  An optional message is passed over only if another has come. */
    twostate predicate Passed()
      reads this
    {
      && log == old(log) && inbox == old(inbox) && takenBefore == old(takenBefore) && offer == old(offer)
      && match old(state)
         case StartConnect | ReadServerHello | ReadServerHelloDone | ReadServerFinished => false
         case SendClientKeyExchange | SendClientFinished => false
         case EnterEarlyData => state.ReadHelloVerifyRequest? <==> dtls
         case ReadHelloVerifyRequest => inbox != [] && inbox[0].typ != HELLO_VERIFY_REQUEST
         case ReadCertificateStatus => certificateStatusExpected ==> inbox != [] && inbox[0].typ != CERTIFICATE_STATUS
         case ReadServerKeyExchange => !keyExchange.ECDHE? && inbox != [] && inbox[0].typ != SERVER_KEY_EXCHANGE
         case ReadCertificateRequest => certAuth ==> inbox != [] && inbox[0].typ != CERTIFICATE_REQUEST
         case _ => true
    }

    /** The message at the head of the inbox was consumed. */
    twostate predicate Took()
      reads this
    {
      && old(inbox) != [] && inbox == old(inbox)[1..] && log == old(log) + [Entry(Server, old(inbox)[0])]
      && takenBefore == old(takenBefore) && offer == old(offer) && Consumed(old(state)) == Some(old(inbox)[0].typ)
    }

    /** Messages of ours were sent. */
    twostate predicate Sent()
      reads this
    {
      && inbox == old(inbox) && takenBefore == old(takenBefore) && old(log) <= log && |old(log)| < |log|
      && (forall i | |old(log)| <= i < |log| ::
            log[i].side == HsTypes.Client && Bound(old(state), session) <= Place(session, log[i]))
      && Sends(old(state))
      && if old(state).StartConnect? then
           && (session == old(session) || decide(old(asked), Unusable))
           && (earlyDataOffered ==> decide(old(asked) + 1, Early))
         else offer == old(offer)
    }

    predicate Sends(s: HsState) {
      s.StartConnect? || s.SendClientCertificate? || s.SendClientKeyExchange? || s.SendClientCertificateVerify?
      || s.SendClientFinished?
    }

    /** A HelloVerifyRequest was consumed, and the log starts over. */
    twostate predicate Restarted()
      reads this
    {
      && old(state).ReadHelloVerifyRequest? && old(inbox) != [] && old(inbox)[0].typ == HELLO_VERIFY_REQUEST
      && inbox == old(inbox)[1..] && takenBefore == old(takenBefore) + 1 && |log| == 1 && offer == old(offer)
    }

    twostate predicate Advances()
      reads this
    {
      Passed() || Took() || Sent() || Restarted()
    }

    /** How a handler may leave things.  It fails only if an operation fails or the message it
        is to go on with is refused; a step without waiting follows an edge, other progress
        brings the end nearer, and plain waiting changes nothing. */
    twostate predicate Moves(ret: Wait)
      reads this
    {
      && answers == old(answers) && received == old(received) && readCount == old(readCount) && old(flight) <= flight
      && old(asked) <= asked && (state.Done? || initialComplete == old(initialComplete))
      && (old(state).StartConnect? || earlyDataOffered == old(earlyDataOffered))
      && (ret.Error? || session == old(session) || BeforeHello(old(state)))
      && match ret
      case Error => old(Refuses()) || Answered(Fails)
      case Ok => Edge(old(state), state, session) && Advances()
      case Flush | WaitChangeCipherSpec => WaitEdge(old(state), state, session) && Advances()
      case EarlyReturn => WaitEdge(old(state), state, session) && EarlyAllowed() && Advances()
      case Tls13Takeover =>
        && old(state).ReadServerHello? && old(inbox) != [] && crypto.parse(old(inbox)[0]).Some?
        && crypto.parse(old(inbox)[0]).value.tls13
      case WaitMessage | WaitServerHello => Stays() && inbox == [] && Wants()
      case X509Lookup => Stays() && state.SendClientCertificate? && Answered(Later)
      case ChannelIdLookup => Stays() && state.SendClientFinished? && Answered(Later)
      case PrivateKeyOperation => Stays() && state.SendClientCertificateVerify? && Answered(Later)
      case CertificateVerify => Stays() && state.VerifyServerCertificate? && Answered(Later)
    }

    /** The handshake buffer is released; the running hash goes on. */
    method ReleaseBuffer()
      requires Recorded() && transcript.hash.Some?
      modifies transcript`buffer
      ensures Recorded() && transcript.buffer.None?
    {
      transcript.FreeBuffer();
    }

    /** SSLTranscript::GetFinishedMAC, over the running hash. */
    method FinishedCode(side: Side) returns (code: seq<byte>)
      requires Recorded() && transcript.hash.Some?
      ensures code == crypto.mac(Bytes(log), side)
    {
      code := crypto.mac(transcript.hash.value, side);
    }

    /** The handshake is past the ServerHello. */
    ghost predicate Within()
      reads this`state, this`session, this`offer, this`serverHello, this`keyExchange, this`certAuth, this`ssl3
      reads this`certificateStatusExpected, this`ticketExpected, this`nextProtoSeen, this`channelIdValid
      reads this`flight, this`sent, this`received, this`inbox, this`log, this`sentBefore, this`takenBefore, transcript
      reads this`clientHello, this`peerCertificate
    {
      !BeforeHello(state) && !state.Tls13? && Recorded() && Settled() && Flowing()
    }

    ghost predicate Onto(next: HsState)
      reads this`session
    {
      !BeforeHello(next) && !next.Tls13? && !next.ReadServerCertificate? && (FullOnly(next) ==> !session)
    }

    /** hs->state = next, without a message. */
    method Goto(next: HsState)
      requires Within() && Noted() && Onto(next) && Fit(next)
      requires Stepping(Flow(), certRequest, state, next, NONE)
      requires state.ReadServerCertificate? ==> !certAuth
      requires BeforeVerified(state) && !BeforeVerified(next) && certAuth ==> crypto.trusts(peerCertificate)
      modifies this`state
      ensures Inv() && state == next
    {
      hide Recorded, Ordered, Places, Must, Requested;
      FlowSkips(Flow(), log, Bound(state, session), Bound(next, session));
      state := next;
    }

    /** hs->state = next, after the message |e|. */
    method Enter(next: HsState, ghost before: seq<Entry>, ghost e: Entry)
      requires !BeforeHello(state) && !state.Tls13? && Recorded() && Settled()
      requires FlowUpTo(Flow(), before, Bound(state, session)) && PeerKnown(state, before) && log == before + [e]
      requires Onto(next) && Fit(next) && Place(session, e) >= 0
      requires Stepping(Flow(), Requested(Flow(), before), state, next, Place(session, e))
      requires certRequest == (Requested(Flow(), before) || (!session && Place(session, e) == 5))
      requires if state.ReadServerCertificate? then
                 certAuth && e == Entry(Server, peerCertificate) && e.msg.typ == CERTIFICATE && BeforeVerified(next)
               else
                 (BeforeVerified(state) ==> BeforeVerified(next)) && (e.msg.typ == CERTIFICATE ==> certAuth)
      modifies this`state
      ensures Inv() && state == next
    {
      hide Recorded, Fit, Ordered, Places, Must, Requested;
      FlowAdds(Flow(), before, Bound(state, session), e, Bound(next, session));
      state := next;
    }

    /** Every message that is consumed has the first place that may still be filled. */
    lemma ConsumedPlace(s: HsState, msg: Message)
      requires !BeforeHello(s) && (FullOnly(s) ==> !session) && Consumed(s) == Some(msg.typ)
      ensures Place(session, Entry(Server, msg)) == Bound(s, session)
    {
    }

    /** The message a state is there for is consumed, and the next state entered. */
    method Consume(next: HsState) returns (ret: Wait)
      requires !BeforeHello(state) && !state.Tls13? && (FullOnly(state) ==> !session) && Recorded() && Settled()
      requires FlowUpTo(Flow(), log, Bound(state, session)) && PeerKnown(state, log)
      requires inbox != [] && Consumed(state) == Some(inbox[0].typ) && TrueOf(crypto, log, Entry(Server, inbox[0]))
      requires Onto(next) && Fit(next) && (BeforeVerified(state) ==> BeforeVerified(next))
      requires certRequest == (Requested(Flow(), log) || state.ReadCertificateRequest?)
      requires Stepping(Flow(), Requested(Flow(), log), state, next, Bound(state, session))
      requires state.ReadServerCertificate? ==> certAuth && peerCertificate == inbox[0]
      modifies this`asked, this`inbox, this`log, this`state, transcript
      ensures asked == old(asked) + 1 && (ret.Ok? || (ret.Error? && Answered(Fails)))
      ensures ret.Ok? ==> Inv() && state == next && Took()
    {
      hide Inv, Recorded, Settled, FlowUpTo, PeerKnown, Flow, Requested, Place, TrueOf, Stepping, Bytes;
      ghost var before := log;
      ConsumedPlace(state, inbox[0]);
      var ok := TakeMessage();
      if !ok {
        return Error;
      }
      Enter(next, before, log[|before|]);
      ret := Ok;
    }

    /** No certificate has been asked for where none can have been. */
    lemma NotRequestedYet()
      requires Flowing() && Noted() && Bound(state, session) <= 5
      ensures !certRequest
    {
      if certRequest {
        PlacesUpToTop(session, log, 5);
      }
    }

    /** A certificate is asked for only if there are certificates at all. */
    lemma RequestNeedsCertificates()
      requires Settled() && Flowing() && Noted()
      ensures certRequest ==> certAuth && !session
    {
      if certRequest {
        assert Must(Flow(), true, 5) || May(Flow(), 5);
      }
    }

    /** The messages that are up to the server. */
    lemma Optional()
      requires Settled()
      ensures forall p | May(Flow(), p) :: !session && 3 <= p <= 5
      ensures May(Flow(), 3) ==> certificateStatusExpected
      ensures May(Flow(), 4) ==> keyExchange.PSK?
      ensures May(Flow(), 5) ==> certAuth
    {
    }

    /** The steps that read the server's messages. */
    lemma WaysToRead()
      requires Settled() && !session
      ensures if certAuth then Stepping(Flow(), certRequest, ReadServerCertificate, ReadCertificateStatus, 2)
              else Stepping(Flow(), certRequest, ReadServerCertificate, ReadCertificateStatus, NONE)
      ensures certificateStatusExpected ==> Stepping(Flow(), certRequest, ReadCertificateStatus, VerifyServerCertificate, 3)
      ensures Stepping(Flow(), certRequest, ReadCertificateStatus, VerifyServerCertificate, NONE)
      ensures Stepping(Flow(), certRequest, VerifyServerCertificate, ReadServerKeyExchange, NONE)
      ensures !keyExchange.RSA? ==> Stepping(Flow(), certRequest, ReadServerKeyExchange, ReadCertificateRequest, 4)
      ensures !keyExchange.ECDHE? ==> Stepping(Flow(), certRequest, ReadServerKeyExchange, ReadCertificateRequest, NONE)
      ensures certAuth ==> Stepping(Flow(), certRequest, ReadCertificateRequest, ReadServerHelloDone, 5)
      ensures Stepping(Flow(), certRequest, ReadCertificateRequest, ReadServerHelloDone, NONE)
      ensures Stepping(Flow(), certRequest, ReadServerHelloDone, SendClientCertificate, 6)
    {
      hide Stepping;
      FullSteps(Flow(), certRequest);
    }

    /** Those that send ours. */
    lemma WaysToSend()
      requires Settled() && !session
      ensures if certRequest && (certificate || !ssl3) then
                Stepping(Flow(), certRequest, SendClientCertificate, SendClientKeyExchange, 7)
              else Stepping(Flow(), certRequest, SendClientCertificate, SendClientKeyExchange, NONE)
      ensures Stepping(Flow(), certRequest, SendClientKeyExchange, SendClientCertificateVerify, 8)
      ensures if certRequest && certificate then Stepping(Flow(), certRequest, SendClientCertificateVerify, SendClientFinished, 9)
              else Stepping(Flow(), certRequest, SendClientCertificateVerify, SendClientFinished, NONE)
    {
      hide Stepping;
      SendSteps(Flow(), certRequest);
    }

    /** Those of both kinds of handshake. */
    lemma WaysToEnd()
      requires Settled()
      ensures TicketAhead(state, session) ==>
                if ticketExpected then
                  Stepping(Flow(), certRequest, ReadSessionTicket, ProcessChangeCipherSpec, if session then 2 else 13)
                else Stepping(Flow(), certRequest, ReadSessionTicket, ProcessChangeCipherSpec, NONE)
      ensures Stepping(Flow(), certRequest, ProcessChangeCipherSpec, ReadServerFinished, NONE)
      ensures session ==> Stepping(Flow(), certRequest, ReadServerFinished, SendClientFinished, 3)
      ensures !session ==> Stepping(Flow(), certRequest, ReadServerFinished, FinishClientHandshake, 14)
      ensures session ==> Stepping(Flow(), certRequest, FinishFlight, FinishClientHandshake, NONE)
      ensures !session ==> Stepping(Flow(), certRequest, FinishFlight, ReadSessionTicket, NONE)
      ensures Stepping(Flow(), certRequest, FinishClientHandshake, Done, NONE)
    {
      hide Stepping;
      LastSteps(Flow(), certRequest);
    }

    // ----- the handlers -----

    /** ssl_write_client_hello. */
    method WriteClientHello() returns (ok: bool)
      requires Recorded() && log == []
      modifies this`asked, this`sent, this`flight, this`log, this`clientHello, transcript
      ensures old(flight) <= flight && asked == old(asked) + 1 && ok == !decide(old(asked), Fails)
      ensures ok ==> log == [Entry(HsTypes.Client, clientHello)] && clientHello.typ == CLIENT_HELLO && Recorded()
      ensures transcript.buffer.Some? == old(transcript.buffer.Some?) && transcript.hash.Some? == old(transcript.hash.Some?)
    {
      hide Recorded, Bytes;
      ok := AddMessage(CLIENT_HELLO, author.body(sent, CLIENT_HELLO));
      if ok {
        clientHello := flight[|flight| - 1];
      }
    }

    /** Whether to offer the session, and early data with it, and which session id to send. */
    method OfferSession() returns (ok: bool)
      modifies this`asked, this`session, this`earlyDataOffered, this`helloId, this`offer
      ensures old(asked) <= asked && (ok || Answered(Fails))
      ensures session == (old(session) && !decide(old(asked), Unusable))
      ensures earlyDataOffered ==> decide(old(asked) + 1, Early)
      ensures offer == Offered() && helloId == if offer.Some? then offer.value else madeUpId
    {
      var unusable := Ask(Unusable);
      session := session && !unusable;
      var early := Ask(Early);
      earlyDataOffered := early && session && !dtls;
      var fails := Ask(Fails);
      offer := Offered();
      helloId := if session && !initialComplete && sessionId != [] then sessionId else madeUpId;
      ok := !fails;
    }

    /** The session is offered in a ClientHello. */
    method Greet() returns (ok: bool)
      requires Inv() && state.StartConnect?
      modifies this`asked, this`session, this`earlyDataOffered, this`helloId, this`offer
      modifies this`sent, this`flight, this`log, this`clientHello, this`state, transcript
      ensures old(flight) <= flight && old(asked) <= asked && (ok || Answered(Fails))
      ensures ok ==> Inv() && Sent() && state == EnterEarlyData
    {
      hide Recorded, Settled, Flowing, Noted;
      ok := OfferSession();
      if !ok {
        return;
      }
      ok := WriteClientHello();
      if ok {
        state := EnterEarlyData;
      }
    }

    /** do_start_connect. */
    method DoStartConnect() returns (ret: Wait)
      requires Inv() && state.StartConnect?
      modifies this, transcript
      ensures ret.Error? || (Inv() && ret.Flush?)
      ensures Moves(ret)
    {
      hide Inv, Refuses, Passed, Took, Sent, Restarted;
      var ok := Greet();
      ret := if ok then Flush else Error;
    }

    /** do_enter_early_data. */
    method DoEnterEarlyData() returns (ret: Wait)
      requires Inv() && state.EnterEarlyData?
      modifies this`state, this`asked
      ensures ret.Error? || Inv()
      ensures Moves(ret)
      ensures ret.EarlyReturn? <==> earlyDataOffered && !dtls && state.ReadServerHello?
    {
      hide Recorded, Refuses, Sent, Took, Restarted, Resumes, Must, May;
      if dtls {
        state := ReadHelloVerifyRequest;
        return Ok;
      }
      if !earlyDataOffered {
        state := ReadServerHello;
        return Ok;
      }
      var fails := Ask(Fails);
      if fails {
        return Error;
      }
      state := ReadServerHello;
      ret := EarlyReturn;
    }

    lemma EmptyLog()
      ensures Bytes([]) == [] && Authentic(crypto, []) && forall side :: By(side, []) == []
    {
    }

    /** The HelloVerifyRequest is consumed and the transcript starts over. */
    method StartOver()
      requires Recorded() && log == [Entry(HsTypes.Client, clientHello)] && clientHello.typ == CLIENT_HELLO && dtls
      requires inbox != [] && inbox[0].typ == HELLO_VERIFY_REQUEST && takenBefore == 0
      modifies this`inbox, this`log, this`sentBefore, this`takenBefore, transcript
      ensures Recorded() && log == [] && inbox == old(inbox)[1..] && takenBefore == 1
      ensures transcript.buffer.Some? && transcript.hash.None?
    {
      ByGrows(Server, [], log[0]);
      ByGrows(HsTypes.Client, [], log[0]);
      assert [] + [log[0]] == log;
      inbox := inbox[1..];
      transcript.Init();
      log, sentBefore, takenBefore := [], |flight|, takenBefore + 1;
      EmptyLog();
    }

    /** The client greets again, if there is nothing wrong with the request. */
    method SecondHello() returns (ok: bool)
      requires Recorded() && log == [Entry(HsTypes.Client, clientHello)] && clientHello.typ == CLIENT_HELLO && dtls
      requires inbox != [] && inbox[0].typ == HELLO_VERIFY_REQUEST && takenBefore == 0
      modifies this`asked, this`inbox, this`sent, this`flight, this`log, this`clientHello
      modifies this`sentBefore, this`takenBefore, transcript
      ensures old(flight) <= flight && old(asked) <= asked && (ok || Answered(Fails))
      ensures ok ==> log == [Entry(HsTypes.Client, clientHello)] && clientHello.typ == CLIENT_HELLO
      ensures ok ==> Recorded() && transcript.buffer.Some? && transcript.hash.None?
      ensures ok ==> inbox == old(inbox)[1..] && takenBefore == 1
    {
      hide Recorded;
      var fails := Ask(Fails);
      if fails {
        return false;
      }
      StartOver();
      ok := WriteClientHello();
    }

    /** do_read_hello_verify_request: the transcript starts over with a new ClientHello. */
    method DoReadHelloVerifyRequest() returns (ret: Wait)
      requires Inv() && state.ReadHelloVerifyRequest?
      modifies this, transcript
      ensures ret.Error? || Inv()
      ensures Moves(ret)
      ensures ret.Flush? ==> old(inbox) != [] && old(inbox)[0].typ == HELLO_VERIFY_REQUEST && |log| == 1
      ensures !ret.Flush? && !ret.Error? ==> log == old(log)
    {
      hide Recorded, Settled, Flowing, Noted, Refuses, Sent, Took, Resumes, Must, May;
      if inbox == [] {
        return WaitMessage;
      }
      if inbox[0].typ != HELLO_VERIFY_REQUEST {
        state := ReadServerHello;
        return Ok;
      }
      var ok := SecondHello();
      if !ok {
        return Error;
      }
      state := ReadServerHello;
      ret := Flush;
    }

    /** The session is resumed if it is its id that was sent and that the server returns.  An
        id that was made up must not be returned. */
    method SettleSession(hello: Hello) returns (ok: bool)
      modifies this`session
      ensures ok == (old(Resumes(Offered(), hello)) || helloId == [] || hello.sessionId != helloId)
      ensures ok ==> session == old(Resumes(Offered(), hello))
    {
      if initialComplete || !session || sessionId == [] || hello.sessionId != sessionId {
        if helloId != [] && hello.sessionId == helloId {
          return false;
        }
        session := false;
      }
      ok := true;
    }

    method Adopt(hello: Hello)
      requires !hello.tls13
      modifies this`keyExchange, this`certAuth, this`ssl3
      modifies this`certificateStatusExpected, this`ticketExpected, this`nextProtoSeen, this`channelIdValid
      ensures Agreed(hello)
    {
      keyExchange, certAuth, ssl3 := hello.keyExchange, hello.certAuth, hello.ssl3;
      certificateStatusExpected, ticketExpected := hello.status, hello.ticket;
      nextProtoSeen, channelIdValid := hello.nextProto, hello.channelId;
    }

    /** The part of do_read_server_hello that settles the version, whether the session is
        resumed, and the parameters. */
    method SettleParameters() returns (ret: Wait)
      requires inbox != []
      modifies this`asked, this`session, this`keyExchange, this`certAuth, this`ssl3
      modifies this`certificateStatusExpected, this`ticketExpected, this`nextProtoSeen, this`channelIdValid
      ensures old(asked) <= asked && (ret.Ok? || ret.Tls13Takeover? || (ret.Error? && (old(BadHello(inbox[0])) || Answered(Fails))))
      ensures ret.Tls13Takeover? ==> crypto.parse(inbox[0]).Some? && crypto.parse(inbox[0]).value.tls13
      ensures ret.Ok? ==>
                && crypto.parse(inbox[0]).Some?
                && Agreed(crypto.parse(inbox[0]).value) && session == Resumes(old(Offered()), crypto.parse(inbox[0]).value)
    {
      hide Resumes, Offered, Agreed;
      var parsed := crypto.parse(inbox[0]);
      if parsed.None? {
        return Error;
      }
      var hello := parsed.value;
      if hello.tls13 {
        return Tls13Takeover;
      }
      if earlyDataOffered {
        return Error;
      }
      var ok := SettleSession(hello);
      if !ok {
        return Error;
      }
      Adopt(hello);
      var fails := Ask(Fails);
      ret := if fails then Error else Ok;
    }

    /** The running hash takes over what the buffer holds. */
    method StartHash()
      requires Recorded() && transcript.buffer.Some?
      modifies transcript`hash
      ensures Recorded() && transcript.buffer.Some? && transcript.hash.Some?
    {
      transcript.InitHash();
    }

    /** Its second part: the handshake hash is set up with what the buffer holds and the
        ServerHello, and the buffer is released unless a certificate may be asked for. */
    method HashServerHello() returns (ok: bool)
      requires inbox != [] && inbox[0].typ == SERVER_HELLO
      requires transcript.buffer.Some? && Recorded()
      modifies this`asked, this`inbox, this`log, this`serverHello, transcript
      ensures asked == old(asked) + 1 && ok == !decide(old(asked), Fails)
      ensures ok ==>
                && log == old(log) + [Entry(Server, serverHello)] && serverHello == old(inbox)[0] && inbox == old(inbox)[1..]
                && Recorded() && transcript.hash.Some? && transcript.buffer.Some? == (!session && certAuth)
    {
      hide Recorded, Bytes;
      StartHash();
      serverHello := inbox[0];
      ok := TakeMessage();
      if ok && (session || !certAuth) {
        ReleaseBuffer();
      }
    }

    /** What comes after the ServerHello. */
    method EnterServerFlight()
      requires Recorded() && !certRequest && (offer.Some? ==> offer.value == sessionId != [])
      requires crypto.parse(serverHello).Some? && Agreed(Parameters()) && session == Resumes(offer, Parameters())
      requires log == [Entry(HsTypes.Client, clientHello), Entry(Server, serverHello)]
      requires clientHello.typ == CLIENT_HELLO && serverHello.typ == SERVER_HELLO && state.ReadServerHello?
      requires transcript.hash.Some? && transcript.buffer.Some? == (!session && certAuth)
      modifies this`state
      ensures Inv() && state == if session then ReadSessionTicket else ReadServerCertificate
    {
      hide Recorded, FlowUpTo, Requested, Places, Must;
      FlowStarts(Flow(), log[0], log[1]);
      state := if session then ReadSessionTicket else ReadServerCertificate;
    }

    /** The ServerHello is read and consumed. */
    method TakeServerHello() returns (ret: Wait)
      requires Inv() && state.ReadServerHello? && inbox != [] && inbox[0].typ == SERVER_HELLO
      modifies this`asked, this`session, this`keyExchange, this`certAuth, this`ssl3
      modifies this`certificateStatusExpected, this`ticketExpected, this`nextProtoSeen, this`channelIdValid
      modifies this`inbox, this`log, this`serverHello, this`state, transcript
      ensures old(asked) <= asked
      ensures ret.Ok? || ret.Tls13Takeover? || (ret.Error? && (old(BadHello(inbox[0])) || Answered(Fails)))
      ensures ret.Tls13Takeover? ==> crypto.parse(old(inbox)[0]).Some? && crypto.parse(old(inbox)[0]).value.tls13
      ensures ret.Ok? ==>
                && Inv() && Took() && serverHello == old(inbox)[0] && crypto.parse(serverHello).Some?
                && session == Resumes(old(Offered()), crypto.parse(serverHello).value)
                && state == if session then ReadSessionTicket else ReadServerCertificate
    {
      hide Recorded, Resumes, BadHello, Bytes, FlowUpTo, Requested, Settled, Flowing, Noted, Agreed;
      ret := SettleParameters();
      if !ret.Ok? {
        return;
      }
      var ok := HashServerHello();
      if !ok {
        return Error;
      }
      EnterServerFlight();
    }

    /** do_read_server_hello. */
    method DoReadServerHello() returns (ret: Wait)
      requires Inv() && state.ReadServerHello?
      modifies this, transcript
      ensures ret.Error? || ret.Tls13Takeover? || Inv()
      ensures Moves(ret)
      ensures ret.Ok? ==>
                && old(inbox) != [] && crypto.parse(old(inbox)[0]).Some?
                && var h := crypto.parse(old(inbox)[0]).value;
                && (session <==> old(session && !initialComplete) && sessionId != [] && h.sessionId == sessionId)
                && state == if session then ReadSessionTicket else ReadServerCertificate
    {
      hide Inv, BadHello, Took, Sent, Passed, Restarted;
      if inbox == [] {
        return WaitServerHello;
      }
      if inbox[0].typ != SERVER_HELLO {
        return Error;
      }
      ret := TakeServerHello();
      if ret.Tls13Takeover? {
        state := Tls13;
      }
    }

    /** do_read_server_certificate. */
    method DoReadServerCertificate() returns (ret: Wait)
      requires Inv() && state.ReadServerCertificate?
      modifies this, transcript
      ensures ret.Error? || Inv()
      ensures Moves(ret)
    {
      hide Recorded, Sent, Restarted, Requested, FlowUpTo, Stepping, Settled, Flow;
      WaysToRead();
      if !certAuth {
        Goto(ReadCertificateStatus);
        return Ok;
      }
      if inbox == [] {
        return WaitMessage;
      }
      if inbox[0].typ != CERTIFICATE {
        return Error;
      }
      peerCertificate := inbox[0];
      ret := Consume(ReadCertificateStatus);
    }

    /** do_read_certificate_status: the server may have changed its mind about sending it. */
    method DoReadCertificateStatus() returns (ret: Wait)
      requires Inv() && state.ReadCertificateStatus?
      modifies this, transcript
      ensures ret.Error? || Inv()
      ensures Moves(ret)
    {
      hide Recorded, PeerKnown, Sent, Restarted, Requested, FlowUpTo, Stepping, Settled, Flow;
      WaysToRead();
      if !certificateStatusExpected {
        Goto(VerifyServerCertificate);
        return Ok;
      }
      if inbox == [] {
        return WaitMessage;
      }
      if inbox[0].typ != CERTIFICATE_STATUS {
        Goto(VerifyServerCertificate);
        return Ok;
      }
      ret := Consume(VerifyServerCertificate);
    }

    /** do_verify_server_certificate. */
    method DoVerifyServerCertificate() returns (ret: Wait)
      requires Inv() && state.VerifyServerCertificate?
      modifies this`state, this`asked
      ensures ret.Error? || Inv()
      ensures Moves(ret)
    {
      hide Recorded, PeerKnown, Sent, Restarted, Took, Requested, FlowUpTo, Stepping, Settled, Flow;
      WaysToRead();
      if !certAuth {
        Goto(ReadServerKeyExchange);
        return Ok;
      }
      var later := Ask(Later);
      if later {
        return HsTypes.CertificateVerify;
      }
      if !crypto.trusts(peerCertificate) {
        return Error;
      }
      Goto(ReadServerKeyExchange);
      ret := Ok;
    }

    /** The key exchange message is signed, if there is a certificate to sign it with. */
    lemma SignedKey()
      requires Flowing() && state.ReadServerKeyExchange? && inbox != [] && inbox[0].typ == SERVER_KEY_EXCHANGE
      requires certAuth ==> crypto.proves(clientHello, serverHello, peerCertificate, inbox[0])
      ensures TrueOf(crypto, log, Entry(Server, inbox[0]))
    {
    }

    /** do_read_server_key_exchange. */
    method DoReadServerKeyExchange() returns (ret: Wait)
      requires Inv() && state.ReadServerKeyExchange?
      modifies this, transcript
      ensures ret.Error? || Inv()
      ensures Moves(ret)
      ensures ret.Ok? ==>
                && old(inbox) != []
                && if old(inbox)[0].typ == SERVER_KEY_EXCHANGE then !keyExchange.RSA? && |log| == |old(log)| + 1
                   else !keyExchange.ECDHE? && log == old(log)
    {
      hide Recorded, PeerKnown, TrueOf, Sent, Restarted, Requested, FlowUpTo, Stepping, Settled, Flow;
      WaysToRead();
      if inbox == [] {
        return WaitMessage;
      }
      if inbox[0].typ != SERVER_KEY_EXCHANGE {
        if keyExchange.ECDHE? {
          return Error;
        }
        Goto(ReadCertificateRequest);
        return Ok;
      }
      if keyExchange.RSA? {
        return Error;
      }
      if certAuth && !crypto.proves(clientHello, serverHello, peerCertificate, inbox[0]) {
        return Error;
      }
      SignedKey();
      ret := Consume(ReadCertificateRequest);
    }

    /** do_read_certificate_request. */
    method DoReadCertificateRequest() returns (ret: Wait)
      requires Inv() && state.ReadCertificateRequest?
      modifies this, transcript
      ensures ret.Error? || Inv()
      ensures Moves(ret)
    {
      hide Recorded, PeerKnown, Sent, Restarted, Requested, FlowUpTo, Stepping, Settled, Flow;
      NotRequestedYet();
      WaysToRead();
      if !certAuth {
        Goto(ReadServerHelloDone);
        return Ok;
      }
      if inbox == [] {
        return WaitMessage;
      }
      if inbox[0].typ == SERVER_HELLO_DONE {
        ReleaseBuffer();
        Goto(ReadServerHelloDone);
        return Ok;
      }
      if inbox[0].typ != CERTIFICATE_REQUEST {
        return Error;
      }
      certRequest := true;
      ret := Consume(ReadServerHelloDone);
    }

    /** do_read_server_hello_done. */
    method DoReadServerHelloDone() returns (ret: Wait)
      requires Inv() && state.ReadServerHelloDone?
      modifies this, transcript
      ensures ret.Error? || Inv()
      ensures Moves(ret)
    {
      hide Recorded, PeerKnown, Sent, Passed, Restarted, Requested, FlowUpTo, Stepping, Settled, Flow;
      WaysToRead();
      if inbox == [] {
        return WaitMessage;
      }
      if inbox[0].typ != SERVER_HELLO_DONE || inbox[0].body != [] {
        return Error;
      }
      ret := Consume(SendClientCertificate);
    }

    /** The application's callbacks choose a certificate, or none, or need more time.  If
        there is none, nothing will be signed and the handshake buffer is released; an empty
        message is sent, unless in SSL 3.0, where an alert replaces it. */
    method ProvideCertificate() returns (ret: Wait)
      requires Recorded() && transcript.hash.Some? && transcript.buffer.Some?
      modifies this`asked, this`sent, this`flight, this`log, transcript
      ensures old(flight) <= flight && old(asked) <= asked
      ensures transcript.hash.Some? && (ret.Ok? || (ret.Error? && Answered(Fails)) || (ret.X509Lookup? && Answered(Later)))
      ensures ret.X509Lookup? ==> Recorded() && log == old(log) && transcript.buffer.Some?
      ensures ret.Ok? ==>
                && Recorded() && transcript.buffer.Some? == certificate
                && if certificate || !ssl3 then
                     && |flight| == |old(flight)| + 1 && flight[|old(flight)|].typ == CERTIFICATE
                     && log == old(log) + [Entry(HsTypes.Client, flight[|old(flight)|])]
                   else log == old(log)
    {
      hide Recorded, Bytes;
      var fails := Ask(Fails);
      if fails {
        return Error;
      }
      var later := Ask(Later);
      if later {
        return X509Lookup;
      }
      if !certificate {
        ReleaseBuffer();
      }
      ret := Ok;
      if certificate || !ssl3 {
        var ok := AddMessage(CERTIFICATE, author.body(sent, CERTIFICATE));
        ret := if ok then Ok else Error;
      }
    }

    /** do_send_client_certificate: a certificate goes out if and only if one was asked for
        and there is one, or an empty one can be sent. */
    method DoSendClientCertificate() returns (ret: Wait)
      requires Inv() && state.SendClientCertificate?
      modifies this, transcript
      ensures ret.Error? || Inv()
      ensures Moves(ret)
      ensures ret.Ok? ==> |log| == |old(log)| + if certRequest && (certificate || !ssl3) then 1 else 0
    {
      hide Recorded, PeerKnown, Took, Restarted, Requested, FlowUpTo, Stepping, Settled, Flow;
      WaysToSend();
      RequestNeedsCertificates();
      if !certRequest {
        Goto(SendClientKeyExchange);
        return Ok;
      }
      ghost var before := log;
      ret := ProvideCertificate();
      if !ret.Ok? {
        return;
      }
      if certificate || !ssl3 {
        Enter(SendClientKeyExchange, before, log[|before|]);
      } else {
        Goto(SendClientKeyExchange);
      }
    }

    /** do_send_client_key_exchange. */
    method DoSendClientKeyExchange() returns (ret: Wait)
      requires Inv() && state.SendClientKeyExchange?
      modifies this, transcript
      ensures ret.Error? || Inv()
      ensures Moves(ret)
    {
      hide Recorded, PeerKnown, Passed, Took, Restarted, Requested, FlowUpTo, Stepping, Settled, Flow, Bytes;
      WaysToSend();
      RequestNeedsCertificates();
      ghost var before := log;
      var ok := AddMessage(CLIENT_KEY_EXCHANGE, author.body(sent, CLIENT_KEY_EXCHANGE));
      if !ok {
        return Error;
      }
      Enter(SendClientCertificateVerify, before, log[|before|]);
      ret := Ok;
    }

    /** The private key operation, over the handshake buffer, may need more time.  When the
        signature is there it is sent, and the buffer is released. */
    method SignTranscript() returns (ret: Wait)
      requires Recorded() && transcript.buffer.Some? && transcript.hash.Some?
      modifies this`asked, this`sent, this`flight, this`log, transcript
      ensures old(flight) <= flight && old(asked) <= asked && transcript.hash.Some?
      ensures match ret
              case Ok =>
                && |flight| == |old(flight)| + 1 && flight[|old(flight)|].typ == CERTIFICATE_VERIFY
                && log == old(log) + [Entry(HsTypes.Client, flight[|old(flight)|])]
                && Recorded() && transcript.buffer.None?
              case PrivateKeyOperation => log == old(log) && Recorded() && transcript.buffer.Some? && Answered(Later)
              case _ => ret.Error? && Answered(Fails)
    {
      hide Bytes, By, Authentic, Made, TrueOf, Exchanged;
      var later := Ask(Later);
      if later {
        return PrivateKeyOperation;
      }
      var fails := Ask(Fails);
      if fails {
        return Error;
      }
      var ok := AddMessage(CERTIFICATE_VERIFY, crypto.sign(transcript.buffer.value));
      if !ok {
        return Error;
      }
      ReleaseBuffer();
      ret := Ok;
    }

    /** do_send_client_certificate_verify: the signature covers the handshake buffer, which
        has been kept until now, and is released afterwards. */
    method DoSendClientCertificateVerify() returns (ret: Wait)
      requires Inv() && state.SendClientCertificateVerify?
      modifies this, transcript
      ensures ret.Error? || Inv()
      ensures Moves(ret)
    {
      hide Recorded, PeerKnown, Took, Restarted, Requested, FlowUpTo, Stepping, Settled, Flow;
      WaysToSend();
      RequestNeedsCertificates();
      if !certRequest || !certificate {
        Goto(SendClientFinished);
        return Ok;
      }
      ghost var before := log;
      ret := SignTranscript();
      if !ret.Ok? {
        return;
      }
      Enter(SendClientFinished, before, log[|before|]);
    }

    /** Nothing but messages of ours that may come last has been added. */
    ghost predicate Extends(before: seq<Entry>, after: seq<Entry>)
      reads this`session, this`serverHello
    {
      && before <= after && Requested(Flow(), after) == Requested(Flow(), before)
      && forall i | |before| <= i < |after| ::
           && after[i].side == HsTypes.Client && after[i].msg.typ != CERTIFICATE
           && Bound(SendClientFinished, session) <= Place(session, after[i])
    }

    /** One of the messages do_send_client_finished may send before Finished. */
    method SendOptional(wanted: bool, typ: byte, ghost bound: int, ghost place: int) returns (ok: bool)
      requires Recorded() && FlowUpTo(Flow(), log, bound)
      requires if typ == NEXT_PROTO then wanted == Flow().hello.nextProto && place == if session then 5 else 10
               else typ == CHANNEL_ID && wanted == Flow().hello.channelId && place == if session then 6 else 11
      requires bound == if session && typ == NEXT_PROTO then 4 else place
      modifies this`asked, this`sent, this`flight, this`log, transcript
      ensures old(flight) <= flight && old(asked) <= asked && (ok || Answered(Fails))
      ensures transcript.buffer.Some? == old(transcript.buffer.Some?) && transcript.hash.Some? == old(transcript.hash.Some?)
      ensures ok ==> Recorded() && Extends(old(log), log) && FlowUpTo(Flow(), log, place + 1)
    {
      hide Recorded, Bytes, Ordered, Places, FlowUpTo, Requested;
      if !wanted {
        FlowSkips(Flow(), log, bound, place + 1);
        return true;
      }
      ghost var before := log;
      ok := AddMessage(typ, author.body(sent, typ));
      if ok {
        FlowAdds(Flow(), before, bound, log[|before|], place + 1);
      }
    }

    /** ssl_send_finished: the code covers everything sent and consumed so far. */
    method SendFinished() returns (ok: bool)
      requires Recorded() && transcript.hash.Some?
      requires FlowUpTo(Flow(), log, if session then 7 else 12)
      modifies this`asked, this`sent, this`flight, this`log, transcript
      ensures old(flight) <= flight && old(asked) <= asked && (ok || Answered(Fails))
      ensures transcript.buffer.Some? == old(transcript.buffer.Some?) && transcript.hash.Some? == old(transcript.hash.Some?)
      ensures ok ==> Recorded() && Extends(old(log), log) && FlowUpTo(Flow(), log, if session then 8 else 13)
    {
      hide Bytes, By, Authentic, Ordered, Places, FlowUpTo, Requested;
      ghost var before := log;
      var finished := FinishedCode(HsTypes.Client);
      ok := AddMessage(FINISHED, finished);
      if ok {
        FlowAdds(Flow(), before, if session then 7 else 12, log[|before|], if session then 8 else 13);
      }
    }

    /** The optional messages and Finished. */
    method SendLastMessages() returns (ok: bool)
      requires Recorded() && transcript.hash.Some? && FlowUpTo(Flow(), log, if session then 4 else 10)
      requires nextProtoSeen == Flow().hello.nextProto && channelIdValid == Flow().hello.channelId
      modifies this`asked, this`sent, this`flight, this`log, transcript
      ensures old(flight) <= flight && old(asked) <= asked && (ok || Answered(Fails))
      ensures transcript.buffer.Some? == old(transcript.buffer.Some?) && transcript.hash.Some?
      ensures ok ==> Recorded() && Extends(old(log), log) && FlowUpTo(Flow(), log, if session then 8 else 13)
      ensures ok ==> |old(log)| < |log|
    {
      hide Recorded, Ordered, Places, FlowUpTo, Requested, Must, Place;
      ok := SendOptional(nextProtoSeen, NEXT_PROTO, if session then 4 else 10, if session then 5 else 10);
      if !ok {
        return;
      }
      ok := SendOptional(channelIdValid, CHANNEL_ID, if session then 6 else 11, if session then 6 else 11);
      if !ok {
        return;
      }
      ghost var before := log;
      ok := SendFinished();
      if ok {
        FinishedAdds(before);
      }
    }

    /** Finished is among them. */
    lemma FinishedAdds(before: seq<Entry>)
      requires FlowUpTo(Flow(), before, if session then 7 else 12) && before <= log
      requires FlowUpTo(Flow(), log, if session then 8 else 13)
      ensures |before| < |log|
    {
      if before == log {
        assert Must(Flow(), Requested(Flow(), log), if session then 7 else 12);
        PlacesUpToTop(session, log, if session then 7 else 12);
      }
    }

    /** The Channel ID key is there, the ChangeCipherSpec is queued, and the keys change. */
    method ReadyToFinish() returns (ret: Wait)
      modifies this`asked, this`writeKeys
      ensures old(asked) <= asked
      ensures ret.Ok? || (ret.Error? && Answered(Fails)) || (ret.ChannelIdLookup? && Answered(Later))
      ensures if ret.Ok? then writeKeys else writeKeys == old(writeKeys)
    {
      if channelIdValid {
        var failed := Ask(Fails);
        if failed {
          return Error;
        }
        var later := Ask(Later);
        if later {
          return ChannelIdLookup;
        }
      }
      var fails := Ask(Fails);
      if fails {
        return Error;
      }
      writeKeys := true;
      ret := Ok;
    }

    /** The client has sent what there was to send. */
    method EnterFinishFlight(ghost before: seq<Entry>)
      requires state.SendClientFinished? && Recorded() && Settled() && certRequest == Requested(Flow(), before)
      requires PeerKnown(state, before) && Extends(before, log)
      requires FlowUpTo(Flow(), log, if session then 8 else 13)
      requires transcript.buffer.None? && transcript.hash.Some? && writeKeys && (session ==> readKeys)
      modifies this`state
      ensures Inv() && state == FinishFlight
    {
      hide Recorded, Requested, FlowUpTo, Resumes, Flow, Place;
      state := FinishFlight;
    }

    /** Where it begins to finish. */
    lemma LastFlightBegins()
      requires Inv() && state.SendClientFinished?
      ensures Recorded() && Settled() && FlowUpTo(Flow(), log, if session then 4 else 10) && PeerKnown(state, log)
      ensures nextProtoSeen == Flow().hello.nextProto && channelIdValid == Flow().hello.channelId
      ensures certRequest == Requested(Flow(), log)
      ensures transcript.buffer.None? && transcript.hash.Some? && (session ==> readKeys)
    {
    }

    /** What the client finishes with. */
    method SendLastFlight() returns (ret: Wait)
      requires Inv() && state.SendClientFinished?
      modifies this`asked, this`writeKeys, this`sent, this`flight, this`log, this`state, transcript
      ensures old(flight) <= flight && old(asked) <= asked
      ensures ret.Ok? || (ret.Error? && Answered(Fails)) || (ret.ChannelIdLookup? && Answered(Later) && Stays())
      ensures ret.Ok? ==> Sent() && writeKeys && state == FinishFlight
      ensures ret.Error? || Inv()
    {
      hide Inv, Recorded, Settled, PeerKnown, Requested, FlowUpTo, Flow;
      LastFlightBegins();
      ghost var before := log;
      ret := ReadyToFinish();
      if ret.Ok? {
        var ok := SendLastMessages();
        if !ok {
          return Error;
        }
        EnterFinishFlight(before);
      }
    }

    /** do_send_client_finished. */
    method DoSendClientFinished() returns (ret: Wait)
      requires Inv() && state.SendClientFinished?
      modifies this, transcript
      ensures ret.Error? || (Inv() && (ret.Flush? ==> writeKeys))
      ensures Moves(ret)
    {
      hide Inv, Passed, Took, Restarted, Sent;
      ret := SendLastFlight();
      if ret.Ok? {
        ret := Flush;
      }
    }

    /** do_finish_flight. */
    method DoFinishFlight() returns (ret: Wait)
      requires Inv() && state.FinishFlight?
      modifies this`state, this`asked
      ensures ret.Error? || Inv()
      ensures Moves(ret)
      ensures ret.EarlyReturn? <==>
                && state.ReadSessionTicket? && falseStart && !dtls && keyExchange.ECDHE? && !initialComplete
                && asked > 0 && decide(asked - 1, FalseStartFits)
    {
      hide Recorded, PeerKnown, Sent, Took, Restarted, Requested, FlowUpTo, Stepping, Settled, Flow;
      WaysToEnd();
      if session {
        Goto(FinishClientHandshake);
        return Ok;
      }
      var fails := Ask(Fails);
      if fails {
        return Error;
      }
      Goto(ReadSessionTicket);
      var fits := Ask(FalseStartFits);
      if falseStart && !dtls && keyExchange.ECDHE? && fits && !initialComplete {
        return EarlyReturn;
      }
      ret := Ok;
    }

    /** do_read_session_ticket. */
    method DoReadSessionTicket() returns (ret: Wait)
      requires Inv() && state.ReadSessionTicket?
      modifies this, transcript
      ensures ret.Error? || Inv()
      ensures Moves(ret)
      ensures ret.WaitChangeCipherSpec? ==> |log| == |old(log)| + if old(ticketExpected) then 1 else 0
    {
      hide Recorded, PeerKnown, Sent, Restarted, Requested, FlowUpTo, Stepping, Settled, Flow;
      WaysToEnd();
      if !ticketExpected {
        Goto(ProcessChangeCipherSpec);
        return WaitChangeCipherSpec;
      }
      if inbox == [] {
        return WaitMessage;
      }
      if inbox[0].typ != NEW_SESSION_TICKET {
        return Error;
      }
      ret := Consume(ProcessChangeCipherSpec);
      if !ret.Ok? {
        return;
      }
      ForgetEmptyTicket();
      ret := WaitChangeCipherSpec;
    }

    /** A ticket may turn out to be empty. */
    method ForgetEmptyTicket()
      requires Inv() && state.ProcessChangeCipherSpec?
      modifies this`asked, this`ticketExpected
      ensures Inv() && asked == old(asked) + 1
    {
      hide Recorded, Flowing, Noted, Fit;
      var empty := Ask(EmptyTicket);
      if empty {
        ticketExpected := false;
      }
    }

    /** do_process_change_cipher_spec. */
    method DoProcessChangeCipherSpec() returns (ret: Wait)
      requires Inv() && state.ProcessChangeCipherSpec?
      modifies this`state, this`asked, this`readKeys
      ensures ret.Error? || (Inv() && (ret.Ok? ==> readKeys))
      ensures Moves(ret)
    {
      hide Recorded, PeerKnown, Sent, Took, Restarted, Requested, FlowUpTo, Stepping, Settled, Flow;
      WaysToEnd();
      var fails := Ask(Fails);
      if fails {
        return Error;
      }
      readKeys := true;
      Goto(ReadServerFinished);
      ret := Ok;
    }

    /** do_read_server_finished and ssl_get_finished: the code is taken over the transcript before
        the message, and the message must carry just that. */
    method DoReadServerFinished() returns (ret: Wait)
      requires Inv() && state.ReadServerFinished?
      modifies this, transcript
      ensures ret.Error? || Inv()
      ensures Moves(ret)
      ensures ret.Ok? ==>
                && old(inbox) != [] && old(inbox)[0].typ == FINISHED
                && old(inbox)[0].body == crypto.mac(Bytes(old(log)), Server) && log == old(log) + [Entry(Server, old(inbox)[0])]
    {
      hide Recorded, PeerKnown, Passed, Sent, Restarted, Requested, FlowUpTo, Stepping, Settled, Flow, Bytes;
      WaysToEnd();
      if inbox == [] {
        return WaitMessage;
      }
      if inbox[0].typ != FINISHED {
        return Error;
      }
      var finished := FinishedCode(Server);
      if inbox[0].body != finished {
        return Error;
      }
      ret := Consume(if session then SendClientFinished else FinishClientHandshake);
    }

    /** do_finish_client_handshake. */
    method DoFinishClientHandshake() returns (ret: Wait)
      requires Inv() && state.FinishClientHandshake?
      modifies this`state, this`asked, this`initialComplete
      ensures ret.Error? || Inv()
      ensures Moves(ret)
    {
      hide Recorded, PeerKnown, Sent, Took, Restarted, Requested, FlowUpTo, Stepping, Settled, Flow;
      WaysToEnd();
      if !session {
        var fails := Ask(Fails);
        if fails {
          return Error;
        }
      }
      initialComplete := true;
      Goto(Done);
      ret := Ok;
    }

    /** One round of ssl_client_handshake. */
    method Step() returns (ret: Wait)
      requires Inv() && !state.Done?
      modifies this, transcript
      ensures ret.Error? || ret.Tls13Takeover? || Inv()
      ensures Moves(ret)
    {
      assert !state.Tls13?;
      hide Inv, Moves;
      match state
      case StartConnect => ret := DoStartConnect();
      case EnterEarlyData => ret := DoEnterEarlyData();
      case ReadHelloVerifyRequest => ret := DoReadHelloVerifyRequest();
      case ReadServerHello => ret := DoReadServerHello();
      case ReadServerCertificate => ret := DoReadServerCertificate();
      case ReadCertificateStatus => ret := DoReadCertificateStatus();
      case VerifyServerCertificate => ret := DoVerifyServerCertificate();
      case ReadServerKeyExchange => ret := DoReadServerKeyExchange();
      case ReadCertificateRequest => ret := DoReadCertificateRequest();
      case ReadServerHelloDone => ret := DoReadServerHelloDone();
      case SendClientCertificate => ret := DoSendClientCertificate();
      case SendClientKeyExchange => ret := DoSendClientKeyExchange();
      case SendClientCertificateVerify => ret := DoSendClientCertificateVerify();
      case SendClientFinished => ret := DoSendClientFinished();
      case FinishFlight => ret := DoFinishFlight();
      case ReadSessionTicket => ret := DoReadSessionTicket();
      case ProcessChangeCipherSpec => ret := DoProcessChangeCipherSpec();
      case ReadServerFinished => ret := DoReadServerFinished();
      case FinishClientHandshake => ret := DoFinishClientHandshake();
    }

    // ----- keeping to a plan -----

    /** No operation fails, none takes longer, the transport does not block and brings messages
        in every record, and neither the session nor early data is given up or taken up. */
    ghost predicate Undisturbed() {
      forall n, q :: q != EmptyTicket && q != FalseStartFits ==> !decide(n, q)
    }

    ghost predicate Verifying(plan: Plan)
      reads this`takenBefore
    {
      plan.verify.Some? && takenBefore == 0
    }

    /** The records that are still to come bring just what the server has still to send. */
    ghost predicate Supplied(plan: Plan)
      reads this`received, this`readCount
    {
      readCount <= plan.records && received + Arriving(arrivals, readCount, plan.records - readCount) == Stream(plan)
    }

    /** What has been exchanged is the beginning of what is planned. */
    ghost predicate OnPlan(plan: Plan)
      reads this`received, this`readCount, this`takenBefore, this`state, this`session, this`initialComplete, this`offer
      reads this`earlyDataOffered, this`log, this`serverHello
    {
      && Sound(plan, crypto, author, certificate, madeUpId) && (plan.verify.Some? ==> dtls) && Supplied(plan)
      && (if state.StartConnect? then plan.offer == Offered() else !earlyDataOffered && offer == plan.offer)
      && (takenBefore == 1 ==> plan.verify.Some?)
      && if Verifying(plan) then BeforeHello(state) && !state.ReadServerHello?
         else log <= plan.log && (BeforeHello(state) || At(Flow(), plan.log, |log|, Bound(state, session)))
    }

    /** What the server has still to send. */
    ghost function Coming(plan: Plan): seq<Message>
      reads this`readCount
    {
      if readCount <= plan.records then Arriving(arrivals, readCount, plan.records - readCount) else []
    }

    /** What has arrived and not been consumed, and what is still to come, is what the plan has
        after the messages exchanged. */
    lemma StillToCome(plan: Plan)
      requires Recorded() && OnPlan(plan)
      ensures if Verifying(plan) then By(Server, log) + (inbox + Coming(plan)) == [plan.verify.value] + By(Server, plan.log)
              else By(Server, plan.log) == By(Server, log) + (inbox + Coming(plan))
    {
      var all := received + Coming(plan);
      assert all[takenBefore..] == received[takenBefore..] + Coming(plan);
      assert By(Server, log) + inbox + Coming(plan) == By(Server, log) + (inbox + Coming(plan));
    }

    /** The hellos and the certificate request settle the same things as in the plan. */
    lemma SameKind(plan: Plan)
      requires Settled() && PeerKnown(state, log) && log <= plan.log && offer == plan.offer
      requires Sound(plan, crypto, author, certificate, madeUpId)
      ensures Flow() == KindOf(crypto, plan.offer, certificate, plan.log[1].msg)
    {
    }

    /** Before the ServerHello, the next message is known. */
    lemma FirstComes(plan: Plan)
      requires Recorded() && Greeted() && OnPlan(plan) && BeforeHello(state) && !state.StartConnect?
      ensures inbox + Coming(plan) != []
      ensures (inbox + Coming(plan))[0] == if Verifying(plan) then plan.verify.value else plan.log[1].msg
    {
      hide Recorded, Supplied, FlowUpTo, Authentic, Made, PeerVerified;
      StillToCome(plan);
      ByGrows(Server, [], log[0]);
      assert [] + [log[0]] == log;
      if Verifying(plan) {
        assert By(Server, log) + (inbox + Coming(plan)) == inbox + Coming(plan);
      } else {
        assert plan.log[..1] == log;
        NextArrives(plan.log, 1, inbox + Coming(plan));
      }
    }

    /** After it, as long as a message of the server's is missing, the next to come is the next
        of the plan. */
    lemma NextOnPlan(plan: Plan, m: int)
      requires Inv() && OnPlan(plan) && !BeforeHello(state)
      requires Bound(state, session) <= m < End(Flow()) && Must(Flow(), Requested(Flow(), plan.log), m)
      requires forall p | Bound(state, session) <= p <= m :: Servers(session, p)
      ensures |log| < |plan.log| && plan.log[..|log|] == log && plan.log[|log|].side == Server
      ensures inbox + Coming(plan) != [] && (inbox + Coming(plan))[0] == plan.log[|log|].msg
      ensures Bound(state, session) <= Place(session, plan.log[|log|]) <= m
      ensures Must(Flow(), Requested(Flow(), plan.log), Place(session, plan.log[|log|])) || May(Flow(), Place(session, plan.log[|log|]))
    {
      hide Recorded, Sound, Supplied, Settled, PeerKnown, Must, May, Requested, Places, Servers;
      StillToCome(plan);
      assert plan.log[..|log|] == log;
      NextComes(Flow(), plan.log, |log|, Bound(state, session), m);
      PlaceSide(session, plan.log[|log|]);
      NextArrives(plan.log, |log|, inbox + Coming(plan));
    }

    /** What the client waits for will come. */
    lemma WaitedForComes(plan: Plan)
      requires Inv() && OnPlan(plan) && Wants()
      ensures inbox + Coming(plan) != []
    {
      hide Recorded, Sound, Supplied, Authentic, Made;
      if BeforeHello(state) {
        FirstComes(plan);
      } else if state.ReadServerFinished? {
        NextOnPlan(plan, if session then 3 else 14);
      } else if state.ReadSessionTicket? {
        NextOnPlan(plan, if session then 2 else 13);
      } else {
        NextOnPlan(plan, 6);
      }
    }

    /** Whatever is to be said of the next message is true, of a plan that is sound. */
    lemma NextIsTrue(plan: Plan)
      requires OnPlan(plan) && |log| < |plan.log| && plan.log[..|log|] == log
      ensures TrueOf(crypto, log, plan.log[|log|])
      ensures plan.log[|log|].side == Server && plan.log[|log|].msg.typ == SERVER_HELLO_DONE ==> plan.log[|log|].msg.body == []
    {
      AuthenticAt(crypto, plan.log, |log|);
    }

    /** The message that has come is the one that is due. */
    lemma DueMessage(plan: Plan)
      requires Inv() && OnPlan(plan) && !BeforeHello(state) && Wants() && inbox != []
      ensures TrueOf(crypto, log, Entry(Server, inbox[0]))
      ensures inbox[0].typ == SERVER_HELLO_DONE ==> inbox[0].body == []
      ensures Bound(state, session) <= Place(session, Entry(Server, inbox[0])) <=
              match state case ReadServerFinished => (if session then 3 else 14) case ReadSessionTicket => (if session then 2 else 13)
              case ReadServerCertificate => 2 case _ => 6
      ensures state.ReadServerKeyExchange? && keyExchange.ECDHE? ==> inbox[0].typ == SERVER_KEY_EXCHANGE
      ensures inbox[0].typ == SERVER_KEY_EXCHANGE ==> !keyExchange.RSA?
    {
      hide FlowUpTo, Sound, Recorded, Supplied;
      if state.ReadServerFinished? {
        NextOnPlan(plan, if session then 3 else 14);
      } else if state.ReadSessionTicket? {
        NextOnPlan(plan, if session then 2 else 13);
      } else if state.ReadServerCertificate? {
        NextOnPlan(plan, 2);
      } else {
        NextOnPlan(plan, 6);
        if state.ReadServerKeyExchange? && keyExchange.ECDHE? {
          NextOnPlan(plan, 4);
        }
      }
      NextIsTrue(plan);
    }

    /** There is nothing to refuse. */
    ghost predicate Fine()
      reads this
    {
      !Refuses() && (state.ReadServerHello? && inbox != [] ==> crypto.parse(inbox[0]).Some? && !crypto.parse(inbox[0]).value.tls13)
    }

    /** What a client on plan has in hand: nothing to refuse, and in the beginning the message
        that is due. */
    ghost predicate Ready(plan: Plan)
      reads this
    {
      && Greeting(crypto, plan.log) && Fine()
      && (state.ReadServerHello? && inbox != [] ==> inbox[0] == plan.log[1].msg)
      && (state.ReadHelloVerifyRequest? && inbox != [] ==> (Verifying(plan) <==> inbox[0].typ == HELLO_VERIFY_REQUEST))
      && if Verifying(plan) then true else By(Server, plan.log) == By(Server, log) + (inbox + Coming(plan))
    }

    lemma GetsReady(plan: Plan)
      requires Inv() && OnPlan(plan)
      ensures Ready(plan)
    {
      StillToCome(plan);
      if BeforeHello(state) {
        if !state.StartConnect? {
          FirstComes(plan);
        }
      } else if Wants() && inbox != [] {
        DueMessage(plan);
      } else if state.VerifyServerCertificate? {
        SameKind(plan);
      }
    }

    /** Our messages are made as planned. */
    lemma SameAuthor(plan: Plan)
      requires Recorded() && Sound(plan, crypto, author, certificate, madeUpId)
      requires !Verifying(plan) && (takenBefore == 1 ==> plan.verify.Some?)
      ensures Made(author, crypto, takenBefore, log) && Made(author, crypto, takenBefore, plan.log)
    {
    }

    /** After a step without a message. */
    twostate lemma AfterPassed(plan: Plan)
      requires old(Inv() && OnPlan(plan) && Ready(plan)) && Inv() && Passed()
      requires session == old(session) || BeforeHello(old(state))
      requires Edge(old(state), state, session) || WaitEdge(old(state), state, session)
      requires received == old(received) && readCount == old(readCount) && earlyDataOffered == old(earlyDataOffered)
      requires BeforeHello(state) ==> initialComplete == old(initialComplete)
      ensures OnPlan(plan)
    {
      hide Recorded, Sound, Supplied, FlowUpTo;      if !BeforeHello(old(state)) {
        Optional();
        NothingBetween(Flow(), log, old(Bound(state, session)), Bound(state, session));
        assert plan.log[..|log|] == log;
        PlanSkips(Flow(), plan.log, |log|, old(Bound(state, session)), Bound(state, session), inbox, Coming(plan));
      }
    }

    /** After a message has been consumed. */
    twostate lemma AfterTook(plan: Plan)
      requires old(Inv() && OnPlan(plan) && Ready(plan)) && Inv() && Took()
      requires session == old(session) || BeforeHello(old(state))
      requires Edge(old(state), state, session) || WaitEdge(old(state), state, session)
      requires received == old(received) && readCount == old(readCount) && earlyDataOffered == old(earlyDataOffered)
      ensures OnPlan(plan)
    {
      hide Recorded, Supplied, Sound, Settled, Ordered, Places, Requested, Place, Must, May, Refuses;
      if BeforeHello(old(state)) {
        AfterServerHello(plan);
      } else {
        ConsumedPlace(old(state), old(inbox)[0]);
        assert plan.log[..|old(log)|] == old(log);
        PlanTakes(Flow(), plan.log, |old(log)|, old(Bound(state, session)), old(inbox), Coming(plan));
        assert plan.log[..|log|] == log;
      }
    }

    /** The hellos are as planned, and so is what they settle. */
    lemma AfterServerHello(plan: Plan)
      requires Sound(plan, crypto, author, certificate, madeUpId) && offer == plan.offer
      requires Settled() && Bound(state, session) == 2 && |log| == 2 && log <= plan.log && PeerKnown(state, log)
      ensures At(Flow(), plan.log, 2, 2)
    {
      SameKind(plan);
      if |plan.log| > 2 {
        PlacesGoUp(session, plan.log, 1, 2);
      }
    }

    /** After the client has sent something. */
    twostate lemma AfterSent(plan: Plan)
      requires old(Inv() && OnPlan(plan) && Ready(plan)) && Inv() && Sent()
      requires session == old(session) && !BeforeHello(old(state))
      requires Edge(old(state), state, session) || WaitEdge(old(state), state, session)
      requires received == old(received) && readCount == old(readCount) && earlyDataOffered == old(earlyDataOffered)
      ensures OnPlan(plan)
    {
      hide Recorded, Supplied, Sound, Settled, May, Made, FlowUpTo, At, Place;
      Optional();
      SameAuthor(plan);
      PlanSendsAll(Flow(), crypto, author, takenBefore, plan.log, old(log), log, old(Bound(state, session)), Bound(state, session));
    }

    /** After a ClientHello. */
    twostate lemma AfterHello(plan: Plan)
      requires old(Inv() && OnPlan(plan) && Ready(plan)) && Inv() && BeforeHello(state) && !state.StartConnect?
      requires Undisturbed() && initialComplete == old(initialComplete)
      requires if old(state).StartConnect? then Sent() else Restarted() && earlyDataOffered == old(earlyDataOffered)
      requires WaitEdge(old(state), state, session)
      requires received == old(received) && readCount == old(readCount)
      ensures OnPlan(plan)
    {
      hide Supplied, FlowUpTo;
      if !Verifying(plan) {
        SameHello(crypto, author, takenBefore, plan.log, clientHello);
      }
    }

    /** If there is nothing to refuse, and nobody says so, nothing goes wrong. */
    twostate lemma GoesWell(ret: Wait)
      requires old(Fine()) && Undisturbed() && Moves(ret)
      ensures ret.Ok? || ret.Flush? || ret.WaitChangeCipherSpec? || ret.EarlyReturn? || ret.WaitMessage? || ret.WaitServerHello?
    {
      hide Refuses;
    }

    /** A client that waits waits only for what will come. */
    twostate lemma AfterWait(plan: Plan)
      requires old(Inv() && OnPlan(plan)) && Inv() && Stays() && Wants() && inbox == []
      requires received == old(received) && readCount == old(readCount)
      requires state.Done? || initialComplete == old(initialComplete)
      requires old(state).StartConnect? || earlyDataOffered == old(earlyDataOffered)
      ensures OnPlan(plan) && readCount < plan.records
    {
      hide Recorded, Sound, Supplied, FlowUpTo;
      WaitedForComes(plan);
    }

    /** A client that keeps to a plan still does after a step. */
    twostate lemma AfterStep(plan: Plan)
      requires old(Inv() && OnPlan(plan) && Ready(plan)) && Inv() && Undisturbed() && Advances()
      requires session == old(session) || BeforeHello(old(state))
      requires Edge(old(state), state, session) || WaitEdge(old(state), state, session)
      requires received == old(received) && readCount == old(readCount)
      requires old(state).StartConnect? || earlyDataOffered == old(earlyDataOffered)
      requires state.Done? || initialComplete == old(initialComplete)
      ensures OnPlan(plan)
    {
      hide Recorded, Sound, Supplied, OnPlan, Ready, FlowUpTo, Settled;
      if old(state).StartConnect? || Restarted() {
        AfterHello(plan);
      } else if Sent() {
        AfterSent(plan);
      } else if Took() {
        AfterTook(plan);
      } else {
        AfterPassed(plan);
      }
    }

    /** At the end, everything that is planned has been exchanged. */
    lemma DonePlan(plan: Plan)
      requires Inv() && OnPlan(plan) && state.Done?
      ensures log == plan.log
    {
      if |log| < |plan.log| {
        HasPlace(session, plan.log, |log|);
        PlacesUpToTop(session, plan.log, Place(session, plan.log[|log|]));
      }
    }

    // ----- the loops -----

    /** One round, and how it brings the client on. */
    method Round(ghost plan: Plan) returns (ret: Wait)
      requires Inv() && !state.Done?
      modifies this, transcript
      ensures ret.Error? || ret.Tls13Takeover? || Inv()
      ensures answers == old(answers) && received == old(received) && readCount == old(readCount) && old(flight) <= flight
      ensures ret.Error? || ret.Tls13Takeover? || Rank(state, session) <= old(Rank(state, session))
      ensures ret.Ok? || ret.Flush? || ret.EarlyReturn? || ret.WaitChangeCipherSpec? ==>
                Rank(state, session) < old(Rank(state, session))
      ensures ret.EarlyReturn? ==> EarlyAllowed()
      ensures ret.WaitMessage? || ret.WaitServerHello? ==> inbox == []
      ensures old(OnPlan(plan)) && Undisturbed() ==> WaitsOnPlan(plan, ret)
    {
      hide Inv, Rank, Edge, WaitEdge, EarlyAllowed, OnPlan, Undisturbed, Fine, Advances, Refuses, Wants;
      ghost var keeping := OnPlan(plan) && Undisturbed();
      if keeping {
        GetsReady(plan);
      }
      ret := Step();
      if ret.Ok? || ret.Flush? || ret.EarlyReturn? || ret.WaitChangeCipherSpec? {
        StepsGoDown(old(state), state, old(session), session);
      }
      if keeping {
        GoesWell(ret);
        if ret.WaitMessage? || ret.WaitServerHello? {
          AfterWait(plan);
        } else {
          AfterStep(plan);
        }
      }
    }

    /** ssl_client_handshake: steps are taken until one has to wait, and every one of them
        brings the end nearer, so that between two waits there are finitely many. */
    method ClientHandshake(ghost plan: Plan) returns (ret: Wait)
      requires Inv()
      modifies this, transcript
      ensures ret.Error? || ret.Tls13Takeover? || (Inv() && (ret.Ok? ==> state.Done?))
      ensures answers == old(answers) && received == old(received) && readCount == old(readCount) && old(flight) <= flight
      ensures ret.Error? || ret.Tls13Takeover? || Rank(state, session) <= old(Rank(state, session))
      ensures ret.Flush? || ret.EarlyReturn? || ret.WaitChangeCipherSpec? ==> Rank(state, session) < old(Rank(state, session))
      ensures ret.EarlyReturn? ==> EarlyAllowed()
      ensures ret.WaitMessage? || ret.WaitServerHello? ==> inbox == []
      ensures old(OnPlan(plan)) && Undisturbed() ==> WaitsOnPlan(plan, ret) && (ret.Ok? ==> log == plan.log)
    {
      hide Inv, Rank, EarlyAllowed, OnPlan, Undisturbed;
      ghost var keeping := OnPlan(plan) && Undisturbed();
      while !state.Done?
        invariant Inv() && answers == old(answers) && received == old(received) && readCount == old(readCount)
        invariant old(flight) <= flight && Rank(state, session) <= old(Rank(state, session))
        invariant keeping ==> OnPlan(plan)
        decreases Rank(state, session)
      {
        ret := Round(plan);
        if !ret.Ok? {
          return;
        }
      }
      if keeping {
        DonePlan(plan);
      }
      ret := Ok;
    }

    /** What holds between two calls: an error is for good, and so is TLS 1.3. */
    ghost predicate Live()
      reads this, transcript
    {
      wait.Error? || wait.Tls13Takeover? || (Inv() && (wait.EarlyReturn? ==> EarlyAllowed()))
    }

    /** What is waited for can come: the transport, or a message that the server has still to
        send. */
    ghost predicate WaitsOnPlan(plan: Plan, w: Wait)
      reads this, transcript
    {
      && Inv() && OnPlan(plan) && (w.WaitMessage? || w.WaitServerHello? ==> readCount < plan.records)
      && (w.Ok? || w.Flush? || w.WaitChangeCipherSpec? || w.EarlyReturn? || w.WaitMessage? || w.WaitServerHello?)
    }

    /** How often the transport is asked at most: for every record that is still to come, and
        for every step after which the client waits. */
    ghost function Needed(plan: Plan): int
      reads this`readCount, this`state, this`session
    {
      plan.records - readCount + Rank(state, session)
    }

    /** The client keeps to the plan, and the transport will answer often enough. */
    ghost predicate Ahead(plan: Plan)
      reads this, transcript
    {
      && WaitsOnPlan(plan, wait) && readCount <= plan.records
      && answers >= Needed(plan) + if wait.Flush? || wait.WaitChangeCipherSpec? then 1 else 0
    }

    /** How a client begins, if the records bring what the server sends in its part. */
    lemma StartsOnPlan(plan: Plan)
      requires Inv() && state.StartConnect? && wait.Ok? && readCount == 0 && received == []
      requires Sound(plan, crypto, author, certificate, madeUpId) && (plan.verify.Some? ==> dtls)
      requires plan.offer == if session && !initialComplete && sessionId != [] then Some(sessionId) else None
      requires Arriving(arrivals, 0, plan.records) == Stream(plan) && answers >= plan.records + 20
      ensures Ahead(plan)
    {
    }

    /** The transport hands up the messages of another record. */
    method Receive()
      requires Inv()
      modifies this`inbox, this`received, this`readCount
      ensures Inv() && received == old(received) + arrivals(old(readCount)) && readCount == old(readCount) + 1
      ensures forall plan :: old(OnPlan(plan)) && old(readCount) < plan.records ==> OnPlan(plan)
    {
      hide PeerKnown, Recorded, Settled, By, Authentic, Ordered, Places, FlowUpTo, Fit, Sound, At, Offered, Stream;
      Enqueue(arrivals(readCount));
    }

    method Enqueue(msgs: seq<Message>)
      requires Recorded()
      modifies this`inbox, this`received, this`readCount
      ensures Recorded() && inbox == old(inbox) + msgs && received == old(received) + msgs && readCount == old(readCount) + 1
    {
      hide Bytes, By, Authentic, Made, Transcript.Holds;
      QueueMore(received, takenBefore, By(Server, log), inbox, msgs);
      inbox, received, readCount := inbox + msgs, received + msgs, readCount + 1;
    }

    lemma QueueMore(all: seq<Message>, from: nat, taken: seq<Message>, waiting: seq<Message>, msgs: seq<Message>)
      requires from <= |all| && all[from..] == taken + waiting
      ensures (all + msgs)[from..] == taken + (waiting + msgs)
      ensures all != [] ==> (all + msgs)[0] == all[0]
    {
    }

    /** The transport writes what there is to write, or reads a record, if it does not block.  A
        record may hold nothing for the handshake. */
    method AskTransport(reading: bool) returns (next: Next)
      modifies this`asked, this`answers
      ensures match next
              case Return(ret, early) =>
                ret == -1 && !early && answers == old(answers) && (answers == 0 || decide(old(asked), Blocks))
              case TryAgain => reading && answers == old(answers) - 1 && decide(old(asked) + 1, More)
              case Proceed => answers == old(answers) - 1
    {
      var blocked := Ask(Blocks);
      if answers == 0 || blocked {
        return Return(-1, false);
      }
      answers := answers - 1;
      var more := Ask(More);
      next := if reading && more then TryAgain else Proceed;
    }

    /** The first half of ssl_run_handshake: the operation the handshake waits for. */
    method Resolve(ghost plan: Plan) returns (next: Next)
      requires Live()
      modifies this`asked, this`wait, this`answers, this`inbox, this`received, this`readCount
      ensures Live() && answers <= old(answers) && old(received) <= received
      ensures next.TryAgain? ==> answers < old(answers) && wait == old(wait) && !wait.EarlyReturn?
      ensures next.Proceed? ==> Inv() && (old(wait).Ok? || answers < old(answers))
      ensures next.Return? && !next.early ==> next.ret <= 0
      ensures next.Return? && next.early ==> next.ret == 1 && wait.Ok? && old(wait).EarlyReturn? && EarlyAllowed()
      ensures old(wait).Error? || old(wait).Tls13Takeover? ==> next == Return(-1, false) && wait == old(wait)
      ensures old(wait).X509Lookup? || old(wait).ChannelIdLookup? || old(wait).PrivateKeyOperation? || old(wait).CertificateVerify? ==>
                next == Return(-1, false) && wait.Ok?
      ensures old(Ahead(plan)) && Undisturbed() ==>
                && WaitsOnPlan(plan, Ok) && readCount <= plan.records && answers >= Needed(plan)
                && if old(wait).EarlyReturn? then next == Return(1, true) else next.Proceed?
    {
      hide Inv, EarlyAllowed, OnPlan, Rank;
      match wait
      case Error | Tls13Takeover =>
        return Return(-1, false);
      case Ok =>
        return Proceed;
      case Flush | WaitChangeCipherSpec =>
        next := AskTransport(wait.WaitChangeCipherSpec?);
      case WaitServerHello | WaitMessage =>
        next := AskTransport(true);
        if next.Proceed? {
          Receive();
        }
      case X509Lookup | ChannelIdLookup | PrivateKeyOperation | CertificateVerify =>
        wait := Ok;
        next := Return(-1, false);
      case EarlyReturn =>
        wait := Ok;
        next := Return(1, true);
    }

    /** ssl_run_handshake, from any state in which an earlier call left things.  If the server
        plays its part and nothing is in the way, the handshake succeeds. */
    method RunHandshake(ghost plan: Plan) returns (ret: int, early: bool)
      requires Live()
      modifies this, transcript
      ensures Live() && old(received) <= received && old(flight) <= flight
      ensures old(wait).Error? ==> ret == -1 && wait.Error?
      ensures ret == 1 && !early ==> state.Done? && Recorded() && readKeys && writeKeys
      ensures ret == 1 && !early ==> SafelyDone(crypto, offer, certificate, log) && (offer.Some? ==> offer.value == sessionId)
      ensures early ==> ret == 1 && (old(wait).EarlyReturn? || Rank(state, session) < old(Rank(state, session)))
      ensures early ==> (state.ReadServerHello? && earlyDataOffered) || (state.ReadSessionTicket? && falseStart && !session)
      ensures early && state.ReadSessionTicket? ==>
                Greeting(crypto, log) && (crypto.parse(log[1].msg).value.certAuth ==> ServerAuthenticated(crypto, log))
      ensures old(Ahead(plan)) && Undisturbed() ==> ret == 1 && if early then Ahead(plan) && wait.Ok? else log == plan.log
    {
      hide Inv, Rank, FlowUpTo, SafelyDone, ServerAuthenticated, Recorded, OnPlan, Undisturbed, Greeting, EarlyAllowed;
      while true
        invariant Live() && (old(wait).Error? ==> wait.Error?)
        invariant old(received) <= received && old(flight) <= flight
        invariant wait.Tls13Takeover? || Rank(state, session) <= old(Rank(state, session))
        invariant wait.EarlyReturn? ==> old(wait).EarlyReturn? || Rank(state, session) < old(Rank(state, session))
        invariant old(Ahead(plan)) && Undisturbed() ==> Ahead(plan)
        decreases answers, if wait.Ok? then 1 else 0
      {
        var next := Resolve(plan);
        if next.Return? {
          if next.early {
            FalseStartIsSafe();
          }
          return next.ret, next.early;
        }
        if next.Proceed? {
          wait := ClientHandshake(plan);
          if wait.Error? {
            return -1, false;
          }
          if wait.Ok? {
            DoneIsSafe();
            return 1, false;
          }
        }
      }
    }

    lemma DoneIsSafe()
      requires Inv() && state.Done?
      ensures SafelyDone(crypto, offer, certificate, log) && Recorded() && readKeys && writeKeys
      ensures offer.Some? ==> offer.value == sessionId
    {
      CompleteIsSafe(crypto, offer, certificate, log);
    }

    lemma FalseStartIsSafe()
      requires Inv() && EarlyAllowed()
      ensures (state.ReadServerHello? && earlyDataOffered) || (state.ReadSessionTicket? && falseStart && !session)
      ensures state.ReadSessionTicket? ==>
                Greeting(crypto, log) && (crypto.parse(log[1].msg).value.certAuth ==> ServerAuthenticated(crypto, log))
    {
      if state.ReadSessionTicket? && certAuth {
        KeyIsSigned(Flow(), crypto, log, Bound(state, session));
      }
    }
  }
}
