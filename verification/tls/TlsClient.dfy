/** The TLS 1.2 client's handshake: the steps and the loop of handshake_client.cc, and
    ssl_run_handshake of handshake.cc. Messages parse and certificates verify; callbacks may ask to be
    called again. */
module TlsClient {
  import opened TlsFlow
  import opened TlsEndpoint

  datatype State =
    | StartConnect | EnterEarlyData | ReadServerHello | ReadServerCertificate | ReadCertificateStatus
    | VerifyServerCertificate | ReadServerKeyExchange | ReadCertificateRequest | ReadServerHelloDone
    | SendClientCertificate | SendClientKeyExchange | SendClientCertificateVerify | SendClientFinished | FinishFlight
    | ReadSessionTicket | ProcessChangeCipherSpec | ReadServerFinished | FinishClientHandshake | Done

  /** How many states are left to go through; a resumed handshake sends its flight last. */
  function Rank(s: State, resumed: bool): nat
  {
    match s
    case StartConnect => 20
    case EnterEarlyData => 19
    case ReadServerHello => 18
    case ReadServerCertificate => 17
    case ReadCertificateStatus => 16
    case VerifyServerCertificate => 15
    case ReadServerKeyExchange => 14
    case ReadCertificateRequest => 13
    case ReadServerHelloDone => 12
    case SendClientCertificate => 11
    case SendClientKeyExchange => 10
    case SendClientCertificateVerify => 9
    case SendClientFinished => if resumed then 3 else 8
    case FinishFlight => if resumed then 2 else 7
    case ReadSessionTicket => 6
    case ProcessChangeCipherSpec => 5
    case ReadServerFinished => 4
    case FinishClientHandshake => 1
    case Done => 0
  }

  /** What of the handshake is left in a state. */
  function Todo(p: Params, s: State, w: Wait): seq<Step>
  {
    match s
    case StartConnect => Flow(p)
    case EnterEarlyData => FromServerHello(p)
    case ReadServerHello => FromServerHello(p)
    case ReadServerCertificate => FromServerCert(p)
    case ReadCertificateStatus => FromStatus(p)
    case VerifyServerCertificate => FromServerKey(p)
    case ReadServerKeyExchange => FromServerKey(p)
    case ReadCertificateRequest => FromRequest(p)
    case ReadServerHelloDone => FromDone(p)
    case SendClientCertificate => FromClientCert(p)
    case SendClientKeyExchange => FromClientKey(p)
    case SendClientCertificateVerify => FromClientVerify(p)
    case SendClientFinished => ClientEnd(p, AfterClient(p))
    case FinishFlight => AfterClient(p)
    case ReadSessionTicket => FromTicket(p)
    case ProcessChangeCipherSpec => if w == WaitReadCcs then FromServerCcs(p) else FromServerFinished(p)
    case ReadServerFinished => FromServerFinished(p)
    case FinishClientHandshake => []
    case Done => []
  }

  predicate BeforeHello(s: State)
  {
    s == StartConnect || s == EnterEarlyData || s == ReadServerHello
  }

  /** Whether the handshake buffer is still kept. */
  predicate Buffered(s: State, nego: Nego, certRequest: bool, hasCert: bool)
  {
    match s
    case StartConnect => true
    case EnterEarlyData => true
    case ReadServerHello => true
    case ReadServerCertificate => nego.certAuth
    case ReadCertificateStatus => nego.certAuth
    case VerifyServerCertificate => nego.certAuth
    case ReadServerKeyExchange => nego.certAuth
    case ReadCertificateRequest => nego.certAuth
    case ReadServerHelloDone => certRequest
    case SendClientCertificate => certRequest
    case SendClientKeyExchange => certRequest && hasCert
    case SendClientCertificateVerify => certRequest && hasCert
    case _ => false
  }

  /** The server's Finished has been checked. */
  predicate Checked(s: State, resumed: bool)
  {
    s == FinishClientHandshake || s == Done || (resumed && (s == SendClientFinished || s == FinishFlight))
  }

  /** States only a full handshake goes through. */
  predicate InFull(s: State)
  {
    9 <= Rank(s, true) <= 17
  }

  /** The flight may have messages that are not meant to be sent yet. */
  predicate Gathering(s: State)
  {
    s == SendClientKeyExchange || s == SendClientCertificateVerify || s == SendClientFinished
  }

  predicate AfterRequest(s: State)
  {
    s == ReadServerHelloDone || s == SendClientCertificate || s == SendClientKeyExchange
        || s == SendClientCertificateVerify
  }

  class ClientHandshake {
    const ep: Endpoint
    const hasCert: bool
    const falseStart: bool
    var state: State
    var wait: Wait
    var nego: Nego
    var certRequest: bool

    ghost predicate Valid()
      reads this, ep
    {
      ep.role == Client && ep.plan.Valid() && ep.plan.clientCert == hasCert && (wait == WaitError || At(wait))
    }

    /** The state fits what has been done so far; `w` is what the handshake waits for. */
    ghost predicate At(w: Wait)
      reads this`state, this`nego, this`certRequest, ep
    {
      && ep.role == Client && ep.plan.Valid() && ep.plan.clientCert == hasCert
      && ep.Sound()
      && (ep.hash.None? <==> BeforeHello(state))
      && (ep.buffer.Some? <==> Buffered(state, nego, certRequest, hasCert))
      && (BeforeHello(state) || InFull(state) ==> !nego.resumed)
      && (Checked(state, nego.resumed) ==> FinishedSeen(ep.trail, Server))
      && (w != WaitFlush && !Gathering(state) ==> ep.flight == [])
      && (w == WaitReadCcs ==> state == ProcessChangeCipherSpec)
      && (ep.honest ==> Follows(w))
      && (w.Reads() ==> ep.current.None? && state != StartConnect)
    }

    ghost predicate Follows(w: Wait)
      reads this`state, this`nego, this`certRequest, ep
    {
      && InStep(ep.plan, ep.trail, Todo(ep.plan, state, w))
      && (!BeforeHello(state) ==> nego == ep.plan.nego)
      && (AfterRequest(state) ==> certRequest == ep.plan.certRequest)
      && (w.Reads() ==> FromPeer(Todo(ep.plan, state, w)))
    }

    /** The next step is a message of the server. */
    static predicate FromPeer(todo: seq<Step>)
    {
      todo != [] && todo[0].role == Server && todo[0].kind != KChangeCipherSpec
    }

    /** What one step of the handshake may do. If everything read was due, it does not fail; if it
        does not wait for the application, it gets on. */
    twostate predicate Stepped(ret: Wait)
      reads this, ep
    {
      && ep.honest == old(ep.honest) && ep.popped == old(ep.popped) && ep.pushed == old(ep.pushed) && wait == old(wait)
      && old(ep.trail) <= ep.trail
      && (ep.honest ==> ret != WaitError)
      && (ret == WaitError || At(ret))
      && (ret == WaitError || Rank(state, nego.resumed) < old(Rank(state, nego.resumed))
          || (state == old(state) && nego == old(nego) && (ret.Retries() || (ret.Reads() && old(ep.current).None?))))
    }

    constructor (e: Endpoint, cert: bool, early: bool)
      requires e.Sound() && e.role == Client && e.buffer == Some([]) && e.hash.None? && e.trail == []
               && e.flight == [] && e.current.None? && e.honest
      requires e.plan.Valid() && e.plan.clientCert == cert
      ensures Valid() && ep == e && state == StartConnect && wait == WaitOk
    {
      ep, hasCert, falseStart := e, cert, early;
      state, wait := StartConnect, WaitOk;
      nego, certRequest := Nego(false, false, false, false, false, false, false), false;
      new;
      assert Flow(ep.plan)[0..] == Flow(ep.plan);
    }

    method DoStartConnect() returns (ret: Wait)
      requires At(WaitOk) && state == StartConnect
      modifies this`state, ep`buffer, ep`hash, ep`flight, ep`trail
      ensures Stepped(ret)
    {
      hide Endpoint.Sound, InStep, Messages, FromServerHello, FinishedSeen;
      ep.AddMessage(ClientHello, FromServerHello(ep.plan));
      state := EnterEarlyData;
      return WaitFlush;
    }

    /** do_enter_early_data, with no early data offered. */
    method DoEnterEarlyData() returns (ret: Wait)
      requires At(WaitOk) && state == EnterEarlyData
      modifies this`state
      ensures Stepped(ret)
    {
      hide Endpoint.Sound, InStep, Messages, FinishedSeen, ClientEnd, FromTicket, FromServerCcs, FromServerFinished;
      state := ReadServerHello;
      return WaitOk;
    }

    method HashServerHello()
      requires ep.Sound() && ep.current.Some? && ep.buffer.Some?
               && (ep.honest ==> InStep(ep.plan, ep.trail, FromServerHello(ep.plan)))
      modifies ep`buffer, ep`hash, ep`current, ep`trail
      ensures ep.Sound() && old(ep.trail) <= ep.trail && ep.current.None? && ep.hash.Some?
      ensures ep.buffer.Some? <==> !nego.resumed && nego.certAuth
      ensures ep.honest ==> FromServerHello(ep.plan) != [] && InStep(ep.plan, ep.trail, FromServerHello(ep.plan)[1..])
    {
      hide Endpoint.Sound, InStep, FromServerHello;
      ep.InitHash();
      ep.TakeMessage(FromServerHello(ep.plan));
      if nego.resumed || !nego.certAuth {
        ep.FreeBuffer();
      }
    }

    /** The hash starts here, from the buffered ClientHello; without a certificate request to come the buffer goes. */
    method DoReadServerHello() returns (ret: Wait)
      requires At(WaitOk) && state == ReadServerHello
      modifies this`state, this`nego, ep`buffer, ep`hash, ep`current, ep`trail
      ensures Stepped(ret)
    {
      hide Endpoint.Sound, InStep, Messages, FinishedSeen, ClientEnd, Flow, FromTicket, FromServerHello,
        FromServerCert, FromServerCcs, FromServerFinished;
      HelloRest(ep.plan);
      if ep.current.None? {
        return WaitReadServerHello;
      }
      if ep.honest {
        ep.Due(FromServerHello(ep.plan));
      }
      if !ep.current.value.ServerHello? {
        return WaitError;
      }
      nego := ep.current.value.nego;
      HashServerHello();
      state := if nego.resumed then ReadSessionTicket else ReadServerCertificate;
      return WaitOk;
    }

    method DoReadServerCertificate() returns (ret: Wait)
      requires At(WaitOk) && state == ReadServerCertificate
      modifies this`state, ep`buffer, ep`hash, ep`current, ep`trail
      ensures Stepped(ret)
    {
      hide Endpoint.Sound, InStep, Messages, FinishedSeen, ClientEnd, FromTicket, FromStatus, FromServerCcs,
        FromServerFinished;
      ghost var todo := FromServerCert(ep.plan);
      OptRest(ep.plan.nego.certAuth, Server, KCertificate, FromStatus(ep.plan));
      if !nego.certAuth {
        state := ReadCertificateStatus;
        return WaitOk;
      }
      if ep.current.None? {
        return WaitReadMessage;
      }
      if ep.honest {
        ep.Due(todo);
      }
      if !ep.current.value.Certificate? || !ep.current.value.present {
        return WaitError;
      }
      ep.TakeMessage(todo);
      state := ReadCertificateStatus;
      return WaitOk;
    }

    /** A server may change its mind about sending CertificateStatus. */
    method DoReadCertificateStatus() returns (ret: Wait)
      requires At(WaitOk) && state == ReadCertificateStatus
      modifies this`state, ep`buffer, ep`hash, ep`current, ep`trail
      ensures Stepped(ret)
    {
      hide Endpoint.Sound, InStep, Messages, FinishedSeen, ClientEnd, FromTicket, FromServerKey, FromServerCcs,
        FromServerFinished;
      ghost var todo := FromStatus(ep.plan);
      OptRest(ep.plan.nego.status, Server, KCertificateStatus, FromServerKey(ep.plan));
      if !nego.status {
        state := VerifyServerCertificate;
        return WaitOk;
      }
      if ep.current.None? {
        return WaitReadMessage;
      }
      if ep.honest {
        ep.Due(todo);
      }
      if !ep.current.value.CertificateStatus? {
        state := VerifyServerCertificate;
        return WaitOk;
      }
      ep.TakeMessage(todo);
      state := VerifyServerCertificate;
      return WaitOk;
    }

    method DoVerifyServerCertificate() returns (ret: Wait)
      requires At(WaitOk) && state == VerifyServerCertificate
      modifies this`state
      ensures Stepped(ret)
    {
      hide Endpoint.Sound, InStep, Messages, FinishedSeen, ClientEnd, FromTicket, FromServerKey, FromServerCcs,
        FromServerFinished;
      if !nego.certAuth {
        state := ReadServerKeyExchange;
        return WaitOk;
      }
      if * {
        return WaitCertificateVerify;
      }
      state := ReadServerKeyExchange;
      return WaitOk;
    }

    /** Some ciphers have an optional ServerKeyExchange; RSA has none. */
    method DoReadServerKeyExchange() returns (ret: Wait)
      requires At(WaitOk) && state == ReadServerKeyExchange
      modifies this`state, ep`buffer, ep`hash, ep`current, ep`trail
      ensures Stepped(ret)
    {
      hide Endpoint.Sound, InStep, Messages, FinishedSeen, Flow, FromServerHello, FromServerCert, FromStatus,
        FromRequest, FromDone, FromClientCert, FromClientKey, FromClientVerify, NextProtoThen, ClientEnd,
        FromTicket, FromServerCcs, FromServerFinished;
      ghost var todo := FromServerKey(ep.plan);
      OptRest(ep.plan.ske, Server, KServerKeyExchange, FromRequest(ep.plan));
      RequestIsServers(ep.plan);
      if ep.current.None? {
        return WaitReadMessage;
      }
      if ep.honest {
        ep.Due(todo);
      }
      if !ep.current.value.ServerKeyExchange? {
        if nego.requiresSke {
          return WaitError;
        }
        state := ReadCertificateRequest;
        return WaitOk;
      }
      if !nego.requiresSke && nego.certAuth {
        return WaitError;
      }
      ep.TakeMessage(todo);
      state := ReadCertificateRequest;
      return WaitOk;
    }

    /** Without a request the handshake buffer is not needed any more. */
    method DoReadCertificateRequest() returns (ret: Wait)
      requires At(WaitOk) && state == ReadCertificateRequest
      modifies this`state, this`certRequest, ep`buffer, ep`hash, ep`current, ep`trail
      ensures Stepped(ret)
    {
      hide Endpoint.Sound, InStep, Messages, FinishedSeen, Flow, FromServerHello, FromServerCert, FromStatus,
        FromServerKey, FromClientCert, ClientEnd, FromTicket, FromServerCcs, FromServerFinished;
      ghost var todo := FromRequest(ep.plan);
      OptRest(ep.plan.certRequest, Server, KCertificateRequest, FromDone(ep.plan));
      if !nego.certAuth {
        certRequest := false;
        state := ReadServerHelloDone;
        return WaitOk;
      }
      if ep.current.None? {
        return WaitReadMessage;
      }
      if ep.honest {
        ep.Due(todo);
      }
      if ep.current.value.ServerHelloDone? {
        ep.FreeBuffer();
        certRequest := false;
        state := ReadServerHelloDone;
        return WaitOk;
      }
      if !ep.current.value.CertificateRequest? {
        return WaitError;
      }
      ep.TakeMessage(todo);
      certRequest := true;
      state := ReadServerHelloDone;
      return WaitOk;
    }

    method DoReadServerHelloDone() returns (ret: Wait)
      requires At(WaitOk) && state == ReadServerHelloDone
      modifies this`state, ep`buffer, ep`hash, ep`current, ep`trail
      ensures Stepped(ret)
    {
      hide Endpoint.Sound, InStep, Messages, FinishedSeen, ClientEnd, FromTicket, FromClientCert, FromServerCcs,
        FromServerFinished;
      ghost var todo := FromDone(ep.plan);
      if ep.current.None? {
        return WaitReadMessage;
      }
      if ep.honest {
        ep.Due(todo);
      }
      if !ep.current.value.ServerHelloDone? {
        return WaitError;
      }
      ep.TakeMessage(todo);
      state := SendClientCertificate;
      return WaitOk;
    }

    /** Without a certificate to send, the handshake buffer goes, and an empty one is sent. */
    method DoSendClientCertificate() returns (ret: Wait)
      requires At(WaitOk) && state == SendClientCertificate
      modifies this`state, ep`buffer, ep`hash, ep`flight, ep`trail
      ensures Stepped(ret)
    {
      hide Params.Valid, Endpoint.Sound, InStep, Messages, FinishedSeen, ClientEnd, FromTicket, FromClientKey,
        FromServerCcs, FromServerFinished;
      OptRest(ep.plan.certRequest, Client, KCertificate, FromClientKey(ep.plan));
      if !certRequest {
        state := SendClientKeyExchange;
        return WaitOk;
      }
      if * {
        return WaitX509Lookup;
      }
      if !hasCert {
        ep.FreeBuffer();
      }
      ep.AddMessage(Certificate(hasCert), FromClientKey(ep.plan));
      state := SendClientKeyExchange;
      return WaitOk;
    }

    method DoSendClientKeyExchange() returns (ret: Wait)
      requires At(WaitOk) && state == SendClientKeyExchange
      modifies this`state, ep`buffer, ep`hash, ep`flight, ep`trail
      ensures Stepped(ret)
    {
      hide Endpoint.Sound, InStep, Messages, FinishedSeen, ClientEnd, FromTicket, FromClientVerify, FromServerCcs,
        FromServerFinished;
      ep.AddMessage(ClientKeyExchange, FromClientVerify(ep.plan));
      state := SendClientCertificateVerify;
      return WaitOk;
    }

    /** The signature is over the handshake buffer, which has every message so far, and then goes. */
    method SendVerify()
      requires ep.Sound() && ep.role == Client && ep.hash.Some? && ep.buffer.Some?
      requires ep.honest ==>
                 && ep.plan.certRequest && ep.plan.clientCert
                 && InStep(ep.plan, ep.trail, FromClientVerify(ep.plan))
      modifies ep`buffer, ep`hash, ep`flight, ep`trail
      ensures ep.Sound() && ep.hash.Some? && ep.buffer.None? && old(ep.trail) <= ep.trail
      ensures ep.trail == old(ep.trail) + [Turn(Client, Hs(CertificateVerify(old(ep.buffer.value))))]
      ensures ep.honest ==> InStep(ep.plan, ep.trail, ClientEnd(ep.plan, AfterClient(ep.plan)))
    {
      hide Params.Valid, Endpoint.Sound, InStep, Messages, FinishedSeen, Flow, ClientEnd, AfterClient;
      OptRest(ep.plan.certRequest && ep.plan.clientCert, Client, KCertificateVerify,
              ClientEnd(ep.plan, AfterClient(ep.plan)));
      ep.BufferIs();
      ep.AddMessage(CertificateVerify(ep.buffer.value), ClientEnd(ep.plan, AfterClient(ep.plan)));
      ep.FreeBuffer();
    }

    /** The signature covers the handshake buffer, which is still there, and then goes. */
    method DoSendClientCertificateVerify() returns (ret: Wait)
      requires At(WaitOk) && state == SendClientCertificateVerify
      modifies this`state, ep`buffer, ep`hash, ep`flight, ep`trail
      ensures Stepped(ret)
    {
      hide Params.Valid, Endpoint.Sound, InStep, Messages, FinishedSeen, Flow, FromServerHello, FromServerCert,
        FromStatus, FromServerKey, FromRequest, FromDone, FromClientCert, FromClientKey, NextProtoThen, ClientEnd,
        FromTicket, FromServerCcs, FromServerFinished;
      OptRest(ep.plan.certRequest && ep.plan.clientCert, Client, KCertificateVerify,
              ClientEnd(ep.plan, AfterClient(ep.plan)));
      if !certRequest || !hasCert {
        state := SendClientFinished;
        return WaitOk;
      }
      if * {
        return WaitPrivateKey;
      }
      SendVerify();
      state := SendClientFinished;
      return WaitOk;
    }

    /** ChangeCipherSpec, NextProtocol and Channel ID if agreed on, and Finished. */
    method SendEnd(ghost rest: seq<Step>)
      requires ep.Sound() && ep.role == Client && ep.hash.Some? && ep.buffer.None?
      requires ep.honest ==> nego == ep.plan.nego && InStep(ep.plan, ep.trail, ClientEnd(ep.plan, rest))
      modifies ep`buffer, ep`hash, ep`flight, ep`trail
      ensures ep.Sound() && ep.hash.Some? && ep.buffer.None? && old(ep.trail) <= ep.trail
      ensures ep.honest ==> InStep(ep.plan, ep.trail, rest) && ep.current.None?
    {
      hide Endpoint.Sound, InStep, Messages;
      ep.AddChangeCipherSpec(NextProtoThen(ep.plan, rest));
      OptRest(ep.plan.nego.nextProto, Client, KNextProto, ChannelIdThen(ep.plan, rest));
      if nego.nextProto {
        ep.AddMessage(NextProto, ChannelIdThen(ep.plan, rest));
      }
      OptRest(ep.plan.nego.channelId, Client, KChannelId, ClientFinishedThen(ep.plan, rest));
      if nego.channelId {
        ep.AddMessage(ChannelId, ClientFinishedThen(ep.plan, rest));
      }
      ep.SendFinished(rest);
    }

    /** Channel ID is resolved before anything is sent, so that a retry repeats nothing. */
    method DoSendClientFinished() returns (ret: Wait)
      requires At(WaitOk) && state == SendClientFinished
      modifies this`state, ep`buffer, ep`hash, ep`flight, ep`trail
      ensures Stepped(ret)
    {
      hide Endpoint.Sound, InStep, Messages, FinishedSeen, Flow, AfterClient, FromServerHello, FromTicket,
        FromServerCcs, FromServerFinished, NextProtoThen;
      ghost var rest := AfterClient(ep.plan);
      if nego.channelId {
        if * {
          return WaitChannelIdLookup;
        }
      }
      SendEnd(rest);
      if nego.resumed {
        FinishedGrows(old(ep.trail), ep.trail, Server);
      }
      state := FinishFlight;
      return WaitFlush;
    }

    method DoFinishFlight() returns (ret: Wait)
      requires At(WaitOk) && state == FinishFlight
      modifies this`state
      ensures Stepped(ret)
    {
      hide Endpoint.Sound, InStep, Messages, ClientEnd, FromTicket, FromServerCcs, FromServerFinished;
      if nego.resumed {
        state := FinishClientHandshake;
        return WaitOk;
      }
      state := ReadSessionTicket;
      return if falseStart then WaitEarlyReturn else WaitOk;
    }

    method DoReadSessionTicket() returns (ret: Wait)
      requires At(WaitOk) && state == ReadSessionTicket
      modifies this`state, ep`buffer, ep`hash, ep`current, ep`trail
      ensures Stepped(ret)
    {
      hide Params.Valid, Endpoint.Sound, InStep, Messages, FinishedSeen, ClientEnd, FromServerCcs, FromServerFinished;
      ghost var todo := FromTicket(ep.plan);
      OptRest(ep.plan.nego.ticket, Server, KNewSessionTicket, FromServerCcs(ep.plan));
      if !nego.ticket {
        state := ProcessChangeCipherSpec;
        return WaitReadCcs;
      }
      if ep.current.None? {
        return WaitReadMessage;
      }
      if ep.honest {
        ep.Due(todo);
      }
      if !ep.current.value.NewSessionTicket? {
        return WaitError;
      }
      ep.TakeMessage(todo);
      state := ProcessChangeCipherSpec;
      return WaitReadCcs;
    }

    /** tls1_change_cipher_state: the read keys change. */
    method DoProcessChangeCipherSpec() returns (ret: Wait)
      requires At(WaitOk) && state == ProcessChangeCipherSpec
      modifies this`state
      ensures Stepped(ret)
    {
      hide Endpoint.Sound, InStep, Messages, FinishedSeen, ClientEnd, FromTicket, FromServerCcs, FromServerFinished;
      FinishedIsServers(ep.plan);
      if ep.honest && ep.current.Some? {
        ep.Due(FromServerFinished(ep.plan));
      }
      state := ReadServerFinished;
      return WaitOk;
    }

    /** The server's Finished is checked before anything else happens. */
    method DoReadServerFinished() returns (ret: Wait)
      requires At(WaitOk) && state == ReadServerFinished
      modifies this`state, ep`buffer, ep`hash, ep`current, ep`trail
      ensures Stepped(ret)
    {
      hide Endpoint.Sound, InStep, Messages, FinishedSeen, ClientEnd, FromTicket, FromServerCcs;
      ghost var todo := FromServerFinished(ep.plan);
      FinishedIsServers(ep.plan);
      ret := ep.GetFinished(todo);
      if ret != WaitOk {
        return;
      }
      FinishedNow(old(ep.trail), Server);
      state := if nego.resumed then SendClientFinished else FinishClientHandshake;
    }

    method DoFinishClientHandshake() returns (ret: Wait)
      requires At(WaitOk) && state == FinishClientHandshake
      modifies this`state
      ensures Stepped(ret)
    {
      hide Endpoint.Sound, InStep, Messages, FinishedSeen, ClientEnd, FromTicket, FromServerCcs, FromServerFinished;
      state := Done;
      return WaitOk;
    }

    // -------------------------------------------------------------- the loops

    /** ssl_client_handshake. */
    method Handshake() returns (ret: Wait)
      requires At(WaitOk)
      modifies this`state, this`nego, this`certRequest, ep`buffer, ep`hash, ep`current, ep`flight, ep`trail
      ensures ep.honest ==> ret != WaitError
      ensures ret == WaitError || (At(ret) && old(ep.trail) <= ep.trail)
      ensures ret == WaitOk ==> state == Done
      ensures ret == WaitError || ret == WaitOk || Rank(state, nego.resumed) < old(Rank(state, nego.resumed))
              || (Rank(state, nego.resumed) == old(Rank(state, nego.resumed))
                  && (ret.Retries() || (ret.Reads() && old(ep.current).None?)))
    {
      hide Endpoint.Sound, InStep, Messages, FinishedSeen, Todo, Buffered, Flow;
      while state != Done
        invariant At(WaitOk) && old(ep.trail) <= ep.trail
        invariant Rank(state, nego.resumed) < old(Rank(state, nego.resumed))
                  || (state == old(state) && nego == old(nego) && ep.current == old(ep.current))
        decreases Rank(state, nego.resumed)
      {
        ret := Do();
        if ret != WaitOk {
          return;
        }
      }
      return WaitOk;
    }

    /** The switch of ssl_client_handshake. */
    method Do() returns (ret: Wait)
      requires At(WaitOk) && state != Done
      modifies this`state, this`nego, this`certRequest, ep`buffer, ep`hash, ep`current, ep`flight, ep`trail
      ensures Stepped(ret)
    {
      hide Endpoint.Sound, InStep, Messages, FinishedSeen, Todo, Buffered, Flow, At, Rank;
      match state
      case StartConnect => ret := DoStartConnect();
      case EnterEarlyData => ret := DoEnterEarlyData();
      case ReadServerHello => ret := DoReadServerHello();
      case ReadServerCertificate => ret := DoReadServerCertificate();
      case ReadCertificateStatus => ret := DoReadCertificateStatus();
      case VerifyServerCertificate => ret := DoVerifyServerCertificate();
      case ReadServerKeyExchange => ret := DoReadServerKeyExchange();
      case ReadCertificateRequest => ret := DoReadCertificateRequest();
      case ReadServerHelloDone => ret := DoReadServerHelloDone();
      case SendClientCertificate => ret := DoSendClientCertificate();
      case SendClientKeyExchange => ret := DoSendClientKeyExchange();
      case SendClientCertificateVerify => ret := DoSendClientCertificateVerify();
      case SendClientFinished => ret := DoSendClientFinished();
      case FinishFlight => ret := DoFinishFlight();
      case ReadSessionTicket => ret := DoReadSessionTicket();
      case ProcessChangeCipherSpec => ret := DoProcessChangeCipherSpec();
      case ReadServerFinished => ret := DoReadServerFinished();
      case FinishClientHandshake => ret := DoFinishClientHandshake();
    }

    method ResolveRead(ghost theirs: seq<Turn>) returns (go: bool, ghost taken: seq<Item>)
      requires At(wait) && wait.Reads()
      modifies ep`current, ep`popped, ep`honest, ep.inp
      ensures old(ep.honest) && old(ep.Sends(theirs)) ==>
                ep.honest && ep.Sends(theirs) && old(ep.inp.items) == taken + ep.inp.items
                    && ep.popped == old(ep.popped) + taken
      ensures ep.honest ==> old(ep.honest)
      ensures if go then At(WaitOk) && ep.current.Some?
              else At(wait) && (ep.honest ==> taken == [] && ep.inp.items == [])
    {
      hide Endpoint.Sound, InStep, Messages, FinishedSeen, Buffered, Flow, FromTicket, FromServerFinished, Proper, Of;
      taken := [];
      var r := ep.OpenHandshake(theirs);
      if r == WaitError && ep.honest {
        DueNext(ep.plan, ep.trail, Turn(Server, Ccs), Todo(ep.plan, state, wait));
        assert false;
      }
      go := r == WaitOk;
      if go {
        taken := [old(ep.inp.items)[0]];
      }
    }

    method ResolveCcs(ghost theirs: seq<Turn>) returns (go: bool, ghost taken: seq<Item>)
      requires At(wait) && wait == WaitReadCcs
      modifies ep`popped, ep`trail, ep`honest, ep.inp
      ensures old(ep.honest) && old(ep.Sends(theirs)) ==>
                ep.honest && ep.Sends(theirs) && old(ep.inp.items) == taken + ep.inp.items
                    && ep.popped == old(ep.popped) + taken
      ensures ep.honest ==> old(ep.honest)
      ensures if go then At(WaitOk) else At(wait) && (ep.honest ==> taken == [] && ep.inp.items == [])
    {
      hide Endpoint.Sound, InStep, Messages, FinishedSeen, Buffered, Flow, FromTicket, FromServerFinished, Proper, Of;
      taken := [];
      var r := ep.OpenChangeCipherSpec(theirs, FromServerFinished(ep.plan));
      go := r == WaitOk;
      if go {
        taken := [old(ep.inp.items)[0]];
      }
    }

    method ResolveFlush() returns (go: bool, ghost moved: seq<Item>)
      requires At(wait) && wait == WaitFlush
      modifies ep`flight, ep`pushed, ep.outp
      ensures ep.outp.items == old(ep.outp.items) + moved && ep.pushed == old(ep.pushed) + moved
      ensures At(wait) && (go ==> At(WaitOk))
    {
      hide Endpoint.Sound, InStep, Messages, FinishedSeen, Buffered, Flow, FromTicket, FromServerFinished, Proper, Of;
      go, moved := ep.FlushFlight();
    }

    lemma {:induction false} Proceeds(w: Wait)
      requires At(w) && w != WaitReadCcs && w != WaitFlush
      ensures At(WaitOk)
    {
      hide Endpoint.Sound, InStep, Messages, FinishedSeen, Buffered;
    }

    /** A message or a ChangeCipherSpec is waited for, and there is nothing to read. */
    ghost predicate Starved()
      reads this`wait, ep.inp
    {
      (wait.Reads() || wait == WaitReadCcs) && ep.inp.items == []
    }

    /** The first half of the loop of ssl_run_handshake: what the handshake waits for is settled, or
        it is back to the caller: `held` up by the transport or the application, or starved. */
    method Resolve(ghost theirs: seq<Turn>)
      returns (go: bool, ret: int, held: bool, ghost moved: seq<Item>, ghost taken: seq<Item>)
      requires At(wait) && wait != WaitError && ep.inp != ep.outp
      modifies this`wait, ep`flight, ep`pushed, ep`current, ep`popped, ep`trail, ep`honest, ep.inp, ep.outp
      ensures ep.outp.items == old(ep.outp.items) + moved && ep.pushed == old(ep.pushed) + moved
      ensures old(ep.honest) && old(ep.Sends(theirs)) ==>
                ep.honest && ep.Sends(theirs) && old(ep.inp.items) == taken + ep.inp.items
                    && ep.popped == old(ep.popped) + taken
      ensures ep.honest ==> old(ep.honest)
      ensures if go then At(WaitOk) && wait == old(wait) && (wait.Reads() ==> ep.current.Some?) && !wait.Retries()
              && wait != WaitEarlyReturn
              else At(wait) && wait != WaitError
      ensures !go && held && ret == 1 ==> old(wait) == WaitEarlyReturn && wait == WaitOk
      ensures !go && !held && ep.honest ==> Starved() && wait == old(wait) && moved == [] && taken == []
      ensures old(wait) == WaitOk ==> go && moved == [] && taken == []
    {
      hide Endpoint.Sound, Endpoint.Sends, At;
      moved, taken := [], [];
      go, ret, held := true, -1, false;
      if wait == WaitFlush {
        go, moved := ResolveFlush();
        held := !go;
        if old(ep.Sends(theirs)) {
          MoreSent(theirs);
        }
      } else if wait.Reads() {
        go, taken := ResolveRead(theirs);
      } else if wait == WaitReadCcs {
        go, taken := ResolveCcs(theirs);
      } else if wait != WaitOk {
        Proceeds(wait);
        go, held, ret := false, true, if wait == WaitEarlyReturn then 1 else -1;
        wait := WaitOk;
      }
    }

    twostate lemma {:induction false} MoreSent(theirs: seq<Turn>)
      requires old(ep.Sends(theirs)) && old(ep.pushed) <= ep.pushed
      requires ep.popped == old(ep.popped) && ep.inp.items == old(ep.inp.items)
      ensures ep.Sends(theirs)
    {
      hide Proper, Of;
    }

    /** One round of the loop of ssl_run_handshake. */
    method Round(ghost theirs: seq<Turn>)
      returns (again: bool, ret: int, held: bool, ghost moved: seq<Item>, ghost taken: seq<Item>)
      requires Valid() && wait != WaitError && ep.inp != ep.outp
      modifies this`state, this`wait, this`nego, this`certRequest, ep, ep.inp, ep.outp
      ensures Valid() && (again ==> wait != WaitError)
      ensures ep.outp.items == old(ep.outp.items) + moved && ep.pushed == old(ep.pushed) + moved
      ensures old(ep.honest) && old(ep.Sends(theirs)) ==>
                && ep.honest && wait != WaitError && ep.Sends(theirs)
                && old(ep.inp.items) == taken + ep.inp.items && ep.popped == old(ep.popped) + taken
      ensures again ==> Left() < old(Left())
      ensures !again && held && ret == 1 ==> Left() == old(Left())
      ensures !again && !held && wait != WaitError && ep.honest ==>
                Left() < old(Left()) || (Resting() && Same() && moved == [] && taken == [])
    {
      hide Endpoint.Sound, Endpoint.Sends, At, Rank, Params.Valid, Left, Resting, Phase;
      if ep.honest {
        ReadsNotDone();
      }
      var go;
      go, ret, held, moved, taken := Resolve(theirs);
      Paused();
      if !go {
        return false, ret, held, moved, taken;
      }
      var again0, ret0 := Advance();
      return again0, if again0 then ret else ret0, false, moved, taken;
    }

    /** The second half of the loop. */
    method Advance() returns (again: bool, ret: int)
      requires At(WaitOk) && wait != WaitError && !wait.Retries() && wait != WaitEarlyReturn
      requires wait.Reads() ==> ep.current.Some? && (ep.honest ==> state != Done)
      modifies this`state, this`wait, this`nego, this`certRequest, ep`buffer, ep`hash,
               ep`current, ep`flight, ep`trail
      ensures wait == WaitError || At(wait)
      ensures old(ep.trail) <= ep.trail || wait == WaitError
      ensures ep.honest ==> wait != WaitError
      ensures again ==> wait != WaitError && Left() < old(Left())
      ensures !again && wait != WaitError && ep.honest ==>
                ret == 1 && (Left() < old(Left()) || (Resting() && Same() && old(wait) == WaitOk))
    {
      hide Endpoint.Sound, Endpoint.Sends, At, Rank, Params.Valid, Left, Resting, Same;
      RankOfDone();
      wait := Handshake();
      RankOfDone();
      GotOn();
      if wait == WaitError {
        return false, -1;
      }
      if wait == WaitOk {
        return false, 1;
      }
      return true, 0;
    }

    twostate lemma {:induction false} Paused()
      requires state == old(state) && nego == old(nego)
      ensures old(wait) == WaitEarlyReturn && wait == WaitOk ==> Left() == old(Left())
      ensures wait == old(wait) ==> Same()
      ensures Starved() ==> Resting()
    {
      hide Rank;
    }

    twostate lemma {:induction false} GotOn()
      requires Rank(state, nego.resumed) == 0 <==> state == Done
      ensures Rank(state, nego.resumed) < old(Rank(state, nego.resumed)) ==> Left() < old(Left())
      ensures Rank(state, nego.resumed) == old(Rank(state, nego.resumed)) && Phase(wait) < old(Phase(wait)) ==>
                Left() < old(Left())
      ensures old(state) == Done == state && wait == old(wait) ==> Same()
      ensures state == Done && wait == WaitOk ==> Resting()
    {
    }

    lemma {:induction false} ReadsNotDone()
      requires Valid() && wait != WaitError && ep.honest
      ensures wait.Reads() ==> state != Done
    {
      hide Endpoint.Sound, InStep, Messages, FinishedSeen, Buffered;
    }

    lemma {:induction false} RankOfDone()
      ensures Rank(state, nego.resumed) == 0 <==> state == Done
    {
    }

    /** What is left to do: the states to come, and then what is waited for. */
    ghost function Left(): nat
      reads this`state, this`nego, this`wait
    {
      4 * Rank(state, nego.resumed) + Phase(wait)
    }

    twostate predicate Same()
      reads this
    {
      state == old(state) && wait == old(wait) && Left() == old(Left())
    }

    /** Done, or nothing to go on with. */
    ghost predicate Resting()
      reads this`state, this`wait, ep.inp
    {
      (state == Done && wait == WaitOk) || Starved()
    }

    /** ssl_run_handshake. If the other side has kept to the flow, so does this one, and it does not
        fail; whatever the other side does, it stays sound. Unless it is held up by the transport or
        the application, it gets on, or rests where it was. */
    method RunHandshake(ghost theirs: seq<Turn>)
      returns (ret: int, held: bool, ghost moved: seq<Item>, ghost taken: seq<Item>)
      requires Valid() && ep.inp != ep.outp
      modifies this`state, this`wait, this`nego, this`certRequest, ep, ep.inp, ep.outp
      ensures Valid()
      ensures ep.outp.items == old(ep.outp.items) + moved && ep.pushed == old(ep.pushed) + moved
      ensures old(wait) != WaitError && old(ep.honest) && old(ep.Sends(theirs)) ==>
                && ep.honest && wait != WaitError
                && old(ep.inp.items) == taken + ep.inp.items && ep.popped == old(ep.popped) + taken
                && (!held ==> Left() < old(Left())
                              || (Resting() && Same() && moved == [] && taken == []))
    {
      hide Valid, Endpoint.Sends, Rank, Phase, Left, Resting;
      moved, taken, held := [], [], false;
      if wait == WaitError {
        ret := -1;
        return;
      }
      var first := true;
      while true
        invariant if first then Same() && moved == [] && taken == [] else Left() < old(Left())
        invariant Valid() && wait != WaitError
        invariant ep.outp.items == old(ep.outp.items) + moved && ep.pushed == old(ep.pushed) + moved
        invariant old(ep.honest) && old(ep.Sends(theirs)) ==>
                    && ep.honest && ep.Sends(theirs)
                    && old(ep.inp.items) == taken + ep.inp.items && ep.popped == old(ep.popped) + taken
        decreases Left()
      {
        ghost var sent, got;
        var again;
        again, ret, held, sent, got := Round(theirs);
        moved, taken := moved + sent, taken + got;
        if !again {
          held := held && (first || ret != 1);
          return;
        }
        first := false;
      }
    }

    static function Phase(w: Wait): nat
    {
      if w.Retries() || w == WaitError then 0
      else if w.Reads() then 1
      else if w == WaitOk || w == WaitEarlyReturn then 2
      else 3
    }
  }
}
