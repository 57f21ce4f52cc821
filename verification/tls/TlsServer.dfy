/** The TLS 1.2 server's handshake: the steps and the loop of handshake_server.cc, and
    ssl_run_handshake of handshake.cc. Messages parse and certificates verify; callbacks, session
    lookups and private key operations may ask to be called again. */
module TlsServer {
  import opened TlsFlow
  import opened TlsEndpoint

  datatype State =
    | StartAccept | ReadClientHello | SelectCertificate | SelectParameters | SendServerHello | SendServerCertificate
    | SendServerKeyExchange | SendServerHelloDone | ReadClientCertificate | VerifyClientCertificate
    | ReadClientKeyExchange | ReadClientCertificateVerify | ReadChangeCipherSpec | ProcessChangeCipherSpec
    | ReadNextProto | ReadChannelId | ReadClientFinished | SendServerFinished | FinishServerHandshake | Done

  /** How many states are left to go through; a resumed handshake sends its last flight first. */
  function Rank(s: State, resumed: bool): nat
  {
    match s
    case StartAccept => 20
    case ReadClientHello => 19
    case SelectCertificate => 18
    case SelectParameters => 17
    case SendServerHello => 16
    case SendServerCertificate => 15
    case SendServerKeyExchange => 14
    case SendServerHelloDone => 13
    case ReadClientCertificate => 12
    case VerifyClientCertificate => 11
    case ReadClientKeyExchange => 10
    case ReadClientCertificateVerify => 9
    case ReadChangeCipherSpec => 7
    case ProcessChangeCipherSpec => 6
    case ReadNextProto => 5
    case ReadChannelId => 4
    case ReadClientFinished => 3
    case SendServerFinished => if resumed then 8 else 2
    case FinishServerHandshake => 1
    case Done => 0
  }

  /** What of the handshake is left in a state. */
  function Todo(p: Params, s: State, w: Wait): seq<Step>
  {
    match s
    case StartAccept => Flow(p)
    case ReadClientHello => Flow(p)
    case SelectCertificate => Flow(p)
    case SelectParameters => Flow(p)
    case SendServerHello => FromServerHello(p)
    case SendServerCertificate => FromServerCert(p)
    case SendServerKeyExchange => FromServerKey(p)
    case SendServerHelloDone => FromRequest(p)
    case ReadClientCertificate => FromClientCert(p)
    case VerifyClientCertificate => FromClientKey(p)
    case ReadClientKeyExchange => FromClientKey(p)
    case ReadClientCertificateVerify => FromClientVerify(p)
    case ReadChangeCipherSpec => ClientEnd(p, AfterClient(p))
    case ProcessChangeCipherSpec => if w == WaitReadCcs then ClientEnd(p, AfterClient(p))
        else NextProtoThen(p, AfterClient(p))
    case ReadNextProto => NextProtoThen(p, AfterClient(p))
    case ReadChannelId => ChannelIdThen(p, AfterClient(p))
    case ReadClientFinished => ClientFinishedThen(p, AfterClient(p))
    case SendServerFinished => FromTicket(p)
    case FinishServerHandshake => []
    case Done => []
  }

  predicate BeforeHello(s: State)
  {
    s == StartAccept || s == ReadClientHello || s == SelectCertificate || s == SelectParameters
  }

  /** States only a full handshake goes through. */
  predicate InFull(s: State)
  {
    9 <= Rank(s, true) <= 15
  }

  /** Whether the handshake buffer is still kept. */
  predicate Buffered(s: State, certRequest: bool, peerKey: bool)
  {
    match s
    case StartAccept => true
    case ReadClientHello => true
    case SelectCertificate => true
    case SelectParameters => true
    case SendServerHello => certRequest
    case SendServerCertificate => certRequest
    case SendServerKeyExchange => certRequest
    case SendServerHelloDone => certRequest
    case ReadClientCertificate => certRequest
    case VerifyClientCertificate => peerKey
    case ReadClientKeyExchange => peerKey
    case ReadClientCertificateVerify => peerKey
    case _ => false
  }

  /** The flight may have messages that are not meant to be sent yet. */
  predicate Gathering(s: State)
  {
    s == SendServerCertificate || s == SendServerKeyExchange || s == SendServerHelloDone || s == SendServerFinished
  }

  predicate AfterCertificate(s: State)
  {
    s == VerifyClientCertificate || s == ReadClientKeyExchange || s == ReadClientCertificateVerify
  }

  /** The client's Finished has been checked. */
  predicate Checked(s: State, resumed: bool)
  {
    s == FinishServerHandshake || s == Done || (!resumed && s == SendServerFinished)
  }

  class ServerHandshake {
    const ep: Endpoint
    const choice: Nego                    // what its configuration and the ClientHello come to
    const wantCert: bool
    const wantSke: bool
    var state: State
    var wait: Wait
    var nego: Nego
    var certRequest: bool
    var serverParams: bool
    var peerKey: bool

    ghost predicate Plans()
    {
      ep.role == Server && ep.plan.Valid() && ep.plan.nego == choice && ep.plan.certRequest == wantCert
          && ep.plan.ske == wantSke
    }

    ghost predicate Valid()
      reads this, ep
    {
      Plans() && (wait == WaitError || At(wait))
    }

    /** The state fits what has been done so far; `w` is what the handshake waits for. */
    ghost predicate At(w: Wait)
      reads this`state, this`nego, this`certRequest, this`serverParams, this`peerKey, ep
    {
      && Plans()
      && ep.Sound()
      && (ep.hash.None? <==> BeforeHello(state))
      && (ep.buffer.Some? <==> Buffered(state, certRequest, peerKey))
      && (BeforeHello(state) || InFull(state) ==> !nego.resumed)
      && (!BeforeHello(state) ==> nego == choice && certRequest == wantCert)
      && (nego.resumed ==> !certRequest)
      && (Checked(state, nego.resumed) ==> FinishedSeen(ep.trail, Client))
      && (w != WaitFlush && !Gathering(state) ==> ep.flight == [])
      && (w == WaitReadCcs ==> state == ProcessChangeCipherSpec)
      && (ep.honest ==> Follows(w))
      && (w.Reads() ==> ep.current.None? && state != StartAccept)
    }

    ghost predicate Follows(w: Wait)
      reads this`state, this`nego, this`serverParams, this`peerKey, ep
    {
      && InStep(ep.plan, ep.trail, Todo(ep.plan, state, w))
      && (state == SendServerKeyExchange ==> serverParams == ep.plan.ske)
      && (AfterCertificate(state) ==> peerKey == (ep.plan.certRequest && ep.plan.clientCert))
      && (w.Reads() ==> FromPeer(Todo(ep.plan, state, w)))
    }

    /** The next step is a message of the client. */
    static predicate FromPeer(todo: seq<Step>)
    {
      todo != [] && todo[0].role == Client && todo[0].kind != KChangeCipherSpec
    }

    /** What one step of the handshake may do. If everything read was due, it does not fail; if it
        does not wait for the application, it gets on. */
    twostate predicate Stepped(ret: Wait)
      reads this, ep
    {
      && ep.honest == old(ep.honest) && ep.popped == old(ep.popped) && ep.pushed == old(ep.pushed) && wait == old(wait)
      && (ret == WaitError || old(ep.trail) <= ep.trail)
      && (ep.honest ==> ret != WaitError)
      && (ret == WaitError || At(ret))
      && (ret == WaitError || Rank(state, nego.resumed) < old(Rank(state, nego.resumed))
          || (state == old(state) && nego == old(nego) && (ret.Retries() || (ret.Reads() && old(ep.current).None?))))
    }

    constructor (e: Endpoint, n: Nego, cert: bool, ske: bool)
      requires e.Sound() && e.role == Server && e.buffer == Some([]) && e.hash.None? && e.trail == []
               && e.flight == [] && e.current.None? && e.honest
      requires e.plan.Valid() && e.plan.nego == n && e.plan.certRequest == cert && e.plan.ske == ske
      ensures Valid() && ep == e && state == StartAccept && wait == WaitOk
    {
      ep, choice, wantCert, wantSke := e, n, cert, ske;
      state, wait := StartAccept, WaitOk;
      nego, certRequest, serverParams, peerKey := Nego(false, false, false, false, false, false, false), false, false,
          false;
      new;
      assert Flow(ep.plan)[0..] == Flow(ep.plan);
    }

    method DoStartAccept() returns (ret: Wait)
      requires At(WaitOk) && state == StartAccept
      modifies this`state
      ensures Stepped(ret)
    {
      hide Endpoint.Sound, InStep, Messages, FinishedSeen, ClientEnd, FromTicket, FromServerCcs, FromServerFinished;
      state := ReadClientHello;
      return WaitOk;
    }

    /** The ClientHello stays the current message until the parameters are settled. */
    method DoReadClientHello() returns (ret: Wait)
      requires At(WaitOk) && state == ReadClientHello
      modifies this`state
      ensures Stepped(ret)
    {
      hide Endpoint.Sound, InStep, Messages, FinishedSeen, FromServerHello;
      if ep.current.None? {
        return WaitReadMessage;
      }
      if ep.honest {
        ep.Due(Flow(ep.plan));
      }
      if !ep.current.value.ClientHello? {
        return WaitError;
      }
      if * {
        return WaitCertificateSelection;
      }
      state := SelectCertificate;
      return WaitOk;
    }

    method DoSelectCertificate() returns (ret: Wait)
      requires At(WaitOk) && state == SelectCertificate
      modifies this`state
      ensures Stepped(ret)
    {
      hide Endpoint.Sound, InStep, Messages, FinishedSeen, FromServerHello;
      if ep.current.None? {
        return WaitReadMessage;
      }
      if * {
        return WaitX509Lookup;
      }
      state := SelectParameters;
      return WaitOk;
    }

    /** The hash starts with the ClientHello; the buffer is kept for a client that may sign it. */
    method HashClientHello()
      requires ep.Sound() && ep.current.Some? && ep.buffer.Some?
               && (ep.honest ==> InStep(ep.plan, ep.trail, Flow(ep.plan)))
      modifies ep`buffer, ep`hash, ep`current, ep`trail
      ensures ep.Sound() && old(ep.trail) <= ep.trail && ep.current.None? && ep.hash.Some?
      ensures ep.buffer.Some? <==> certRequest
      ensures ep.honest ==> InStep(ep.plan, ep.trail, FromServerHello(ep.plan))
    {
      hide Endpoint.Sound, InStep, FromServerHello;
      ep.InitHash();
      ep.TakeMessage(Flow(ep.plan));
      if !certRequest {
        ep.FreeBuffer();
      }
    }

    /** The session lookup may wait; nothing has been hashed by then. */
    method DoSelectParameters() returns (ret: Wait)
      requires At(WaitOk) && state == SelectParameters
      modifies this`state, this`nego, this`certRequest, this`serverParams, ep`buffer, ep`hash, ep`current, ep`trail
      ensures Stepped(ret)
    {
      hide Endpoint.Sound, InStep, Messages, FinishedSeen, FromServerHello;
      if ep.current.None? {
        return WaitReadMessage;
      }
      if * {
        return WaitPendingSession;
      }
      if * {
        return WaitPendingTicket;
      }
      nego, certRequest, serverParams := choice, wantCert, false;
      HashClientHello();
      state := SendServerHello;
      return WaitOk;
    }

    method DoSendServerHello() returns (ret: Wait)
      requires At(WaitOk) && state == SendServerHello
      modifies this`state, ep`buffer, ep`hash, ep`flight, ep`trail
      ensures Stepped(ret)
    {
      hide Endpoint.Sound, InStep, Messages, FinishedSeen, FromServerCert, ClientEnd, FromTicket, FromServerCcs,
        FromServerFinished;
      HelloRest(ep.plan);
      ep.AddMessage(ServerHello(nego), if ep.plan.nego.resumed then FromTicket(ep.plan) else FromServerCert(ep.plan));
      state := if nego.resumed then SendServerFinished else SendServerCertificate;
      return WaitOk;
    }

    /** The parameters are kept, so that a retried signature is over the same ones. */
    method DoSendServerCertificate() returns (ret: Wait)
      requires At(WaitOk) && state == SendServerCertificate
      modifies this`state, this`serverParams, ep`buffer, ep`hash, ep`flight, ep`trail
      ensures Stepped(ret)
    {
      hide Endpoint.Sound, InStep, Messages, FinishedSeen, FromServerKey, ClientEnd, FromTicket, FromServerCcs,
        FromServerFinished;
      OptRest(ep.plan.nego.certAuth, Server, KCertificate, FromStatus(ep.plan));
      OptRest(ep.plan.nego.status, Server, KCertificateStatus, FromServerKey(ep.plan));
      if nego.certAuth {
        ep.AddMessage(Certificate(true), FromStatus(ep.plan));
        if nego.status {
          ep.AddMessage(CertificateStatus, FromServerKey(ep.plan));
        }
      }
      serverParams := wantSke;
      state := SendServerKeyExchange;
      return WaitOk;
    }

    method DoSendServerKeyExchange() returns (ret: Wait)
      requires At(WaitOk) && state == SendServerKeyExchange
      modifies this`state, this`serverParams, ep`buffer, ep`hash, ep`flight, ep`trail
      ensures Stepped(ret)
    {
      hide Endpoint.Sound, InStep, Messages, FinishedSeen, FromRequest, ClientEnd, FromTicket, FromServerCcs,
        FromServerFinished;
      OptRest(ep.plan.ske, Server, KServerKeyExchange, FromRequest(ep.plan));
      if !serverParams {
        state := SendServerHelloDone;
        return WaitOk;
      }
      if nego.certAuth {
        if * {
          return WaitPrivateKey;
        }
      }
      ep.AddMessage(ServerKeyExchange, FromRequest(ep.plan));
      serverParams := false;
      state := SendServerHelloDone;
      return WaitOk;
    }

    method DoSendServerHelloDone() returns (ret: Wait)
      requires At(WaitOk) && state == SendServerHelloDone
      modifies this`state, ep`buffer, ep`hash, ep`flight, ep`trail
      ensures Stepped(ret)
    {
      hide Endpoint.Sound, InStep, Messages, FinishedSeen, FromClientCert, ClientEnd, FromTicket, FromServerCcs,
        FromServerFinished;
      OptRest(ep.plan.certRequest, Server, KCertificateRequest, FromDone(ep.plan));
      if certRequest {
        ep.AddMessage(CertificateRequest, FromDone(ep.plan));
      }
      ep.AddMessage(ServerHelloDone, FromClientCert(ep.plan));
      state := ReadClientCertificate;
      return WaitFlush;
    }

    method HashCertificate()
      requires ep.Sound() && ep.current.Some? && ep.buffer.Some? && ep.hash.Some?
      requires ep.honest ==> InStep(ep.plan, ep.trail, FromClientCert(ep.plan))
      modifies ep`buffer, ep`hash, ep`current, ep`trail
      ensures ep.Sound() && old(ep.trail) <= ep.trail && ep.current.None? && ep.hash.Some?
              && (ep.buffer.Some? <==> peerKey)
      ensures ep.honest ==> FromClientCert(ep.plan) != [] && InStep(ep.plan, ep.trail, FromClientCert(ep.plan)[1..])
    {
      hide Endpoint.Sound, InStep, FromClientCert;
      ep.TakeMessage(FromClientCert(ep.plan));
      if !peerKey {
        ep.FreeBuffer();
      }
    }

    /** An empty certificate means there will be no signature, and the buffer goes. */
    method DoReadClientCertificate() returns (ret: Wait)
      requires At(WaitOk) && state == ReadClientCertificate
      modifies this`state, this`peerKey, ep`buffer, ep`hash, ep`current, ep`trail
      ensures Stepped(ret)
    {
      hide Endpoint.Sound, InStep, Messages, FinishedSeen, FromClientKey, ClientEnd, FromTicket, FromServerCcs,
        FromServerFinished;
      ghost var todo := FromClientCert(ep.plan);
      OptRest(ep.plan.certRequest, Client, KCertificate, FromClientKey(ep.plan));
      if !certRequest {
        peerKey := false;
        state := VerifyClientCertificate;
        return WaitOk;
      }
      if ep.current.None? {
        return WaitReadMessage;
      }
      if ep.honest {
        ep.Due(todo);
      }
      if !ep.current.value.Certificate? {
        return WaitError;
      }
      peerKey := ep.current.value.present;
      HashCertificate();
      state := VerifyClientCertificate;
      return WaitOk;
    }

    method DoVerifyClientCertificate() returns (ret: Wait)
      requires At(WaitOk) && state == VerifyClientCertificate
      modifies this`state
      ensures Stepped(ret)
    {
      hide Endpoint.Sound, InStep, Messages, FinishedSeen, FromClientKey;
      if peerKey {
        if * {
          return WaitCertificateVerify;
        }
      }
      state := ReadClientKeyExchange;
      return WaitOk;
    }

    /** The message is hashed only after the private key operation, which may wait. */
    method DoReadClientKeyExchange() returns (ret: Wait)
      requires At(WaitOk) && state == ReadClientKeyExchange
      modifies this`state, ep`buffer, ep`hash, ep`current, ep`trail
      ensures Stepped(ret)
    {
      hide Endpoint.Sound, InStep, Messages, FinishedSeen, FromClientVerify, ClientEnd, FromTicket, FromServerCcs,
        FromServerFinished;
      ghost var todo := FromClientKey(ep.plan);
      if ep.current.None? {
        return WaitReadMessage;
      }
      if ep.honest {
        ep.Due(todo);
      }
      if !ep.current.value.ClientKeyExchange? {
        return WaitError;
      }
      if * {
        return WaitPrivateKey;
      }
      ep.TakeMessage(todo);
      state := ReadClientCertificateVerify;
      return WaitOk;
    }

    method HashVerify()
      requires ep.Sound() && ep.current.Some? && ep.hash.Some?
      requires ep.honest ==> InStep(ep.plan, ep.trail, FromClientVerify(ep.plan))
      modifies ep`buffer, ep`hash, ep`current, ep`trail
      ensures ep.Sound() && old(ep.trail) <= ep.trail && ep.current.None? && ep.hash.Some? && ep.buffer.None?
      ensures ep.honest ==> FromClientVerify(ep.plan) != [] && InStep(ep.plan, ep.trail, FromClientVerify(ep.plan)[1..])
    {
      hide Endpoint.Sound, InStep, FromClientVerify;
      ep.FreeBuffer();
      ep.TakeMessage(FromClientVerify(ep.plan));
    }

    /** A message due here is the CertificateVerify over this side's own transcript. */
    lemma {:induction false} VerifyDue()
      requires At(WaitOk) && state == ReadClientCertificateVerify && peerKey && ep.current.Some?
      ensures ep.buffer.Some?
      ensures ep.honest ==> ep.current.value.CertificateVerify? && ep.current.value.signed == ep.buffer.value
    {
      hide Params.Valid, Endpoint.Sound, InStep, Messages, FinishedSeen, Flow, FromServerHello, FromServerCert,
        FromStatus, FromServerKey, FromRequest, FromDone, FromClientCert, FromClientKey, NextProtoThen, ClientEnd,
        FromTicket, FromServerCcs, FromServerFinished;
      OptRest(ep.plan.certRequest && ep.plan.clientCert, Client, KCertificateVerify,
              ClientEnd(ep.plan, AfterClient(ep.plan)));
      if ep.honest {
        ep.Due(FromClientVerify(ep.plan));
      }
      ep.BufferIs();
    }

    /** The signature is checked against the handshake buffer, which is still there, and then goes. */
    method DoReadClientCertificateVerify() returns (ret: Wait)
      requires At(WaitOk) && state == ReadClientCertificateVerify
      modifies this`state, ep`buffer, ep`hash, ep`current, ep`trail
      ensures Stepped(ret)
    {
      hide Params.Valid, Endpoint.Sound, InStep, Messages, FinishedSeen, Flow, FromServerHello, FromServerCert,
        FromStatus, FromServerKey, FromRequest, FromDone, FromClientCert, FromClientKey, NextProtoThen, ClientEnd,
        FromTicket, FromServerCcs, FromServerFinished;
      OptRest(ep.plan.certRequest && ep.plan.clientCert, Client, KCertificateVerify,
              ClientEnd(ep.plan, AfterClient(ep.plan)));
      if !peerKey {
        ep.FreeBuffer();
        state := ReadChangeCipherSpec;
        return WaitOk;
      }
      if ep.current.None? {
        return WaitReadMessage;
      }
      VerifyDue();
      if !ep.current.value.CertificateVerify? {
        return WaitError;
      }
      if ep.current.value.signed != ep.buffer.value {
        return WaitError;
      }
      HashVerify();
      state := ReadChangeCipherSpec;
      return WaitOk;
    }

    method DoReadChangeCipherSpec() returns (ret: Wait)
      requires At(WaitOk) && state == ReadChangeCipherSpec
      modifies this`state
      ensures Stepped(ret)
    {
      hide Endpoint.Sound, InStep, Messages, FinishedSeen, ClientEnd;
      state := ProcessChangeCipherSpec;
      return WaitReadCcs;
    }

    /** tls1_change_cipher_state: the read keys change. */
    method DoProcessChangeCipherSpec() returns (ret: Wait)
      requires At(WaitOk) && state == ProcessChangeCipherSpec
      modifies this`state
      ensures Stepped(ret)
    {
      hide Endpoint.Sound, InStep, Messages, FinishedSeen, NextProtoThen;
      state := ReadNextProto;
      return WaitOk;
    }

    method DoReadNextProto() returns (ret: Wait)
      requires At(WaitOk) && state == ReadNextProto
      modifies this`state, ep`buffer, ep`hash, ep`current, ep`trail
      ensures Stepped(ret)
    {
      hide Params.Valid, Endpoint.Sound, InStep, Messages, FinishedSeen, Flow, FromServerHello, FromServerCert,
        FromStatus, FromServerKey, FromRequest, FromDone, FromClientCert, FromClientKey, FromClientVerify,
        ClientEnd, FromTicket, ChannelIdThen, AfterClient;
      ghost var todo := NextProtoThen(ep.plan, AfterClient(ep.plan));
      OptRest(ep.plan.nego.nextProto, Client, KNextProto, ChannelIdThen(ep.plan, AfterClient(ep.plan)));
      if !nego.nextProto {
        state := ReadChannelId;
        return WaitOk;
      }
      if ep.current.None? {
        return WaitReadMessage;
      }
      if ep.honest {
        ep.Due(todo);
      }
      if !ep.current.value.NextProto? {
        return WaitError;
      }
      ep.TakeMessage(todo);
      state := ReadChannelId;
      return WaitOk;
    }

    method DoReadChannelId() returns (ret: Wait)
      requires At(WaitOk) && state == ReadChannelId
      modifies this`state, ep`buffer, ep`hash, ep`current, ep`trail
      ensures Stepped(ret)
    {
      hide Params.Valid, Endpoint.Sound, InStep, Messages, FinishedSeen, Flow, FromServerHello, FromServerCert,
        FromStatus, FromServerKey, FromRequest, FromDone, FromClientCert, FromClientKey, FromClientVerify,
        ClientEnd, FromTicket, ClientFinishedThen, AfterClient;
      ghost var todo := ChannelIdThen(ep.plan, AfterClient(ep.plan));
      OptRest(ep.plan.nego.channelId, Client, KChannelId, ClientFinishedThen(ep.plan, AfterClient(ep.plan)));
      if !nego.channelId {
        state := ReadClientFinished;
        return WaitOk;
      }
      if ep.current.None? {
        return WaitReadMessage;
      }
      if ep.honest {
        ep.Due(todo);
      }
      if !ep.current.value.ChannelId? {
        return WaitError;
      }
      ep.TakeMessage(todo);
      state := ReadClientFinished;
      return WaitOk;
    }

    /** The client's Finished is checked before anything else happens. */
    method DoReadClientFinished() returns (ret: Wait)
      requires At(WaitOk) && state == ReadClientFinished
      modifies this`state, ep`buffer, ep`hash, ep`current, ep`trail
      ensures Stepped(ret)
    {
      hide Endpoint.Sound, InStep, Messages, FinishedSeen, FromTicket;
      ghost var todo := ClientFinishedThen(ep.plan, AfterClient(ep.plan));
      ret := ep.GetFinished(todo);
      if ret != WaitOk {
        return;
      }
      FinishedNow(old(ep.trail), Client);
      state := if nego.resumed then FinishServerHandshake else SendServerFinished;
    }

    /** A new ticket if one is due, ChangeCipherSpec and Finished. */
    method SendEnd()
      requires ep.Sound() && ep.role == Server && ep.hash.Some? && ep.buffer.None?
      requires ep.honest ==> nego == ep.plan.nego && InStep(ep.plan, ep.trail, FromTicket(ep.plan))
      modifies ep`buffer, ep`hash, ep`flight, ep`trail
      ensures ep.Sound() && ep.hash.Some? && ep.buffer.None? && old(ep.trail) <= ep.trail
      ensures ep.honest ==>
              InStep(ep.plan, ep.trail, if ep.plan.nego.resumed then ClientEnd(ep.plan, []) else []) && ep.current.None?
    {
      hide Endpoint.Sound, InStep, Messages, ClientEnd;
      OptRest(ep.plan.nego.ticket, Server, KNewSessionTicket, FromServerCcs(ep.plan));
      if nego.ticket {
        var empty := *;
        ep.AddMessage(NewSessionTicket(empty), FromServerCcs(ep.plan));
      }
      ep.AddChangeCipherSpec(FromServerFinished(ep.plan));
      ep.SendFinished(if ep.plan.nego.resumed then ClientEnd(ep.plan, []) else []);
    }

    method DoSendServerFinished() returns (ret: Wait)
      requires At(WaitOk) && state == SendServerFinished
      modifies this`state, ep`buffer, ep`hash, ep`flight, ep`trail
      ensures Stepped(ret)
    {
      hide Endpoint.Sound, InStep, Messages, FinishedSeen, ClientEnd, FromTicket, FromServerCcs, FromServerFinished,
        Flow;
      SendEnd();
      if !nego.resumed {
        FinishedGrows(old(ep.trail), ep.trail, Client);
      }
      state := if nego.resumed then ReadChangeCipherSpec else FinishServerHandshake;
      return WaitFlush;
    }

    method DoFinishServerHandshake() returns (ret: Wait)
      requires At(WaitOk) && state == FinishServerHandshake
      modifies this`state
      ensures Stepped(ret)
    {
      hide Endpoint.Sound, InStep, Messages, FinishedSeen;
      state := Done;
      return WaitOk;
    }

    // -------------------------------------------------------------- the loops

    /** ssl_server_handshake. */
    method Handshake() returns (ret: Wait)
      requires At(WaitOk)
      modifies this`state, this`nego, this`certRequest, this`serverParams, this`peerKey, ep`buffer, ep`hash,
               ep`current, ep`flight, ep`trail
      ensures ep.honest ==> ret != WaitError
      ensures ret == WaitError || (At(ret) && old(ep.trail) <= ep.trail)
      ensures ret == WaitOk ==> state == Done
      ensures ret == WaitError || ret == WaitOk || Rank(state, nego.resumed) < old(Rank(state, nego.resumed))
              || (Rank(state, nego.resumed) == old(Rank(state, nego.resumed))
                  && (ret.Retries() || (ret.Reads() && old(ep.current).None?)))
    {
      hide Endpoint.Sound, InStep, Messages, FinishedSeen, Todo, Buffered, Flow;
      while state != Done
        invariant At(WaitOk) && old(ep.trail) <= ep.trail
        invariant Rank(state, nego.resumed) < old(Rank(state, nego.resumed))
                  || (state == old(state) && nego == old(nego) && ep.current == old(ep.current))
        decreases Rank(state, nego.resumed)
      {
        ret := Do();
        if ret != WaitOk {
          return;
        }
      }
      return WaitOk;
    }

    /** The switch of ssl_server_handshake. */
    method Do() returns (ret: Wait)
      requires At(WaitOk) && state != Done
      modifies this`state, this`nego, this`certRequest, this`serverParams, this`peerKey, ep`buffer, ep`hash,
               ep`current, ep`flight, ep`trail
      ensures Stepped(ret)
    {
      hide Endpoint.Sound, InStep, Messages, FinishedSeen, Todo, Buffered, Flow, At, Rank;
      match state
      case StartAccept => ret := DoStartAccept();
      case ReadClientHello => ret := DoReadClientHello();
      case SelectCertificate => ret := DoSelectCertificate();
      case SelectParameters => ret := DoSelectParameters();
      case SendServerHello => ret := DoSendServerHello();
      case SendServerCertificate => ret := DoSendServerCertificate();
      case SendServerKeyExchange => ret := DoSendServerKeyExchange();
      case SendServerHelloDone => ret := DoSendServerHelloDone();
      case ReadClientCertificate => ret := DoReadClientCertificate();
      case VerifyClientCertificate => ret := DoVerifyClientCertificate();
      case ReadClientKeyExchange => ret := DoReadClientKeyExchange();
      case ReadClientCertificateVerify => ret := DoReadClientCertificateVerify();
      case ReadChangeCipherSpec => ret := DoReadChangeCipherSpec();
      case ProcessChangeCipherSpec => ret := DoProcessChangeCipherSpec();
      case ReadNextProto => ret := DoReadNextProto();
      case ReadChannelId => ret := DoReadChannelId();
      case ReadClientFinished => ret := DoReadClientFinished();
      case SendServerFinished => ret := DoSendServerFinished();
      case FinishServerHandshake => ret := DoFinishServerHandshake();
    }

    method ResolveRead(ghost theirs: seq<Turn>) returns (go: bool, ghost taken: seq<Item>)
      requires At(wait) && wait.Reads()
      modifies ep`current, ep`popped, ep`honest, ep.inp
      ensures old(ep.honest) && old(ep.Sends(theirs)) ==>
                ep.honest && ep.Sends(theirs) && old(ep.inp.items) == taken + ep.inp.items
                    && ep.popped == old(ep.popped) + taken
      ensures ep.honest ==> old(ep.honest)
      ensures if go then At(WaitOk) && ep.current.Some?
              else At(wait) && (ep.honest ==> taken == [] && ep.inp.items == [])
    {
      hide Endpoint.Sound, InStep, Messages, FinishedSeen, Buffered, Flow, FromTicket, NextProtoThen, Proper, Of;
      taken := [];
      var r := ep.OpenHandshake(theirs);
      if r == WaitError && ep.honest {
        DueNext(ep.plan, ep.trail, Turn(Client, Ccs), Todo(ep.plan, state, wait));
        assert false;
      }
      go := r == WaitOk;
      if go {
        taken := [old(ep.inp.items)[0]];
      }
    }

    method ResolveCcs(ghost theirs: seq<Turn>) returns (go: bool, ghost taken: seq<Item>)
      requires At(wait) && wait == WaitReadCcs
      modifies ep`popped, ep`trail, ep`honest, ep.inp
      ensures old(ep.honest) && old(ep.Sends(theirs)) ==>
                ep.honest && ep.Sends(theirs) && old(ep.inp.items) == taken + ep.inp.items
                    && ep.popped == old(ep.popped) + taken
      ensures ep.honest ==> old(ep.honest)
      ensures if go then At(WaitOk) else At(wait) && (ep.honest ==> taken == [] && ep.inp.items == [])
    {
      hide Endpoint.Sound, InStep, Messages, FinishedSeen, Buffered, Flow, FromTicket, NextProtoThen, Proper, Of;
      taken := [];
      var r := ep.OpenChangeCipherSpec(theirs, NextProtoThen(ep.plan, AfterClient(ep.plan)));
      go := r == WaitOk;
      if go {
        taken := [old(ep.inp.items)[0]];
      }
    }

    method ResolveFlush() returns (go: bool, ghost moved: seq<Item>)
      requires At(wait) && wait == WaitFlush
      modifies ep`flight, ep`pushed, ep.outp
      ensures ep.outp.items == old(ep.outp.items) + moved && ep.pushed == old(ep.pushed) + moved
      ensures At(wait) && (go ==> At(WaitOk))
    {
      hide Endpoint.Sound, InStep, Messages, FinishedSeen, Buffered, Flow, FromTicket, NextProtoThen, Proper, Of;
      go, moved := ep.FlushFlight();
    }

    lemma {:induction false} Proceeds(w: Wait)
      requires At(w) && w != WaitReadCcs && w != WaitFlush
      ensures At(WaitOk)
    {
      hide Endpoint.Sound, InStep, Messages, FinishedSeen, Buffered;
    }

    /** A message or a ChangeCipherSpec is waited for, and there is nothing to read. */
    ghost predicate Starved()
      reads this`wait, ep.inp
    {
      (wait.Reads() || wait == WaitReadCcs) && ep.inp.items == []
    }

    /** The first half of the loop of ssl_run_handshake: what the handshake waits for is settled, or
        it is back to the caller: `held` up by the transport or the application, or starved. */
    method Resolve(ghost theirs: seq<Turn>)
      returns (go: bool, ret: int, held: bool, ghost moved: seq<Item>, ghost taken: seq<Item>)
      requires At(wait) && wait != WaitError && ep.inp != ep.outp
      modifies this`wait, ep`flight, ep`pushed, ep`current, ep`popped, ep`trail, ep`honest, ep.inp, ep.outp
      ensures ep.outp.items == old(ep.outp.items) + moved && ep.pushed == old(ep.pushed) + moved
      ensures old(ep.honest) && old(ep.Sends(theirs)) ==>
                ep.honest && ep.Sends(theirs) && old(ep.inp.items) == taken + ep.inp.items
                    && ep.popped == old(ep.popped) + taken
      ensures ep.honest ==> old(ep.honest)
      ensures if go then At(WaitOk) && wait == old(wait) && (wait.Reads() ==> ep.current.Some?) && !wait.Retries()
              && wait != WaitEarlyReturn
              else At(wait) && wait != WaitError
      ensures !go && held && ret == 1 ==> old(wait) == WaitEarlyReturn && wait == WaitOk
      ensures !go && !held && ep.honest ==> Starved() && wait == old(wait) && moved == [] && taken == []
      ensures old(wait) == WaitOk ==> go && moved == [] && taken == []
    {
      hide Endpoint.Sound, Endpoint.Sends, At;
      moved, taken := [], [];
      go, ret, held := true, -1, false;
      if wait == WaitFlush {
        go, moved := ResolveFlush();
        held := !go;
        if old(ep.Sends(theirs)) {
          MoreSent(theirs);
        }
      } else if wait.Reads() {
        go, taken := ResolveRead(theirs);
      } else if wait == WaitReadCcs {
        go, taken := ResolveCcs(theirs);
      } else if wait != WaitOk {
        Proceeds(wait);
        go, held, ret := false, true, if wait == WaitEarlyReturn then 1 else -1;
        wait := WaitOk;
      }
    }

    twostate lemma {:induction false} MoreSent(theirs: seq<Turn>)
      requires old(ep.Sends(theirs)) && old(ep.pushed) <= ep.pushed
      requires ep.popped == old(ep.popped) && ep.inp.items == old(ep.inp.items)
      ensures ep.Sends(theirs)
    {
      hide Proper, Of;
    }

    /** One round of the loop of ssl_run_handshake. */
    method Round(ghost theirs: seq<Turn>)
      returns (again: bool, ret: int, held: bool, ghost moved: seq<Item>, ghost taken: seq<Item>)
      requires Valid() && wait != WaitError && ep.inp != ep.outp
      modifies this`state, this`wait, this`nego, this`certRequest, this`serverParams, this`peerKey, ep, ep.inp, ep.outp
      ensures Valid() && (again ==> wait != WaitError)
      ensures ep.outp.items == old(ep.outp.items) + moved && ep.pushed == old(ep.pushed) + moved
      ensures old(ep.honest) && old(ep.Sends(theirs)) ==>
                && ep.honest && wait != WaitError && ep.Sends(theirs)
                && old(ep.inp.items) == taken + ep.inp.items && ep.popped == old(ep.popped) + taken
      ensures again ==> Left() < old(Left())
      ensures !again && held && ret == 1 ==> Left() == old(Left())
      ensures !again && !held && wait != WaitError && ep.honest ==>
                Left() < old(Left()) || (Resting() && Same() && moved == [] && taken == [])
    {
      hide Endpoint.Sound, Endpoint.Sends, At, Rank, Params.Valid, Left, Resting, Phase;
      if ep.honest {
        ReadsNotDone();
      }
      var go;
      go, ret, held, moved, taken := Resolve(theirs);
      Paused();
      if !go {
        return false, ret, held, moved, taken;
      }
      var again0, ret0 := Advance();
      return again0, if again0 then ret else ret0, false, moved, taken;
    }

    /** The second half of the loop. */
    method Advance() returns (again: bool, ret: int)
      requires At(WaitOk) && wait != WaitError && !wait.Retries() && wait != WaitEarlyReturn
      requires wait.Reads() ==> ep.current.Some? && (ep.honest ==> state != Done)
      modifies this`state, this`wait, this`nego, this`certRequest, this`serverParams, this`peerKey, ep`buffer,
               ep`hash, ep`current, ep`flight, ep`trail
      ensures wait == WaitError || At(wait)
      ensures old(ep.trail) <= ep.trail || wait == WaitError
      ensures ep.honest ==> wait != WaitError
      ensures again ==> wait != WaitError && Left() < old(Left())
      ensures !again && wait != WaitError && ep.honest ==>
                ret == 1 && (Left() < old(Left()) || (Resting() && Same() && old(wait) == WaitOk))
    {
      hide Endpoint.Sound, Endpoint.Sends, At, Rank, Params.Valid, Left, Resting, Same;
      RankOfDone();
      wait := Handshake();
      RankOfDone();
      GotOn();
      if wait == WaitError {
        return false, -1;
      }
      if wait == WaitOk {
        return false, 1;
      }
      return true, 0;
    }

    twostate lemma {:induction false} Paused()
      requires state == old(state) && nego == old(nego)
      ensures old(wait) == WaitEarlyReturn && wait == WaitOk ==> Left() == old(Left())
      ensures wait == old(wait) ==> Same()
      ensures Starved() ==> Resting()
    {
      hide Rank;
    }

    twostate lemma {:induction false} GotOn()
      requires Rank(state, nego.resumed) == 0 <==> state == Done
      ensures Rank(state, nego.resumed) < old(Rank(state, nego.resumed)) ==> Left() < old(Left())
      ensures Rank(state, nego.resumed) == old(Rank(state, nego.resumed)) && Phase(wait) < old(Phase(wait)) ==>
                Left() < old(Left())
      ensures old(state) == Done == state && wait == old(wait) ==> Same()
      ensures state == Done && wait == WaitOk ==> Resting()
    {
    }

    lemma {:induction false} ReadsNotDone()
      requires Valid() && wait != WaitError && ep.honest
      ensures wait.Reads() ==> state != Done
    {
      hide Endpoint.Sound, InStep, Messages, FinishedSeen, Buffered;
    }

    lemma {:induction false} RankOfDone()
      ensures Rank(state, nego.resumed) == 0 <==> state == Done
    {
    }

    /** What is left to do: the states to come, and then what is waited for. */
    ghost function Left(): nat
      reads this`state, this`nego, this`wait
    {
      4 * Rank(state, nego.resumed) + Phase(wait)
    }

    twostate predicate Same()
      reads this
    {
      state == old(state) && wait == old(wait) && Left() == old(Left())
    }

    /** Done, or nothing to go on with. */
    ghost predicate Resting()
      reads this`state, this`wait, ep.inp
    {
      (state == Done && wait == WaitOk) || Starved()
    }

    /** ssl_run_handshake. If the other side has kept to the flow, so does this one, and it does not
        fail; whatever the other side does, it stays sound. Unless it is held up by the transport or
        the application, it gets on, or rests where it was. */
    method RunHandshake(ghost theirs: seq<Turn>)
      returns (ret: int, held: bool, ghost moved: seq<Item>, ghost taken: seq<Item>)
      requires Valid() && ep.inp != ep.outp
      modifies this`state, this`wait, this`nego, this`certRequest, this`serverParams, this`peerKey, ep, ep.inp, ep.outp
      ensures Valid()
      ensures ep.outp.items == old(ep.outp.items) + moved && ep.pushed == old(ep.pushed) + moved
      ensures old(wait) != WaitError && old(ep.honest) && old(ep.Sends(theirs)) ==>
                && ep.honest && wait != WaitError
                && old(ep.inp.items) == taken + ep.inp.items && ep.popped == old(ep.popped) + taken
                && (!held ==> Left() < old(Left())
                              || (Resting() && Same() && moved == [] && taken == []))
    {
      hide Valid, Endpoint.Sends, Rank, Phase, Left, Resting;
      moved, taken, held := [], [], false;
      if wait == WaitError {
        ret := -1;
        return;
      }
      var first := true;
      while true
        invariant if first then Same() && moved == [] && taken == [] else Left() < old(Left())
        invariant Valid() && wait != WaitError
        invariant ep.outp.items == old(ep.outp.items) + moved && ep.pushed == old(ep.pushed) + moved
        invariant old(ep.honest) && old(ep.Sends(theirs)) ==>
                    && ep.honest && ep.Sends(theirs)
                    && old(ep.inp.items) == taken + ep.inp.items && ep.popped == old(ep.popped) + taken
        decreases Left()
      {
        ghost var sent, got;
        var again;
        again, ret, held, sent, got := Round(theirs);
        moved, taken := moved + sent, taken + got;
        if !again {
          held := held && (first || ret != 1);
          return;
        }
        first := false;
      }
    }

    static function Phase(w: Wait): nat
    {
      if w.Retries() || w == WaitError then 0
      else if w.Reads() then 1
      else if w == WaitOk || w == WaitEarlyReturn then 2
      else 3
    }
  }
}
