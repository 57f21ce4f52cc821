/** The messages of a TLS 1.2 handshake and the order RFC 5246, sections 7.3 and 7.4.9, and RFC 5077
    put them in, with the NextProtocol and Channel ID extensions. A Finished message and a
    CertificateVerify stand for the transcript they cover, as their MAC and signature do. */
module TlsFlow {
  datatype Option<+T> = None | Some(value: T)

  datatype Role = Client | Server

  /** What a ServerHello settles: resumption, whether the cipher uses certificates and needs a
      ServerKeyExchange, and the extensions agreed on. */
  datatype Nego = Nego(resumed: bool, certAuth: bool, requiresSke: bool, status: bool, ticket: bool, nextProto: bool,
      channelId: bool)

  datatype Msg =
    | ClientHello
    | ServerHello(nego: Nego)
    | Certificate(present: bool)
    | CertificateStatus
    | ServerKeyExchange
    | CertificateRequest
    | ServerHelloDone
    | ClientKeyExchange
    | CertificateVerify(signed: seq<Msg>)
    | NextProto
    | ChannelId
    | NewSessionTicket(empty: bool)
    | Finished(who: Role, over: seq<Msg>)

  /** A record on the wire: part of the handshake, or ChangeCipherSpec, which is not. */
  datatype Item = Hs(msg: Msg) | Ccs

  datatype Turn = Turn(role: Role, item: Item)

  /** What one handshake will come to. */
  datatype Params = Params(nego: Nego, ske: bool, certRequest: bool, clientCert: bool)
  {
    predicate Valid()
    {
      && (nego.requiresSke ==> ske) && (ske ==> nego.requiresSke || !nego.certAuth)
      && (nego.status ==> nego.certAuth && !nego.resumed)
      && (certRequest ==> nego.certAuth && !nego.resumed)
    }
  }

  datatype Kind =
    | KClientHello | KServerHello | KCertificate | KCertificateStatus | KServerKeyExchange | KCertificateRequest
    | KServerHelloDone | KClientKeyExchange | KCertificateVerify | KNextProto | KChannelId | KNewSessionTicket
    | KFinished | KChangeCipherSpec

  function KindOf(i: Item): Kind
  {
    match i
    case Ccs => KChangeCipherSpec
    case Hs(m) =>
      match m
      case ClientHello => KClientHello
      case ServerHello(_) => KServerHello
      case Certificate(_) => KCertificate
      case CertificateStatus => KCertificateStatus
      case ServerKeyExchange => KServerKeyExchange
      case CertificateRequest => KCertificateRequest
      case ServerHelloDone => KServerHelloDone
      case ClientKeyExchange => KClientKeyExchange
      case CertificateVerify(_) => KCertificateVerify
      case NextProto => KNextProto
      case ChannelId => KChannelId
      case NewSessionTicket(_) => KNewSessionTicket
      case Finished(_, _) => KFinished
  }

  // ---------------------------------------------------------------- the flow

  datatype Step = Step(role: Role, kind: Kind)

  function Opt(b: bool, r: Role, k: Kind): seq<Step>
  {
    if b then [Step(r, k)] else []
  }

  /** ChangeCipherSpec to Finished, from either side, and what is left after them. */
  function FromServerFinished(p: Params): seq<Step>
  {
    [Step(Server, KFinished)] + if p.nego.resumed then ClientEnd(p, []) else []
  }

  function FromServerCcs(p: Params): seq<Step>
  {
    [Step(Server, KChangeCipherSpec)] + FromServerFinished(p)
  }

  function FromTicket(p: Params): seq<Step>
  {
    Opt(p.nego.ticket, Server, KNewSessionTicket) + FromServerCcs(p)
  }

  function ClientFinishedThen(p: Params, rest: seq<Step>): seq<Step>
  {
    [Step(Client, KFinished)] + rest
  }

  function ChannelIdThen(p: Params, rest: seq<Step>): seq<Step>
  {
    Opt(p.nego.channelId, Client, KChannelId) + ClientFinishedThen(p, rest)
  }

  function NextProtoThen(p: Params, rest: seq<Step>): seq<Step>
  {
    Opt(p.nego.nextProto, Client, KNextProto) + ChannelIdThen(p, rest)
  }

  function ClientEnd(p: Params, rest: seq<Step>): seq<Step>
  {
    [Step(Client, KChangeCipherSpec)] + NextProtoThen(p, rest)
  }

  /** What follows the client's Finished. */
  function AfterClient(p: Params): seq<Step>
  {
    if p.nego.resumed then [] else FromTicket(p)
  }

  function FromClientVerify(p: Params): seq<Step>
  {
    Opt(p.certRequest && p.clientCert, Client, KCertificateVerify) + ClientEnd(p, AfterClient(p))
  }

  function FromClientKey(p: Params): seq<Step>
  {
    [Step(Client, KClientKeyExchange)] + FromClientVerify(p)
  }

  function FromClientCert(p: Params): seq<Step>
  {
    Opt(p.certRequest, Client, KCertificate) + FromClientKey(p)
  }

  function FromDone(p: Params): seq<Step>
  {
    [Step(Server, KServerHelloDone)] + FromClientCert(p)
  }

  function FromRequest(p: Params): seq<Step>
  {
    Opt(p.certRequest, Server, KCertificateRequest) + FromDone(p)
  }

  function FromServerKey(p: Params): seq<Step>
  {
    Opt(p.ske, Server, KServerKeyExchange) + FromRequest(p)
  }

  function FromStatus(p: Params): seq<Step>
  {
    Opt(p.nego.status, Server, KCertificateStatus) + FromServerKey(p)
  }

  function FromServerCert(p: Params): seq<Step>
  {
    Opt(p.nego.certAuth, Server, KCertificate) + FromStatus(p)
  }

  function FromServerHello(p: Params): seq<Step>
  {
    [Step(Server, KServerHello)] + if p.nego.resumed then FromTicket(p) else FromServerCert(p)
  }

  /** The whole handshake. */
  function Flow(p: Params): seq<Step>
  {
    [Step(Client, KClientHello)] + FromServerHello(p)
  }

  // ---------------------------------------------------------------- trails

  /** The handshake messages of a trail: ChangeCipherSpec is not among them. */
  function Messages(trail: seq<Turn>): seq<Msg>
  {
    if trail == [] then []
    else
      var (init, last) := (Messages(trail[..|trail| - 1]), trail[|trail| - 1].item);
      if last.Hs? then init + [last.msg] else init
  }

  /** The items of one side. */
  function Of(trail: seq<Turn>, r: Role): seq<Item>
  {
    if trail == [] then []
    else
      var (init, last) := (Of(trail[..|trail| - 1], r), trail[|trail| - 1]);
      if last.role == r then init + [last.item] else init
  }

  lemma {:induction false} TrailOne(trail: seq<Turn>, t: Turn)
    ensures Messages(trail + [t]) == if t.item.Hs? then Messages(trail) + [t.item.msg] else Messages(trail)
    ensures forall r :: Of(trail + [t], r) == if t.role == r then Of(trail, r) + [t.item] else Of(trail, r)
  {
    assert (trail + [t])[..|trail|] == trail;
  }

  /** The content of a message is what it must be after the given trail. */
  ghost predicate Genuine(p: Params, before: seq<Turn>, t: Turn)
  {
    t.item.Hs? ==>
      match t.item.msg
      case ServerHello(n) => n == p.nego
      case Certificate(present) => present == (if t.role == Server then true else p.clientCert)
      case CertificateVerify(signed) => signed == Messages(before)
      case Finished(who, over) => who == t.role && over == Messages(before)
      case _ => true
  }

  ghost predicate ProperAt(p: Params, trail: seq<Turn>, i: nat)
    requires i < |trail|
  {
    && i < |Flow(p)| && Flow(p)[i] == Step(trail[i].role, KindOf(trail[i].item))
    && Genuine(p, trail[..i], trail[i])
  }

  /** A beginning of the handshake. */
  ghost predicate Proper(p: Params, trail: seq<Turn>)
  {
    forall i :: 0 <= i < |trail| ==> ProperAt(p, trail, i)
  }

  /** A beginning of the handshake that leaves the given steps to do. */
  ghost predicate InStep(p: Params, trail: seq<Turn>, todo: seq<Step>)
  {
    Proper(p, trail) && |trail| <= |Flow(p)| && Flow(p)[|trail|..] == todo
  }

  lemma {:induction false} ProperFits(p: Params, trail: seq<Turn>)
    requires Proper(p, trail)
    ensures |trail| <= |Flow(p)|
  {
    hide Flow, Genuine, KindOf;
    if trail != [] {
      assert ProperAt(p, trail, |trail| - 1);
    }
  }

  lemma {:induction false} ProperMore(p: Params, trail: seq<Turn>, t: Turn)
    requires Proper(p, trail)
    ensures Proper(p, trail + [t]) <==> ProperAt(p, trail + [t], |trail|)
  {
    hide Flow, Genuine, KindOf;
    var more := trail + [t];
    forall i | 0 <= i < |trail| ensures ProperAt(p, more, i) {
      assert ProperAt(p, trail, i) && more[..i] == trail[..i];
    }
  }

  lemma {:induction false} ProperPrefix(p: Params, trail: seq<Turn>, n: nat)
    requires Proper(p, trail) && n <= |trail|
    ensures Proper(p, trail[..n])
  {
    forall i | 0 <= i < n ensures ProperAt(p, trail[..n], i) {
      assert ProperAt(p, trail, i) && trail[..n][..i] == trail[..i];
    }
  }

  /** Taking the step that is due. */
  lemma {:induction false} StepOn(p: Params, trail: seq<Turn>, t: Turn, rest: seq<Step>)
    requires InStep(p, trail, [Step(t.role, KindOf(t.item))] + rest) && Genuine(p, trail, t)
    ensures InStep(p, trail + [t], rest)
  {
    hide Flow, Genuine, KindOf;
    var flow, n := Flow(p), |trail|;
    assert flow[n] == flow[n..][0];
    assert flow[n..][1..] == flow[n + 1..];
    assert (trail + [t])[..n] == trail;
    ProperMore(p, trail, t);
  }

  /** A turn that continues the trail is the step that is due. */
  lemma {:induction false} DueNext(p: Params, trail: seq<Turn>, t: Turn, todo: seq<Step>)
    requires InStep(p, trail, todo) && Proper(p, trail + [t])
    ensures todo != [] && todo[0] == Step(t.role, KindOf(t.item)) && Genuine(p, trail, t)
  {
    assert ProperAt(p, trail + [t], |trail|);
    assert (trail + [t])[..|trail|] == trail;
    assert Flow(p)[|trail|..][0] == Flow(p)[|trail|];
  }

  // ---------------------------------------------------------------- two sides

  /** The client has taken only what the server sent, and the other way round. */
  ghost predicate Channelled(client: seq<Turn>, server: seq<Turn>)
  {
    Of(client, Server) <= Of(server, Server) && Of(server, Client) <= Of(client, Client)
  }

  lemma {:induction false} OfPrefix(trail: seq<Turn>, n: nat, r: Role)
    requires n <= |trail|
    ensures Of(trail[..n], r) <= Of(trail, r)
    ensures n < |trail| && trail[n].role == r ==>
            |Of(trail[..n], r)| < |Of(trail, r)| && Of(trail, r)[|Of(trail[..n], r)|] == trail[n].item
    decreases |trail|
  {
    if n == |trail| {
      assert trail[..n] == trail;
    } else {
      var init := trail[..|trail| - 1];
      OfPrefix(init, n, r);
      assert init[..n] == trail[..n];
    }
  }

  lemma {:induction false} SamePrefix(p: Params, client: seq<Turn>, server: seq<Turn>, n: nat)
    requires Proper(p, client) && Proper(p, server) && Channelled(client, server) && n <= |client| && n <= |server|
    ensures client[..n] == server[..n]
  {
    hide Flow, Genuine, KindOf, Of;
    if n > 0 {
      var i := n - 1;
      SamePrefix(p, client, server, i);
      assert ProperAt(p, client, i) && ProperAt(p, server, i);
      if client[i].role == Server {
        SameItem(client, server, i);
      } else {
        SameItem(server, client, i);
      }
      assert client[..n] == client[..i] + [client[i]] && server[..n] == server[..i] + [server[i]];
    }
  }

  lemma {:induction false} SameItem(a: seq<Turn>, b: seq<Turn>, i: nat)
    requires i < |a| && i < |b| && a[..i] == b[..i] && a[i].role == b[i].role && Of(a, a[i].role) <= Of(b, a[i].role)
    ensures a[i] == b[i]
  {
    hide Of;
    OfPrefix(a, i, a[i].role);
    OfPrefix(b, i, a[i].role);
  }

  /** Two sides that each follow the flow, over channels that keep the order, agree: one has seen
      what the other has, and possibly more. */
  lemma {:induction false} Agreement(p: Params, client: seq<Turn>, server: seq<Turn>)
    requires Proper(p, client) && Proper(p, server) && Channelled(client, server)
    ensures client <= server || server <= client
  {
    SamePrefix(p, client, server, if |client| <= |server| then |client| else |server|);
    assert client[..|client|] == client && server[..|server|] == server;
  }

  lemma {:induction false} OfGrows(a: seq<Turn>, b: seq<Turn>, r: Role)
    requires a <= b
    ensures |Of(a, r)| <= |Of(b, r)|
  {
    OfPrefix(b, |a|, r);
    assert b[..|a|] == a;
  }

  /** So what arrives is what is due. */
  lemma {:induction false} ArrivesDue(p: Params, mine: seq<Turn>, theirs: seq<Turn>, me: Role, x: Item)
    requires Proper(p, mine) && Proper(p, theirs)
    requires var you := if me == Client then Server else Client;
             Of(mine, you) + [x] <= Of(theirs, you) && Of(theirs, me) <= Of(mine, me)
    ensures Proper(p, mine + [Turn(if me == Client then Server else Client, x)])
  {
    var you := if me == Client then Server else Client;
    if me == Client {
      Agreement(p, mine, theirs);
    } else {
      Agreement(p, theirs, mine);
    }
    var n := |mine|;
    if theirs <= mine {
      OfGrows(theirs, mine, you);
      assert false;
    }
    assert theirs[..n] == mine;
    OfPrefix(theirs, n, theirs[n].role);
    if theirs[n].role == me {
      assert false;
    }
    assert theirs[n] == Turn(you, x);
    ProperPrefix(p, theirs, n + 1);
    assert theirs[..n + 1] == mine + [Turn(you, x)];
  }

  /** A Finished of the given side is in the trail, over exactly the messages before it. */
  ghost predicate FinishedSeen(trail: seq<Turn>, who: Role)
  {
    exists k :: 0 <= k < |trail| && FinishedAt(trail, who, k)
  }

  ghost predicate FinishedAt(trail: seq<Turn>, who: Role, k: nat)
    requires k < |trail|
  {
    trail[k] == Turn(who, Hs(Finished(who, Messages(trail[..k]))))
  }

  lemma {:induction false} FinishedStays(trail: seq<Turn>, who: Role, t: Turn)
    requires FinishedSeen(trail, who)
    ensures FinishedSeen(trail + [t], who)
  {
    var k :| 0 <= k < |trail| && FinishedAt(trail, who, k);
    assert (trail + [t])[..k] == trail[..k];
    assert FinishedAt(trail + [t], who, k);
  }

  lemma {:induction false} FinishedNow(trail: seq<Turn>, who: Role)
    ensures FinishedSeen(trail + [Turn(who, Hs(Finished(who, Messages(trail))))], who)
  {
    var more := trail + [Turn(who, Hs(Finished(who, Messages(trail))))];
    assert more[..|trail|] == trail;
    assert FinishedAt(more, who, |trail|);
  }

  // ---------------------------------------------------------------- taking steps off the flow

  lemma {:induction false} OptRest(b: bool, r: Role, k: Kind, rest: seq<Step>)
    ensures if b then Opt(b, r, k) + rest == [Step(r, k)] + rest && (Opt(b, r, k) + rest)[1..] == rest
            else Opt(b, r, k) + rest == rest
  {
  }

  lemma {:induction false} HelloRest(p: Params)
    ensures FromServerHello(p) != [] && FromServerHello(p)[0] == Step(Server, KServerHello)
    ensures FromServerHello(p)[1..] == if p.nego.resumed then FromTicket(p) else FromServerCert(p)
  {
  }

  lemma {:induction false} RequestIsServers(p: Params)
    ensures FromRequest(p) != [] && FromRequest(p)[0].role == Server
    ensures FromRequest(p)[0].kind == KCertificateRequest || FromRequest(p)[0].kind == KServerHelloDone
  {
  }

  lemma {:induction false} FinishedIsServers(p: Params)
    ensures FromServerFinished(p) != [] && FromServerFinished(p)[0] == Step(Server, KFinished)
    ensures FromServerFinished(p)[1..] == if p.nego.resumed then ClientEnd(p, []) else []
  {
  }

  lemma {:induction false} FinishedGrows(a: seq<Turn>, b: seq<Turn>, who: Role)
    requires a <= b && FinishedSeen(a, who)
    ensures FinishedSeen(b, who)
  {
    hide Messages;
    var k :| 0 <= k < |a| && FinishedAt(a, who, k);
    assert b[..k] == a[..k];
    assert FinishedAt(b, who, k);
  }
}
