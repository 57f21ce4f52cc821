/** Both ends of a TLS 1.2 handshake over two reliable channels, in any schedule. */
module TlsRun {
  import opened TlsFlow
  import opened TlsEndpoint
  import C = TlsClient
  import S = TlsServer

  /** Neither side has failed or been misled, and what one has given to its channel the other has read
      or can still read. */
  ghost predicate Joint(c: C.ClientHandshake, s: S.ServerHandshake)
    reads c, c.ep, s, s.ep, c.ep.inp, c.ep.outp
  {
    && c.ep != s.ep && c.ep.inp != c.ep.outp && c.ep.inp == s.ep.outp && c.ep.outp == s.ep.inp && c.ep.plan == s.ep.plan
    && c.Valid() && s.Valid() && Unfailed(c, s)
    && c.ep.pushed == s.ep.popped + c.ep.outp.items && s.ep.pushed == c.ep.popped + c.ep.inp.items
  }

  ghost predicate Unfailed(c: C.ClientHandshake, s: S.ServerHandshake)
    reads c, c.ep, s, s.ep
  {
    c.wait != WaitError && s.wait != WaitError && c.ep.honest && s.ep.honest
  }

  lemma {:induction false} SoundChannels(e: Endpoint)
    requires e.Sound() && e.honest
    ensures Proper(e.plan, e.trail) && e.pushed <= Of(e.trail, e.role) && Of(e.trail, Other(e.role)) <= e.popped
  {
  }

  lemma {:induction false} BothSound(c: C.ClientHandshake, s: S.ServerHandshake)
    requires Joint(c, s)
    ensures c.ep.role == Client && s.ep.role == Server && c.ep.Sound() && s.ep.Sound()
    ensures c.ep.Sends(s.ep.trail) && s.ep.Sends(c.ep.trail) && Channelled(c.ep.trail, s.ep.trail)
  {
    hide Endpoint.Sound, Proper, Of, C.ClientHandshake.Follows, S.ServerHandshake.Follows;
    SoundChannels(c.ep);
    SoundChannels(s.ep);
  }

  /** At every moment of every run, the two sides agree on the handshake so far: one has seen what the
      other has and possibly more, each has hashed exactly the messages it has seen, and neither is
      done without having checked the other's Finished. */
  lemma {:induction false} TranscriptsAgree(c: C.ClientHandshake, s: S.ServerHandshake)
    requires Joint(c, s)
    ensures c.ep.trail <= s.ep.trail || s.ep.trail <= c.ep.trail
    ensures c.ep.hash.Some? ==> c.ep.hash.value == Messages(c.ep.trail)
    ensures s.ep.hash.Some? ==> s.ep.hash.value == Messages(s.ep.trail)
    ensures c.state == C.Done ==> FinishedSeen(c.ep.trail, Server)
    ensures s.state == S.Done ==> FinishedSeen(s.ep.trail, Client)
  {
    hide Proper, Of, Messages, FinishedSeen, C.ClientHandshake.Follows, S.ServerHandshake.Follows;
    BothSound(c, s);
    SoundChannels(c.ep);
    SoundChannels(s.ep);
    Agreement(c.ep.plan, c.ep.trail, s.ep.trail);
  }

  /** When both are done, they have hashed the same messages, those of the whole flow. */
  lemma {:induction false} DoneTogether(c: C.ClientHandshake, s: S.ServerHandshake)
    requires Joint(c, s) && c.state == C.Done && s.state == S.Done
    ensures c.ep.trail == s.ep.trail && |c.ep.trail| == |Flow(c.ep.plan)|
            && c.ep.hash == s.ep.hash == Some(Messages(c.ep.trail))
  {
    hide Proper, Of, Messages, FinishedSeen, Flow;
    TranscriptsAgree(c, s);
    BothSound(c, s);
  }

  predicate Waiting(w: Wait)
  {
    w.Reads() || w == WaitReadCcs
  }

  /** The two sides never wait for each other. */
  lemma {:induction false} NoDeadlock(c: C.ClientHandshake, s: S.ServerHandshake)
    requires Joint(c, s) && Waiting(c.wait) && Waiting(s.wait)
    ensures c.ep.inp.items != [] || c.ep.outp.items != []
  {
    hide Of, Flow, Endpoint.Sound, C.ClientHandshake.Valid, S.ServerHandshake.Valid;
    TranscriptsAgree(c, s);
    BothSound(c, s);
    ClientWaits(c);
    ServerWaits(s);
    StillChannels(c.ep);
    StillChannels(s.ep);
    if c.ep.inp.items == [] && c.ep.outp.items == [] {
      if c.ep.trail <= s.ep.trail {
        SameLength(c.ep.trail, s.ep.trail);
      } else {
        SameLength(s.ep.trail, c.ep.trail);
      }
      assert false;
    }
  }

  lemma {:induction false} StillChannels(e: Endpoint)
    requires e.Sound() && e.flight == [] && e.current.None?
    ensures Of(e.trail, e.role) == e.pushed && Of(e.trail, Other(e.role)) == e.popped
  {
  }

  lemma {:induction false} ClientWaits(c: C.ClientHandshake)
    requires c.Valid() && c.ep.honest && Waiting(c.wait)
    ensures c.ep.Sound() && c.ep.flight == [] && c.ep.current.None?
    ensures |c.ep.trail| < |Flow(c.ep.plan)| && Flow(c.ep.plan)[|c.ep.trail|].role == Server
  {
    hide Proper, Of, Messages, FinishedSeen, Flow, FromServerFinished;
    var todo := C.Todo(c.ep.plan, c.state, c.wait);
    if c.wait == WaitReadCcs {
      c.ep.NoMessageDue(FromServerFinished(c.ep.plan));
    }
    HeadOf(c.ep.plan, c.ep.trail, todo);
  }

  lemma {:induction false} HeadOf(p: Params, trail: seq<Turn>, todo: seq<Step>)
    requires InStep(p, trail, todo) && todo != []
    ensures |trail| < |Flow(p)| && Flow(p)[|trail|] == todo[0]
  {
    hide Flow, Proper;
  }

  lemma {:induction false} ServerWaits(s: S.ServerHandshake)
    requires s.Valid() && s.ep.honest && Waiting(s.wait)
    ensures s.ep.Sound() && s.ep.flight == [] && s.ep.current.None?
    ensures |s.ep.trail| < |Flow(s.ep.plan)| && Flow(s.ep.plan)[|s.ep.trail|].role == Client
  {
    hide Proper, Of, Messages, FinishedSeen, Flow, NextProtoThen, AfterClient;
    var todo := S.Todo(s.ep.plan, s.state, s.wait);
    if s.wait == WaitReadCcs {
      s.ep.NoMessageDue(NextProtoThen(s.ep.plan, AfterClient(s.ep.plan)));
    }
    HeadOf(s.ep.plan, s.ep.trail, todo);
  }

  /** With nothing on the way, both have seen the same. */
  lemma {:induction false} SameLength(a: seq<Turn>, b: seq<Turn>)
    requires a <= b && Of(a, Client) == Of(b, Client) && Of(a, Server) == Of(b, Server)
    ensures a == b
  {
    hide Of;
    if |a| < |b| {
      assert b[..|a|] == a;
      OfPrefix(b, |a|, b[|a|].role);
      assert false;
    }
  }

  method ClientRuns(c: C.ClientHandshake, s: S.ServerHandshake) returns (held: bool)
    requires Joint(c, s)
    modifies c, c.ep, c.ep.inp, c.ep.outp
    ensures Joint(c, s)
    ensures !held ==> c.Left() < old(c.Left())
                      || (c.Resting() && c.Same()
                          && c.ep.inp.items == old(c.ep.inp.items) && c.ep.outp.items == old(c.ep.outp.items))
  {
    hide Endpoint.Sound, Endpoint.Sends, C.ClientHandshake.Valid, S.ServerHandshake.Valid, C.ClientHandshake.Left,
      S.ServerHandshake.Left, C.ClientHandshake.Resting, S.ServerHandshake.Resting;
    BothSound(c, s);
    var ret;
    ghost var moved, taken;
    ret, held, moved, taken := c.RunHandshake(s.ep.trail);
  }

  method ServerRuns(c: C.ClientHandshake, s: S.ServerHandshake) returns (held: bool)
    requires Joint(c, s)
    modifies s, s.ep, s.ep.inp, s.ep.outp
    ensures Joint(c, s)
    ensures !held ==> s.Left() < old(s.Left())
                      || (s.Resting() && s.Same()
                          && c.ep.inp.items == old(c.ep.inp.items) && c.ep.outp.items == old(c.ep.outp.items))
  {
    hide Endpoint.Sound, Endpoint.Sends, C.ClientHandshake.Valid, S.ServerHandshake.Valid, C.ClientHandshake.Left,
      S.ServerHandshake.Left, C.ClientHandshake.Resting, S.ServerHandshake.Resting;
    BothSound(c, s);
    var ret;
    ghost var moved, taken;
    ret, held, moved, taken := s.RunHandshake(c.ep.trail);
  }

  /** The two sides only rest together when both are done. */
  lemma {:induction false} NeverStuck(c: C.ClientHandshake, s: S.ServerHandshake)
    requires Joint(c, s) && c.Resting() && s.Resting()
    ensures c.state == C.Done && c.wait == WaitOk && s.state == S.Done && s.wait == WaitOk
  {
    hide Of, Flow, Endpoint.Sound, C.ClientHandshake.Valid, S.ServerHandshake.Valid;
    TranscriptsAgree(c, s);
    BothSound(c, s);
    if Waiting(c.wait) { ClientWaits(c); } else { ClientDone(c); }
    if Waiting(s.wait) { ServerWaits(s); } else { ServerDone(s); }
    StillChannels(c.ep);
    StillChannels(s.ep);
    if c.ep.trail <= s.ep.trail {
      OfMonotone(c.ep.trail, s.ep.trail, Client);
      OfMonotone(c.ep.trail, s.ep.trail, Server);
    } else {
      OfMonotone(s.ep.trail, c.ep.trail, Client);
      OfMonotone(s.ep.trail, c.ep.trail, Server);
    }
    if |c.ep.trail| == |s.ep.trail| {
      return;
    }
    if c.ep.trail <= s.ep.trail {
      SameLength(c.ep.trail, s.ep.trail);
    } else {
      SameLength(s.ep.trail, c.ep.trail);
    }
  }

  lemma {:induction false} OfMonotone(a: seq<Turn>, b: seq<Turn>, r: Role)
    requires a <= b
    ensures |Of(a, r)| <= |Of(b, r)|
  {
    hide Of;
    assert b[..|a|] == a;
    OfPrefix(b, |a|, r);
  }

  lemma {:induction false} ClientDone(c: C.ClientHandshake)
    requires c.Valid() && c.ep.honest && c.state == C.Done && c.wait == WaitOk
    ensures c.ep.Sound() && c.ep.flight == [] && c.ep.current.None? && |c.ep.trail| == |Flow(c.ep.plan)|
  {
    hide Of, Messages, FinishedSeen, Flow;
    c.ep.NothingLeft();
  }

  lemma {:induction false} ServerDone(s: S.ServerHandshake)
    requires s.Valid() && s.ep.honest && s.state == S.Done && s.wait == WaitOk
    ensures s.ep.Sound() && s.ep.flight == [] && s.ep.current.None? && |s.ep.trail| == |Flow(s.ep.plan)|
  {
    hide Of, Messages, FinishedSeen, Flow;
    s.ep.NothingLeft();
  }

  method Connect(ghost p: Params, nego: Nego, wantCert: bool, wantSke: bool, hasCert: bool, falseStart: bool)
    returns (c: C.ClientHandshake, s: S.ServerHandshake)
    requires p.Valid() && p == Params(nego, wantSke, wantCert, hasCert)
    ensures Joint(c, s) && c.state == C.StartConnect && s.state == S.StartAccept
    ensures fresh(c) && fresh(s) && fresh(c.ep) && fresh(s.ep) && fresh(c.ep.inp) && fresh(c.ep.outp)
  {
    hide Endpoint.Sound, C.ClientHandshake.Valid, S.ServerHandshake.Valid;
    var up := new Pipe();
    var down := new Pipe();
    var ce := new Endpoint(Client, down, up, p);
    var se := new Endpoint(Server, up, down, p);
    c := new C.ClientHandshake(ce, hasCert, falseStart);
    s := new S.ServerHandshake(se, nego, wantCert, wantSke);
  }

  /** Any schedule of the two sides, each running until it blocks or is asked to wait by a callback:
      at its end nothing has been rejected, and all of the above holds. */
  method Play(ghost p: Params, nego: Nego, wantCert: bool, wantSke: bool, hasCert: bool, falseStart: bool,
      schedule: seq<bool>)
    returns (c: C.ClientHandshake, s: S.ServerHandshake)
    requires p.Valid() && p == Params(nego, wantSke, wantCert, hasCert)
    ensures Joint(c, s) && c.wait != WaitError && s.wait != WaitError
    ensures c.ep.trail <= s.ep.trail || s.ep.trail <= c.ep.trail
    ensures c.state == C.Done && s.state == S.Done ==> c.ep.hash == s.ep.hash
    ensures Waiting(c.wait) && Waiting(s.wait) ==> c.ep.inp.items != [] || c.ep.outp.items != []
  {
    hide Endpoint.Sound, C.ClientHandshake.Valid, S.ServerHandshake.Valid;
    c, s := Connect(p, nego, wantCert, wantSke, hasCert, falseStart);
    for i := 0 to |schedule|
      invariant Joint(c, s) && fresh(c) && fresh(s) && fresh(c.ep) && fresh(s.ep) && fresh(c.ep.inp) && fresh(c.ep.outp)
    {
      if schedule[i] {
        var held := ClientRuns(c, s);
      } else {
        var held := ServerRuns(c, s);
      }
    }
    TranscriptsAgree(c, s);
    if c.state == C.Done && s.state == S.Done {
      DoneTogether(c, s);
    }
    if Waiting(c.wait) && Waiting(s.wait) {
      NoDeadlock(c, s);
    }
  }

  /** From any moment of any run, letting the two sides run in turn ends: either one is held up, by its
      transport or by the application, or both are done, over the same messages. */
  method Finish(c: C.ClientHandshake, s: S.ServerHandshake) returns (held: bool)
    requires Joint(c, s)
    modifies c, c.ep, c.ep.inp, c.ep.outp, s, s.ep
    ensures Joint(c, s)
    ensures !held ==>
              && c.state == C.Done && s.state == S.Done
              && c.ep.trail == s.ep.trail && c.ep.hash == s.ep.hash == Some(Messages(c.ep.trail))
  {
    hide Endpoint.Sound, C.ClientHandshake.Valid, S.ServerHandshake.Valid, C.ClientHandshake.Left,
      S.ServerHandshake.Left, Messages;
    held := false;
    while !(c.state == C.Done && c.wait == WaitOk && s.state == S.Done && s.wait == WaitOk)
      invariant Joint(c, s)
      decreases c.Left() + s.Left()
    {
      held := ClientRuns(c, s);
      if held {
        return;
      }
      held := ServerRuns(c, s);
      if held {
        return;
      }
      if c.Resting() && s.Resting() {
        NeverStuck(c, s);
      }
    }
    DoneTogether(c, s);
  }
}
