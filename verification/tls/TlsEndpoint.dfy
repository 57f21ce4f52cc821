/** One end of a connection under a handshake: the transcript, the message being processed, the
    flight being gathered, and the transport, with the steps client and server share
    (handshake.cc, ssl_transcript.cc). */
module TlsEndpoint {
  import opened TlsFlow

  function Other(r: Role): Role
  {
    if r == Client then Server else Client
  }

  /** One direction of the transport. */
  class Pipe {
    var items: seq<Item>

    constructor ()
      ensures items == []
    {
      items := [];
    }
  }

  /** ssl_hs_wait_t. */
  datatype Wait =
    | WaitOk | WaitError | WaitFlush | WaitReadMessage | WaitReadServerHello | WaitReadCcs
    | WaitCertificateSelection | WaitX509Lookup | WaitCertificateVerify | WaitPrivateKey | WaitChannelIdLookup
    | WaitPendingSession | WaitPendingTicket | WaitEarlyReturn
  {
    predicate Reads()
    {
      this == WaitReadMessage || this == WaitReadServerHello
    }

    /** Waits for the application, which calls again. */
    predicate Retries()
    {
      !(this == WaitOk || this == WaitError || this == WaitFlush || this == WaitReadCcs || this == WaitEarlyReturn
          || Reads())
    }
  }

  class Endpoint {
    const role: Role
    const inp: Pipe
    const outp: Pipe
    var buffer: Option<seq<Msg>>          // the transcript's handshake buffer
    var hash: Option<seq<Msg>>            // what the transcript's hash has taken in
    var current: Option<Msg>              // the message get_message returns
    var flight: seq<Item>                 // pending_flight
    ghost const plan: Params              // what the handshake is to come to
    ghost var trail: seq<Turn>            // everything sent and taken so far, in order
    ghost var pushed: seq<Item>           // given to the transport
    ghost var popped: seq<Item>           // read from the transport
    ghost var honest: bool                // everything read was due

    /** The transcript has every handshake message once, and never ChangeCipherSpec; what was sent is
        in the transport or waits in the flight; what was read was taken or is the current message. */
    ghost predicate Sound()
      reads this`buffer, this`hash, this`current, this`flight, this`trail, this`pushed, this`popped, this`honest
    {
      && Transcribed(buffer, hash, trail)
      && Of(trail, role) == pushed + flight
      && Of(trail, Other(role)) + (if current.Some? then [Hs(current.value)] else []) == popped
      && (honest ==>
            && Proper(plan, trail)
            && (current.Some? ==> Proper(plan, trail + [Turn(Other(role), Hs(current.value))])))
    }

    constructor (r: Role, i: Pipe, o: Pipe, ghost p: Params)
      ensures Sound() && role == r && inp == i && outp == o && plan == p
      ensures buffer == Some([]) && hash.None? && current.None? && flight == [] && trail == [] && pushed == []
              && popped == [] && honest
    {
      role, inp, outp, plan := r, i, o, p;
      buffer, hash, current, flight, trail, pushed, popped, honest := Some([]), None, None, [], [], [], [], true;
    }

    // -------------------------------------------------------------- the transcript

    lemma {:induction false} BufferIs()
      requires Sound()
      ensures buffer.Some? ==> buffer.value == Messages(trail)
    {
    }

    /** InitHash: the hash starts with what the buffer holds. */
    method InitHash()
      requires Sound() && buffer.Some?
      modifies this`hash
      ensures Sound() && hash == buffer
    {
      hash := buffer;
    }

    method FreeBuffer()
      requires Sound() && hash.Some?
      modifies this`buffer
      ensures Sound() && buffer.None?
    {
      buffer := None;
    }

    // -------------------------------------------------------------- sending

    /** add_message: the message joins the flight and the transcript. */
    method AddMessage(m: Msg, ghost rest: seq<Step>)
      requires Sound()
      requires honest ==>
                 && InStep(plan, trail, [Step(role, KindOf(Hs(m)))] + rest)
                 && Genuine(plan, trail, Turn(role, Hs(m)))
      modifies this`buffer, this`hash, this`flight, this`trail
      ensures Sound() && trail == old(trail) + [Turn(role, Hs(m))] && flight == old(flight) + [Hs(m)]
      ensures (buffer.Some? <==> old(buffer).Some?) && (hash.Some? <==> old(hash).Some?)
      ensures honest ==> InStep(plan, trail, rest) && current.None?
    {
      hide Proper, InStep, Genuine, KindOf, Messages, Of;
      ghost var t := Turn(role, Hs(m));
      if honest {
        NothingDue([Step(role, KindOf(Hs(m)))] + rest);
        StepOn(plan, trail, t, rest);
        InStepProper(plan, trail + [t], rest);
      }
      TrailOne(trail, t);
      buffer := if buffer.Some? then Some(buffer.value + [m]) else None;
      hash := if hash.Some? then Some(hash.value + [m]) else None;
      flight := flight + [Hs(m)];
      trail := trail + [t];
    }

    /** add_change_cipher_spec: it joins the flight, and not the transcript. */
    method AddChangeCipherSpec(ghost rest: seq<Step>)
      requires Sound() && (honest ==> InStep(plan, trail, [Step(role, KChangeCipherSpec)] + rest))
      modifies this`flight, this`trail
      ensures Sound() && trail == old(trail) + [Turn(role, Ccs)] && flight == old(flight) + [Ccs]
      ensures honest ==> InStep(plan, trail, rest) && current.None?
    {
      hide Proper, InStep, Genuine, Messages, Of;
      ghost var t := Turn(role, Ccs);
      if honest {
        NothingDue([Step(role, KChangeCipherSpec)] + rest);
        NoContent(plan, trail, t);
        StepOn(plan, trail, t, rest);
        InStepProper(plan, trail + [t], rest);
      }
      TrailOne(trail, t);
      flight := flight + [Ccs];
      trail := trail + [t];
    }

    /** ssl_send_finished. The handshake buffer has been released by then. */
    method SendFinished(ghost rest: seq<Step>)
      requires Sound() && hash.Some? && buffer.None?
      requires honest ==> InStep(plan, trail, [Step(role, KFinished)] + rest)
      modifies this`buffer, this`hash, this`flight, this`trail
      ensures Sound() && trail == old(trail) + [Turn(role, Hs(Finished(role, old(Messages(trail)))))]
      ensures hash.Some? && buffer.None?
      ensures honest ==> InStep(plan, trail, rest) && current.None?
    {
      hide InStep, Messages, Of, Proper;
      AddMessage(Finished(role, hash.value), rest);
    }

    // -------------------------------------------------------------- receiving

    /** A message there is is the step that is due. */
    lemma {:induction false} Due(todo: seq<Step>)
      requires Sound() && honest && current.Some? && InStep(plan, trail, todo)
      ensures todo != [] && todo[0] == Step(Other(role), KindOf(Hs(current.value)))
      ensures Genuine(plan, trail, Turn(Other(role), Hs(current.value)))
    {
      DueNext(plan, trail, Turn(Other(role), Hs(current.value)), todo);
    }

    lemma {:induction false} NothingDue(todo: seq<Step>)
      requires Sound() && honest && InStep(plan, trail, todo) && todo != [] && todo[0].role == role
      ensures current.None?
    {
      hide Proper, InStep, Genuine, KindOf, Messages, Of;
      if current.Some? {
        Due(todo);
        assert false;
      }
    }

    lemma {:induction false} NoMessageDue(rest: seq<Step>)
      requires Sound() && honest && InStep(plan, trail, [Step(Other(role), KChangeCipherSpec)] + rest)
      ensures current.None?
    {
      hide Proper, InStep, Genuine, KindOf, Messages, Of;
      if current.Some? {
        Due([Step(Other(role), KChangeCipherSpec)] + rest);
        OnlyCcs(Hs(current.value));
        assert false;
      }
    }

    /** After the last step no message can be there. */
    lemma {:induction false} NothingLeft()
      requires Sound() && honest && InStep(plan, trail, [])
      ensures current.None? && |trail| == |Flow(plan)|
    {
      hide Proper, Messages, Of, Flow;
      if current.Some? {
        ProperFits(plan, trail + [Turn(Other(role), Hs(current.value))]);
        assert false;
      }
    }

    /** ssl_hash_message and next_message. */
    method TakeMessage(ghost todo: seq<Step>)
      requires Sound() && current.Some? && (honest ==> InStep(plan, trail, todo))
      modifies this`buffer, this`hash, this`current, this`trail
      ensures Sound() && trail == old(trail) + [Turn(Other(role), Hs(old(current).value))] && current.None?
      ensures (buffer.Some? <==> old(buffer).Some?) && (hash.Some? <==> old(hash).Some?)
      ensures honest ==> todo != [] && InStep(plan, trail, todo[1..])
    {
      hide Proper, InStep, Genuine, KindOf, Messages, Of;
      var m := current.value;
      ghost var t := Turn(Other(role), Hs(m));
      if honest {
        Due(todo);
        assert todo == [todo[0]] + todo[1..];
        StepOn(plan, trail, t, todo[1..]);
      }
      TrailOne(trail, t);
      buffer := if buffer.Some? then Some(buffer.value + [m]) else None;
      hash := if hash.Some? then Some(hash.value + [m]) else None;
      trail := trail + [t];
      current := None;
    }

    /** ssl_get_finished: only a Finished over this side's own transcript passes. */
    method GetFinished(ghost todo: seq<Step>) returns (ret: Wait)
      requires Sound() && hash.Some? && buffer.None? && (honest ==> InStep(plan, trail, todo))
      modifies this`buffer, this`hash, this`current, this`trail
      ensures ret == WaitOk || ret == WaitError || ret == WaitReadMessage
      ensures (ret == WaitReadMessage <==> old(current).None?) && old(trail) <= trail
      ensures ret == WaitReadMessage ==>
              Sound() && trail == old(trail) && current.None? && hash == old(hash) && buffer.None?
      ensures ret == WaitOk ==>
                && Sound() && hash.Some? && buffer.None? && current.None?
                && trail == old(trail) + [Turn(Other(role), Hs(Finished(Other(role), old(Messages(trail)))))]
                && (honest ==> todo != [] && InStep(plan, trail, todo[1..]))
      ensures honest && todo != [] && todo[0] == Step(Other(role), KFinished) ==> ret != WaitError
    {
      hide Proper, InStep, Messages, Of;
      if current.None? {
        return WaitReadMessage;
      }
      if honest {
        Due(todo);
      }
      if !current.value.Finished? {
        return WaitError;
      }
      var mac := Finished(Other(role), hash.value);
      var ok := current.value == mac;
      TakeMessage(todo);
      return if ok then WaitOk else WaitError;
    }

    // -------------------------------------------------------------- the transport

    /** flush_flight: any part of the flight may go before the transport blocks. */
    method FlushFlight() returns (done: bool, ghost moved: seq<Item>)
      requires Sound()
      modifies this`flight, this`pushed, outp
      ensures Sound() && done == (flight == [])
      ensures outp.items == old(outp.items) + moved && pushed == old(pushed) + moved
    {
      hide Proper, InStep, Messages, Of, Transcribed;
      moved := [];
      while flight != []
        invariant Sound() && outp.items == old(outp.items) + moved && pushed == old(pushed) + moved
        decreases |flight|
      {
        if * {
          return false, moved;
        }
        ghost var item := flight[0];
        assert pushed + flight == pushed + [item] + flight[1..];
        outp.items := outp.items + [flight[0]];
        flight := flight[1..];
        pushed := pushed + [item];
        moved := moved + [item];
      }
      return true, moved;
    }

    /** open_handshake: the next record becomes the current message, unless there is none yet, or it
        is ChangeCipherSpec, which is dropped with an error. `theirs` is what the other side has done
        so far. */
    method OpenHandshake(ghost theirs: seq<Turn>) returns (ret: Wait)
      requires Sound() && current.None?
      modifies this`current, this`popped, this`honest, inp
      ensures ret == WaitOk || ret == WaitError || ret == WaitReadMessage
      ensures ret == WaitReadMessage ==>
              Sound() && honest == old(honest) && current.None? && popped == old(popped) && inp.items == old(inp.items)
      ensures ret == WaitReadMessage <==> old(inp.items) == []
      ensures ret == WaitOk ==> Sound() && current.Some?
      ensures honest ==> old(honest)
      ensures ret == WaitOk ==>
              old(inp.items) == [old(inp.items)[0]] + inp.items && popped == old(popped) + [old(inp.items)[0]]
      ensures old(honest) && old(Sends(theirs)) ==> honest && (ret != WaitError ==> Sends(theirs))
      ensures ret == WaitError ==> Sound() && current.None? && popped == old(popped)
      ensures ret == WaitError && honest ==> Proper(plan, trail + [Turn(Other(role), Ccs)])
    {
      hide Proper, InStep, Messages, Of, Genuine, KindOf;
      if inp.items == [] {
        return WaitReadMessage;
      }
      var item := inp.items[0];
      inp.items := inp.items[1..];
      if honest && old(Sends(theirs)) {
        ArrivesDue(plan, trail, theirs, role, item);
      }
      honest := honest && Proper(plan, trail + [Turn(Other(role), item)]);
      if item == Ccs {
        return WaitError;
      }
      popped := popped + [item];
      current := Some(item.msg);
      return WaitOk;
    }

    /** open_change_cipher_spec. Anything else is dropped with an error, and so is ChangeCipherSpec
        behind a message that has not been taken. */
    method OpenChangeCipherSpec(ghost theirs: seq<Turn>, ghost rest: seq<Step>) returns (ret: Wait)
      requires Sound() && (honest ==> InStep(plan, trail, [Step(Other(role), KChangeCipherSpec)] + rest))
      modifies this`popped, this`trail, this`honest, inp
      ensures ret == WaitOk || ret == WaitError || ret == WaitReadCcs
      ensures ret == WaitReadCcs ==>
              Sound() && honest == old(honest) && trail == old(trail) && popped == old(popped)
                  && inp.items == old(inp.items)
      ensures ret == WaitReadCcs <==> old(inp.items) == []
      ensures ret == WaitOk ==>
              Sound() && trail == old(trail) + [Turn(Other(role), Ccs)] && (honest ==> InStep(plan, trail, rest))
      ensures honest ==> old(honest)
      ensures ret == WaitOk ==>
              old(inp.items) == [old(inp.items)[0]] + inp.items && popped == old(popped) + [old(inp.items)[0]]
      ensures old(honest) && old(Sends(theirs)) ==> honest && (ret != WaitError ==> Sends(theirs))
      ensures ret == WaitError ==> Sound() && !honest && trail == old(trail) && popped == old(popped)
    {
      hide Proper, InStep, Messages, Of, Genuine, KindOf;
      if inp.items == [] {
        return WaitReadCcs;
      }
      var item := inp.items[0];
      ghost var t := Turn(Other(role), item);
      if honest {
        NoMessageDue(rest);
      }
      inp.items := inp.items[1..];
      if honest && old(Sends(theirs)) {
        ArrivesDue(plan, trail, theirs, role, item);
      }
      honest := honest && Proper(plan, trail + [t]);
      if honest {
        DueNext(plan, trail, t, [Step(Other(role), KChangeCipherSpec)] + rest);
        OnlyCcs(item);
        StepOn(plan, trail, t, rest);
      }
      if item != Ccs || current.Some? {
        return WaitError;
      }
      TrailOne(trail, t);
      popped := popped + [item];
      trail := trail + [t];
      return WaitOk;
    }

    /** The other side follows the flow and has sent what there is to read. */
    ghost predicate Sends(theirs: seq<Turn>)
      reads this`popped, this`pushed, inp
    {
      && Proper(plan, theirs) && popped + inp.items <= Of(theirs, Other(role)) && Of(theirs, role) <= pushed
    }
  }

  ghost predicate Transcribed(buffer: Option<seq<Msg>>, hash: Option<seq<Msg>>, trail: seq<Turn>)
  {
    && (buffer.Some? ==> buffer.value == Messages(trail)) && (hash.Some? ==> hash.value == Messages(trail))
    && (buffer.Some? || hash.Some?)
  }

  lemma {:induction false} InStepProper(p: Params, trail: seq<Turn>, rest: seq<Step>)
    requires InStep(p, trail, rest)
    ensures Proper(p, trail)
  {
  }

  lemma {:induction false} NoContent(p: Params, trail: seq<Turn>, t: Turn)
    requires t.item == Ccs
    ensures Genuine(p, trail, t) && KindOf(t.item) == KChangeCipherSpec
  {
  }

  lemma {:induction false} OnlyCcs(item: Item)
    ensures KindOf(item) == KChangeCipherSpec <==> item == Ccs
  {
  }
}
