/** Receiving handshake messages: the ring of seven fragment buffers in d1_both.cc. */
module DtlsReceiver {
  import opened DtlsWire
  import opened DtlsReassembly

  const SSL_MAX_HANDSHAKE_FLIGHT: nat := 7

  const SSL_AD_UNEXPECTED_MESSAGE: nat := 10
  const SSL_AD_ILLEGAL_PARAMETER: nat := 47
  const SSL_AD_DECODE_ERROR: nat := 50
  const SSL_AD_INTERNAL_ERROR: nat := 80

  // ---------------------------------------------------------------- specification

  /** The receiver's state: the number of the next message, and the messages being
      reassembled by ring slot. */
  datatype Rx = Rx(readSeq: nat, slots: map<nat, Partial>)

  /** What does not change while a flight is read: whether the read epoch is the encrypted
      one, and the largest message accepted. */
  datatype Limits = Limits(encrypted: bool, maxLen: nat)

  datatype Verdict = Go(rx: Rx) | Stop(rx: Rx, alert: nat)

  /** Every occupied slot holds a message of the window of seven from readSeq on, in the slot
      of its number. */
  ghost predicate InWindow(rx: Rx)
  {
    && rx.readSeq < 0x1_0000
    && forall i :: i in rx.slots ==>
         var p := rx.slots[i];
         i == p.num % 7 && rx.readSeq <= p.num < rx.readSeq + SSL_MAX_HANDSHAKE_FLIGHT && p.num < 0x1_0000
  }

  /** dtls1_get_incoming_message, giving the buffer for a header, new if need be. */
  function Incoming(rx: Rx, h: Header): Option<Partial>
  {
    if h.num % 7 in rx.slots then
      var p := rx.slots[h.num % 7];
      if p.typ != h.typ || p.len != h.msgLen then None else Some(p)
    else Some(Partial(h.typ, h.num, h.msgLen, map[]))
  }

  /** One fragment, as in the loop of dtls1_open_handshake. */
  function OnFragment(rx: Rx, lim: Limits, f: Fragment): Verdict
  {
    var h := f.hdr;
    if h.fragOff + h.fragLen > h.msgLen || h.msgLen > lim.maxLen then Stop(rx, SSL_AD_ILLEGAL_PARAMETER)
    else if lim.encrypted && h.num != rx.readSeq then Stop(rx, SSL_AD_UNEXPECTED_MESSAGE)
    else if h.num < rx.readSeq || h.num > rx.readSeq + SSL_MAX_HANDSHAKE_FLIGHT then Go(rx)
    else if h.num - rx.readSeq >= SSL_MAX_HANDSHAKE_FLIGHT then Stop(rx, SSL_AD_INTERNAL_ERROR)
    else match Incoming(rx, h)
         case None => Stop(rx, SSL_AD_ILLEGAL_PARAMETER)
         case Some(p) => Go(rx.(slots := rx.slots[h.num % 7 := AddFragment(p, h.fragOff, f.body)]))
  }

  /** The plaintext of one handshake record. */
  function OnRecord(rx: Rx, lim: Limits, record: seq<Byte>): Verdict
    decreases |record|
  {
    if record == [] then Go(rx)
    else match ParseFragment(record)
         case None => Stop(rx, SSL_AD_DECODE_ERROR)
         case Some((f, rest)) =>
           match OnFragment(rx, lim, f)
           case Stop(rx', alert) => Stop(rx', alert)
           case Go(rx') => OnRecord(rx', lim, rest)
  }

  predicate CurrentComplete(rx: Rx)
  {
    rx.readSeq % 7 in rx.slots && rx.slots[rx.readSeq % 7].Complete()
  }

  /** dtls1_next_message. */
  function Advance(rx: Rx): Rx
  {
    Rx((rx.readSeq + 1) % 0x1_0000, rx.slots - {rx.readSeq % 7})
  }

  // ---------------------------------------------------------------- the window

  lemma {:induction false} SlotsApart(readSeq: nat, a: nat, b: nat)
    requires readSeq <= a < readSeq + 7 && readSeq <= b < readSeq + 7 && a % 7 == b % 7
    ensures a == b
  {
  }

  /** Fragments, accepted or not, keep the ring in its window. */
  lemma {:induction false} FragmentKeepsWindow(rx: Rx, lim: Limits, f: Fragment)
    requires InWindow(rx) && f.hdr.Encodable()
    ensures InWindow(OnFragment(rx, lim, f).rx)
  {
  }

  lemma {:induction false} RecordKeepsWindow(rx: Rx, lim: Limits, record: seq<Byte>)
    requires InWindow(rx)
    ensures InWindow(OnRecord(rx, lim, record).rx)
    decreases |record|
  {
    hide ParseFragment, OnFragment;
    if record != [] && ParseFragment(record).Some? {
      var (f, rest) := ParseFragment(record).value;
      FragmentKeepsWindow(rx, lim, f);
      if OnFragment(rx, lim, f).Go? {
        RecordKeepsWindow(OnFragment(rx, lim, f).rx, lim, rest);
      }
    }
  }

  /** So does taking the current message, also when its number was the last of 16 bits: then
      the ring is empty, and the numbers start over. */
  lemma {:induction false} AdvanceKeepsWindow(rx: Rx)
    requires InWindow(rx) && CurrentComplete(rx)
    ensures InWindow(Advance(rx))
    ensures rx.readSeq == 0xFFFF ==> Advance(rx) == Rx(0, map[])
  {
    forall i | i in rx.slots && i != rx.readSeq % 7 ensures rx.slots[i].num > rx.readSeq {
      assert rx.slots[i].num != rx.readSeq;
    }
    if rx.readSeq == 0xFFFF {
      assert Advance(rx).slots == map[];
    }
  }

  /** The two window tests do not agree: the outer one lets the number seven past the current
      message through, the inner one then fails the connection. That is the only case in which
      a fragment outside the window is not silently ignored. */
  lemma {:induction false} WindowTests(rx: Rx, lim: Limits, f: Fragment)
    requires !lim.encrypted && f.hdr.fragOff + f.hdr.fragLen <= f.hdr.msgLen <= lim.maxLen
    requires f.hdr.num < rx.readSeq || f.hdr.num >= rx.readSeq + 7
    ensures OnFragment(rx, lim, f).Stop? <==> f.hdr.num == rx.readSeq + 7
    ensures OnFragment(rx, lim, f).rx == rx
  {
  }

  // ---------------------------------------------------------------- the ring itself

  class Receiver {
    var incoming: array<HmFragment?>
    var readSeq: nat
    var limits: Limits
    var hasMessage: bool
    var outgoingComplete: bool
    var flightHasReply: bool
    ghost var model: Rx          // what the ring stands for
    ghost var Repr: set<object>

    ghost predicate Valid()
      reads this, Repr
      ensures Valid() ==> this in Repr
    {
      && this in Repr && incoming in Repr && incoming.Length == SSL_MAX_HANDSHAKE_FLIGHT
      && (forall i :: 0 <= i < 7 && incoming[i] != null ==>
          incoming[i] in Repr && incoming[i].Foot() <= Repr - {this, incoming})
      && (forall i, j :: 0 <= i < j < 7 && incoming[i] != null && incoming[j] != null ==>
          incoming[i].Foot() !! incoming[j].Foot())
      && (forall i :: 0 <= i < 7 ==> SlotValid(i))
      && model.readSeq == readSeq && InWindow(model)
    }

    ghost predicate SlotValid(i: nat)
      requires i < incoming.Length
      reads this, incoming, if incoming[i] == null then {} else incoming[i].Foot()
    {
      if incoming[i] == null then i !in model.slots
      else incoming[i].Valid() && i in model.slots && model.slots[i] == incoming[i].Abs()
    }

    constructor (lim: Limits)
      ensures Valid() && fresh(Repr) && model == Rx(0, map[]) && limits == lim && !hasMessage
    {
      incoming := new HmFragment?[SSL_MAX_HANDSHAKE_FLIGHT](_ => null);
      readSeq, limits, hasMessage, outgoingComplete, flightHasReply := 0, lim, false, false, false;
      model := Rx(0, map[]);
      new;
      Repr := {this, incoming};
    }

    /** dtls1_is_current_message_complete. */
    method IsCurrentMessageComplete() returns (complete: bool)
      requires Valid()
      ensures complete <==> CurrentComplete(model)
    {
      var frag := incoming[readSeq % 7];
      assert SlotValid(readSeq % 7);
      if frag != null {
        frag.CompleteIsNull();
      }
      return frag != null && frag.reassembly == null;
    }

    /** dtls1_get_incoming_message: the buffer of the fragment's message. */
    method GetIncoming(h: Header) returns (frag: HmFragment?, alert: nat)
      requires Valid() && h.Encodable()
      modifies this`Repr, this`model, incoming
      ensures Valid() && fresh(Repr - old(Repr))
      ensures h.num < readSeq || h.num - readSeq >= 7 ==>
              frag == null && alert == SSL_AD_INTERNAL_ERROR && model == old(model)
      ensures readSeq <= h.num < readSeq + 7 ==>
                match Incoming(old(model), h)
                case None => frag == null && alert == SSL_AD_ILLEGAL_PARAMETER && model == old(model)
                case Some(p) =>
                  frag != null && frag == incoming[h.num % 7]
                      && model == old(model).(slots := old(model).slots[h.num % 7 := p])
    {
      hide Bit, BitAt, HeaderBytes;
      if h.num < readSeq || h.num - readSeq >= SSL_MAX_HANDSHAKE_FLIGHT {
        return null, SSL_AD_INTERNAL_ERROR;
      }
      var idx := h.num % 7;
      frag := incoming[idx];
      assert SlotValid(idx);
      if frag != null {
        SlotsApart(readSeq, frag.seqNo, h.num);
        assert frag.seqNo == h.num;
        if frag.typ != h.typ || frag.msgLen != h.msgLen {
          return null, SSL_AD_ILLEGAL_PARAMETER;
        }
        assert model.slots[idx := frag.Abs()] == model.slots;
        return frag, 0;
      }
      var made := new HmFragment(h);
      alert := 0;
      Insert(idx, made);
      frag := made;
    }

    /** Putting a new buffer into an empty slot. */
    method Insert(idx: nat, made: HmFragment)
      requires Valid() && idx < 7 && incoming[idx] == null && made.Valid() && made.Foot() !! Repr
      requires made.seqNo % 7 == idx && readSeq <= made.seqNo < readSeq + 7
      modifies this`Repr, this`model, incoming
      ensures Valid() && Repr == old(Repr) + made.Foot() && incoming[idx] == made
      ensures model == old(model).(slots := old(model).slots[idx := made.Abs()])
    {
      hide HmFragment.Valid, HmFragment.Abs;
      assert forall i :: 0 <= i < 7 ==> SlotValid(i);
      incoming[idx] := made;
      Repr := Repr + made.Foot();
      model := model.(slots := model.slots[idx := made.Abs()]);
      forall i | 0 <= i < 7 ensures SlotValid(i) {
        assert i != idx ==> old(SlotValid(i));
      }
      MadeParts(made);
    }

    /** One turn of the loop of dtls1_open_handshake, on a parsed fragment. */
    method OpenFragment(f: Fragment) returns (ok: bool, alert: nat)
      requires Valid() && f.hdr.Encodable() && |f.body| == f.hdr.fragLen
      modifies Repr
      ensures Valid() && fresh(Repr - old(Repr)) && limits == old(limits) && hasMessage == old(hasMessage)
      ensures OnFragment(old(model), limits, f) == if ok then Go(model) else Stop(model, alert)
    {
      hide Incoming, HmFragment.Abs, HmFragment.Valid, InWindow;
      ghost var before := model;
      var h := f.hdr;
      ok, alert := true, 0;
      if h.fragOff > h.msgLen || h.fragOff + h.fragLen > h.msgLen || h.msgLen > limits.maxLen {
        return false, SSL_AD_ILLEGAL_PARAMETER;
      }
      if limits.encrypted && h.num != readSeq {
        return false, SSL_AD_UNEXPECTED_MESSAGE;
      }
      if h.num < readSeq || h.num > readSeq + SSL_MAX_HANDSHAKE_FLIGHT {
        return;
      }
      var frag;
      frag, alert := GetIncoming(h);
      if frag == null {
        return false, alert;
      }
      var idx := h.num % 7;
      ghost var p := model.slots[idx];
      IncomingHeader(before, h);
      assert SlotValid(idx);
      PartsOf(frag);
      if frag.reassembly != null {
        AcceptInto(idx, h.fragOff, f.body);
      }
      assert before.slots[idx := p][idx := AddFragment(p, h.fragOff, f.body)] == before.slots[idx := AddFragment(p,
          h.fragOff, f.body)];
    }

    /** Copying a fragment's body into the buffer in one slot leaves the others alone. */
    method AcceptInto(idx: nat, off: nat, body: seq<Byte>)
      requires Valid() && idx < 7 && incoming[idx] != null && incoming[idx].Valid() && incoming[idx].reassembly != null
      requires off + |body| <= incoming[idx].msgLen
      modifies this`model, incoming[idx].Foot()
      ensures Valid()
      ensures idx in old(model).slots
      ensures model == old(model).(slots := old(model).slots[idx := AddFragment(old(model).slots[idx], off, body)])
    {
      hide HmFragment.Valid, HmFragment.Abs, AddFragment;
      var frag := incoming[idx];
      assert SlotValid(idx);
      ghost var p := frag.Abs();
      frag.Accept(off, body);
      model := model.(slots := model.slots[idx := AddFragment(p, off, body)]);
      SameIdentity(p, off, body);
      forall i | 0 <= i < 7 ensures SlotValid(i) {
        assert old(SlotValid(i));
        if i != idx && incoming[i] != null {
          assert old(incoming[i].Foot()) !! old(frag.Foot());
        }
      }
    }

    /** dtls1_open_handshake, on the plaintext of a handshake record. An error leaves in place
        what the fragments before it did. */
    method OpenHandshake(record: seq<Byte>) returns (ok: bool, alert: nat)
      requires Valid()
      modifies Repr
      ensures Valid() && fresh(Repr - old(Repr)) && limits == old(limits) && hasMessage == old(hasMessage)
      ensures OnRecord(old(model), limits, record) == if ok then Go(model) else Stop(model, alert)
    {
      hide OnFragment, ParseFragment;
      var cbs := record;
      while |cbs| > 0
        invariant Valid() && fresh(Repr - old(Repr)) && limits == old(limits) && hasMessage == old(hasMessage)
        invariant OnRecord(old(model), limits, record) == OnRecord(model, limits, cbs)
        decreases |cbs|
      {
        var parsed := ParseFragment(cbs);
        if parsed.None? {
          return false, SSL_AD_DECODE_ERROR;
        }
        ok, alert := OpenFragment(parsed.value.0);
        if !ok {
          return;
        }
        cbs := parsed.value.1;
      }
      return true, 0;
    }

    /** dtls1_get_message: the current message if it is complete, with its raw bytes under the
        header of a single fragment. */
    method GetMessage() returns (ok: bool, typ: nat, body: seq<Byte>, raw: seq<Byte>)
      requires Valid()
      modifies this`hasMessage
      ensures Valid()
      ensures ok <==> CurrentComplete(model)
      ensures hasMessage == (old(hasMessage) || ok)
      ensures ok ==> var p := model.slots[readSeq % 7];
                     && typ == p.typ && body == p.Body()
                     && Header(p.typ, p.len, p.num, 0, p.len).Encodable()
                     && raw == HeaderBytes(Header(p.typ, p.len, p.num, 0, p.len)) + body
    {
      hide HmFragment.Valid, HmFragment.Abs, HeaderBytes;
      ok := IsCurrentMessageComplete();
      typ, body, raw := 0, [], [];
      if !ok {
        return;
      }
      var frag := incoming[readSeq % 7];
      assert SlotValid(readSeq % 7);
      PartsOf(frag);
      frag.CompleteParts();
      typ := frag.typ;
      body := frag.data[HM_HEADER_LENGTH..];
      raw := frag.data[..];
      if !hasMessage {
        hasMessage := true;
      }
      forall i | 0 <= i < 7 ensures SlotValid(i) {
        assert old(SlotValid(i));
      }
    }

    /** dtls1_next_message: the current message was processed. */
    method NextMessage()
      requires Valid() && hasMessage && CurrentComplete(model)
      modifies this, incoming
      ensures Valid() && Repr == old(Repr) && !hasMessage && limits == old(limits)
      ensures model == Advance(old(model))
    {
      hide HmFragment.Valid, HmFragment.Abs;
      AdvanceKeepsWindow(model);
      var index := readSeq % 7;
      assert forall i :: 0 <= i < 7 ==> SlotValid(i);
      incoming[index] := null;
      readSeq := (readSeq + 1) % 0x1_0000;
      model := Advance(model);
      hasMessage := false;
      if outgoingComplete {
        flightHasReply := true;
      }
      forall i | 0 <= i < 7 ensures SlotValid(i) {
        assert old(SlotValid(i));
      }
    }
  }

  lemma {:induction false} PartsOf(frag: HmFragment)
    requires frag.Valid()
    ensures frag.Abs().len == frag.msgLen && (frag.Abs().Complete() <==> frag.reassembly == null)
  {
    frag.CompleteIsNull();
  }

  lemma {:induction false} MadeParts(made: HmFragment)
    requires made.Valid()
    ensures made.Abs().num == made.seqNo && made.seqNo < 0x1_0000
  {
  }

  lemma {:induction false} SameIdentity(p: Partial, off: nat, body: seq<Byte>)
    ensures AddFragment(p, off, body).num == p.num && AddFragment(p, off, body).typ == p.typ
    ensures AddFragment(p, off, body).len == p.len
  {
  }

  lemma {:induction false} IncomingHeader(rx: Rx, h: Header)
    requires Incoming(rx, h).Some?
    ensures Incoming(rx, h).value.len == h.msgLen
  {
  }
}
