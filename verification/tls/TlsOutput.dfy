/** The TLS output path: the flight of handshake records in s3_both.cc, and the write buffer with
    its retries in s3_pkt.cc, in front of a transport that takes any part of what it is given or
    nothing. Sealing may fail and adds a bounded number of bytes. */
module TlsOutput {
  import opened TlsBuffer

  const SSL3_RT_CHANGE_CIPHER_SPEC: nat := 20
  const SSL3_RT_ALERT: nat := 21
  const SSL3_RT_HANDSHAKE: nat := 22
  const SSL3_RT_APPLICATION_DATA: nat := 23
  const SSL3_RT_MAX_PLAIN_LENGTH: nat := 16384
  const SSL3_AL_WARNING: nat := 1
  const SSL3_AL_FATAL: nat := 2
  const SSL_AD_CLOSE_NOTIFY: nat := 0
  const MAX_SEAL_OVERHEAD: nat := 188
  const INT_MAX: nat := 0x7FFF_FFFF

  datatype Option<+T> = None | Some(value: T)

  datatype Shutdown = ShutdownNone | ShutdownCloseNotify | ShutdownError

  /** A sealed record: what was sealed, and the bytes it became. */
  datatype Rec = Rec(typ: nat, plain: seq<Byte>, bytes: seq<Byte>)

  /** The bytes of records, in the order they were sealed. */
  function Emitted(recs: seq<Rec>): seq<Byte>
  {
    if recs == [] then [] else Emitted(recs[..|recs| - 1]) + recs[|recs| - 1].bytes
  }

  /** What was sealed under one record type. */
  function Plain(recs: seq<Rec>, typ: nat): seq<Byte>
  {
    if recs == [] then []
    else
      var (init, last) := (recs[..|recs| - 1], recs[|recs| - 1]);
      if last.typ == typ then Plain(init, typ) + last.plain else Plain(init, typ)
  }

  lemma {:induction false} SealedOne(recs: seq<Rec>, r: Rec)
    ensures Emitted(recs + [r]) == Emitted(recs) + r.bytes
    ensures forall t :: Plain(recs + [r], t) == if r.typ == t then Plain(recs, t) + r.plain else Plain(recs, t)
  {
    assert (recs + [r])[..|recs|] == recs;
  }

  /** Records of data are no longer than the limit. */
  predicate Bounded(recs: seq<Rec>, limit: nat)
  {
    forall i :: 0 <= i < |recs| && (recs[i].typ == SSL3_RT_HANDSHAKE || recs[i].typ == SSL3_RT_APPLICATION_DATA) ==>
      |recs[i].plain| <= limit
  }

  /** What of the flight has not been given to the transport. */
  function Waiting(flight: Option<seq<Byte>>, offset: nat): seq<Byte>
    requires flight.Some? ==> offset <= |flight.value|
  {
    if flight.Some? then flight.value[offset..] else []
  }

  /** What went to the transport, what is in the write buffer and what waits in the flight are the
      records sealed, in the order they were sealed. */
  ghost predicate Flow(wire: seq<Byte>, head: seq<Byte>, flight: Option<seq<Byte>>, offset: nat, recs: seq<Rec>)
  {
    && (flight.Some? ==> offset <= |flight.value|)
    && wire + head + Waiting(flight, offset) == Emitted(recs)
  }

  lemma {:induction false} FlowBegin(wire: seq<Byte>, head: seq<Byte>, recs: seq<Rec>)
    requires Flow(wire, head, None, 0, recs)
    ensures Flow(wire, head, Some([]), 0, recs)
  {
  }

  lemma {:induction false} FlowSeal(wire: seq<Byte>, head: seq<Byte>, flight: seq<Byte>, offset: nat, recs: seq<Rec>,
      r: Rec)
    requires Flow(wire, head, Some(flight), offset, recs)
    ensures Flow(wire, head, Some(flight + r.bytes), offset, recs + [r])
  {
    SealedOne(recs, r);
    assert (flight + r.bytes)[offset..] == flight[offset..] + r.bytes;
  }

  lemma {:induction false} FlowSend(wire: seq<Byte>, flight: seq<Byte>, offset: nat, recs: seq<Rec>, n: nat)
    requires Flow(wire, [], Some(flight), offset, recs) && offset + n <= |flight|
    ensures Flow(wire + flight[offset..offset + n], [], Some(flight), offset + n, recs)
  {
    assert flight[offset..] == flight[offset..offset + n] + flight[offset + n..];
  }

  lemma {:induction false} FlowSent(wire: seq<Byte>, flight: seq<Byte>, recs: seq<Rec>)
    requires Flow(wire, [], Some(flight), |flight|, recs)
    ensures wire == Emitted(recs) && Flow(wire, [], None, 0, recs)
  {
    assert wire + [] + [] == wire;
  }

  lemma {:induction false} FlowFlushed(wire: seq<Byte>, head: seq<Byte>, wire': seq<Byte>, head': seq<Byte>,
      flight: Option<seq<Byte>>, offset: nat, recs: seq<Rec>)
    requires Flow(wire, head, flight, offset, recs) && wire + head == wire' + head'
    ensures Flow(wire', head', flight, offset, recs)
  {
  }

  /** The flight moves into the empty write buffer. */
  lemma {:induction false} FlowSplice(wire: seq<Byte>, flight: seq<Byte>, offset: nat, recs: seq<Rec>)
    requires Flow(wire, [], Some(flight), offset, recs)
    ensures Flow(wire, flight[offset..], None, 0, recs)
  {
    assert wire + [] + flight[offset..] == wire + flight[offset..] + [];
  }

  lemma {:induction false} FlowAppend(wire: seq<Byte>, head: seq<Byte>, recs: seq<Rec>, r: Rec)
    requires Flow(wire, head, None, 0, recs)
    ensures Flow(wire, head + r.bytes, None, 0, recs + [r])
  {
    SealedOne(recs, r);
    assert wire + (head + r.bytes) + [] == wire + head + [] + r.bytes;
  }

  lemma {:induction false} Moved(wire: seq<Byte>, data: seq<Byte>, n: nat)
    requires n <= |data|
    ensures wire + data[..n] + data[n..] == wire + data
  {
  }

  lemma {:induction false} BoundedOne(recs: seq<Rec>, limit: nat, r: Rec)
    requires Bounded(recs, limit)
             && (r.typ == SSL3_RT_HANDSHAKE || r.typ == SSL3_RT_APPLICATION_DATA ==> |r.plain| <= limit)
    ensures Bounded(recs + [r], limit)
  {
  }

  /** One record was sealed. */
  ghost predicate SealedAs(before: seq<Rec>, after: seq<Rec>, typ: nat, data: seq<Byte>)
  {
    exists r :: after == before + [r] && r.typ == typ && r.plain == data
  }

  lemma {:induction false} SealedPlain(before: seq<Rec>, after: seq<Rec>, typ: nat, data: seq<Byte>)
    requires SealedAs(before, after, typ, data)
    ensures forall t :: Plain(after, t) == if typ == t then Plain(before, t) + data else Plain(before, t)
    ensures |after| == |before| + 1
  {
    var r :| after == before + [r] && r.typ == typ && r.plain == data;
    SealedOne(before, r);
  }

  lemma {:induction false} SealedMore(before: seq<Rec>, after: seq<Rec>, typ: nat, data: seq<Byte>)
    requires SealedAs(before, after, typ, data)
    ensures after != before
  {
  }

  class TlsWriter {
    const wb: SSLBuffer                     // write_buffer
    var flight: Option<seq<Byte>>           // pending_flight
    var flightOffset: nat
    var wnum: nat
    var wpendPending: bool
    var wpendTot: nat
    var wpendRet: nat
    var wpendType: nat
    var wpendBuf: int
    var writeShutdown: Shutdown
    var alertDispatch: bool
    var sendAlert: (Byte, Byte)
    var partialWrite: bool                  // SSL_MODE_ENABLE_PARTIAL_WRITE
    var movingBuffer: bool                  // SSL_MODE_ACCEPT_MOVING_WRITE_BUFFER
    const maxSendFragment: nat
    var maxSealOverhead: nat
    const alertAddress: int                 // of send_alert
    ghost var wire: seq<Byte>               // taken by the transport
    ghost var records: seq<Rec>             // sealed so far
    ghost var accepted: seq<Byte>           // what calls to write application data reported written
    ghost var begun: seq<Byte>              // sealed for a call that has not succeeded yet
    ghost var ordered: bool                 // no part of a write buffer was lost from its end
    ghost var instep: bool                  // no retry was shorter than what it had already sent

    ghost function Foot(): set<object>
      reads this, wb
    {
      {this, wb} + wb.Arr()
    }

    ghost predicate Queues()
      reads this`wire, this`flight, this`flightOffset, this`records, this`ordered, this`wpendPending, this`wpendTot,
            this`wpendRet, this`maxSealOverhead, wb, wb.Arr()
    {
      Shape() && (ordered ==> Flow(wire, wb.Contents(), flight, flightOffset, records))
    }

    ghost predicate Shape()
      reads this`flight, this`flightOffset, this`records, this`wpendPending, this`wpendTot, this`wpendRet,
            this`maxSealOverhead, wb
    {
      && wb.Valid() && (if flight.Some? then flightOffset <= |flight.value| else flightOffset == 0)
      && 512 <= maxSendFragment <= SSL3_RT_MAX_PLAIN_LENGTH && maxSealOverhead <= MAX_SEAL_OVERHEAD
          && Bounded(records, maxSendFragment)
      && (wpendPending ==> 0 < wpendTot == wpendRet)
      && (wb.size == 0 ==> wb.offset < SSL3_ALIGN_PAYLOAD)
    }

    ghost function LeftOfFlight(): int
      reads this
    {
      if flight.Some? then |flight.value| - flightOffset else 0
    }

    ghost function PendingApp(): nat
      reads this
    {
      if wpendPending && wpendType == SSL3_RT_APPLICATION_DATA then wpendTot else 0
    }

    ghost predicate Books(done: nat)
      reads this
    {
      && |begun| == done + PendingApp()
      && Plain(records, SSL3_RT_APPLICATION_DATA) == accepted + begun
    }

    /** Whatever has been sealed is on the wire, in the write buffer or in the flight, in the order
        it was sealed; and the application data sealed is what was reported written and what the
        unfinished call has begun. */
    ghost predicate Valid()
      reads Foot()
    {
      Queues() && (instep ==> Books(wnum))
    }

    constructor (fragment: nat, overhead: nat, address: int)
      requires 512 <= fragment <= SSL3_RT_MAX_PLAIN_LENGTH && overhead <= MAX_SEAL_OVERHEAD
      ensures Valid() && records == [] && accepted == [] && begun == [] && ordered && instep && fresh(Foot())
      ensures wire == [] && flight.None? && !wpendPending && wnum == 0 && wb.cap == 0 && wb.Reachable()
      ensures maxSendFragment == fragment && maxSealOverhead == overhead
    {
      wb := new SSLBuffer();
      flight, flightOffset := None, 0;
      wnum, wpendPending, wpendTot, wpendRet, wpendType, wpendBuf := 0, false, 0, 0, 0, 0;
      writeShutdown, alertDispatch, sendAlert := ShutdownNone, false, (0, 0);
      partialWrite, movingBuffer := *, *;
      maxSendFragment, maxSealOverhead, alertAddress := fragment, overhead, address;
      wire, records, accepted, begun, ordered, instep := [], [], [], [], true, true;
    }

    // -------------------------------------------------------------- the flight

    /** add_record_to_flight. */
    method AddRecordToFlight(typ: nat, input: seq<Byte>) returns (ok: bool)
      requires Queues() && (typ == SSL3_RT_HANDSHAKE ==> |input| <= maxSendFragment) && typ != SSL3_RT_APPLICATION_DATA
      modifies this`flight, this`records
      ensures Queues()
      ensures if ok then SealedAs(old(records), records, typ, input) else records == old(records)
    {
      hide Emitted, Flow, Bounded;
      if flight.None? {
        if ordered {
          FlowBegin(wire, wb.Contents(), records);
        }
        flight := Some([]);
      }
      var bytes;
      ok, bytes := SealRecord(typ, input, |input| + maxSealOverhead, maxSealOverhead);
      if !ok {
        return;
      }
      ghost var r := Rec(typ, input, bytes);
      if ordered {
        FlowSeal(wire, wb.Contents(), flight.value, flightOffset, records, r);
      }
      BoundedOne(records, maxSendFragment, r);
      flight := Some(flight.value + bytes);
      records := records + [r];
    }

    /** ssl3_add_message: the message in records of at most max_send_fragment, or, if a seal fails,
        the beginning of it. */
    method AddMessage(msg: seq<Byte>) returns (ok: bool)
      requires Valid()
      modifies this`flight, this`records
      ensures Valid()
      ensures old(Plain(records, SSL3_RT_HANDSHAKE)) <= Plain(records, SSL3_RT_HANDSHAKE)
              <= old(Plain(records, SSL3_RT_HANDSHAKE)) + msg
      ensures ok ==> Plain(records, SSL3_RT_HANDSHAKE) == old(Plain(records, SSL3_RT_HANDSHAKE)) + msg
      ensures ok ==> |records| > |old(records)|
    {
      hide Plain, Emitted, Bounded, Flow, SealedAs, SSLBuffer.Contents;
      var rest := msg;
      ghost var done: seq<Byte> := [];
      var first := true;
      while first || rest != []
        invariant Valid() && done + rest == msg && (first ==> records == old(records))
                  && (!first ==> |records| > |old(records)|)
        invariant Plain(records, SSL3_RT_HANDSHAKE) == old(Plain(records, SSL3_RT_HANDSHAKE)) + done
        decreases first, |rest|
      {
        first := false;
        var chunk := if |rest| <= maxSendFragment then rest else rest[..maxSendFragment];
        rest := rest[|chunk|..];
        ghost var before := records;
        ok := AddRecordToFlight(SSL3_RT_HANDSHAKE, chunk);
        if !ok {
          return;
        }
        SealedPlain(before, records, SSL3_RT_HANDSHAKE, chunk);
        done := done + chunk;
      }
      return true;
    }

    method AddChangeCipherSpec() returns (ok: bool)
      requires Valid()
      modifies this`flight, this`records
      ensures Valid()
      ensures Plain(records,
              SSL3_RT_CHANGE_CIPHER_SPEC) == old(Plain(records, SSL3_RT_CHANGE_CIPHER_SPEC)) + if ok then [1] else []
    {
      hide Plain, Emitted, Bounded, Flow, SealedAs, SSLBuffer.Contents;
      ok := AddRecordToFlight(SSL3_RT_CHANGE_CIPHER_SPEC, [1]);
      if ok {
        SealedPlain(old(records), records, SSL3_RT_CHANGE_CIPHER_SPEC, [1]);
      }
    }

    /** ssl3_add_alert. */
    method AddAlert(level: Byte, desc: Byte) returns (ok: bool)
      requires Valid()
      modifies this`flight, this`records
      ensures Valid()
      ensures Plain(records, SSL3_RT_ALERT) == old(Plain(records, SSL3_RT_ALERT)) + if ok then [level, desc] else []
    {
      hide Plain, Emitted, Bounded, Flow, SealedAs, SSLBuffer.Contents;
      ok := AddRecordToFlight(SSL3_RT_ALERT, [level, desc]);
      if ok {
        SealedPlain(old(records), records, SSL3_RT_ALERT, [level, desc]);
      }
    }

    /** One BIO_write of the write buffer, and whether what is left of it is its rest. */
    method WriteSome() returns (ret: int, ghost kept: bool)
      requires wb.Valid() && wb.size > 0
      modifies this`wire, wb
      ensures wb.Valid() && old(wire) <= wire && wb.buf == old(wb.buf)
      ensures kept <==> wire + wb.Contents() == old(wire + wb.Contents())
      ensures old(wb.Reachable()) ==> kept && wb.Reachable()
      ensures if ret > 0 then wb.size < old(wb.size) else wb.size == old(wb.size)
    {
      hide SSLBuffer.AfterConsume;
      kept := true;
      ret := BioWrite(wb.size);
      if ret <= 0 {
        return;
      }
      ghost var taken := wire;
      ghost var data := wb.Contents();
      wb.Consume(ret);
      kept := wb.Contents() == data[ret..];
      Moved(taken, data, ret);
      wire := taken + data[..ret];
      if wire + wb.Contents() == taken + data {
        assert wb.Contents() == (wire + wb.Contents())[|taken| + ret..];
        assert data[ret..] == (taken + data)[|taken| + ret..];
      }
    }

    /** tls_write_buffer_flush. */
    method FlushWriteBuffer() returns (ret: int, ghost kept: bool)
      requires wb.Valid()
      modifies this`wire, wb
      ensures wb.Valid() && old(wire) <= wire && wb.Arr() <= old(wb.Arr())
      ensures kept ==> wire + wb.Contents() == old(wire + wb.Contents())
      ensures old(wb.Reachable()) ==> kept && wb.Reachable()
      ensures if ret > 0 then ret == 1 && wb.size == 0 && wb.offset == 0 else wb.size > 0
    {
      hide SSLBuffer.Contents;
      kept := true;
      while wb.size > 0
        invariant wb.Valid() && old(wire) <= wire && wb.buf == old(wb.buf)
        invariant kept ==> wire + wb.Contents() == old(wire + wb.Contents())
        invariant old(wb.Reachable()) ==> kept && wb.Reachable()
        decreases wb.size
      {
        ghost var still;
        ret, still := WriteSome();
        kept := kept && still;
        if ret <= 0 {
          return;
        }
      }
      wb.EmptyContents();
      wb.Clear();
      wb.EmptyContents();
      ret := 1;
    }

    /** ssl_write_buffer_flush: the write buffer goes before anything that waits in the flight. */
    method DrainWriteBuffer() returns (ret: int)
      requires Queues()
      modifies this`wire, this`ordered, wb
      ensures Queues() && old(wire) <= wire && wb.Arr() <= old(wb.Arr())
      ensures (ordered ==> old(ordered)) && (old(wb.Reachable()) ==> ordered == old(ordered) && wb.Reachable())
      ensures if ret > 0 then ret == 1 && wb.size == 0 else wb.size > 0
    {
      hide Emitted, Bounded, Plain, Flow, SSLBuffer.Contents;
      ghost var wire0, head0 := wire, wb.Contents();
      ghost var kept;
      ret, kept := FlushWriteBuffer();
      ordered := ordered && kept;
      if ordered {
        FlowFlushed(wire0, head0, wire, wb.Contents(), flight, flightOffset, records);
      }
    }

    /** The end of ssl3_flush_flight. */
    method ResetFlight()
      requires Queues() && flight.Some? && flightOffset == |flight.value| && wb.size == 0
      modifies this`flight, this`flightOffset
      ensures Queues() && flight.None? && (ordered ==> wire == Emitted(records))
    {
      hide Emitted, Bounded, Plain, Flow, SSLBuffer.Contents;
      wb.EmptyContents();
      if ordered {
        FlowSent(wire, flight.value, records);
      }
      flight, flightOffset := None, 0;
      wb.EmptyContents();
    }

    /** The loop of ssl3_flush_flight. */
    method WriteFlight() returns (ret: int)
      requires Queues() && flight.Some? && wb.size == 0
      modifies this`wire, this`flightOffset
      ensures Queues() && old(wire) <= wire && (ret > 0 ==> flightOffset == |flight.value|)
    {
      hide Emitted, Bounded, Plain, Flow, SSLBuffer.Contents;
      wb.EmptyContents();
      ret := 1;
      while flightOffset < |flight.value|
        invariant Queues() && old(wire) <= wire && wb.size == 0 && wb.Contents() == []
        decreases |flight.value| - flightOffset
      {
        ret := BioWrite(|flight.value| - flightOffset);
        wb.EmptyContents();
        if ret <= 0 {
          return ret;
        }
        if ordered {
          FlowSend(wire, flight.value, flightOffset, records, ret);
        }
        wire := wire + flight.value[flightOffset..flightOffset + ret];
        flightOffset := flightOffset + ret;
        wb.EmptyContents();
      }
      return 1;
    }

    /** ssl3_flush_flight. When it succeeds, everything sealed so far has been taken. */
    method FlushFlight() returns (ret: int)
      requires Valid()
      modifies this`wire, this`flight, this`flightOffset, this`ordered, wb
      ensures Valid() && old(wire) <= wire && wb.Arr() <= old(wb.Arr())
      ensures (ordered ==> old(ordered)) && (old(wb.Reachable()) ==> ordered == old(ordered) && wb.Reachable())
      ensures ret > 0 ==> ret == 1 && flight.None? && (old(flight).Some? && ordered ==> wire == Emitted(records))
      ensures old(flight).None? ==> ret == 1 && wire == old(wire)
      ensures old(flight).Some? && writeShutdown != ShutdownNone ==> ret == -1 && wire == old(wire)
    {
      hide Emitted, Bounded, Plain, Flow, SSLBuffer.Contents;
      if flight.None? {
        return 1;
      }
      if writeShutdown != ShutdownNone {
        return -1;
      }
      if |flight.value| > INT_MAX {
        return -1;
      }
      if wb.size > 0 {
        ret := DrainWriteBuffer();
        if ret <= 0 {
          return ret;
        }
      }
      ret := WriteFlight();
      if ret <= 0 {
        return ret;
      }
      var flushed: int := *;
      if flushed <= 0 {
        return -1;
      }
      ResetFlight();
      return 1;
    }

    // -------------------------------------------------------------- the write buffer

    /** ssl3_write_pending: the record memorised is flushed, and only for a call that repeats its
        arguments. */
    method WritePending(typ: nat, addr: int, len: nat) returns (ret: int)
      requires Queues() && wpendPending
      modifies this`wire, this`wpendPending, this`ordered, wb
      ensures Queues() && old(wire) <= wire && wb.Arr() <= old(wb.Arr())
      ensures (ordered ==> old(ordered)) && (old(wb.Reachable()) ==> ordered == old(ordered) && wb.Reachable())
      ensures wpendTot > len || (!movingBuffer && wpendBuf != addr) || wpendType != typ ==>
              ret == -1 && wire == old(wire)
      ensures if ret > 0 then ret == wpendTot && !wpendPending && wb.size == 0 else wpendPending
    {
      hide Emitted, Bounded, Plain, Flow, SSLBuffer.Contents;
      if wpendTot > len || (!movingBuffer && wpendBuf != addr) || wpendType != typ {
        return -1;
      }
      ret := DrainWriteBuffer();
      if ret <= 0 {
        return;
      }
      wpendPending := false;
      return wpendRet;
    }

    /** What is left of the flight moves into the write buffer, in front of the next record. */
    method SpliceFlight()
      requires Queues() && flight.Some? && wb.size == 0 && |flight.value| - flightOffset <= wb.cap
      modifies this`flight, this`flightOffset, wb`size, wb.Arr()
      ensures Queues() && flight.None? && wb.size == |old(flight).value| - old(flightOffset)
              && wb.offset == old(wb.offset)
    {
      hide Emitted, Bounded, Plain, Flow, SSLBuffer.Contents;
      var left := flight.value[flightOffset..];
      wb.EmptyContents();
      if ordered {
        FlowSplice(wire, flight.value, flightOffset, records);
      }
      flight, flightOffset := None, 0;
      wb.Append(left);
      wb.EmptyContents();
      assert [] + left == left;
    }

    /** A new record behind what is in the write buffer. */
    method SealIntoBuffer(typ: nat, data: seq<Byte>) returns (ok: bool)
      requires Queues() && flight.None? && |data| <= maxSendFragment
      modifies this`records, wb`size, wb.Arr()
      ensures Queues() && if ok then SealedAs(old(records), records, typ, data) else records == old(records)
      ensures wb.offset == old(wb.offset) && wb.size <= old(wb.size) + if ok then |data| + maxSealOverhead else 0
    {
      hide Emitted, Bounded, Plain, Flow, SSLBuffer.Contents;
      var bytes;
      ok, bytes := SealRecord(typ, data, wb.cap - wb.size, maxSealOverhead);
      if !ok {
        return;
      }
      ghost var r := Rec(typ, data, bytes);
      if ordered {
        FlowAppend(wire, wb.Contents(), records, r);
      }
      BoundedOne(records, maxSendFragment, r);
      records := records + [r];
      wb.Append(bytes);
    }

    /** The middle of do_ssl3_write. When sealing fails, the flight has moved all the same. Nothing is
        lost here; but from 0xFFFA bytes on, the buffer may end past the reach of its offset, and
        more than 0xFFFF are refused. */
    method FillWriteBuffer(typ: nat, data: seq<Byte>) returns (ok: bool)
      requires Queues() && wb.size == 0 && |data| <= maxSendFragment
      modifies this`flight, this`flightOffset, this`records, wb, wb.Arr()
      ensures Queues() && wire == old(wire) && fresh(wb.Arr() - old(wb.Arr()))
      ensures if ok then SealedAs(old(records), records, typ, data) else records == old(records)
      ensures wb.Reachable() || Overlong(old(LeftOfFlight()), |data|)
      ensures LeftOfFlight() <= old(LeftOfFlight())
    {
      hide Emitted, Bounded, Plain, Flow, SSLBuffer.Contents;
      var flightLen := if flight.Some? then |flight.value| - flightOffset else 0;
      ok := wb.EnsureCap(|data| + maxSealOverhead + flightLen);
      if !ok {
        return;
      }
      if flight.Some? {
        SpliceFlight();
      }
      ok := SealIntoBuffer(typ, data);
    }

    /** A record and what is left of the flight may fill a buffer past the reach of its offset. */
    predicate Overlong(left: int, len: nat)
      reads this`maxSealOverhead
    {
      0xFFF9 < left + len + maxSealOverhead <= 0xFFFF
    }

    /** What do_ssl3_write may do. Either there was a record to flush, and nothing is sealed; or
        nothing is sealed because of an error; or the data is sealed as one record, to be flushed
        by calls that repeat the arguments. A positive result always means that the write buffer
        has gone to the transport and counts exactly the bytes of the record it completed. */
    twostate predicate Wrote(typ: nat, addr: int, data: seq<Byte>, ret: int)
      reads this, wb
    {
      && (ret > 0 ==> !wpendPending && wb.size == 0)
      && (old(wpendPending) ==>
            && records == old(records) && wpendTot == old(wpendTot) && wpendType == old(wpendType)
                && wpendBuf == old(wpendBuf)
            && (if ret > 0 then ret == wpendTot <= |data| && wpendType == typ else wpendPending)
            && (wpendTot > |data| || (!movingBuffer && wpendBuf != addr) || wpendType != typ ==>
                ret == -1 && wire == old(wire)))
      && (!old(wpendPending) ==>
            if records == old(records) then !wpendPending && ret <= 0
            else
              && SealedAs(old(records), records, typ, data) && |data| > 0
              && (if ret > 0 then ret == |data|
                  else wpendPending && wpendTot == |data| && wpendType == typ && wpendBuf == addr))
    }

    /** do_ssl3_write. */
    method DoWrite(typ: nat, addr: int, data: seq<Byte>) returns (ret: int)
      requires Queues() && |data| <= maxSendFragment
      modifies this`wire, this`flight, this`flightOffset, this`records, this`ordered, this`wpendPending,
               this`wpendTot, this`wpendRet, this`wpendType, this`wpendBuf, wb, wb.Arr()
      ensures Queues() && old(wire) <= wire && fresh(wb.Arr() - old(wb.Arr())) && Wrote(typ, addr, data, ret)
      ensures (ordered ==> old(ordered)) && LeftOfFlight() <= old(LeftOfFlight())
      ensures old(wb.Reachable()) && !Overlong(old(LeftOfFlight()), |data|) ==>
              ordered == old(ordered) && wb.Reachable()
    {
      hide Emitted, Bounded, Plain, Flow, SSLBuffer.Contents, SealedAs;
      if wpendPending {
        ret := WritePending(typ, addr, |data|);
        return;
      }
      if |data| > SSL3_RT_MAX_PLAIN_LENGTH || wb.size > 0 {
        return -1;
      }
      if data == [] {
        return 0;
      }
      var ok := FillWriteBuffer(typ, data);
      if !ok {
        return -1;
      }
      SealedMore(old(records), records, typ, data);
      wpendTot, wpendBuf, wpendType, wpendRet, wpendPending := |data|, addr, typ, |data|, true;
      ret := WritePending(typ, addr, |data|);
    }

    /** One round of the loop in ssl3_write_app_data, with what it means for the data of the call:
        one more record of it is sealed and flushed, or blocked, or what was blocked is flushed. */
    method WriteChunk(addr: int, input: seq<Byte>, tot: nat, nw: nat) returns (ret: int)
      requires Queues() && tot + nw <= |input|
               && (nw == maxSendFragment < |input| - tot || nw == |input| - tot <= maxSendFragment)
      requires instep ==> Books(tot) && (begun <= input || |input| < |begun|)
      modifies this`wire, this`flight, this`flightOffset, this`records, this`ordered, this`wpendPending,
               this`wpendTot, this`wpendRet, this`wpendType, this`wpendBuf, wb, wb.Arr(), this`begun
      ensures Queues() && old(wire) <= wire && fresh(wb.Arr() - old(wb.Arr()))
      ensures (ordered ==> old(ordered)) && LeftOfFlight() <= old(LeftOfFlight())
      ensures old(wb.Reachable()) && !Overlong(old(LeftOfFlight()), nw) ==> ordered == old(ordered) && wb.Reachable()
      ensures ret > 0 ==> ret <= nw && !wpendPending && wb.size == 0
      ensures instep ==> Books(if ret > 0 then tot + ret else tot)
      ensures instep && old(begun <= input) ==> old(begun) <= begun <= input
      ensures instep && !old(begun <= input) ==> ret == -1 && records == old(records) && begun == old(begun)
    {
      hide Emitted, Bounded, Plain, Flow, SSLBuffer.Contents, SealedAs, Queues;
      var chunk := input[tot..tot + nw];
      ret := DoWrite(SSL3_RT_APPLICATION_DATA, addr + tot, chunk);
      if records != old(records) {
        SealedPlain(old(records), records, SSL3_RT_APPLICATION_DATA, chunk);
        begun := begun + chunk;
      }
    }

    /** The loop of ssl3_write_app_data, from byte `start` of the call's data on. */
    method WriteChunks(addr: int, input: seq<Byte>, start: nat) returns (done: (int, nat))
      requires Queues() && start <= |input|
      requires instep ==> Books(start) && (begun <= input || |input| < |begun|)
      modifies this`wire, this`flight, this`flightOffset, this`records, this`ordered, this`wpendPending,
               this`wpendTot, this`wpendRet, this`wpendType, this`wpendBuf, wb, wb.Arr(), this`begun
      ensures Queues() && old(wire) <= wire && fresh(wb.Arr() - old(wb.Arr()))
      ensures (ordered ==> old(ordered)) && LeftOfFlight() <= old(LeftOfFlight())
      ensures old(wb.Reachable()) && old(LeftOfFlight()) + maxSendFragment + maxSealOverhead <= 0xFFF9 ==>
                ordered == old(ordered) && wb.Reachable()
      ensures done.0 > 0 ==> 0 < done.1 <= |input| && !wpendPending && wb.size == 0
      ensures instep ==> Books(done.1)
      ensures instep && old(begun <= input) ==> old(begun) <= begun <= input
      ensures instep && !old(begun <= input) ==> done == (-1, start) && records == old(records) && begun == old(begun)
    {
      hide Emitted, Bounded, Plain, Flow, SSLBuffer.Contents, SealedAs, Queues, Books;
      var tot, ret := start, 0;
      while true
        invariant Queues() && tot <= |input| && (ret == 0 ==> tot == start)
        invariant old(wire) <= wire && fresh(wb.Arr() - old(wb.Arr()))
        invariant (ordered ==> old(ordered)) && LeftOfFlight() <= old(LeftOfFlight())
        invariant old(wb.Reachable()) && old(LeftOfFlight()) + maxSendFragment + maxSealOverhead <= 0xFFF9 ==>
                    ordered == old(ordered) && wb.Reachable()
        invariant instep ==> Books(tot)
        invariant instep ==> if old(begun <= input) then old(begun) <= begun <= input
                             else tot == start && begun == old(begun) && records == old(records)
        decreases |input| - tot
      {
        PositiveLimit();
        var n := |input| - tot;
        var nw := if n > maxSendFragment then maxSendFragment else n;
        ret := WriteChunk(addr, input, tot, nw);
        if ret <= 0 {
          return (ret, tot);
        }
        if ret == n || partialWrite {
          return (ret, tot + ret);
        }
        tot := tot + ret;
      }
    }

    lemma {:induction false} PositiveLimit()
      requires Queues()
      ensures maxSendFragment > 0
    {
    }

    /** ssl3_write_app_data, outside of early data. A caller whose write did not succeed repeats it,
        with at least the same bytes. Once a call succeeds, the bytes it counts are exactly what was
        sealed for it, over however many attempts, in order and once each. A shorter retry is
        refused; it does no harm if it still has the bytes of the records that were flushed, but
        below that their count is lost. */
    method WriteAppData(addr: int, input: seq<Byte>) returns (ret: int)
      requires Valid() && (instep ==> begun <= input || |input| < |begun|)
      modifies this`wire, this`flight, this`flightOffset, this`records, this`ordered, this`wpendPending,
               this`wpendTot, this`wpendRet, this`wpendType, this`wpendBuf, wb, wb.Arr(),
               this`wnum, this`accepted, this`begun, this`instep
      ensures Valid() && old(wire) <= wire && fresh(wb.Arr() - old(wb.Arr()))
      ensures (ordered ==> old(ordered)) && LeftOfFlight() <= old(LeftOfFlight())
      ensures old(wb.Reachable()) && old(LeftOfFlight()) + maxSendFragment + maxSealOverhead <= 0xFFF9 ==>
                ordered == old(ordered) && wb.Reachable()
      ensures ret > 0 ==> ret <= |input| && !wpendPending && wb.size == 0
      ensures ret > 0 && instep ==>
                && accepted == old(accepted) + input[..ret] && begun == [] && wnum == 0
                && Plain(records, SSL3_RT_APPLICATION_DATA) == accepted
      ensures ret <= 0 ==> accepted == old(accepted)
      ensures ret <= 0 && instep && old(begun <= input) ==> old(begun) <= begun <= input
      ensures !instep <==> !old(instep) || (writeShutdown == ShutdownNone && |input| < old(wnum))
      ensures old(instep) ==> (instep <==> Books(wnum))
      ensures old(instep) && |input| < old(|begun|) ==> ret == -1 && records == old(records) && begun == old(begun)
      ensures writeShutdown != ShutdownNone ==> ret == -1 && records == old(records)
    {
      hide Emitted, Bounded, Plain, Flow, SSLBuffer.Contents, SealedAs, Queues;
      if writeShutdown != ShutdownNone {
        return -1;
      }
      var tot := wnum;
      wnum := 0;
      if |input| < tot {
        instep := false;
        return -1;
      }
      var done := WriteChunks(addr, input, tot);
      if done.0 <= 0 {
        wnum := done.1;
        return done.0;
      }
      accepted := accepted + begun;
      begun := [];
      return done.1;
    }

    // -------------------------------------------------------------- alerts

    /** ssl3_dispatch_alert: the alert is sealed once, however often it is blocked, and application
        data waiting for its retry stands in its way. */
    method DispatchAlert() returns (ret: int)
      requires Valid()
      modifies this`wire, this`flight, this`flightOffset, this`records, this`ordered, this`wpendPending,
               this`wpendTot, this`wpendRet, this`wpendType, this`wpendBuf, wb, wb.Arr(), this`alertDispatch
      ensures Valid() && old(wire) <= wire && fresh(wb.Arr() - old(wb.Arr()))
      ensures (ordered ==> old(ordered)) && LeftOfFlight() <= old(LeftOfFlight())
      ensures old(wb.Reachable()) && !Overlong(old(LeftOfFlight()), 2) ==> ordered == old(ordered) && wb.Reachable()
      ensures Plain(records, SSL3_RT_ALERT) == old(Plain(records, SSL3_RT_ALERT)) + if records == old(records) then []
              else [sendAlert.0, sendAlert.1]
      ensures if ret > 0 then ret == 1 && !alertDispatch && !wpendPending && wb.size == 0
              && (old(wpendPending) <==> records == old(records))
              else alertDispatch == old(alertDispatch)
      ensures old(wpendPending) && wpendType != SSL3_RT_ALERT ==> ret == -1 && records == old(records)
    {
      hide Emitted, Bounded, Plain, Flow, SSLBuffer.Contents, SealedAs;
      var alert := [sendAlert.0, sendAlert.1];
      ret := DoWrite(SSL3_RT_ALERT, alertAddress, alert);
      if records != old(records) {
        SealedPlain(old(records), records, SSL3_RT_ALERT, alert);
      }
      if ret <= 0 {
        return;
      }
      alertDispatch := false;
      return 1;
    }

    /** ssl_send_alert. */
    method SendAlert(level: nat, desc: Byte) returns (ret: int)
      requires Valid()
      requires if level == SSL3_AL_WARNING then desc == SSL_AD_CLOSE_NOTIFY
               else level == SSL3_AL_FATAL && desc != SSL_AD_CLOSE_NOTIFY
      modifies this`wire, this`flight, this`flightOffset, this`records, this`ordered, this`wpendPending,
               this`wpendTot, this`wpendRet, this`wpendType, this`wpendBuf, wb, wb.Arr(),
               this`alertDispatch, this`sendAlert, this`writeShutdown
      ensures Valid() && old(wire) <= wire && fresh(wb.Arr() - old(wb.Arr()))
      ensures (ordered ==> old(ordered)) && LeftOfFlight() <= old(LeftOfFlight())
      ensures old(wb.Reachable()) && !Overlong(old(LeftOfFlight()), 2) ==> ordered == old(ordered) && wb.Reachable()
      ensures old(writeShutdown) != ShutdownNone ==>
              ret == -1 && records == old(records) && writeShutdown == old(writeShutdown)
      ensures old(writeShutdown) == ShutdownNone ==>
                && sendAlert == (level, desc) && (ret <= 0 ==> alertDispatch)
                && writeShutdown == if level == SSL3_AL_WARNING then ShutdownCloseNotify else ShutdownError
      ensures old(wb.size) > 0 ==> ret == -1 && records == old(records)
    {
      hide Emitted, Bounded, Plain, Flow, SSLBuffer.Contents, SealedAs, Queues;
      if writeShutdown != ShutdownNone {
        return -1;
      }
      if level == SSL3_AL_WARNING && desc == SSL_AD_CLOSE_NOTIFY {
        writeShutdown := ShutdownCloseNotify;
      } else {
        writeShutdown := ShutdownError;
      }
      alertDispatch := true;
      sendAlert := (level, desc);
      if wb.size == 0 {
        ret := DispatchAlert();
        return;
      }
      return -1;
    }

    /** A new write cipher, with its own overhead. */
    method SetWriteCipher(overhead: nat)
      requires Valid() && overhead <= MAX_SEAL_OVERHEAD
      modifies this`maxSealOverhead
      ensures Valid() && maxSealOverhead == overhead
    {
      maxSealOverhead := overhead;
    }
  }

  // ---------------------------------------------------------------- any interleaving

  /** What a connection may do with its output. */
  datatype Op =
    | QueueMessage(msg: seq<Byte>) | QueueChangeCipherSpec | QueueAlert(level: Byte, desc: Byte)
    | Flush | Write(addr: int, data: seq<Byte>) | Alert(level: Byte, desc: Byte) | Dispatch

  predicate Sendable(op: Op)
  {
    op.Alert? ==> if op.level == SSL3_AL_WARNING then op.desc == SSL_AD_CLOSE_NOTIFY
                  else op.level == SSL3_AL_FATAL && op.desc != SSL_AD_CLOSE_NOTIFY
  }

  /** Any sequence of operations, with the transport and the seals doing what they like, by a caller
      that repeats a write until it succeeds. As long as no write or alert finds more than 48957
      bytes of flight waiting, what went to the transport, the write buffer and the flight are
      always the records sealed, in seal order; and the application data sealed is what was
      reported written and, of the write in progress, a beginning. */
  method Interleave(w: TlsWriter, ops: seq<Op>) returns (ghost short: bool, data: seq<Byte>)
    requires w.Valid() && w.ordered && w.wb.Reachable() && w.instep && w.begun == []
    requires forall op :: op in ops ==> Sendable(op)
    modifies w.Foot()
    ensures w.Valid() && old(w.wire) <= w.wire
    ensures short ==> Flow(w.wire, w.wb.Contents(), w.flight, w.flightOffset, w.records)
    ensures Plain(w.records, SSL3_RT_APPLICATION_DATA) == w.accepted + w.begun && w.begun <= data
  {
    hide Emitted, Bounded, Plain, Flow, SSLBuffer.Contents, TlsWriter.Queues;
    short, data := true, [];
    var addr, retry := 0, false;
    for i := 0 to |ops|
      invariant w.Valid() && w.instep && old(w.wire) <= w.wire && fresh(w.wb.Arr() - old(w.wb.Arr()))
      invariant short ==> w.ordered && w.wb.Reachable()
      invariant w.begun <= data && (!retry ==> w.begun == [])
    {
      var op := ops[i];
      assert Sendable(op);
      short := short && (op.Write? || op.Alert? || op.Dispatch? ==> w.LeftOfFlight() <= 48957);
      Small(w);
      if op.Write? {
        if !retry {
          addr, data := op.addr, op.data;
        }
        NothingLost(w, data);
        var ret := w.WriteAppData(addr, data);
        retry := ret <= 0;
      } else {
        Perform(w, op);
      }
    }
    Conserved(w);
  }

  /** The operations that write no application data. */
  method Perform(w: TlsWriter, op: Op)
    requires w.Valid() && Sendable(op) && !op.Write?
    modifies w.Foot()
    ensures w.Valid() && old(w.wire) <= w.wire && fresh(w.wb.Arr() - old(w.wb.Arr()))
    ensures w.instep == old(w.instep) && w.begun == old(w.begun) && (w.ordered ==> old(w.ordered))
    ensures old(w.wb.Reachable()) && (op.Alert? || op.Dispatch? ==> old(w.LeftOfFlight()) <= 48957) ==>
              w.ordered == old(w.ordered) && w.wb.Reachable()
  {
    hide Emitted, Bounded, Plain, Flow, SSLBuffer.Contents, TlsWriter.Queues;
    var ok, ret;
    Small(w);
    match op {
      case QueueMessage(msg) => ok := w.AddMessage(msg);
      case QueueChangeCipherSpec => ok := w.AddChangeCipherSpec();
      case QueueAlert(level, desc) => ok := w.AddAlert(level, desc);
      case Flush => ret := w.FlushFlight();
      case Alert(level, desc) => ret := w.SendAlert(level, desc);
      case Dispatch => ret := w.DispatchAlert();
    }
  }

  /** The largest record and its overhead leave 48957 bytes for a flight in front of it. */
  lemma {:induction false} Small(w: TlsWriter)
    requires w.Valid()
    ensures w.maxSendFragment + w.maxSealOverhead + 48957 <= 0xFFF9 && 2 <= w.maxSendFragment
  {
  }

  lemma {:induction false} NothingLost(w: TlsWriter, data: seq<Byte>)
    requires w.Valid() && w.instep && w.begun <= data
    ensures w.wnum <= |data|
  {
  }

  lemma {:induction false} Conserved(w: TlsWriter)
    requires w.Valid()
    ensures w.ordered ==> Flow(w.wire, w.wb.Contents(), w.flight, w.flightOffset, w.records)
    ensures w.instep ==> Plain(w.records, SSL3_RT_APPLICATION_DATA) == w.accepted + w.begun
  {
  }

  /** A writer past the bound: 0xFFF9 bytes of flight in memory the allocator aligned at 7, and a
      record of one byte behind them. If the transport takes the flight and blocks, the record
      is lost: the offset comes round to the byte before the flight. */
  method Overlong() returns (w: TlsWriter)
    ensures fresh(w) && w.Valid() && w.ordered && w.wb.size == 0xFFFA && !w.wb.Reachable()
    ensures w.wb.AfterConsume(0xFFF9) != w.wb.Contents()[0xFFF9..]
  {
    hide Emitted, Flow, Bounded, Plain, SSLBuffer.Contents, SSLBuffer.AfterConsume;
    w := new TlsWriter(512, 0, 0);
    var bytes: seq<Byte> := seq(0xFFF9, _ => 0);
    QueueFlight(w, bytes);
    w.wb.EmptyContents();
    w.wb.Move(0xFFFA, 7);
    w.wb.EmptyContents();
    w.SpliceFlight();
    var last: Byte := if w.wb.buf[0] == 0 then 1 else 0;
    ghost var front := w.wb.buf[..7];
    assert front[0] != last;
    w.wb.EmptyContents();
    AppendRecord(w, last);
    assert w.wb.buf[..7][0] == w.wb.buf[0];
    w.wb.LastLost();
  }

  /** A flight of one record. */
  method QueueFlight(w: TlsWriter, bytes: seq<Byte>)
    requires w.Valid() && w.records == [] && w.wire == [] && w.wb.size == 0 && w.begun == [] && w.instep && w.wnum == 0
    modifies w`flight, w`flightOffset, w`records
    ensures w.Valid() && w.flight == Some(bytes) && w.flightOffset == 0
    ensures Plain(w.records, SSL3_RT_APPLICATION_DATA) == old(Plain(w.records, SSL3_RT_APPLICATION_DATA))
  {
    hide Emitted, Flow, Plain, Bounded, SSLBuffer.Contents;
    var r := Rec(SSL3_RT_ALERT, [], bytes);
    SealedOne([], r);
    assert [] + [r] == [r];
    BoundedOne(w.records, w.maxSendFragment, r);
    w.wb.EmptyContents();
    FlowOfOne(bytes, r);
    w.flight, w.flightOffset, w.records := Some(bytes), 0, [r];
    w.wb.EmptyContents();
    assert w.Shape();
  }

  lemma {:induction false} FlowOfOne(bytes: seq<Byte>, r: Rec)
    requires r.bytes == bytes
    ensures Flow([], [], Some(bytes), 0, [r])
  {
    SealedOne([], r);
    assert [] + [r] == [r] && bytes[0..] == bytes && [] + bytes == bytes;
  }

  /** A record of one byte behind what is in the write buffer, waiting to be flushed. */
  method AppendRecord(w: TlsWriter, last: Byte)
    requires w.Valid() && w.flight.None? && w.instep && !w.wpendPending && w.begun == [] && w.wnum == 0
    requires 0 < w.wb.size < w.wb.cap
    modifies w`records, w`begun, w`wpendPending, w`wpendTot, w`wpendRet, w`wpendType, w.wb`size, w.wb.Arr()
    ensures w.Valid() && w.wb.size == old(w.wb.size) + 1 && w.wb.Contents() == old(w.wb.Contents()) + [last]
    ensures w.ordered == old(w.ordered) && w.wb.buf[..w.wb.offset] == old(w.wb.buf[..w.wb.offset])
  {
    hide Emitted, Flow, Plain, SSLBuffer.Contents;
    var r := Rec(SSL3_RT_APPLICATION_DATA, [last], [last]);
    if w.ordered {
      FlowAppend(w.wire, w.wb.Contents(), w.records, r);
    }
    SealedOne(w.records, r);
    BoundedOne(w.records, w.maxSendFragment, r);
    w.records := w.records + [r];
    ghost var head := w.wb.Contents();
    w.begun := [last];
    w.wpendPending, w.wpendTot, w.wpendRet, w.wpendType := true, 1, 1, SSL3_RT_APPLICATION_DATA;
    w.wb.Append([last]);
    assert w.wb.Contents() == head + [last];
    assert w.accepted + [] == w.accepted;
    assert w.Books(w.wnum);
    assert w.Shape();
  }

  /** tls_seal_record: at most the room given, and no more than SSL_max_seal_overhead is added; it
      may fail. */
  method SealRecord(typ: nat, input: seq<Byte>, maxOut: nat, overhead: nat) returns (ok: bool, bytes: seq<Byte>)
    ensures |bytes| <= maxOut && |bytes| <= |input| + overhead
  {
    ok := *;
    bytes :| |bytes| <= maxOut && |bytes| <= |input| + overhead;
  }

  /** BIO_write: an error or a block, or some of the bytes. */
  method BioWrite(len: nat) returns (ret: int)
    requires len > 0
    ensures ret <= len
  {
    ret :| ret <= len;
  }
}
