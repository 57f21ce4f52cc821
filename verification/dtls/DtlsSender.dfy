/** Sending a handshake flight over datagrams: d1_both.cc from add_outgoing to send_flight,
    the sealing of records in dtls_record.cc and the change of write epoch in dtls_method.cc.
    The AEAD is known only by how much it may add to a record; it and the transport may
    fail or block at any time. */
module DtlsSender {
  import opened DtlsWire

  const DTLS1_RT_HEADER_LENGTH: nat := 13
  const SSL_MAX_HANDSHAKE_FLIGHT: nat := 7
  const MIN_MTU: nat := 228
  const DEFAULT_MTU: nat := 1472
  const SEQUENCE_LIMIT: nat := 0x1_0000_0000_0000

  /** DTLS_OUTGOING_MESSAGE. */
  datatype OutMsg = OutMsg(isCcs: bool, epoch: nat, data: seq<Byte>)

  /** SSLAEADContext: MaxOverhead and ExplicitNonceLen. */
  datatype Aead = Aead(maxOverhead: nat, nonceLen: nat)

  /** A sealed record: its number, what it holds, and its length on the wire. */
  datatype Record = Record(epoch: nat, number: nat, isCcs: bool, plain: seq<Byte>, len: nat)

  /** How far a flight has been written: whole messages, and bytes of the next one. */
  datatype Cursor = Cursor(written: nat, offset: nat)

  // ---------------------------------------------------------------- what a flight's records must be

  /** The one fragment a handshake message is stored as. */
  function Whole(m: OutMsg): Option<Fragment>
  {
    match ParseFragment(m.data)
    case None => None
    case Some((f, rest)) =>
      if rest == [] && f.hdr.fragOff == 0 && f.hdr.msgLen == f.hdr.fragLen then Some(f) else None
  }

  /** The fragment in a record of handshake data. */
  function Piece(r: Record): Option<Fragment>
  {
    match ParseFragment(r.plain)
    case None => None
    case Some((f, rest)) => if rest == [] && !r.isCcs then Some(f) else None
  }

  /** Fragment `g` is the part of `f` from `offset` on, as much as it holds; it is empty only
      if the message is. */
  predicate NextPart(f: Fragment, offset: nat, g: Fragment)
  {
    && g.hdr == f.hdr.(fragOff := offset, fragLen := |g.body|)
    && offset + |g.body| <= |f.body| && g.body == f.body[offset..offset + |g.body|]
    && (g.body == [] ==> f.body == [])
  }

  /** The cursor after record `r`, if `r` is what comes next in the flight. */
  function After(msgs: seq<OutMsg>, c: Cursor, r: Record): Option<Cursor>
  {
    if c.written >= |msgs| || r.epoch != msgs[c.written].epoch then None
    else
      var m := msgs[c.written];
      if m.isCcs then
        if r.isCcs && r.plain == [1] && c.offset == 0 then Some(Cursor(c.written + 1, 0)) else None
      else if Whole(m).None? || Piece(r).None? then None
      else
        var (f, g) := (Whole(m).value, Piece(r).value);
        if !NextPart(f, c.offset, g) then None
        else if c.offset + |g.body| == |f.body| then Some(Cursor(c.written + 1, 0))
        else Some(Cursor(c.written, c.offset + |g.body|))
  }

  /** Records that continue a flight one after another, without gap or overlap. */
  function Follow(msgs: seq<OutMsg>, c: Cursor, recs: seq<Record>): Option<Cursor>
    decreases |recs|
  {
    if recs == [] then Some(c)
    else match After(msgs, c, recs[0])
         case None => None
         case Some(d) => Follow(msgs, d, recs[1..])
  }

  lemma {:induction false} FollowAppend(msgs: seq<OutMsg>, c: Cursor, a: seq<Record>, b: seq<Record>)
    requires Follow(msgs, c, a).Some?
    ensures Follow(msgs, c, a + b) == Follow(msgs, Follow(msgs, c, a).value, b)
    decreases |a|
  {
    hide After;
    if a == [] {
      assert a + b == b;
    } else {
      FollowAppend(msgs, After(msgs, c, a[0]).value, a[1..], b);
      assert (a + b)[1..] == a[1..] + b;
    }
  }

  lemma {:induction false} FollowOne(msgs: seq<OutMsg>, c: Cursor, a: seq<Record>, r: Record, d: Cursor)
    requires Follow(msgs, c, a).Some? && After(msgs, Follow(msgs, c, a).value, r) == Some(d)
    ensures Follow(msgs, c, a + [r]) == Some(d)
  {
    FollowAppend(msgs, c, a, [r]);
    assert [r][1..] == [];
  }

  /** A cursor between two records: inside a message only if some of it is left. */
  predicate Proper(msgs: seq<OutMsg>, c: Cursor)
  {
    && c.written <= |msgs|
    && (c.offset > 0 ==> c.written < |msgs| && !msgs[c.written].isCcs && Whole(msgs[c.written]).Some?
                         && c.offset < |Whole(msgs[c.written]).value.body|)
  }

  function BytesLeft(msgs: seq<OutMsg>, c: Cursor): nat
  {
    if c.written < |msgs| && Whole(msgs[c.written]).Some? && c.offset <= |Whole(msgs[c.written]).value.body|
    then |Whole(msgs[c.written]).value.body| - c.offset else 0
  }

  /** Less is left to write: fewer messages, or as many and fewer bytes of the next one. */
  predicate Closer(msgs: seq<OutMsg>, d: Cursor, c: Cursor)
  {
    d.written > c.written || (d.written == c.written && BytesLeft(msgs, d) < BytesLeft(msgs, c))
  }

  lemma {:induction false} AfterIsCloser(msgs: seq<OutMsg>, c: Cursor, r: Record)
    requires After(msgs, c, r).Some?
    ensures Proper(msgs, After(msgs, c, r).value) && Closer(msgs, After(msgs, c, r).value, c)
  {
  }

  lemma {:induction false} FollowIsCloser(msgs: seq<OutMsg>, c: Cursor, recs: seq<Record>)
    requires recs != [] && Follow(msgs, c, recs).Some?
    ensures Proper(msgs, Follow(msgs, c, recs).value) && Closer(msgs, Follow(msgs, c, recs).value, c)
    decreases |recs|
  {
    hide After;
    AfterIsCloser(msgs, c, recs[0]);
    if recs[1..] != [] {
      FollowIsCloser(msgs, After(msgs, c, recs[0]).value, recs[1..]);
    }
  }

  /** Cursor `c` is earlier in the flight than cursor `d`. */
  predicate Earlier(c: Cursor, d: Cursor)
  {
    c.written < d.written || (c.written == d.written && c.offset < d.offset)
  }

  /** A record that fits in two places of a flight leads from the earlier one to the earlier one. */
  lemma {:induction false} AfterMonotone(msgs: seq<OutMsg>, c: Cursor, d: Cursor, r: Record)
    requires After(msgs, c, r).Some?
    ensures Earlier(c, After(msgs, c, r).value)
    ensures Earlier(c, d) && After(msgs, d, r).Some? ==> Earlier(After(msgs, c, r).value, After(msgs, d, r).value)
  {
    hide ParseFragment;
  }

  lemma {:induction false} FollowMonotone(msgs: seq<OutMsg>, c: Cursor, d: Cursor, recs: seq<Record>)
    requires Earlier(c, d) && Follow(msgs, c, recs).Some? && Follow(msgs, d, recs).Some?
    ensures Earlier(Follow(msgs, c, recs).value, Follow(msgs, d, recs).value)
    decreases |recs|
  {
    hide After, Earlier;
    if recs != [] {
      AfterMonotone(msgs, c, d, recs[0]);
      FollowMonotone(msgs, After(msgs, c, recs[0]).value, After(msgs, d, recs[0]).value, recs[1..]);
    }
  }

  lemma {:induction false} FollowLater(msgs: seq<OutMsg>, c: Cursor, recs: seq<Record>)
    requires recs != [] && Follow(msgs, c, recs).Some?
    ensures Earlier(c, Follow(msgs, c, recs).value)
    decreases |recs|
  {
    hide After;
    AfterMonotone(msgs, c, c, recs[0]);
    if recs[1..] != [] {
      FollowLater(msgs, After(msgs, c, recs[0]).value, recs[1..]);
    }
  }

  lemma {:induction false} FollowPrefix(msgs: seq<OutMsg>, c: Cursor, a: seq<Record>, b: seq<Record>)
    requires Follow(msgs, c, a + b).Some?
    ensures Follow(msgs, c, a).Some?
    decreases |a|
  {
    hide After;
    if a != [] {
      assert (a + b)[1..] == a[1..] + b;
      FollowPrefix(msgs, After(msgs, c, a[0]).value, a[1..], b);
    }
  }

  /** Records that were passed over without being sent are not made up for by whatever is sent
      from there on: together with what was sent before, it is never the flight. */
  lemma {:induction false} LostIsNeverMadeUp(msgs: seq<OutMsg>, sent: seq<Record>, lost: seq<Record>,
      later: seq<Record>)
    requires Follow(msgs, Cursor(0, 0), sent + lost + later).Some?
    ensures Follow(msgs, Cursor(0, 0), sent + later) == Follow(msgs, Cursor(0, 0), sent + lost + later) <==> lost == []
  {
    hide After, Earlier;
    FollowPrefix(msgs, Cursor(0, 0), sent + lost, later);
    FollowPrefix(msgs, Cursor(0, 0), sent, lost);
    var c := Follow(msgs, Cursor(0, 0), sent).value;
    FollowAppend(msgs, Cursor(0, 0), sent, lost);
    FollowAppend(msgs, Cursor(0, 0), sent + lost, later);
    FollowAppend(msgs, Cursor(0, 0), sent, later);
    if lost == [] {
      assert sent + lost == sent;
    } else {
      FollowLater(msgs, c, lost);
      if Follow(msgs, c, later).Some? {
        FollowMonotone(msgs, c, Follow(msgs, c, lost).value, later);
        NotEarlier(Follow(msgs, c, later).value);
      }
    }
  }

  lemma {:induction false} NotEarlier(c: Cursor)
    ensures !Earlier(c, c)
  {
  }

  function Total(packet: seq<Record>): nat
  {
    if packet == [] then 0 else packet[0].len + Total(packet[1..])
  }

  lemma {:induction false} TotalAppend(a: seq<Record>, r: Record)
    ensures Total(a + [r]) == Total(a) + r.len
  {
    if a == [] {
      assert a + [r] == [r] && [r][1..] == [];
    } else {
      TotalAppend(a[1..], r);
      assert (a + [r])[1..] == a[1..] + [r];
    }
  }

  /** The records of packets, one after another. */
  function Flatten(packets: seq<seq<Record>>): seq<Record>
  {
    if packets == [] then [] else Flatten(packets[..|packets| - 1]) + packets[|packets| - 1]
  }

  lemma {:induction false} FlattenAppend(packets: seq<seq<Record>>, p: seq<Record>)
    ensures Flatten(packets + [p]) == Flatten(packets) + p
  {
    assert (packets + [p])[..|packets|] == packets;
  }

  lemma {:induction false} FlattenConcat(a: seq<seq<Record>>, b: seq<seq<Record>>)
    ensures Flatten(a + b) == Flatten(a) + Flatten(b)
    decreases |b|
  {
    if b == [] {
      assert a + b == a;
    } else {
      var n := |b| - 1;
      FlattenConcat(a, b[..n]);
      assert a + b == (a + b[..n]) + [b[n]];
      FlattenAppend(a + b[..n], b[n]);
    }
  }

  /** The records of the packets are the flight up to the cursor. */
  ghost predicate Reaches(msgs: seq<OutMsg>, packets: seq<seq<Record>>, c: Cursor)
  {
    Follow(msgs, Cursor(0, 0), Flatten(packets)) == Some(c)
  }

  /** They are not the beginning of the flight, or one that ends earlier. */
  ghost predicate FallsShort(msgs: seq<OutMsg>, packets: seq<seq<Record>>, c: Cursor)
  {
    match Follow(msgs, Cursor(0, 0), Flatten(packets))
    case None => true
    case Some(d) => Earlier(d, c)
  }

  lemma {:induction false} ReachesOrShort(msgs: seq<OutMsg>, packets: seq<seq<Record>>, c: Cursor)
    ensures Reaches(msgs, packets, c) ==> !FallsShort(msgs, packets, c)
  {
  }

  /** A packet that is passed over: sent, it keeps what was sent the flight up to the cursor or
      short of it, whichever it was; not sent, it leaves it short. */
  lemma {:induction false} PacketPassed(msgs: seq<OutMsg>, packets: seq<seq<Record>>, c: Cursor, packet: seq<Record>,
      d: Cursor)
    requires Follow(msgs, c, packet) == Some(d) && (Reaches(msgs, packets, c) || FallsShort(msgs, packets, c))
    ensures Reaches(msgs, packets, c) ==> Reaches(msgs, packets + [packet], d)
    ensures FallsShort(msgs, packets, c) ==> FallsShort(msgs, packets + [packet], d)
    ensures packet != [] ==> FallsShort(msgs, packets, d)
  {
    hide After, Flatten;
    FlattenAppend(packets, packet);
    var all := Flatten(packets);
    if Follow(msgs, Cursor(0, 0), all).Some? {
      var e := Follow(msgs, Cursor(0, 0), all).value;
      FollowAppend(msgs, Cursor(0, 0), all, packet);
      if e != c && Follow(msgs, e, packet).Some? {
        FollowMonotone(msgs, e, c, packet);
      }
      if packet != [] {
        FollowLater(msgs, c, packet);
      }
    } else if Follow(msgs, Cursor(0, 0), all + packet).Some? {
      FollowPrefix(msgs, Cursor(0, 0), all, packet);
    }
  }

  /** The packets taken since are not empty and no longer than `limit`. */
  ghost predicate Took(before: seq<seq<Record>>, after: seq<seq<Record>>, limit: nat)
  {
    && before <= after
    && forall i :: |before| <= i < |after| ==> after[i] != [] && Total(after[i]) <= limit
  }

  lemma {:induction false} TookNone(packets: seq<seq<Record>>, limit: nat)
    ensures Took(packets, packets, limit)
  {
  }

  lemma {:induction false} TookMore(a: seq<seq<Record>>, b: seq<seq<Record>>, c: seq<seq<Record>>, limit: nat)
    requires Took(a, b, limit) && Took(b, c, limit)
    ensures Took(a, c, limit) && c[|a|..] == b[|a|..] + c[|b|..]
  {
    hide Total;
    assert forall i :: 0 <= i < |b| ==> c[i] == b[i];
  }

  // ---------------------------------------------------------------- record numbers

  /** No record number was used twice, and the counters are past all those used under the
      current and the previous epoch. */
  ghost predicate Numbered(numbers: seq<(nat, nat)>, epoch: nat, next: nat, last: nat)
  {
    && (forall i, j :: 0 <= i < j < |numbers| ==> numbers[i] != numbers[j])
    && forall n :: n in numbers ==>
         n.0 <= epoch && (n.0 == epoch ==> n.1 < next) && (n.0 + 1 == epoch ==> n.1 < last)
  }

  lemma {:induction false} NumberFresh(numbers: seq<(nat, nat)>, epoch: nat, next: nat, last: nat, previous: bool)
    requires Numbered(numbers, epoch, next, last) && (previous ==> epoch > 0)
    ensures previous ==> Numbered(numbers + [(epoch - 1, last)], epoch, next, last + 1)
    ensures !previous ==> Numbered(numbers + [(epoch, next)], epoch, next + 1, last)
  {
    var n := if previous then (epoch - 1, last) else (epoch, next);
    assert n !in numbers;
    var all := numbers + [n];
    forall i, j | 0 <= i < j < |all| ensures all[i] != all[j] {
      if j == |numbers| {
        assert all[i] in numbers;
      }
    }
  }

  lemma {:induction false} NumberedNextEpoch(numbers: seq<(nat, nat)>, epoch: nat, next: nat, last: nat)
    requires Numbered(numbers, epoch, next, last)
    ensures Numbered(numbers, epoch + 1, 0, next)
  {
  }

  // ---------------------------------------------------------------- the messages of a flight

  /** The number of the handshake message at place `i` of a flight. */
  function NumberAt(msgs: seq<OutMsg>, i: nat): Option<nat>
  {
    if i >= |msgs| || msgs[i].isCcs || Whole(msgs[i]).None? then None else Some(Whole(msgs[i]).value.hdr.num)
  }

  /** The handshake messages of the flight are the sender's messages of their numbers, each there once. */
  ghost predicate Carries(sent: seq<Msg>, msgs: seq<OutMsg>)
  {
    && (forall i :: 0 <= i < |msgs| && !msgs[i].isCcs ==> CarriesAt(sent, msgs[i]))
    && (forall i, j :: 0 <= i < j < |msgs| && NumberAt(msgs, i).Some? ==> NumberAt(msgs, i) != NumberAt(msgs, j))
  }

  ghost predicate CarriesAt(sent: seq<Msg>, m: OutMsg)
  {
    && Whole(m).Some?
    && var f := Whole(m).value;
       f.hdr.num < |sent| && sent[f.hdr.num] == Msg(f.hdr.typ, f.body)
  }

  /** The messages numbered from `from` on, below `total`, are in the flight. */
  ghost predicate Remaining(msgs: seq<OutMsg>, from: nat, total: nat)
  {
    forall n :: from <= n < total ==> HasNumber(msgs, n)
  }

  ghost predicate HasNumber(msgs: seq<OutMsg>, n: nat)
  {
    exists i :: 0 <= i < |msgs| && NumberAt(msgs, i) == Some(n)
  }

  lemma {:induction false} NothingYet(sent: seq<Msg>)
    ensures Carries(sent, []) && Remaining([], |sent|, |sent|) && Reaches([], [], Cursor(0, 0))
  {
  }

  /** The next message of the sender joins the flight. */
  lemma {:induction false} CarriesMore(sent: seq<Msg>, msgs: seq<OutMsg>, from: nat, m: OutMsg, f: Fragment)
    requires Carries(sent, msgs) && Remaining(msgs, from, |sent|)
    requires !m.isCcs && Whole(m) == Some(f) && f.hdr.num == |sent|
    ensures Carries(sent + [Msg(f.hdr.typ, f.body)], msgs + [m])
    ensures Remaining(msgs + [m], from, |sent| + 1)
  {
    hide Whole;
    var all, more := msgs + [m], sent + [Msg(f.hdr.typ, f.body)];
    SameNumbers(msgs, m);
    forall i | 0 <= i < |all| && !all[i].isCcs ensures CarriesAt(more, all[i]) {
      assert i < |msgs| ==> CarriesAt(sent, msgs[i]);
    }
    forall i, j | 0 <= i < j < |all| && NumberAt(all, i).Some? ensures NumberAt(all, i) != NumberAt(all, j) {
      if j == |msgs| {
        assert CarriesAt(sent, msgs[i]);
      }
    }
    RemainingMore(msgs, from, |sent|, m);
    assert NumberAt(all, |msgs|) == Some(|sent|);
  }

  lemma {:induction false} CcsCarries(sent: seq<Msg>, msgs: seq<OutMsg>, from: nat, m: OutMsg)
    requires Carries(sent, msgs) && Remaining(msgs, from, |sent|) && m.isCcs
    ensures Carries(sent, msgs + [m]) && Remaining(msgs + [m], from, |sent|)
  {
    hide Whole;
    SameNumbers(msgs, m);
    RemainingMore(msgs, from, |sent|, m);
  }

  lemma {:induction false} SameNumbers(msgs: seq<OutMsg>, m: OutMsg)
    ensures forall i :: 0 <= i < |msgs| ==> NumberAt(msgs + [m], i) == NumberAt(msgs, i)
  {
    hide Whole;
  }

  lemma {:induction false} RemainingMore(msgs: seq<OutMsg>, from: nat, total: nat, m: OutMsg)
    requires Remaining(msgs, from, total)
    ensures Remaining(msgs + [m], from, total)
  {
    hide NumberAt;
    var all := msgs + [m];
    SameNumbers(msgs, m);
    forall n | from <= n < total ensures HasNumber(all, n) {
      assert HasNumber(msgs, n);
      var i :| 0 <= i < |msgs| && NumberAt(msgs, i) == Some(n);
      assert NumberAt(all, i) == Some(n);
    }
  }

  // ---------------------------------------------------------------- the sender

  datatype SealResult = SealError | SealNoProgress | SealPartial | SealSuccess

  class Sender {
    var outgoing: seq<OutMsg>
    var written: nat
    var offset: nat
    var messagesComplete: bool
    var flightHasReply: bool
    var handshakeWriteSeq: nat
    var wEpoch: nat
    var writeSeq: nat
    var lastWriteSeq: nat
    var aead: Aead
    var lastAead: Aead
    var mtu: nat
    var noQueryMtu: bool
    var shutdown: bool
    ghost var wire: seq<seq<Record>>          // packets the transport took in this pass
    ghost var numbers: seq<(nat, nat)>        // every (epoch, number) sealed under
    ghost var intact: bool                    // neither the epoch nor a record number has wrapped
    ghost var sent: seq<Msg>                  // every handshake message so far
    ghost var flightStart: nat                // how many of them came before this flight

    ghost function At(): Cursor
      reads this
    {
      Cursor(written, offset)
    }

    /** What was accepted in this pass is the flight up to the cursor, or does not get as far. As
        long as neither counter has wrapped, no record number was used twice. The flight has the
        messages added since it was begun. */
    ghost predicate Valid()
      reads this
    {
      Queued() && Carried()
    }

    ghost predicate Queued()
      reads this
    {
      Base() && (Tiled() || Behind())
    }

    ghost predicate Base()
      reads this
    {
      && |outgoing| <= SSL_MAX_HANDSHAKE_FLIGHT && wEpoch < 0x1_0000 && handshakeWriteSeq < 0x1_0000
      && writeSeq < SEQUENCE_LIMIT && lastWriteSeq < SEQUENCE_LIMIT
      && aead.nonceLen <= aead.maxOverhead && lastAead.nonceLen <= lastAead.maxOverhead
      && Proper(outgoing, At())
      && (!messagesComplete ==> At() == Cursor(0, 0) && wire == [])
      && (intact ==> Numbered(numbers, wEpoch, writeSeq, lastWriteSeq))
    }

    /** The 16-bit message numbers start over after 0xFFFF messages. */
    ghost predicate Carried()
      reads this
    {
      && handshakeWriteSeq == |sent| % 0x1_0000 && flightStart <= |sent| <= flightStart + |outgoing|
      && (|sent| <= 0xFFFF ==> Carries(sent, outgoing) && Remaining(outgoing, flightStart, |sent|))
    }

    ghost predicate Tiled()
      reads this
    {
      Reaches(outgoing, wire, At())
    }

    /** What was accepted does not get as far as the cursor. */
    ghost predicate Behind()
      reads this
    {
      FallsShort(outgoing, wire, At())
    }

    constructor (a: Aead, packetSize: nat, noQuery: bool)
      requires a.nonceLen <= a.maxOverhead
      ensures Valid() && intact && outgoing == [] && wire == [] && numbers == [] && sent == [] && wEpoch == 0
    {
      outgoing, written, offset, messagesComplete, flightHasReply := [], 0, 0, false, false;
      handshakeWriteSeq, wEpoch, writeSeq, lastWriteSeq := 0, 0, 0, 0;
      aead, lastAead, mtu, noQueryMtu, shutdown := a, a, packetSize, noQuery, false;
      wire, numbers, intact, sent, flightStart := [], [], true, [], 0;
    }

    // -------------------------------------------------------------- building a flight

    /** dtls_clear_outgoing_messages. */
    method ClearOutgoing()
      requires Valid()
      modifies this
      ensures Valid() && outgoing == [] && written == 0 && offset == 0 && !messagesComplete && !flightHasReply
      ensures Tiled() && wire == [] && numbers == old(numbers) && intact == old(intact)
      ensures sent == old(sent) && flightStart == |sent|
      ensures wEpoch == old(wEpoch) && handshakeWriteSeq == old(handshakeWriteSeq)
    {
      hide Numbered, Carries, Remaining, Reaches, FallsShort;
      NothingYet(sent);
      outgoing, written, offset, messagesComplete, flightHasReply := [], 0, 0, false, false;
      wire, flightStart := [], |sent|;
    }

    /** The flight that a new message would join: none if the last one was complete. */
    ghost function Unfinished(): seq<OutMsg>
      reads this
    {
      if messagesComplete then [] else outgoing
    }

    /** add_outgoing. A handshake message has the next message number and is then the newest of
        those sent; AddMessage sees to both. */
    method AddOutgoing(isCcs: bool, data: seq<Byte>) returns (ok: bool)
      requires Valid()
      modifies this
      ensures Queued() && (isCcs || !ok ==> Valid())
      ensures intact == old(intact) && numbers == old(numbers) && wEpoch == old(wEpoch) && sent == old(sent)
      ensures ok == (|old(Unfinished())| < SSL_MAX_HANDSHAKE_FLIGHT && |data| <= 0xFFFF_FFFF)
      ensures outgoing == old(Unfinished()) + if ok then [OutMsg(isCcs, wEpoch, data)] else []
      ensures handshakeWriteSeq == if ok
              && !isCcs then (old(handshakeWriteSeq) + 1) % 0x1_0000 else old(handshakeWriteSeq)
      ensures flightStart == if old(messagesComplete) then |sent| else old(flightStart)
      ensures |sent| <= 0xFFFF ==> Carries(sent, old(Unfinished())) && Remaining(old(Unfinished()), flightStart, |sent|)
    {
      hide Numbered, Carries, Remaining;
      if messagesComplete {
        ClearOutgoing();
      }
      if |outgoing| >= SSL_MAX_HANDSHAKE_FLIGHT || |data| > 0xFFFF_FFFF {
        return false;
      }
      if !isCcs {
        handshakeWriteSeq := (handshakeWriteSeq + 1) % 0x1_0000;
      }
      var msg := OutMsg(isCcs, wEpoch, data);
      if isCcs && |sent| <= 0xFFFF {
        CcsCarries(sent, outgoing, flightStart, msg);
      }
      outgoing := outgoing + [msg];
      return true;
    }

    /** dtls1_init_message, dtls1_finish_message and dtls1_add_message: the body under the header
        of one whole fragment with the next message number. */
    method AddMessage(typ: nat, body: seq<Byte>) returns (ok: bool)
      requires Valid() && typ < 0x100
      modifies this
      ensures Valid() && intact == old(intact) && numbers == old(numbers) && wEpoch == old(wEpoch)
      ensures ok == (|body| < 0x100_0000 && |old(Unfinished())| < SSL_MAX_HANDSHAKE_FLIGHT)
      ensures ok ==> var f := Fragment(Header(typ, |body|, old(handshakeWriteSeq), 0, |body|), body);
                     var msg := OutMsg(false, wEpoch, FragmentBytes(f));
                     Whole(msg) == Some(f) && outgoing == old(Unfinished()) + [msg]
      ensures !ok ==> outgoing == if |body| < 0x100_0000 then old(Unfinished()) else old(outgoing)
      ensures handshakeWriteSeq == if ok then (old(handshakeWriteSeq) + 1) % 0x1_0000 else old(handshakeWriteSeq)
      ensures sent == if ok then old(sent) + [Msg(typ, body)] else old(sent)
      ensures ok ==> flightStart == if old(messagesComplete) then |old(sent)| else old(flightStart)
    {
      hide Numbered, Carries, Remaining, HeaderBytes, ParseFragment;
      if |body| >= 0x100_0000 {
        return false;
      }
      var f := Fragment(Header(typ, |body|, handshakeWriteSeq, 0, |body|), body);
      FragmentRoundTrip(f, []);
      assert FragmentBytes(f) + [] == FragmentBytes(f);
      ok := AddOutgoing(false, FragmentBytes(f));
      if ok {
        var msg := OutMsg(false, wEpoch, FragmentBytes(f));
        if |sent| <= 0xFFFF {
          CarriesMore(sent, old(Unfinished()), flightStart, msg, f);
        }
        sent := sent + [Msg(typ, body)];
      }
    }

    /** dtls1_add_change_cipher_spec. */
    method AddChangeCipherSpec() returns (ok: bool)
      requires Valid()
      modifies this
      ensures Valid() && intact == old(intact) && numbers == old(numbers) && wEpoch == old(wEpoch) && sent == old(sent)
      ensures ok == (|old(Unfinished())| < SSL_MAX_HANDSHAKE_FLIGHT)
      ensures outgoing == old(Unfinished()) + if ok then [OutMsg(true, wEpoch, [])] else []
      ensures handshakeWriteSeq == old(handshakeWriteSeq)
    {
      ok := AddOutgoing(true, []);
    }

    /** dtls1_set_write_state. The numbers of the epoch left behind stay at hand for
        retransmissions. */
    method SetWriteState(a: Aead)
      requires Valid() && a.nonceLen <= a.maxOverhead
      modifies this
      ensures Valid() && wEpoch == (old(wEpoch) + 1) % 0x1_0000
      ensures intact == (old(intact) && old(wEpoch) < 0xFFFF) && numbers == old(numbers) && wire == old(wire)
      ensures outgoing == old(outgoing) && At() == old(At()) && sent == old(sent)
    {
      hide Numbered, Carries, Remaining, Reaches, FallsShort, Proper;
      NextEpoch();
      wEpoch := (wEpoch + 1) % 0x1_0000;
      lastWriteSeq := writeSeq;
      writeSeq := 0;
      lastAead := aead;
      aead := a;
      intact := intact && wEpoch != 0;
    }

    lemma {:induction false} NextEpoch()
      requires Base()
      ensures intact ==> Numbered(numbers, wEpoch + 1, 0, writeSeq)
    {
      if intact {
        NumberedNextEpoch(numbers, wEpoch, writeSeq, lastWriteSeq);
      }
    }

    // -------------------------------------------------------------- sealing

    /** dtls_seal_record. The number is used up as soon as the AEAD has sealed under it, also
        when the record cannot be sent after all. After the last number of an epoch, the counter
        is back at zero and the call fails. */
    method SealRecord(previous: bool, isCcs: bool, plain: seq<Byte>, maxOut: nat) returns (ok: bool, rec: Record)
      requires Base() && (previous ==> wEpoch >= 1)
      modifies this`writeSeq, this`lastWriteSeq, this`numbers, this`intact
      ensures Base()
      ensures intact == old(intact) || (!intact && !ok && CounterWrapped())
      ensures ok ==>
                && rec.epoch == (if previous then wEpoch - 1 else wEpoch) && rec.isCcs == isCcs && rec.plain == plain
                && rec.number == old(if previous then lastWriteSeq else writeSeq)
                && rec.len <= maxOut
                && rec.len <= DTLS1_RT_HEADER_LENGTH + |plain| + (if previous then lastAead else aead).maxOverhead
                && numbers == old(numbers) + [(rec.epoch, rec.number)]
    {
      hide Numbered;
      var used := if previous then lastAead else aead;
      var epoch := if previous then wEpoch - 1 else wEpoch;
      var number := if previous then lastWriteSeq else writeSeq;
      rec := Record(epoch, number, isCcs, plain, 0);
      if maxOut < DTLS1_RT_HEADER_LENGTH {
        return false, rec;
      }
      var sealed, cipherLen := AeadSeal(used, |plain|, maxOut - DTLS1_RT_HEADER_LENGTH);
      if !sealed {
        return false, rec;
      }
      if intact {
        NumberFresh(numbers, wEpoch, writeSeq, lastWriteSeq, previous);
      }
      numbers := numbers + [(epoch, number)];
      var next := (number + 1) % SEQUENCE_LIMIT;
      if previous { lastWriteSeq := next; } else { writeSeq := next; }
      if next == 0 {
        intact := false;
        return false, rec;
      }
      if cipherLen >= 0x1_0000 {
        return false, rec;
      }
      return true, rec.(len := DTLS1_RT_HEADER_LENGTH + cipherLen);
    }

    /** The last number of this epoch or the one before was used. */
    ghost predicate CounterWrapped()
      reads this
    {
      (wEpoch, SEQUENCE_LIMIT - 1) in numbers || (wEpoch >= 1 && (wEpoch - 1, SEQUENCE_LIMIT - 1) in numbers)
    }

    /** seal_next_message: the next record of the flight, if it fits. */
    method SealNextMessage(maxOut: nat) returns (result: SealResult, rec: Record)
      requires Base() && messagesComplete && written < |outgoing|
      modifies this`offset, this`writeSeq, this`lastWriteSeq, this`numbers, this`intact
      ensures Base()
      ensures intact == old(intact) || (!intact && result.SealError? && CounterWrapped())
      ensures result.SealNoProgress? ==> At() == old(At()) && numbers == old(numbers)
      ensures result.SealPartial? || result.SealSuccess? ==> rec.len <= maxOut
      ensures result.SealPartial? ==> After(outgoing, old(At()), rec) == Some(At())
      ensures result.SealSuccess? ==> offset == 0 && After(outgoing, old(At()), rec) == Some(Cursor(written + 1, 0))
      ensures result.SealError? ==> At() == old(At())
    {
      hide Numbered, After, HeaderBytes, ParseFragment;
      var msg := outgoing[written];
      rec := Record(0, 0, false, [], 0);
      var previous := false;
      if wEpoch >= 1 && msg.epoch == wEpoch - 1 {
        previous := true;
      } else if msg.epoch != wEpoch {
        return SealError, rec;
      }
      var used := if previous then lastAead else aead;
      var overhead, prefix := DTLS1_RT_HEADER_LENGTH + used.maxOverhead, DTLS1_RT_HEADER_LENGTH + used.nonceLen;
      var sealed;
      if msg.isCcs {
        if maxOut < 1 + overhead {
          return SealNoProgress, rec;
        }
        sealed, rec := SealRecord(previous, true, [1], maxOut);
        CcsComesNext(outgoing, old(At()), rec);
        return if sealed then SealSuccess else SealError, rec;
      }
      if Whole(msg).None? || offset > |Whole(msg).value.body| {
        return SealError, rec;
      }
      var whole := Whole(msg).value;
      var left: nat := |whole.body| - offset;
      if maxOut < HM_HEADER_LENGTH + 1 + overhead || maxOut < prefix {
        return SealNoProgress, rec;
      }
      var todo: nat := left;
      if todo > maxOut - HM_HEADER_LENGTH - overhead {
        todo := maxOut - HM_HEADER_LENGTH - overhead;
      }
      var part := Fragment(whole.hdr.(fragOff := offset, fragLen := todo), whole.body[offset..offset + todo]);
      WholeParts(msg);
      sealed, rec := SealRecord(previous, false, FragmentBytes(part), maxOut);
      if !sealed {
        return SealError, rec;
      }
      PartComesNext(outgoing, old(At()), rec, part);
      if todo == left {
        offset := 0;
        return SealSuccess, rec;
      }
      offset := offset + todo;
      return SealPartial, rec;
    }

    /** seal_next_packet: as much of the flight as fits. If a seal fails after others of the same
        packet, the cursor stays behind the records of the packet, which is not sent. */
    method SealNextPacket(maxPacket: nat) returns (ok: bool, packet: seq<Record>)
      requires Base() && messagesComplete && written < |outgoing|
      modifies this`written, this`offset, this`writeSeq, this`lastWriteSeq, this`numbers, this`intact
      ensures Base()
      ensures intact == old(intact) || (!intact && !ok && CounterWrapped())
      ensures Total(packet) <= maxPacket && Follow(outgoing, old(At()), packet) == Some(At())
      ensures packet != [] ==> Closer(outgoing, At(), old(At()))
      ensures packet == [] <==> At() == old(At())
      ensures ok ==> packet != []
    {
      hide Numbered, After, Whole, BytesLeft;
      packet := [];
      var maxOut: nat := maxPacket;
      while written < |outgoing|
        invariant Base() && maxOut + Total(packet) == maxPacket && intact == old(intact)
        invariant Follow(outgoing, old(At()), packet) == Some(At())
        invariant packet == [] ==> At() == old(At())
        decreases |outgoing| - written
      {
        ghost var before := At();
        var result, rec := SealNextMessage(maxOut);
        if result.SealError? {
          ok := false;
          if packet != [] {
            FollowIsCloser(outgoing, old(At()), packet);
          }
          return;
        }
        if result.SealNoProgress? {
          break;
        }
        TotalAppend(packet, rec);
        maxOut := maxOut - rec.len;
        if result.SealSuccess? {
          written := written + 1;
        }
        FollowOne(outgoing, old(At()), packet, rec, At());
        AfterIsCloser(outgoing, before, rec);
        packet := packet + [rec];
        if result.SealPartial? {
          break;
        }
      }
      if packet != [] {
        FollowIsCloser(outgoing, old(At()), packet);
      }
      return packet != [], packet;
    }

    // -------------------------------------------------------------- sending

    /** dtls1_update_mtu. */
    method UpdateMtu()
      modifies this`mtu
      ensures mtu == old(mtu) || old(mtu) < MIN_MTU <= mtu
      ensures mtu >= MIN_MTU || noQueryMtu
    {
      if mtu < MIN_MTU && !noQueryMtu {
        var queried: int := *;
        if 0 <= queried <= 0x4000_0000 && queried >= MIN_MTU {
          mtu := queried;
        } else {
          mtu := DEFAULT_MTU;
        }
      }
    }

    /** One turn of the loop of send_flight. */
    method SendPacket() returns (ret: int, ghost taken: seq<seq<Record>>, ghost lost: seq<Record>)
      requires Valid() && messagesComplete && written < |outgoing|
      modifies this`written, this`offset, this`writeSeq, this`lastWriteSeq, this`numbers, this`intact, this`wire
      ensures Valid() && wire == old(wire) + taken && Took(old(wire), wire, mtu)
      ensures intact == old(intact) || (!intact && ret == -1 && CounterWrapped())
      ensures Follow(outgoing, old(At()), Flatten(taken) + lost) == Some(At())
      ensures Tiled() <==> old(Tiled()) && lost == []
      ensures if ret > 0 then |taken| == 1 && lost == [] && Closer(outgoing, At(), old(At()))
              else taken == [] && (lost == [] ==> At() == old(At()))
      ensures lost != [] ==> ret == -1 && Closer(outgoing, At(), old(At()))
    {
      hide Numbered, Closer, Proper, Total, Carries, Remaining, Reaches, FallsShort, Follow, Flatten;
      var oldWritten, oldOffset := written, offset;
      var ok, packet := SealNextPacket(mtu);
      PacketPassed(outgoing, wire, old(At()), packet, At());
      ReachesOrShort(outgoing, wire, At());
      ReachesOrShort(outgoing, wire, old(At()));
      ReachesOrShort(outgoing, wire + [packet], At());
      FlattenOne(packet);
      FollowNone(outgoing, old(At()));
      if !ok {
        return -1, [], packet;
      }
      var bioRet: int := *;
      if bioRet <= 0 {
        written, offset := oldWritten, oldOffset;
        assert Flatten([]) + [] == [];
        return bioRet, [], [];
      }
      wire := wire + [packet];
      return bioRet, [packet], [];
    }

    /** send_flight: one packet after another, until the transport blocks. A packet it does not
        take is built again on the next call. The cursor moves past the packets taken since, and
        past `lost`: the records of the packet in which a seal failed, which were never sent. What
        was sent is still the flight up to the cursor exactly if it was before and `lost` is
        empty. */
    method SendFlight() returns (ret: int, ghost lost: seq<Record>)
      requires Valid() && (messagesComplete || outgoing == [])
      modifies this`written, this`offset, this`writeSeq, this`lastWriteSeq, this`numbers, this`intact, this`mtu,
               this`wire
      ensures Valid() && Took(old(wire), wire, mtu) && (lost != [] ==> ret == -1)
      ensures intact == old(intact) || (!intact && ret == -1 && CounterWrapped())
      ensures Follow(outgoing, old(At()), Flatten(wire[|old(wire)|..]) + lost) == Some(At())
      ensures Tiled() <==> old(Tiled()) && lost == []
      ensures At() == old(At()) || Closer(outgoing, At(), old(At()))
      ensures ret > 0 ==> lost == [] && At() == Cursor(|outgoing|, 0)
      ensures shutdown ==> ret == -1 && wire == old(wire) && At() == old(At())
    {
      hide Numbered, After, Whole, BytesLeft, Total, Flatten, Follow, Carries, Remaining, Reaches, FallsShort, Took;
      TookNone(wire, mtu);
      lost := [];
      assert wire[|wire|..] == [];
      FlattenOne([]);
      FollowNone(outgoing, At());
      ReachesOrShort(outgoing, wire, At());
      if shutdown {
        return -1, [];
      }
      UpdateMtu();
      TookNone(wire, mtu);
      while written < |outgoing|
        invariant Valid() && (messagesComplete || outgoing == []) && intact == old(intact) && Took(old(wire), wire, mtu)
        invariant |old(wire)| <= |wire|
        invariant Follow(outgoing, old(At()), Flatten(wire[|old(wire)|..])) == Some(At())
        invariant Tiled() == old(Tiled())
        invariant At() == old(At()) || Closer(outgoing, At(), old(At()))
        decreases |outgoing| - written, BytesLeft(outgoing, At())
      {
        ghost var until, before := wire, wire[|old(wire)|..];
        ghost var taken;
        ret, taken, lost := SendPacket();
        TookMore(old(wire), until, wire, mtu);
        assert wire[|until|..] == taken;
        FlattenConcat(before, taken);
        FollowAppend(outgoing, old(At()), Flatten(before), Flatten(taken) + lost);
        assert Flatten(before) + (Flatten(taken) + lost) == Flatten(before + taken) + lost;
        if ret <= 0 {
          return;
        }
        assert Flatten(before + taken) + [] == Flatten(before + taken);
      }
      assert Flatten(wire[|old(wire)|..]) + [] == Flatten(wire[|old(wire)|..]);
      var flushed: int := *;
      return if flushed <= 0 then -1 else 1, [];
    }
    /** dtls1_flush_flight. When it succeeds, the packets accepted since the flight was started,
        over however many blocked calls, are the whole flight exactly if those before this call
        were the flight up to the cursor, that is, if no packet was given up with records in it. */
    method FlushFlight() returns (ret: int, ghost lost: seq<Record>)
      requires Valid()
      modifies this
      ensures Valid() && messagesComplete && Took(old(wire), wire, mtu)
      ensures outgoing == old(outgoing) && sent == old(sent) && flightStart == old(flightStart)
      ensures intact == old(intact) || (!intact && ret == -1 && CounterWrapped())
      ensures Tiled() <==> old(Tiled()) && lost == []
      ensures ret > 0 ==> lost == []
      ensures ret > 0 ==> (old(Tiled()) <==> Reaches(outgoing, wire, Cursor(|outgoing|, 0)))
    {
      hide Numbered, Carries, Remaining, Reaches, FallsShort, Follow, Flatten;
      messagesComplete := true;
      ret, lost := SendFlight();
    }

    /** dtls1_retransmit_outgoing_messages: a new pass over the same flight, from its start. When
        it succeeds its packets are the whole flight, whatever failed before. */
    method RetransmitOutgoing() returns (ret: int, ghost lost: seq<Record>)
      requires Valid() && (messagesComplete || outgoing == [])
      modifies this
      ensures Valid() && Took([], wire, mtu)
      ensures outgoing == old(outgoing) && sent == old(sent) && flightStart == old(flightStart)
      ensures intact == old(intact) || (!intact && ret == -1 && CounterWrapped())
      ensures Tiled() <==> lost == []
      ensures ret > 0 ==> Reaches(outgoing, wire, Cursor(|outgoing|, 0))
    {
      hide Numbered, Carries, Remaining, FallsShort;
      written, offset := 0, 0;
      wire := [];
      ret, lost := SendFlight();
    }
  }

  lemma {:induction false} FlattenOne(packet: seq<Record>)
    ensures Flatten([]) == [] && Flatten([packet]) == packet && packet + [] == packet && [] + packet == packet
  {
    FlattenAppend([], packet);
    assert [] + [packet] == [packet];
  }

  lemma {:induction false} FollowNone(msgs: seq<OutMsg>, c: Cursor)
    ensures Follow(msgs, c, []) == Some(c)
  {
  }

  /** A flight of an empty message and a ChangeCipherSpec, whose second seal fails after the first
      record is built. The next call sends the ChangeCipherSpec and reports success; the message
      is never sent. */
  lemma {:induction false} LostMessage(first: Record, second: Record)
    requires first == Record(0, 0, false, [14] + Zeros(11), 25) && second == Record(0, 2, true, [1], 14)
    ensures var msgs := [OutMsg(false, 0, [14] + Zeros(11)), OutMsg(true, 0, [])];
            && Follow(msgs, Cursor(0, 0), [first]) == Some(Cursor(1, 0))
            && Follow(msgs, Cursor(1, 0), [second]) == Some(Cursor(2, 0))
            && FallsShort(msgs, [[second]], Cursor(2, 0))
  {
    var data := [14] + Zeros(11);
    var msgs := [OutMsg(false, 0, data), OutMsg(true, 0, [])];
    assert data[12..12] == [] && data[12..] == [];
    assert ParseFragment(data) == Some((Fragment(Header(14, 0, 0, 0, 0), []), []));
    assert After(msgs, Cursor(0, 0), first) == Some(Cursor(1, 0));
    assert After(msgs, Cursor(1, 0), second) == Some(Cursor(2, 0));
    assert [first][1..] == [] && [second][1..] == [];
    FlattenAppend([], [second]);
    assert [] + [[second]] == [[second]];
  }

  function Zeros(n: nat): (z: seq<Byte>)
    ensures |z| == n
  {
    seq(n, _ => 0)
  }

  /** SSLAEADContext::Seal, on lengths: it may fail, and stays within its overhead and the room. */
  method AeadSeal(a: Aead, plainLen: nat, room: nat) returns (ok: bool, cipherLen: nat)
    ensures cipherLen <= room && cipherLen <= plainLen + a.maxOverhead
  {
    ok := *;
    cipherLen :| cipherLen <= room && cipherLen <= plainLen + a.maxOverhead;
  }

  lemma {:induction false} CcsComesNext(msgs: seq<OutMsg>, c: Cursor, r: Record)
    requires c.written < |msgs| && msgs[c.written].isCcs
    ensures c.offset == 0 && r.epoch == msgs[c.written].epoch && r.isCcs && r.plain == [1] ==>
              After(msgs, c, r) == Some(Cursor(c.written + 1, 0))
  {
  }

  lemma {:induction false} WholeParts(m: OutMsg)
    requires Whole(m).Some?
    ensures var f := Whole(m).value; f.hdr.Encodable() && |f.body| == f.hdr.fragLen == f.hdr.msgLen < 0x100_0000
  {
  }

  lemma {:induction false} PartComesNext(msgs: seq<OutMsg>, c: Cursor, r: Record, part: Fragment)
    requires c.written < |msgs| && !msgs[c.written].isCcs && Whole(msgs[c.written]).Some?
    requires NextPart(Whole(msgs[c.written]).value, c.offset, part) && part.hdr.Encodable()
    requires r.epoch == msgs[c.written].epoch && !r.isCcs && r.plain == FragmentBytes(part)
    ensures var n := |Whole(msgs[c.written]).value.body|;
            After(msgs, c, r) == Some(if c.offset + |part.body| == n then Cursor(c.written + 1, 0)
                else Cursor(c.written, c.offset + |part.body|))
  {
    FragmentRoundTrip(part, []);
    assert FragmentBytes(part) + [] == FragmentBytes(part);
  }
}
