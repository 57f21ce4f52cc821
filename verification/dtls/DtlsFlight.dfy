/** From the sender to the receiver: the records of one complete pass over a flight cover every
    byte of every handshake message exactly once, and a receiver that gets them, in any order and
    among any other honest fragments, delivers the flight. */
module DtlsFlight {
  import opened DtlsWire
  import opened DtlsReassembly
  import opened DtlsReceiver
  import opened DtlsDelivery
  import S = DtlsSender

  /** The handshake fragments in a run of records. */
  function Pieces(recs: seq<S.Record>): seq<Fragment>
  {
    if recs == [] then []
    else (match S.Piece(recs[0]) case Some(g) => [g] case None => []) + Pieces(recs[1..])
  }

  /** The number of handshake records that carry byte `k` of message `n`. */
  ghost function Times(recs: seq<S.Record>, n: nat, k: nat): nat
  {
    if recs == [] then 0
    else (match S.Piece(recs[0]) case Some(g) => if Covers(g, n, k) then 1 else 0 case None => 0) + Times(recs[1..],
        n, k)
  }

  ghost predicate Passed(c: S.Cursor, i: nat, k: nat)
  {
    i < c.written || (i == c.written && k < c.offset)
  }

  /** One record covers exactly what the cursor passes over. */
  lemma {:induction false} StepCovers(sent: seq<Msg>, msgs: seq<S.OutMsg>, c: S.Cursor, r: S.Record, i: nat, k: nat)
    requires S.Carries(sent, msgs) && S.After(msgs, c, r).Some?
    requires S.NumberAt(msgs, i).Some? && k < |S.Whole(msgs[i]).value.body|
    ensures var d := S.After(msgs, c, r).value;
            (S.Piece(r).Some? && Covers(S.Piece(r).value, S.NumberAt(msgs, i).value, k)) <==>
                Passed(d, i, k) && !Passed(c, i, k)
    ensures Passed(c, i, k) ==> Passed(S.After(msgs, c, r).value, i, k)
  {
    hide S.Whole, ParseFragment;
    if !msgs[c.written].isCcs {
      var f, g := S.Whole(msgs[c.written]).value, S.Piece(r).value;
      assert g.hdr.num == f.hdr.num;
      if i != c.written {
        assert S.NumberAt(msgs, i) != S.NumberAt(msgs, c.written);
      }
    }
  }

  lemma {:induction false} FollowTimes(sent: seq<Msg>, msgs: seq<S.OutMsg>, c: S.Cursor, recs: seq<S.Record>, i: nat,
      k: nat)
    requires S.Carries(sent, msgs) && S.Follow(msgs, c, recs).Some?
    requires S.NumberAt(msgs, i).Some? && k < |S.Whole(msgs[i]).value.body|
    ensures var d := S.Follow(msgs, c, recs).value;
            Times(recs, S.NumberAt(msgs, i).value, k) == if Passed(d, i, k) && !Passed(c, i, k) then 1 else 0
    ensures Passed(c, i, k) ==> Passed(S.Follow(msgs, c, recs).value, i, k)
    decreases |recs|
  {
    hide S.After, S.Piece, S.Whole, Covers, S.Carries, Passed;
    if recs != [] {
      StepCovers(sent, msgs, c, recs[0], i, k);
      FollowTimes(sent, msgs, S.After(msgs, c, recs[0]).value, recs[1..], i, k);
    }
  }

  /** The records of a complete pass partition the flight: every byte of every handshake message
      is in exactly one of them. */
  lemma {:induction false} PassCoversOnce(sent: seq<Msg>, msgs: seq<S.OutMsg>, recs: seq<S.Record>, i: nat, k: nat)
    requires S.Carries(sent, msgs) && S.Follow(msgs, S.Cursor(0, 0), recs) == Some(S.Cursor(|msgs|, 0))
    requires S.NumberAt(msgs, i).Some? && k < |S.Whole(msgs[i]).value.body|
    ensures Times(recs, S.NumberAt(msgs, i).value, k) == 1
  {
    FollowTimes(sent, msgs, S.Cursor(0, 0), recs, i, k);
  }

  lemma {:induction false} TimesCovered(recs: seq<S.Record>, n: nat, k: nat)
    requires Times(recs, n, k) > 0
    ensures Covered(Pieces(recs), n, k)
  {
    var rest := Pieces(recs[1..]);
    if S.Piece(recs[0]).Some? && Covers(S.Piece(recs[0]).value, n, k) {
      assert S.Piece(recs[0]).value in Pieces(recs);
    } else {
      TimesCovered(recs[1..], n, k);
      var f :| f in rest && Covers(f, n, k);
      assert f in Pieces(recs);
    }
  }

  /** Every record of a pass holds a true piece of one of the sender's messages. */
  lemma {:induction false} PiecesHonest(sent: seq<Msg>, msgs: seq<S.OutMsg>, c: S.Cursor, recs: seq<S.Record>)
    requires S.Carries(sent, msgs) && S.Follow(msgs, c, recs).Some?
    ensures forall g :: g in Pieces(recs) ==> Honest(sent, g)
    decreases |recs|
  {
    hide S.After, S.Piece, S.Whole, Honest, S.Carries;
    if recs != [] {
      StepHonest(sent, msgs, c, recs[0]);
      PiecesHonest(sent, msgs, S.After(msgs, c, recs[0]).value, recs[1..]);
    }
  }

  lemma {:induction false} StepHonest(sent: seq<Msg>, msgs: seq<S.OutMsg>, c: S.Cursor, r: S.Record)
    requires S.Carries(sent, msgs) && S.After(msgs, c, r).Some?
    ensures S.Piece(r).Some? ==> Honest(sent, S.Piece(r).value)
  {
    hide ParseFragment;
    var m := msgs[c.written];
    if !m.isCcs {
      S.WholeParts(m);
      assert S.CarriesAt(sent, m);
    }
  }

  /** A message the cursor passes over is mentioned, even if it is empty. */
  lemma {:induction false} FollowMentions(msgs: seq<S.OutMsg>, c: S.Cursor, recs: seq<S.Record>, i: nat)
    requires S.Follow(msgs, c, recs).Some? && c.written <= i < S.Follow(msgs, c, recs).value.written
    requires S.NumberAt(msgs, i).Some?
    ensures Mentioned(Pieces(recs), S.NumberAt(msgs, i).value)
    decreases |recs|
  {
    hide S.Whole, ParseFragment;
    var d := S.After(msgs, c, recs[0]).value;
    if c.written == i {
      var g := S.Piece(recs[0]).value;
      assert g in Pieces(recs) && g.hdr.num == S.NumberAt(msgs, i).value;
    } else {
      FollowMentions(msgs, d, recs[1..], i);
      var f :| f in Pieces(recs[1..]) && f.hdr.num == S.NumberAt(msgs, i).value;
      assert f in Pieces(recs);
    }
  }

  /** The pieces of a message in a complete pass cover it, and so do any fragments with them. */
  lemma {:induction false} PassCovers(sent: seq<Msg>, msgs: seq<S.OutMsg>, recs: seq<S.Record>, fs: seq<Fragment>,
      i: nat)
    requires S.Carries(sent, msgs) && S.Follow(msgs, S.Cursor(0, 0), recs) == Some(S.Cursor(|msgs|, 0))
    requires S.NumberAt(msgs, i).Some?
    requires forall g :: g in Pieces(recs) && g.hdr.num == S.NumberAt(msgs, i).value ==> g in fs
    ensures var n := S.NumberAt(msgs, i).value;
            n < |sent| && Mentioned(fs, n) && forall k :: 0 <= k < |sent[n].body| ==> Covered(fs, n, k)
  {
    hide S.Follow, Pieces, Times, Covers;
    var n := S.NumberAt(msgs, i).value;
    assert S.CarriesAt(sent, msgs[i]);
    FollowMentions(msgs, S.Cursor(0, 0), recs, i);
    forall k | 0 <= k < |sent[n].body| ensures Covered(fs, n, k) {
      PassCoversOnce(sent, msgs, recs, i, k);
      TimesCovered(recs, n, k);
      CoveredToo(Pieces(recs), fs, n, k);
    }
  }

  /** A receiver that has got every piece of a message, in any order and between any other honest
      fragments, holds the sender's message, whatever it had of it before. */
  lemma {:induction false} MessageRebuilt(sent: seq<Msg>, msgs: seq<S.OutMsg>, recs: seq<S.Record>, lim: Limits,
      rx: Rx, fs: seq<Fragment>, i: nat)
    requires S.Carries(sent, msgs) && S.Follow(msgs, S.Cursor(0, 0), recs) == Some(S.Cursor(|msgs|, 0))
    requires Faithful(sent, rx) && (forall f :: f in fs ==> Honest(sent, f)) && Feed(rx, lim, fs).Go?
    requires S.NumberAt(msgs, i).Some? && rx.readSeq <= S.NumberAt(msgs, i).value < rx.readSeq + 7
    requires forall g :: g in Pieces(recs) && g.hdr.num == S.NumberAt(msgs, i).value ==> g in fs
    ensures var (rx', n) := (Feed(rx, lim, fs).rx, S.NumberAt(msgs, i).value);
            && n < |sent| && n % 7 in rx'.slots && rx'.slots[n % 7].Complete()
            && Msg(rx'.slots[n % 7].typ, rx'.slots[n % 7].Body()) == sent[n]
  {
    hide S.Follow, Feed, Honest, Pieces, Covered, Mentioned, S.Carries, S.NumberAt;
    var n := S.NumberAt(msgs, i).value;
    PassCovers(sent, msgs, recs, fs, i);
    CoveredIsComplete(sent, rx, lim, fs, n);
    FeedCovers(sent, rx, lim, fs, n);
    CompleteIsSenders(sent, Feed(rx, lim, fs).rx, n);
  }

  lemma {:induction false} CoveredToo(a: seq<Fragment>, b: seq<Fragment>, n: nat, k: nat)
    requires Covered(a, n, k) && forall g :: g in a && g.hdr.num == n ==> g in b
    ensures Covered(b, n, k)
  {
  }

  /** A record of the sender does to the receiver what its piece does. */
  lemma {:induction false} RecordIsPiece(rx: Rx, lim: Limits, r: S.Record)
    requires S.Piece(r).Some?
    ensures OnRecord(rx, lim, r.plain) == OnFragment(rx, lim, S.Piece(r).value)
  {
    hide ParseFragment, OnFragment;
    assert forall rx' :: OnRecord(rx', lim, []) == Go(rx');
  }

  // ---------------------------------------------------------------- the whole flight

  /** The messages below `upto` that the receiver still waits for are complete. */
  ghost predicate Ready(sent: seq<Msg>, rx: Rx, upto: nat)
  {
    && Faithful(sent, rx) && rx.readSeq <= upto <= |sent| && upto <= rx.readSeq + 7
    && forall n :: rx.readSeq <= n < upto ==> n % 7 in rx.slots && rx.slots[n % 7].Complete()
  }

  function Takes(count: nat): seq<Event>
  {
    seq(count, _ => Take)
  }

  lemma {:induction false} TakeKeepsReady(sent: seq<Msg>, rx: Rx, upto: nat)
    requires Ready(sent, rx, upto) && rx.readSeq < upto
    ensures CurrentComplete(rx) && Ready(sent, Advance(rx), upto) && Advance(rx).readSeq == rx.readSeq + 1
  {
    AdvanceKeepsWindow(rx);
    forall n | rx.readSeq < n < upto ensures n % 7 in Advance(rx).slots && Advance(rx).slots[n % 7].Complete() {
      if n % 7 == rx.readSeq % 7 {
        SlotsApart(rx.readSeq, n, rx.readSeq);
      }
    }
  }

  lemma {:induction false} TakeAll(sent: seq<Msg>, r: Run, upto: nat)
    requires Ready(sent, r.rx, upto) && !r.failed && Agrees(sent, r)
    ensures var r' := Play(r, Takes(upto - r.rx.readSeq)); !r'.failed && Agrees(sent, r') && r'.rx.readSeq == upto
    decreases upto - r.rx.readSeq
  {
    hide Faithful, Advance, CurrentComplete, Honest;
    if r.rx.readSeq < upto {
      TakeKeepsReady(sent, r.rx, upto);
      EventKeepsAgreement(sent, r, Take);
      var events := Takes(upto - r.rx.readSeq);
      assert events[1..] == Takes(upto - r.rx.readSeq - 1);
      TakeAll(sent, OnEvent(r, Take), upto);
    }
  }

  /** Honest fragments that a receiver waiting for message `readSeq` does not fail on: in the
      encrypted epoch, there is only one message. */
  ghost predicate Receivable(sent: seq<Msg>, lim: Limits, readSeq: nat, fs: seq<Fragment>)
  {
    forall f :: f in fs ==> Honest(sent, f) && f.hdr.msgLen <= lim.maxLen && (lim.encrypted ==> f.hdr.num == readSeq)
  }

  /** Fragments arrive in one epoch, and then the handshake takes its messages. */
  function Stage(lim: Limits, fs: seq<Fragment>, count: nat): seq<Event>
  {
    Arrivals(lim, fs) + Takes(count)
  }

  lemma {:induction false} StageDelivers(sent: seq<Msg>, msgs: seq<S.OutMsg>, recs: seq<S.Record>, r: Run,
      lim: Limits, fs: seq<Fragment>, upto: nat)
    requires S.Carries(sent, msgs) && S.Follow(msgs, S.Cursor(0, 0), recs) == Some(S.Cursor(|msgs|, 0))
    requires Agrees(sent, r) && !r.failed && r.rx.readSeq <= upto <= |sent| <= r.rx.readSeq + 7
    requires S.Remaining(msgs, r.rx.readSeq, upto) && Receivable(sent, lim, r.rx.readSeq, fs)
    requires forall g :: g in Pieces(recs) && r.rx.readSeq <= g.hdr.num < upto ==> g in fs
    ensures var r' := Play(r, Stage(lim, fs, upto - r.rx.readSeq));
            !r'.failed && Agrees(sent, r') && r'.rx.readSeq == upto
  {
    hide S.Follow, Pieces, Play, Feed, S.Carries, S.NumberAt, Covered, Mentioned, Honest;
    PlayAppend(r, Arrivals(lim, fs), Takes(upto - r.rx.readSeq));
    PlayArrivals(r, lim, fs);
    HonestNumbers(sent, fs);
    FeedSucceeds(sent, r.rx, lim, fs);
    var rx := Feed(r.rx, lim, fs).rx;
    FeedCovers(sent, r.rx, lim, fs, r.rx.readSeq);
    forall n | r.rx.readSeq <= n < upto ensures n % 7 in rx.slots && rx.slots[n % 7].Complete() {
      assert S.HasNumber(msgs, n);
      var i :| 0 <= i < |msgs| && S.NumberAt(msgs, i) == Some(n);
      MessageRebuilt(sent, msgs, recs, lim, r.rx, fs, i);
    }
    TakeAll(sent, Run(rx, r.delivered, false), upto);
  }

  lemma {:induction false} HonestNumbers(sent: seq<Msg>, fs: seq<Fragment>)
    ensures forall f :: f in fs && Honest(sent, f) ==> f.hdr.num < |sent|
  {
  }

  /** What a receiver gets of a flight: fragments of the epoch it was in, and, from message `next`
      on, of the one after, each under its own limits. */
  datatype Reception = Reception(run: Run, next: nat, lim0: Limits, fs0: seq<Fragment>, lim1: Limits,
      fs1: seq<Fragment>)
  {
    function Outcome(total: nat): Run
      requires run.rx.readSeq <= next <= total
    {
      Play(run, Stage(lim0, fs0, next - run.rx.readSeq) + Stage(lim1, fs1, total - next))
    }
  }

  /** The receiver has delivered all that came before the flight, and perhaps some of it; every
      piece of the messages it waits for arrives in their epoch, however often, in whatever
      order and among whatever other honest fragments. */
  ghost predicate Gets(sent: seq<Msg>, from: nat, recs: seq<S.Record>, x: Reception)
  {
    && Agrees(sent, x.run) && !x.run.failed && from <= x.run.rx.readSeq <= x.next <= |sent|
    && Receivable(sent, x.lim0, x.run.rx.readSeq, x.fs0) && Receivable(sent, x.lim1, x.next, x.fs1)
    && forall g :: g in Pieces(recs) && g.hdr.num >= x.run.rx.readSeq ==>
        g in if g.hdr.num < x.next then x.fs0 else x.fs1
  }

  /** Whatever a receiver gets with the records, it delivers exactly the sender's messages. */
  ghost predicate Delivers(sent: seq<Msg>, from: nat, recs: seq<S.Record>)
  {
    forall x :: Gets(sent, from, recs, x) ==> x.Outcome(|sent|).delivered == sent && !x.Outcome(|sent|).failed
  }

  /** The records of one complete pass over a flight, lost and sent again, reordered, duplicated
      or mixed with other honest fragments of their epoch, make the receiver deliver exactly the
      sender's messages. */
  lemma {:induction false} FlightRebuilt(sent: seq<Msg>, msgs: seq<S.OutMsg>, recs: seq<S.Record>, from: nat)
    requires S.Carries(sent, msgs) && S.Follow(msgs, S.Cursor(0, 0), recs) == Some(S.Cursor(|msgs|, 0))
    requires |sent| <= from + 7 && S.Remaining(msgs, from, |sent|)
    ensures Delivers(sent, from, recs)
  {
    hide S.Follow, Pieces, Play, S.Carries, S.HasNumber, Receivable;
    forall x | Gets(sent, from, recs, x) ensures x.Outcome(|sent|).delivered == sent && !x.Outcome(|sent|).failed {
      var first, second := Stage(x.lim0, x.fs0, x.next - x.run.rx.readSeq), Stage(x.lim1, x.fs1, |sent| - x.next);
      PlayAppend(x.run, first, second);
      StageDelivers(sent, msgs, recs, x.run, x.lim0, x.fs0, x.next);
      StageDelivers(sent, msgs, recs, Play(x.run, first), x.lim1, x.fs1, |sent|);
      assert sent[..|sent|] == sent;
    }
  }

  // ---------------------------------------------------------------- the flights of a sender

  /** So do the packets of a sender, whenever what it sent in this pass is the whole flight. */
  lemma {:induction false} SenderDelivers(s: S.Sender)
    requires s.Valid() && |s.sent| <= 0xFFFF && S.Reaches(s.outgoing, s.wire, S.Cursor(|s.outgoing|, 0))
    ensures Delivers(s.sent, s.flightStart, S.Flatten(s.wire))
  {
    hide S.Carries, S.Remaining, S.Follow, S.Flatten, Delivers;
    FlightRebuilt(s.sent, s.outgoing, S.Flatten(s.wire), s.flightStart);
  }

  /** dtls1_flush_flight, called until it succeeds, with no record lost to a failed seal. */
  method Flush(s: S.Sender) returns (ret: int)
    requires s.Valid() && |s.sent| <= 0xFFFF
    modifies s
    ensures s.Valid() && s.sent == old(s.sent)
    ensures ret > 0 && old(s.Tiled()) ==> Delivers(s.sent, s.flightStart, S.Flatten(s.wire))
  {
    hide S.Carries, S.Remaining, S.Follow, S.Flatten, S.Numbered, S.FallsShort, Delivers;
    ghost var lost;
    ret, lost := s.FlushFlight();
    if ret > 0 && old(s.Tiled()) {
      SenderDelivers(s);
    }
  }

  /** dtls1_retransmit_outgoing_messages, whatever was lost before. */
  method Retransmit(s: S.Sender) returns (ret: int)
    requires s.Valid() && |s.sent| <= 0xFFFF && (s.messagesComplete || s.outgoing == [])
    modifies s
    ensures s.Valid() && s.sent == old(s.sent)
    ensures ret > 0 ==> Delivers(s.sent, s.flightStart, S.Flatten(s.wire))
  {
    hide S.Carries, S.Remaining, S.Follow, S.Flatten, S.Numbered, S.FallsShort, Delivers;
    ghost var lost;
    ret, lost := s.RetransmitOutgoing();
    if ret > 0 {
      SenderDelivers(s);
    }
  }
}
