/** Runs of the receiver against an honest sender over a network that loses, reorders,
    duplicates and overlaps fragments. */
module DtlsDelivery {
  import opened DtlsWire
  import opened DtlsReassembly
  import opened DtlsReceiver

  /** A fragment that is a piece of the message it names. */
  ghost predicate Honest(msgs: seq<Msg>, f: Fragment)
  {
    var h := f.hdr;
    && h.num < |msgs| && h.typ == msgs[h.num].typ && h.msgLen == |msgs[h.num].body|
    && h.fragOff + h.fragLen <= h.msgLen && f.body == msgs[h.num].body[h.fragOff..h.fragOff + h.fragLen]
  }

  /** The receiver holds nothing but bytes of the sender's messages, in their places. */
  ghost predicate Faithful(msgs: seq<Msg>, rx: Rx)
  {
    && InWindow(rx) && rx.readSeq <= |msgs| <= 0xFFFF
    && forall i :: i in rx.slots ==> FaithfulSlot(msgs, rx.slots[i])
  }

  ghost predicate FaithfulSlot(msgs: seq<Msg>, p: Partial)
  {
    && p.num < |msgs| && p.typ == msgs[p.num].typ && p.len == |msgs[p.num].body|
    && forall k :: k in p.bytes ==> k < p.len && p.bytes[k] == msgs[p.num].body[k]
  }

  // ---------------------------------------------------------------- single steps

  lemma {:induction false} FragmentKeepsFaithful(msgs: seq<Msg>, rx: Rx, lim: Limits, f: Fragment)
    requires Faithful(msgs, rx) && Honest(msgs, f)
    ensures Faithful(msgs, OnFragment(rx, lim, f).rx)
  {
    var h := f.hdr;
    if Incoming(rx, h).Some? {
      var p := Incoming(rx, h).value;
      if h.num % 7 in rx.slots && rx.readSeq <= h.num < rx.readSeq + 7 {
        SlotsApart(rx.readSeq, p.num, h.num);
      }
      var q := AddFragment(p, h.fragOff, f.body);
      if p.num == h.num && FaithfulSlot(msgs, p) {
        assert forall k :: k in q.bytes && k !in p.bytes ==> InFragment(h.fragOff, f.body, k);
        assert FaithfulSlot(msgs, q);
      }
    }
  }

  /** What an honest fragment can make the receiver fail on: a message beyond its limit, a
      number other than the current one under encryption, or the number seven ahead. A header
      mismatch or a bad range never happens. */
  lemma {:induction false} HonestErrors(msgs: seq<Msg>, rx: Rx, lim: Limits, f: Fragment)
    requires Faithful(msgs, rx) && Honest(msgs, f)
    ensures OnFragment(rx, lim, f).Stop? <==>
              |msgs[f.hdr.num].body| > lim.maxLen || (lim.encrypted && f.hdr.num != rx.readSeq)
                  || f.hdr.num == rx.readSeq + 7
  {
    var h := f.hdr;
    if h.num % 7 in rx.slots && rx.readSeq <= h.num < rx.readSeq + 7 {
      SlotsApart(rx.readSeq, rx.slots[h.num % 7].num, h.num);
    }
  }

  /** The current message, once complete, is the sender's. */
  lemma {:induction false} CurrentIsSenders(msgs: seq<Msg>, rx: Rx)
    requires Faithful(msgs, rx) && CurrentComplete(rx)
    ensures rx.readSeq < |msgs|
    ensures var p := rx.slots[rx.readSeq % 7];
            p.num == rx.readSeq && p.typ == msgs[rx.readSeq].typ && p.Body() == msgs[rx.readSeq].body
  {
    var p := rx.slots[rx.readSeq % 7];
    SlotsApart(rx.readSeq, p.num, rx.readSeq);
    assert p.Body() == msgs[rx.readSeq].body;
  }

  // ---------------------------------------------------------------- runs

  /** A fragment arrives, under the limits of the time, or the handshake asks for the next message. */
  datatype Event = Arrive(lim: Limits, f: Fragment) | Take

  datatype Run = Run(rx: Rx, delivered: seq<Msg>, failed: bool)

  function OnEvent(r: Run, e: Event): Run
  {
    match e
    case Arrive(lim, f) =>
      var v := OnFragment(r.rx, lim, f);
      Run(v.rx, r.delivered, v.Stop?)
    case Take =>
      if !CurrentComplete(r.rx) then r
      else
        var p := r.rx.slots[r.rx.readSeq % 7];
        Run(Advance(r.rx), r.delivered + [Msg(p.typ, p.Body())], false)
  }

  /** The state after a sequence of events, or at the first error. */
  function Play(r: Run, events: seq<Event>): Run
    decreases |events|
  {
    if events == [] || r.failed then r else Play(OnEvent(r, events[0]), events[1..])
  }

  ghost predicate AllHonest(msgs: seq<Msg>, events: seq<Event>)
  {
    forall e :: e in events && e.Arrive? ==> Honest(msgs, e.f)
  }

  ghost predicate Agrees(msgs: seq<Msg>, r: Run)
  {
    Faithful(msgs, r.rx) && r.delivered == msgs[..r.rx.readSeq]
  }

  lemma {:induction false} EventKeepsAgreement(msgs: seq<Msg>, r: Run, e: Event)
    requires Agrees(msgs, r) && (e.Arrive? ==> Honest(msgs, e.f))
    ensures Agrees(msgs, OnEvent(r, e))
  {
    match e
    case Arrive(lim, f) => FragmentKeepsFaithful(msgs, r.rx, lim, f);
    case Take =>
      if CurrentComplete(r.rx) {
        CurrentIsSenders(msgs, r.rx);
        AdvanceKeepsWindow(r.rx);
        var n := r.rx.readSeq;
        assert msgs[..n] + [msgs[n]] == msgs[..n + 1];
      }
  }

  /** Safety of reassembly, over every run: whatever the network does to the sender's
      fragments, the messages delivered are the sender's first messages, unaltered, each once
      and in order. */
  lemma {:induction false} DeliveredInOrder(msgs: seq<Msg>, r: Run, events: seq<Event>)
    requires Agrees(msgs, r) && AllHonest(msgs, events)
    ensures Agrees(msgs, Play(r, events))
    ensures Play(r, events).delivered <= msgs
    decreases |events|
  {
    if events != [] && !r.failed {
      EventKeepsAgreement(msgs, r, events[0]);
      assert AllHonest(msgs, events[1..]);
      DeliveredInOrder(msgs, OnEvent(r, events[0]), events[1..]);
    }
  }

  lemma {:induction false} PlayAppend(r: Run, a: seq<Event>, b: seq<Event>)
    ensures Play(r, a + b) == Play(Play(r, a), b)
    decreases |a|
  {
    hide OnEvent;
    if a == [] {
      assert a + b == b;
    } else if !r.failed {
      assert (a + b)[1..] == a[1..] + b;
      PlayAppend(OnEvent(r, a[0]), a[1..], b);
    }
  }

  // ---------------------------------------------------------------- completeness

  /** Fragments arriving one after another, as in the records of one flight. */
  function Feed(rx: Rx, lim: Limits, fs: seq<Fragment>): Verdict
    decreases |fs|
  {
    if fs == [] then Go(rx)
    else match OnFragment(rx, lim, fs[0])
         case Stop(rx', alert) => Stop(rx', alert)
         case Go(rx') => Feed(rx', lim, fs[1..])
  }

  function Arrivals(lim: Limits, fs: seq<Fragment>): seq<Event>
  {
    seq(|fs|, i requires 0 <= i < |fs| => Arrive(lim, fs[i]))
  }

  lemma {:induction false} PlayArrivals(r: Run, lim: Limits, fs: seq<Fragment>)
    requires !r.failed
    ensures var v := Feed(r.rx, lim, fs); Play(r, Arrivals(lim, fs)) == Run(v.rx, r.delivered, v.Stop?)
    decreases |fs|
  {
    hide OnFragment;
    if fs != [] {
      assert Arrivals(lim, fs)[1..] == Arrivals(lim, fs[1..]);
      var next := OnEvent(r, Arrive(lim, fs[0]));
      if !next.failed {
        PlayArrivals(next, lim, fs[1..]);
      }
    }
  }

  /** The fragments of a record, and whether they are all of it. */
  function Fragments(record: seq<Byte>): (seq<Fragment>, bool)
    decreases |record|
  {
    if record == [] then ([], true)
    else match ParseFragment(record)
         case None => ([], false)
         case Some((f, rest)) => ([f] + Fragments(rest).0, Fragments(rest).1)
  }

  /** A record does what its fragments do as they arrive one by one, and fails behind them if
      there is more to it. */
  lemma {:induction false} RecordIsFragments(r: Run, lim: Limits, record: seq<Byte>)
    requires !r.failed
    ensures var (v, after) := (OnRecord(r.rx, lim, record), Play(r, Arrivals(lim, Fragments(record).0)));
            v.rx == after.rx && r.delivered == after.delivered && (v.Stop? <==> after.failed || !Fragments(record).1)
    decreases |record|
  {
    hide ParseFragment, OnFragment;
    PlayArrivals(r, lim, Fragments(record).0);
    if record != [] && ParseFragment(record).Some? {
      var (f, rest) := ParseFragment(record).value;
      var fs := Fragments(record).0;
      assert fs[0] == f && fs[1..] == Fragments(rest).0;
      var v := OnFragment(r.rx, lim, f);
      if v.Go? {
        var next := Run(v.rx, r.delivered, false);
        PlayArrivals(next, lim, fs[1..]);
        RecordIsFragments(next, lim, rest);
      }
    }
  }

  ghost predicate Covers(f: Fragment, n: nat, k: nat)
  {
    f.hdr.num == n && f.hdr.fragOff <= k < f.hdr.fragOff + f.hdr.fragLen
  }

  ghost predicate Covered(fs: seq<Fragment>, n: nat, k: nat)
  {
    exists f :: f in fs && Covers(f, n, k)
  }

  ghost predicate Mentioned(fs: seq<Fragment>, n: nat)
  {
    exists f :: f in fs && f.hdr.num == n
  }

  /** Byte `k` of message `n` has been received. */
  ghost predicate Has(rx: Rx, n: nat, k: nat)
  {
    n % 7 in rx.slots && k in rx.slots[n % 7].bytes
  }

  lemma {:induction false} FragmentAddsItsRange(msgs: seq<Msg>, rx: Rx, lim: Limits, f: Fragment, n: nat)
    requires Faithful(msgs, rx) && Honest(msgs, f) && OnFragment(rx, lim, f).Go?
    requires rx.readSeq <= n < rx.readSeq + 7
    ensures var rx' := OnFragment(rx, lim, f).rx;
            && rx'.readSeq == rx.readSeq
            && (n % 7 in rx'.slots <==> n % 7 in rx.slots || f.hdr.num == n)
            && forall k :: Has(rx', n, k) <==> Has(rx, n, k) || Covers(f, n, k)
  {
    var h, rx' := f.hdr, OnFragment(rx, lim, f).rx;
    if rx.readSeq <= h.num < rx.readSeq + 7 {
      if h.num % 7 == n % 7 {
        SlotsApart(rx.readSeq, h.num, n);
      }
      var p := Incoming(rx, h).value;
      if h.num % 7 in rx.slots {
        SlotsApart(rx.readSeq, p.num, h.num);
      }
      assert p.num == h.num;
      forall k ensures Has(rx', h.num, k) <==> Has(rx, h.num, k) || Covers(f, h.num, k) {
        if Covers(f, h.num, k) {
          assert InFragment(h.fragOff, f.body, k);
        }
        if k in AddFragment(p, h.fragOff, f.body).bytes && k !in p.bytes {
          assert InFragment(h.fragOff, f.body, k);
        }
      }
    }
  }

  /** After any fragments of honest messages, what the receiver has of a message of its window
      is what it had and what the fragments cover, whatever their order and overlaps. */
  lemma {:induction false} FeedCovers(msgs: seq<Msg>, rx: Rx, lim: Limits, fs: seq<Fragment>, n: nat)
    requires Faithful(msgs, rx) && (forall f :: f in fs ==> Honest(msgs, f)) && Feed(rx, lim, fs).Go?
    requires rx.readSeq <= n < rx.readSeq + 7
    ensures var rx' := Feed(rx, lim, fs).rx;
            && Faithful(msgs, rx') && rx'.readSeq == rx.readSeq
            && (n % 7 in rx'.slots <==> n % 7 in rx.slots || Mentioned(fs, n))
            && forall k :: Has(rx', n, k) <==> Has(rx, n, k) || Covered(fs, n, k)
    decreases |fs|
  {
    hide OnFragment, InWindow, FaithfulSlot, Honest;
    if fs != [] {
      var f, rest := fs[0], fs[1..];
      var rx1 := OnFragment(rx, lim, f).rx;
      FragmentKeepsFaithful(msgs, rx, lim, f);
      FragmentAddsItsRange(msgs, rx, lim, f, n);
      FeedCovers(msgs, rx1, lim, rest, n);
      SplitFirst(fs, n);
    }
  }

  lemma {:induction false} SplitFirst(fs: seq<Fragment>, n: nat)
    requires fs != []
    ensures Mentioned(fs, n) <==> fs[0].hdr.num == n || Mentioned(fs[1..], n)
    ensures forall k :: Covered(fs, n, k) <==> Covers(fs[0], n, k) || Covered(fs[1..], n, k)
  {
    assert fs == [fs[0]] + fs[1..];
  }

  /** A message is complete exactly when fragments that mention it cover all of its bytes. */
  lemma {:induction false} CompleteIffCovered(msgs: seq<Msg>, lim: Limits, readSeq: nat, fs: seq<Fragment>, n: nat)
    requires readSeq <= |msgs| <= 0xFFFF && (forall f :: f in fs ==> Honest(msgs, f))
    requires Feed(Rx(readSeq, map[]), lim, fs).Go? && readSeq <= n < readSeq + 7 && n < |msgs|
    ensures var rx := Feed(Rx(readSeq, map[]), lim, fs).rx;
            (n % 7 in rx.slots && rx.slots[n % 7].Complete())
            <==> Mentioned(fs, n) && forall k :: 0 <= k < |msgs[n].body| ==> Covered(fs, n, k)
  {
    var rx0 := Rx(readSeq, map[]);
    FeedCovers(msgs, rx0, lim, fs, n);
    var rx := Feed(rx0, lim, fs).rx;
    if n % 7 in rx.slots {
      var p := rx.slots[n % 7];
      SlotsApart(readSeq, p.num, n);
      assert p.len == |msgs[n].body|;
      forall k | 0 <= k < p.len ensures k in p.bytes <==> Covered(fs, n, k) {
        assert Has(rx, n, k) <==> k in p.bytes;
      }
    }
  }

  /** Covering fragments complete a message also if the receiver had some of it before. */
  lemma {:induction false} CoveredIsComplete(msgs: seq<Msg>, rx: Rx, lim: Limits, fs: seq<Fragment>, n: nat)
    requires Faithful(msgs, rx) && (forall f :: f in fs ==> Honest(msgs, f)) && Feed(rx, lim, fs).Go?
    requires rx.readSeq <= n < rx.readSeq + 7 && n < |msgs|
    requires Mentioned(fs, n) && forall k :: 0 <= k < |msgs[n].body| ==> Covered(fs, n, k)
    ensures n % 7 in Feed(rx, lim, fs).rx.slots && Feed(rx, lim, fs).rx.slots[n % 7].Complete()
  {
    hide Honest, Covered, Mentioned, Feed;
    FeedCovers(msgs, rx, lim, fs, n);
    var rx' := Feed(rx, lim, fs).rx;
    var p := rx'.slots[n % 7];
    SlotsApart(rx'.readSeq, p.num, n);
    forall k | 0 <= k < p.len ensures k in p.bytes {
      assert Has(rx', n, k);
    }
  }

  /** And it then reads as the sender wrote it. */
  lemma {:induction false} CompleteIsSenders(msgs: seq<Msg>, rx: Rx, n: nat)
    requires Faithful(msgs, rx) && rx.readSeq <= n < rx.readSeq + 7 && n < |msgs|
    requires n % 7 in rx.slots && rx.slots[n % 7].Complete()
    ensures Msg(rx.slots[n % 7].typ, rx.slots[n % 7].Body()) == msgs[n]
  {
    var p := rx.slots[n % 7];
    SlotsApart(rx.readSeq, p.num, n);
    assert p.Body() == msgs[n].body;
  }

  /** With no fragment ahead of the window or over the limit, nothing fails. */
  lemma {:induction false} FeedSucceeds(msgs: seq<Msg>, rx: Rx, lim: Limits, fs: seq<Fragment>)
    requires Faithful(msgs, rx)
    requires forall f :: f in fs ==> Honest(msgs, f) && f.hdr.num < rx.readSeq + 7 && f.hdr.msgLen <= lim.maxLen
    requires lim.encrypted ==> forall f :: f in fs ==> f.hdr.num == rx.readSeq
    ensures Feed(rx, lim, fs).Go?
    decreases |fs|
  {
    if fs != [] {
      HonestErrors(msgs, rx, lim, fs[0]);
      FragmentKeepsFaithful(msgs, rx, lim, fs[0]);
      SameReadSeq(rx, lim, fs[0]);
      FeedSucceeds(msgs, OnFragment(rx, lim, fs[0]).rx, lim, fs[1..]);
    }
  }

  lemma {:induction false} SameReadSeq(rx: Rx, lim: Limits, f: Fragment)
    ensures OnFragment(rx, lim, f).rx.readSeq == rx.readSeq
  {
  }
}
