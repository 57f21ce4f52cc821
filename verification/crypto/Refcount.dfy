/** Reference counts: the locked version of refcount_lock.c as the atomic meaning, and the
    compare-and-exchange loops of refcount_c11.c run by any number of threads. */
module Refcount {
  const CRYPTO_REFCOUNT_MAX: int := 0xFFFF_FFFF

  type Word = x: int | 0 <= x <= CRYPTO_REFCOUNT_MAX

  datatype Op = Inc | Dec

  datatype Outcome = Done | Zero | NotZero | Abort

  datatype Option<+T> = None | Some(value: T)

  // ---------------------------------------------------------------- the locked version

  /** One operation with the lock held: what it returns, and the count it leaves. */
  function Locked(op: Op, count: Word): (Outcome, Word)
  {
    match op
    case Inc => (Done, if count < CRYPTO_REFCOUNT_MAX then count + 1 else count)
    case Dec =>
      if count == 0 then (Abort, count)
      else if count == CRYPTO_REFCOUNT_MAX then (NotZero, count)
      else (if count == 1 then Zero else NotZero, count - 1)
  }

  class LockedCount {
    var count: Word

    constructor (c: Word)
      ensures count == c
    {
      count := c;
    }

    /** CRYPTO_refcount_inc. */
    method Increment()
      modifies this
      ensures count == Locked(Inc, old(count)).1
    {
      if count < CRYPTO_REFCOUNT_MAX {
        count := count + 1;
      }
    }

    /** CRYPTO_refcount_dec_and_test_zero. */
    method DecAndTestZero() returns (out: Outcome)
      modifies this
      ensures (out, count) == Locked(Dec, old(count))
    {
      if count == 0 {
        return Abort;
      }
      if count < CRYPTO_REFCOUNT_MAX {
        count := count - 1;
      }
      return if count == 0 then Zero else NotZero;
    }
  }

  datatype Event = Event(thread: nat, op: Op, out: Outcome)

  /** The count after operations done one after another, if they return what the events say. */
  function Replay(c: Word, log: seq<Event>): Option<Word>
  {
    if log == [] then Some(c)
    else
      var last := log[|log| - 1];
      match Replay(c, log[..|log| - 1])
      case None => None
      case Some(v) => if Locked(last.op, v).0 == last.out then Some(Locked(last.op, v).1) else None
  }

  lemma {:induction false} ReplayOne(c: Word, log: seq<Event>, e: Event)
    ensures Replay(c, log + [e]) ==
              match Replay(c, log)
              case None => None
              case Some(v) => if Locked(e.op, v).0 == e.out then Some(Locked(e.op, v).1) else None
  {
    assert (log + [e])[..|log|] == log;
  }

  // ---------------------------------------------------------------- threads

  /** Where a thread is: outside, or in the loop of an operation with the value it last saw. */
  datatype Local = Idle | Loop(op: Op, expected: Word) | Aborted

  /** A thread, with what its calls have returned. */
  datatype Thread = Thread(local: Local, results: seq<Event>)

  /** The shared count and the threads; `log` lists the operations in the order in which they
      take effect. */
  datatype Sys = Sys(count: Word, threads: seq<Thread>, log: seq<Event>)

  /** The atomic steps: the load that begins a call, an exchange that succeeds or fails, possibly
      for no reason, and the two ways out of the loop without an exchange. */
  datatype Step = Begin(t: nat, op: Op) | Exchange(t: nat) | ExchangeFails(t: nat) | Saturated(t: nat) | Aborts(t: nat)

  predicate Enabled(s: Sys, step: Step)
  {
    && step.t < |s.threads|
    && var local := s.threads[step.t].local;
       match step
       case Begin(_, _) => local.Idle?
       case Exchange(_) => Retries(local) && local.expected == s.count
       case ExchangeFails(_) => Retries(local)
       case Saturated(_) => local.Loop? && local.expected == CRYPTO_REFCOUNT_MAX
       case Aborts(_) => local == Loop(Dec, 0)
  }

  /** The thread's next step is an exchange. */
  predicate Retries(local: Local)
  {
    local.Loop? && local.expected != CRYPTO_REFCOUNT_MAX && (local.op == Dec ==> local.expected != 0)
  }

  /** The thread reads the count, at a load or a failed exchange. A decrement that reads zero takes
      effect here: it will abort. */
  function Sees(s: Sys, t: nat, op: Op): Sys
    requires t < |s.threads|
  {
    Sys(s.count, s.threads[t := s.threads[t].(local := Loop(op, s.count))],
        if op == Dec && s.count == 0 then s.log + [Event(t, Dec, Abort)] else s.log)
  }

  function Returns(s: Sys, t: nat, e: Event, count: Word, log: seq<Event>): Sys
    requires t < |s.threads|
  {
    Sys(count, s.threads[t := Thread(if e.out == Abort then Aborted else Idle, s.threads[t].results + [e])], log)
  }

  function Apply(s: Sys, step: Step): Sys
    requires Enabled(s, step)
  {
    var (t, local) := (step.t, s.threads[step.t].local);
    match step
    case Begin(_, op) => Sees(s, t, op)
    case ExchangeFails(_) => Sees(s, t, local.op)
    case Exchange(_) =>
      var value := if local.op == Inc then local.expected + 1 else local.expected - 1;
      var e := Event(t, local.op, if local.op == Inc then Done else if value == 0 then Zero else NotZero);
      Returns(s, t, e, value, s.log + [e])
    case Saturated(_) =>
      var e := Event(t, local.op, if local.op == Inc then Done else NotZero);
      Returns(s, t, e, s.count, s.log + [e])
    case Aborts(_) => Returns(s, t, Event(t, Dec, Abort), s.count, s.log)
  }

  /** The events of one thread. */
  function Of(log: seq<Event>, t: nat): seq<Event>
  {
    if log == [] then []
    else
      var (init, last) := (log[..|log| - 1], log[|log| - 1]);
      if last.thread == t then Of(init, t) + [last] else Of(init, t)
  }

  lemma {:induction false} OfOne(log: seq<Event>, e: Event, t: nat)
    ensures Of(log + [e], t) == if e.thread == t then Of(log, t) + [e] else Of(log, t)
  {
    assert (log + [e])[..|log|] == log;
  }

  /** What a thread has to show for its operations: results, and the abort it is bound for. */
  function Account(th: Thread, t: nat): seq<Event>
  {
    th.results + if th.local == Loop(Dec, 0) then [Event(t, Dec, Abort)] else []
  }

  /** The log replays on the locked version to the present count, it holds exactly the results the
      threads have got, in the order each got them, and a thread that saw the maximum was not
      overtaken. */
  ghost predicate Linear(c: Word, s: Sys)
  {
    && Replay(c, s.log) == Some(s.count)
    && forall t :: 0 <= t < |s.threads| ==> LinearThread(s, t)
  }

  ghost predicate LinearThread(s: Sys, t: nat)
    requires t < |s.threads|
  {
    && Of(s.log, t) == Account(s.threads[t], t)
    && (s.threads[t].local.Loop? && s.threads[t].local.expected == CRYPTO_REFCOUNT_MAX ==>
        s.count == CRYPTO_REFCOUNT_MAX)
  }

  lemma {:induction false} SeesKeepsLinear(c: Word, s: Sys, t: nat, op: Op)
    requires Linear(c, s) && t < |s.threads| && (s.threads[t].local.Idle? || Retries(s.threads[t].local))
    ensures Linear(c, Sees(s, t, op))
  {
    var s' := Sees(s, t, op);
    var e := Event(t, Dec, Abort);
    ReplayOne(c, s.log, e);
    forall u | 0 <= u < |s'.threads| ensures LinearThread(s', u) {
      assert LinearThread(s, u);
      OfOne(s.log, e, u);
    }
  }

  /** An operation that takes effect and returns. */
  lemma {:induction false} ReturnKeepsLinear(c: Word, s: Sys, t: nat, e: Event)
    requires Linear(c, s) && t < |s.threads| && e.thread == t && e.out != Abort
    requires s.threads[t].local != Loop(Dec, 0) && Locked(e.op, s.count).0 == e.out
    ensures Linear(c, Returns(s, t, e, Locked(e.op, s.count).1, s.log + [e]))
  {
    hide Replay;
    var s' := Returns(s, t, e, Locked(e.op, s.count).1, s.log + [e]);
    ReplayOne(c, s.log, e);
    forall u | 0 <= u < |s'.threads| ensures LinearThread(s', u) {
      assert LinearThread(s, u);
      OfOne(s.log, e, u);
    }
  }

  lemma {:induction false} AbortKeepsLinear(c: Word, s: Sys, t: nat)
    requires Linear(c, s) && Enabled(s, Aborts(t))
    ensures Linear(c, Apply(s, Aborts(t)))
  {
    hide Replay, Of;
    var s' := Apply(s, Aborts(t));
    forall u | 0 <= u < |s'.threads| ensures LinearThread(s', u) {
      assert LinearThread(s, u);
    }
  }

  lemma {:induction false} StepKeepsLinear(c: Word, s: Sys, step: Step)
    requires Linear(c, s) && Enabled(s, step)
    ensures Linear(c, Apply(s, step))
  {
    hide Replay, Of;
    var t := step.t;
    var local := s.threads[t].local;
    assert LinearThread(s, t);
    match step
    case Begin(_, op) => SeesKeepsLinear(c, s, t, op);
    case ExchangeFails(_) => SeesKeepsLinear(c, s, t, local.op);
    case Exchange(_) => ReturnKeepsLinear(c, s, t, Event(t, local.op, Locked(local.op, s.count).0));
    case Saturated(_) => ReturnKeepsLinear(c, s, t, Event(t, local.op, Locked(local.op, s.count).0));
    case Aborts(_) => AbortKeepsLinear(c, s, t);
  }

  ghost predicate Runs(s: Sys, steps: seq<Step>)
    decreases |steps|
  {
    steps == [] || (Enabled(s, steps[0]) && Runs(Apply(s, steps[0]), steps[1..]))
  }

  function Final(s: Sys, steps: seq<Step>): Sys
    requires Runs(s, steps)
    decreases |steps|
  {
    if steps == [] then s else Final(Apply(s, steps[0]), steps[1..])
  }

  function Start(c: Word, threads: nat): Sys
  {
    Sys(c, seq(threads, _ => Thread(Idle, [])), [])
  }

  /** Every run of any number of threads, in any interleaving and with exchanges failing at will,
      is a run of the locked version: its operations return what they return there, and leave the
      same count. RealTime says where each takes effect. */
  lemma {:induction false} Linearises(c: Word, threads: nat, steps: seq<Step>)
    requires Runs(Start(c, threads), steps)
    ensures Linear(c, Final(Start(c, threads), steps))
  {
    RunKeepsLinear(c, Start(c, threads), steps);
  }

  lemma {:induction false} RunKeepsLinear(c: Word, s: Sys, steps: seq<Step>)
    requires Linear(c, s) && Runs(s, steps)
    ensures Linear(c, Final(s, steps))
    decreases |steps|
  {
    if steps != [] {
      StepKeepsLinear(c, s, steps[0]);
      RunKeepsLinear(c, Apply(s, steps[0]), steps[1..]);
    }
  }

  /** A step lets at most one operation take effect: that of its own thread, within its call, from the
      load that begins it to its return. */
  lemma {:induction false} EffectInCall(s: Sys, step: Step, u: nat)
    requires Enabled(s, step)
    ensures var s' := Apply(s, step);
            && s.log <= s'.log && |s'.log| <= |s.log| + 1 && |s'.threads| == |s.threads|
            && (s'.log != s.log ==> s'.log[|s.log|].thread == step.t && (step.Begin? || s.threads[step.t].local.Loop?))
            && (u != step.t ==> Of(s'.log, u) == Of(s.log, u))
  {
    var s' := Apply(s, step);
    if s'.log != s.log {
      OfOne(s.log, s'.log[|s.log|], u);
      assert s'.log == s.log + [s'.log[|s.log|]];
    }
  }

  lemma {:induction false} OfNone(t: nat)
    ensures Of([], t) == []
  {
  }

  lemma {:induction false} OfAppend(a: seq<Event>, b: seq<Event>, t: nat)
    ensures Of(a + b, t) == Of(a, t) + Of(b, t)
    decreases |b|
  {
    hide Of;
    if b == [] {
      assert a + b == a;
      OfNone(t);
    } else {
      var n := |b| - 1;
      OfAppend(a, b[..n], t);
      assert a + b == a + b[..n] + [b[n]];
      OfOne(a + b[..n], b[n], t);
      assert b == b[..n] + [b[n]];
      OfOne(b[..n], b[n], t);
    }
  }

  lemma {:induction false} RunSplits(s: Sys, a: seq<Step>, b: seq<Step>)
    requires Runs(s, a + b)
    ensures Runs(s, a) && Runs(Final(s, a), b) && Final(s, a + b) == Final(Final(s, a), b)
    decreases |a|
  {
    hide Apply;
    if a == [] {
      assert a + b == b;
    } else {
      assert (a + b)[1..] == a[1..] + b;
      RunSplits(Apply(s, a[0]), a[1..], b);
    }
  }

  lemma {:induction false} LogGrows(s: Sys, steps: seq<Step>)
    requires Runs(s, steps)
    ensures s.log <= Final(s, steps).log && |Final(s, steps).threads| == |s.threads|
    decreases |steps|
  {
    hide Apply;
    if steps != [] {
      EffectInCall(s, steps[0], 0);
      LogGrows(Apply(s, steps[0]), steps[1..]);
    }
  }

  /** Real time: at any moment of a run, what has taken effect of each thread's operations is exactly
      those it has returned from, and the decrement it is in if that is bound to abort; what takes
      effect later is exactly what it returns from later. So an operation takes effect between its
      first load and its return, and one that returns before another begins comes first. */
  lemma {:induction false} RealTime(c: Word, threads: nat, before: seq<Step>, later: seq<Step>)
    requires Runs(Start(c, threads), before + later)
    ensures Runs(Start(c, threads), before)
    ensures var (s, s') := (Final(Start(c, threads), before), Final(Start(c, threads), before + later));
            && s.log <= s'.log && |s.threads| == |s'.threads| == threads
            && forall t :: 0 <= t < threads ==>
                 && Of(s.log, t) == Account(s.threads[t], t)
                 && Account(s.threads[t], t) + Of(s'.log[|s.log|..], t) == Account(s'.threads[t], t)
  {
    hide Of, Account, Replay;
    var s0 := Start(c, threads);
    RunSplits(s0, before, later);
    Linearises(c, threads, before);
    Linearises(c, threads, before + later);
    var s, s' := Final(s0, before), Final(s0, before + later);
    LogGrows(s0, before);
    LogGrows(s, later);
    assert s'.log == s.log + s'.log[|s.log|..];
    forall t | 0 <= t < threads ensures Of(s.log, t) == Account(s.threads[t], t)
                                     && Account(s.threads[t], t) + Of(s'.log[|s.log|..], t) == Account(s'.threads[t],
                                         t) {
      assert LinearThread(s, t) && LinearThread(s', t);
      OfAppend(s.log, s'.log[|s.log|..], t);
    }
  }

  /** Once saturated, the count stays. */
  lemma {:induction false} StaysSaturated(s: Sys, steps: seq<Step>)
    requires Runs(s, steps) && s.count == CRYPTO_REFCOUNT_MAX
    ensures Final(s, steps).count == CRYPTO_REFCOUNT_MAX
    decreases |steps|
  {
    if steps != [] {
      StaysSaturated(Apply(s, steps[0]), steps[1..]);
    }
  }

  // ---------------------------------------------------------------- callers that hold references

  /** A step of a thread, or a reference passed from one thread to another. */
  datatype Move = Do(step: Step) | Give(from: nat, to: nat)

  /** Calls are made only with a reference in hand, and references are given away only outside
      of calls. */
  predicate Allowed(s: Sys, held: seq<nat>, m: Move)
    requires |held| == |s.threads|
  {
    match m
    case Do(step) => Enabled(s, step) && (step.Begin? ==> held[step.t] > 0)
    case Give(from, to) => from < |held| && to < |held| && from != to && held[from] > 0 && s.threads[from].local.Idle?
  }

  function AfterMove(s: Sys, m: Move): Sys
    requires m.Do? ==> Enabled(s, m.step)
  {
    if m.Do? then Apply(s, m.step) else s
  }

  /** The references held: one more after an increment returns, one fewer after a decrement. */
  function HeldAfter(s: Sys, held: seq<nat>, m: Move): (h: seq<nat>)
    requires |held| == |s.threads| && Allowed(s, held, m) && Owned(s, held)
    ensures |h| == |held|
  {
    match m
    case Give(from, to) => held[from := held[from] - 1][to := held[to] + 1]
    case Do(step) =>
      if !(step.Exchange? || step.Saturated?) then held
      else if s.threads[step.t].local.op == Inc then held[step.t := held[step.t] + 1]
      else held[step.t := held[step.t] - 1]
  }

  predicate Owned(s: Sys, held: seq<nat>)
    requires |held| == |s.threads|
  {
    forall t :: 0 <= t < |held| && s.threads[t].local.Loop? ==> held[t] > 0
  }

  function Sum(held: seq<nat>): nat
  {
    if held == [] then 0 else held[0] + Sum(held[1..])
  }

  lemma {:induction false} SumUpdate(held: seq<nat>, t: nat, v: nat)
    requires t < |held|
    ensures Sum(held[t := v]) == Sum(held) - held[t] + v && held[t] <= Sum(held)
  {
    if t == 0 {
      assert held[t := v][1..] == held[1..];
    } else {
      SumUpdate(held[1..], t - 1, v);
      assert held[t := v][1..] == held[1..][t - 1 := v];
    }
  }

  /** How many decrements were told they released the last reference. */
  function Zeros(log: seq<Event>): nat
  {
    if log == [] then 0 else Zeros(log[..|log| - 1]) + if log[|log| - 1].out == Zero then 1 else 0
  }

  lemma {:induction false} ZerosOne(log: seq<Event>, e: Event)
    ensures Zeros(log + [e]) == Zeros(log) + if e.out == Zero then 1 else 0
  {
    assert (log + [e])[..|log|] == log;
  }

  /** Until it saturates, the count is the number of references held; nobody has been told to
      abort, and the last reference was reported exactly when there is none. */
  ghost predicate Counted(s: Sys, held: seq<nat>)
  {
    && |held| == |s.threads| && Owned(s, held)
    && (s.count == CRYPTO_REFCOUNT_MAX || s.count == Sum(held))
    && Zeros(s.log) == (if s.count == 0 then 1 else 0)
    && forall t :: 0 <= t < |s.threads| ==> !s.threads[t].local.Aborted? && CountedLocal(s.threads[t].local, s.count)
  }

  predicate CountedLocal(local: Local, count: Word)
  {
    local.Loop? ==> local.expected > 0 && (local.expected == CRYPTO_REFCOUNT_MAX ==> count == CRYPTO_REFCOUNT_MAX)
  }

  lemma {:induction false} GiveKeepsCounted(s: Sys, held: seq<nat>, from: nat, to: nat)
    requires Counted(s, held) && Allowed(s, held, Give(from, to))
    ensures Counted(s, HeldAfter(s, held, Give(from, to)))
  {
    hide Sum, Zeros;
    SumUpdate(held, from, held[from] - 1);
    SumUpdate(held[from := held[from] - 1], to, held[to] + 1);
  }

  lemma {:induction false} SeesKeepsCounted(s: Sys, held: seq<nat>, t: nat, op: Op)
    requires Counted(s, held) && t < |held| && held[t] > 0
    ensures Counted(Sees(s, t, op), held)
  {
    hide Sum, Zeros;
    SumUpdate(held, t, held[t]);
    assert held[t := held[t]] == held;
  }

  lemma {:induction false} ReturnKeepsCounted(s: Sys, held: seq<nat>, step: Step)
    requires Counted(s, held) && Enabled(s, step) && (step.Exchange? || step.Saturated?)
    ensures Counted(Apply(s, step), HeldAfter(s, held, Do(step)))
  {
    hide Sum, Zeros;
    var s', held' := Apply(s, step), HeldAfter(s, held, Do(step));
    SumUpdate(held, step.t, held'[step.t]);
    ZerosOne(s.log, s'.log[|s.log|]);
  }

  lemma {:induction false} MoveKeepsCounted(s: Sys, held: seq<nat>, m: Move)
    requires Counted(s, held) && Allowed(s, held, m)
    ensures Counted(AfterMove(s, m), HeldAfter(s, held, m))
  {
    hide Sum, Zeros, Sees, Returns;
    match m
    case Give(from, to) => GiveKeepsCounted(s, held, from, to);
    case Do(step) =>
      if step.Exchange? || step.Saturated? {
        ReturnKeepsCounted(s, held, step);
      } else if step.Begin? {
        SeesKeepsCounted(s, held, step.t, step.op);
      } else if step.ExchangeFails? {
        SeesKeepsCounted(s, held, step.t, s.threads[step.t].local.op);
      }
  }

  /** A thread in a call keeps the reference it made the call with. */
  lemma {:induction false} MoveKeepsOwned(s: Sys, held: seq<nat>, m: Move)
    requires |held| == |s.threads| && Owned(s, held) && Allowed(s, held, m)
    ensures |HeldAfter(s, held, m)| == |AfterMove(s, m).threads| && Owned(AfterMove(s, m), HeldAfter(s, held, m))
  {
  }

  ghost predicate Plays(s: Sys, held: seq<nat>, moves: seq<Move>)
    requires |held| == |s.threads| && Owned(s, held)
    decreases |moves|
  {
    moves == [] ||
    (Allowed(s, held, moves[0])
     && (MoveKeepsOwned(s, held, moves[0]);
         Plays(AfterMove(s, moves[0]), HeldAfter(s, held, moves[0]), moves[1..])))
  }

  function Played(s: Sys, held: seq<nat>, moves: seq<Move>): (Sys, seq<nat>)
    requires |held| == |s.threads| && Owned(s, held) && Plays(s, held, moves)
    decreases |moves|
  {
    if moves == [] then (s, held)
    else
      MoveKeepsOwned(s, held, moves[0]);
      Played(AfterMove(s, moves[0]), HeldAfter(s, held, moves[0]), moves[1..])
  }

  /** Whatever disciplined callers do, none of them aborts, and exactly one decrement is told that
      it released the last reference, once there is none left. */
  lemma {:induction false} LastReferenceOnce(s: Sys, held: seq<nat>, moves: seq<Move>)
    requires Counted(s, held) && Plays(s, held, moves)
    ensures Counted(Played(s, held, moves).0, Played(s, held, moves).1)
    decreases |moves|
  {
    if moves != [] {
      MoveKeepsCounted(s, held, moves[0]);
      LastReferenceOnce(AfterMove(s, moves[0]), HeldAfter(s, held, moves[0]), moves[1..]);
    }
  }

  /** From the start: references shared out among the threads, as many as the count says. */
  lemma {:induction false} FreedOnce(c: Word, held: seq<nat>, moves: seq<Move>)
    requires c > 0 && Sum(held) == c && Plays(Start(c, |held|), held, moves)
    ensures var (s, left) := Played(Start(c, |held|), held, moves);
            && (forall t :: 0 <= t < |s.threads| ==> !s.threads[t].local.Aborted?)
            && Zeros(s.log) == (if s.count == 0 then 1 else 0)
            && (s.count == CRYPTO_REFCOUNT_MAX || s.count == Sum(left))
  {
    LastReferenceOnce(Start(c, |held|), held, moves);
  }
}
