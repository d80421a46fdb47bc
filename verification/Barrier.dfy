// The hand-written uv_barrier_wait of src/thread-common.c, for any number of threads and
// rounds.  A step is a section between taking the mutex and giving it up, by waiting or by
// returning; a waiting thread is asleep until a broadcast or a spurious wakeup.
module Barrier {

  datatype Phase =
    | Outside
    | AtGate(asleep: bool)                // waits while out != 0, not counted yet
    | Inside(round: nat, asleep: bool)    // counted, waits while in != 0

  // What has happened in one round: calls counted in, calls returned, non-zero results.
  datatype Round = Round(entered: nat, left: nat, winners: nat)

  datatype State = State(threshold: nat, inn: nat, out: nat, threads: seq<Phase>, past: seq<Round>, cur: Round)

  datatype Step = Call(t: nat) | Wake(t: nat)

  predicate Enabled(st: State, s: Step) {
    match s
    case Call(t) => t < |st.threads| && st.threads[t] == Outside
    // A thread runs again after a broadcast or by a spurious wakeup, even if marked asleep.
    case Wake(t) => t < |st.threads| && st.threads[t] != Outside
  }

  function WakeUp(p: Phase): Phase {
    match p
    case Outside => Outside
    case AtGate(_) => AtGate(false)
    case Inside(r, _) => Inside(r, false)
  }

  function Broadcast(ts: seq<Phase>): (r: seq<Phase>)
    ensures |r| == |ts|
    ensures forall i :: 0 <= i < |ts| ==> r[i] == WakeUp(ts[i])
  {
    seq(|ts|, i requires 0 <= i < |ts| => WakeUp(ts[i]))
  }

  // From "last = (--b->out == 0)" to the return: the new state and the result.  The counter
  // is unsigned; that it never wraps is part of the invariant.
  function Return(st: State, t: nat): (State, bool)
    requires t < |st.threads|
  {
    var s := st.(out := if st.out == 0 then 0xFFFF_FFFF else st.out - 1, threads := st.threads[t := Outside]);
    if s.out == 0 then
      var done := st.cur.(left := st.cur.left + 1, winners := st.cur.winners + 1);
      (s.(threads := Broadcast(s.threads), past := s.past + [done], cur := Round(0, 0, 0)), true)
    else (s.(cur := st.cur.(left := st.cur.left + 1)), false)
  }

  // From the gate on.
  function Enter(st: State, t: nat): State
    requires t < |st.threads|
  {
    if st.out != 0 then st.(threads := st.threads[t := AtGate(true)])
    else
      var s := st.(inn := st.inn + 1, cur := st.cur.(entered := st.cur.entered + 1));
      if s.inn == s.threshold then
        Return(s.(inn := 0, out := s.threshold, threads := Broadcast(s.threads)), t).0
      else s.(threads := s.threads[t := Inside(|st.past|, true)])
  }

  function Next(st: State, s: Step): State
    requires Enabled(st, s)
  {
    match s
    case Call(t) => Enter(st, t)
    case Wake(t) =>
      if st.threads[t].AtGate? then Enter(st, t)
      else if st.inn != 0 then st.(threads := st.threads[t := Inside(st.threads[t].round, true)])
      else Return(st, t).0
  }

  // ---------------------------------------------------------------------------------------
  // The invariant
  // ---------------------------------------------------------------------------------------

  function CountInside(ts: seq<Phase>): nat {
    if ts == [] then 0 else (if ts[0].Inside? then 1 else 0) + CountInside(ts[1..])
  }

  // A thread that sleeps has reason to: nobody is left behind by a broadcast.
  predicate ThreadOk(st: State, t: nat)
    requires t < |st.threads|
  {
    match st.threads[t]
    case Outside => true
    case AtGate(asleep) => asleep ==> st.out != 0
    case Inside(round, asleep) => round == |st.past| && (asleep ==> st.inn != 0)
  }

  ghost predicate Invariant(st: State) {
    && st.threshold > 0
    && st.inn < st.threshold && st.out < st.threshold
    && (st.inn == 0 || st.out == 0)
    && CountInside(st.threads) == st.inn + st.out
    && st.cur == (if st.out == 0 then Round(st.inn, 0, 0) else Round(st.threshold, st.threshold - st.out, 0))
    && (forall k :: 0 <= k < |st.past| ==> st.past[k] == Round(st.threshold, st.threshold, 1))
    && (forall t {:trigger ThreadOk(st, t)} :: 0 <= t < |st.threads| ==> ThreadOk(st, t))
  }

  lemma {:induction false} CountSet(ts: seq<Phase>, t: nat, p: Phase)
    requires t < |ts|
    ensures CountInside(ts[t := p]) == CountInside(ts) - (if ts[t].Inside? then 1 else 0) + (if p.Inside? then 1 else 0)
  {
    if t > 0 {
      CountSet(ts[1..], t - 1, p);
      assert ts[t := p][1..] == ts[1..][t - 1 := p];
    }
  }

  lemma {:induction false} CountBroadcast(ts: seq<Phase>)
    ensures CountInside(Broadcast(ts)) == CountInside(ts)
  {
    if ts != [] {
      CountBroadcast(ts[1..]);
      assert Broadcast(ts)[1..] == Broadcast(ts[1..]);
    }
  }

  lemma {:induction false} CountMember(ts: seq<Phase>, t: nat)
    requires t < |ts|
    ensures ts[t].Inside? ==> CountInside(ts) > 0
    ensures !ts[t].Inside? ==> CountInside(ts) < |ts|
  {
    CountAtMost(ts[1..]);
    if t > 0 {
      CountMember(ts[1..], t - 1);
    }
  }

  lemma {:induction false} CountAtMost(ts: seq<Phase>)
    ensures CountInside(ts) <= |ts|
  {
    if ts != [] {
      CountAtMost(ts[1..]);
    }
  }

  // A state in which the round is full or being left, short of the count of thread t.
  lemma ReturnStep(st: State, t: nat)
    requires t < |st.threads| && st.threshold > 0 && 0 < st.out <= st.threshold && st.inn == 0
    requires CountInside(st.threads[t := Outside]) == st.out - 1
    requires st.cur == Round(st.threshold, st.threshold - st.out, 0)
    requires forall k :: 0 <= k < |st.past| ==> st.past[k] == Round(st.threshold, st.threshold, 1)
    requires forall u {:trigger ThreadOk(st, u)} :: 0 <= u < |st.threads| && u != t ==> ThreadOk(st, u)
    ensures Invariant(Return(st, t).0)
    ensures Return(st, t).1 <==> st.cur.left + 1 == st.threshold
  {
    var s := Return(st, t).0;
    CountBroadcast(st.threads[t := Outside]);
    forall u | 0 <= u < |s.threads| ensures ThreadOk(s, u) {
      assert u != t ==> ThreadOk(st, u);
      if s.out == 0 {
        NobodyInside(st.threads[t := Outside], u);
      }
    }
  }

  lemma NobodyInside(ts: seq<Phase>, u: nat)
    requires u < |ts| && CountInside(ts) == 0
    ensures !ts[u].Inside?
  {
    CountMember(ts, u);
  }

  lemma EnterStep(st: State, t: nat)
    requires Invariant(st) && t < |st.threads| && !st.threads[t].Inside?
    ensures Invariant(Enter(st, t))
  {
    var s := Enter(st, t);
    if st.out == 0 && st.inn + 1 == st.threshold {
      var r := st.(inn := 0, out := st.threshold, cur := st.cur.(entered := st.cur.entered + 1), threads := Broadcast(st.threads));
      CountBroadcast(st.threads);
      CountSet(r.threads, t, Outside);
      forall u | 0 <= u < |r.threads| && u != t ensures ThreadOk(r, u) {
        assert ThreadOk(st, u);
      }
      ReturnStep(r, t);
    } else {
      CountSet(st.threads, t, s.threads[t]);
      forall u | 0 <= u < |s.threads| ensures ThreadOk(s, u) {
        assert ThreadOk(st, u);
      }
    }
  }

  lemma InvariantStep(st: State, s: Step)
    requires Invariant(st) && Enabled(st, s)
    ensures Invariant(Next(st, s))
  {
    var t := s.t;
    assert ThreadOk(st, t);
    CountMember(st.threads, t);
    if !st.threads[t].Inside? {
      EnterStep(st, t);
    } else if st.inn != 0 {
      var r := Next(st, s);
      CountSet(st.threads, t, r.threads[t]);
      forall u | 0 <= u < |r.threads| ensures ThreadOk(r, u) {
        assert ThreadOk(st, u);
      }
    } else {
      CountSet(st.threads, t, Outside);
      forall u | 0 <= u < |st.threads| && u != t ensures ThreadOk(st, u) {
        assert ThreadOk(st, u);
      }
      ReturnStep(st, t);
    }
  }

  // ---------------------------------------------------------------------------------------
  // The promises, over every run
  // ---------------------------------------------------------------------------------------

  function Initial(threshold: nat, n: nat): State {
    State(threshold, 0, 0, seq(n, _ => Outside), [], Round(0, 0, 0))
  }

  ghost predicate IsRun(threshold: nat, n: nat, run: seq<State>, steps: seq<Step>) {
    && threshold > 0 && |run| == |steps| + 1 && run[0] == Initial(threshold, n)
    && forall k :: 0 <= k < |steps| ==> Enabled(run[k], steps[k]) && run[k + 1] == Next(run[k], steps[k])
  }

  lemma {:induction false} NoneInside(ts: seq<Phase>)
    requires forall i :: 0 <= i < |ts| ==> ts[i] == Outside
    ensures CountInside(ts) == 0
  {
    if ts != [] {
      NoneInside(ts[1..]);
    }
  }

  lemma {:induction false} EveryRun(threshold: nat, n: nat, run: seq<State>, steps: seq<Step>, k: nat)
    requires IsRun(threshold, n, run, steps) && k < |run|
    ensures Invariant(run[k]) && run[k].threshold == threshold
  {
    if k == 0 {
      NoneInside(run[0].threads);
      forall t | 0 <= t < n ensures ThreadOk(run[0], t) {
      }
    } else {
      EveryRun(threshold, n, run, steps, k - 1);
      InvariantStep(run[k - 1], steps[k - 1]);
    }
  }

  // No call returns before threshold calls have been counted in its round.  A step of thread t
  // that ends outside returns from a call; if t had not been counted before, this step counts it.
  lemma NoEarlyReturn(threshold: nat, n: nat, run: seq<State>, steps: seq<Step>, k: nat)
    requires IsRun(threshold, n, run, steps) && k < |steps|
    requires run[k + 1].threads[steps[k].t] == Outside
    ensures var p := run[k].threads[steps[k].t];
      if p.Inside? then p.round == |run[k].past| && run[k].cur.entered == threshold
      else run[k].cur.entered + 1 == threshold
  {
    EveryRun(threshold, n, run, steps, k);
    assert ThreadOk(run[k], steps[k].t);
    CountMember(run[k].threads, steps[k].t);
  }

  // Nobody is counted into a round before every call of the round before has returned, and
  // exactly one of those returned non-zero.
  lemma RoundsDoNotOverlap(threshold: nat, n: nat, run: seq<State>, steps: seq<Step>, k: nat)
    requires IsRun(threshold, n, run, steps) && k < |run|
    ensures run[k].inn == 0 || run[k].out == 0
    ensures forall r :: 0 <= r < |run[k].past| ==> run[k].past[r] == Round(threshold, threshold, 1)
    ensures run[k].cur.winners == 0
    ensures forall t :: 0 <= t < |run[k].threads| && run[k].threads[t].Inside? ==> run[k].threads[t].round == |run[k].past|
  {
    EveryRun(threshold, n, run, steps, k);
    forall t | 0 <= t < |run[k].threads| && run[k].threads[t].Inside? ensures run[k].threads[t].round == |run[k].past| {
      assert ThreadOk(run[k], t);
    }
  }

  // No thread sleeps through the condition it waits for.
  lemma NobodyLeftAsleep(threshold: nat, n: nat, run: seq<State>, steps: seq<Step>, k: nat, t: nat)
    requires IsRun(threshold, n, run, steps) && k < |run| && t < |run[k].threads|
    ensures run[k].threads[t] == AtGate(true) ==> run[k].out != 0
    ensures run[k].threads[t].Inside? && run[k].threads[t].asleep ==> run[k].inn != 0
  {
    EveryRun(threshold, n, run, steps, k);
    assert ThreadOk(run[k], t);
  }
}
