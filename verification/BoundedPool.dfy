// NetServe's own thread pool (src/thread/threadpool_module.c): a bounded queue of work, a
// stack of priority work, workers that wait for work and submitters that wait for room.
// A step is a section that holds the queue mutex.  Shutdown is not part of the model.
module BoundedPool {

  datatype Worker = AtLoopTop | Asleep | Woken | Running(item: nat)

  // A submitter that found the queue full: asleep on queue_not_full, or signalled.
  datatype Submitter = Outside | Blocked(item: nat, priority: bool, asleep: bool)

  datatype State = State(
    max: nat,
    work: seq<nat>,
    priority: seq<nat>,
    queued: int,
    active: int,
    workers: seq<Worker>,
    submitters: seq<Submitter>,
    accepted: seq<nat>,         // every item accepted, in order
    finished: seq<nat>,         // every item whose function has returned, in order
    ordinary: seq<nat>,         // the ordinary items accepted ...
    taken: seq<nat>)            // ... and those of them a worker has taken

  datatype Step =
    | Submit(s: nat, item: nat, priority: bool, pick: nat)
    | Retry(s: nat, pick: nat)         // a blocked submitter gets the mutex again
    | Fetch(w: nat)                    // a worker gets the mutex at the top of its loop
    | Finish(w: nat, pick: nat)        // the work function has returned

  predicate Enabled(st: State, x: Step) {
    match x
    case Submit(s, _, _, _) => s < |st.submitters| && st.submitters[s] == Outside
    case Retry(s, _) => s < |st.submitters| && st.submitters[s].Blocked?
    case Fetch(w) => w < |st.workers| && !st.workers[w].Running?
    case Finish(w, _) => w < |st.workers| && st.workers[w].Running?
  }

  function SignalWorker(ws: seq<Worker>, pick: nat): (r: seq<Worker>)
    ensures |r| == |ws|
  {
    if pick < |ws| && ws[pick] == Asleep then ws[pick := Woken] else FirstWorker(ws)
  }

  function FirstWorker(ws: seq<Worker>): (r: seq<Worker>)
    ensures |r| == |ws|
  {
    if ws == [] then [] else if ws[0] == Asleep then [Woken] + ws[1..] else [ws[0]] + FirstWorker(ws[1..])
  }

  predicate Sleeps(s: Submitter) {
    s.Blocked? && s.asleep
  }

  function SignalSubmitter(ss: seq<Submitter>, pick: nat): (r: seq<Submitter>)
    ensures |r| == |ss|
  {
    if pick < |ss| && Sleeps(ss[pick]) then ss[pick := ss[pick].(asleep := false)] else FirstSubmitter(ss)
  }

  function FirstSubmitter(ss: seq<Submitter>): (r: seq<Submitter>)
    ensures |r| == |ss|
  {
    if ss == [] then []
    else if Sleeps(ss[0]) then [ss[0].(asleep := false)] + ss[1..]
    else [ss[0]] + FirstSubmitter(ss[1..])
  }

  // threadpool_submit_work and threadpool_submit_priority_work with the mutex held.
  function Offer(st: State, s: nat, item: nat, priority: bool, pick: nat): State
    requires s < |st.submitters|
  {
    if st.queued >= st.max then st.(submitters := st.submitters[s := Blocked(item, priority, true)])
    else
      var t := st.(submitters := st.submitters[s := Outside], queued := st.queued + 1,
                   workers := SignalWorker(st.workers, pick), accepted := st.accepted + [item]);
      if priority then t.(priority := [item] + t.priority)
      else t.(work := t.work + [item], ordinary := t.ordinary + [item])
  }

  function DoFetch(st: State, w: nat): State
    requires w < |st.workers|
  {
    if st.priority != [] then
      st.(priority := st.priority[1..], queued := st.queued - 1, active := st.active + 1,
          workers := st.workers[w := Running(st.priority[0])])
    else if st.work != [] then
      st.(work := st.work[1..], queued := st.queued - 1, active := st.active + 1,
          workers := st.workers[w := Running(st.work[0])], taken := st.taken + [st.work[0]])
    else st.(workers := st.workers[w := Asleep])
  }

  function DoFinish(st: State, w: nat, pick: nat): State
    requires w < |st.workers| && st.workers[w].Running?
  {
    st.(workers := st.workers[w := AtLoopTop], active := st.active - 1,
        submitters := SignalSubmitter(st.submitters, pick), finished := st.finished + [st.workers[w].item])
  }

  function Next(st: State, x: Step): State
    requires Enabled(st, x)
  {
    match x
    case Submit(s, item, priority, pick) => Offer(st, s, item, priority, pick)
    case Retry(s, pick) => Offer(st, s, st.submitters[s].item, st.submitters[s].priority, pick)
    case Fetch(w) => DoFetch(st, w)
    case Finish(w, pick) => DoFinish(st, w, pick)
  }

  // ---------------------------------------------------------------------------------------
  // The invariant
  // ---------------------------------------------------------------------------------------

  function CountRunning(ws: seq<Worker>): nat {
    if ws == [] then 0 else (if ws[0].Running? then 1 else 0) + CountRunning(ws[1..])
  }

  // Signalled submitters that have not retried yet.
  function CountReady(ss: seq<Submitter>): nat {
    if ss == [] then 0 else (if ss[0].Blocked? && !ss[0].asleep then 1 else 0) + CountReady(ss[1..])
  }

  function Held(p: Worker): multiset<nat> {
    if p.Running? then multiset{p.item} else multiset{}
  }

  function InHand(ws: seq<Worker>): multiset<nat> {
    if ws == [] then multiset{} else Held(ws[0]) + InHand(ws[1..])
  }

  ghost predicate WorkerAwake(ws: seq<Worker>) {
    exists w :: 0 <= w < |ws| && ws[w] != Asleep
  }

  ghost predicate SomeoneBlocked(ss: seq<Submitter>) {
    exists s :: 0 <= s < |ss| && Sleeps(ss[s])
  }

  ghost predicate Invariant(st: State) {
    && st.max >= 1 && |st.workers| >= 1
    && st.queued == |st.work| + |st.priority| <= st.max
    && st.active == CountRunning(st.workers)
    && st.ordinary == st.taken + st.work
    && (st.queued > 0 ==> WorkerAwake(st.workers))
    // Room a sleeping submitter could use is matched by a signal given or still to come.
    && (SomeoneBlocked(st.submitters) ==> st.max - st.queued <= CountRunning(st.workers) + CountReady(st.submitters))
  }

  // Every accepted item is queued, in the hands of a worker or finished, exactly once.
  ghost predicate Conserved(st: State) {
    multiset(st.accepted) == multiset(st.work) + multiset(st.priority) + InHand(st.workers) + multiset(st.finished)
  }

  lemma {:induction false} SetWorker(ws: seq<Worker>, w: nat, p: Worker)
    requires w < |ws|
    ensures CountRunning(ws[w := p]) == CountRunning(ws) - (if ws[w].Running? then 1 else 0) + (if p.Running? then 1 else 0)
  {
    if w > 0 {
      SetWorker(ws[1..], w - 1, p);
      assert ws[w := p][1..] == ws[1..][w - 1 := p];
    }
  }

  lemma {:induction false} SetHeld(ws: seq<Worker>, w: nat, p: Worker)
    requires w < |ws|
    ensures InHand(ws[w := p]) + Held(ws[w]) == InHand(ws) + Held(p)
  {
    var r := ws[w := p];
    if w > 0 {
      SetHeld(ws[1..], w - 1, p);
      assert r[1..] == ws[1..][w - 1 := p] && r[0] == ws[0];
      Regroup(Held(ws[0]), InHand(r[1..]), Held(ws[w]), InHand(ws[1..]), Held(p));
    } else {
      assert r[1..] == ws[1..];
      Exchange(Held(p), InHand(ws[1..]), Held(ws[0]));
    }
  }

  lemma Regroup(a: multiset<nat>, b: multiset<nat>, c: multiset<nat>, d: multiset<nat>, e: multiset<nat>)
    requires b + c == d + e
    ensures (a + b) + c == (a + d) + e
  {
    assert (a + b) + c == a + (b + c);
    assert (a + d) + e == a + (d + e);
  }

  lemma Exchange(a: multiset<nat>, b: multiset<nat>, c: multiset<nat>)
    ensures (a + b) + c == (c + b) + a
  {
  }

  lemma {:induction false} SetSubmitter(ss: seq<Submitter>, s: nat, p: Submitter)
    requires s < |ss|
    ensures CountReady(ss[s := p]) == CountReady(ss) - (if ss[s].Blocked? && !ss[s].asleep then 1 else 0)
      + (if p.Blocked? && !p.asleep then 1 else 0)
  {
    if s > 0 {
      SetSubmitter(ss[1..], s - 1, p);
      assert ss[s := p][1..] == ss[1..][s - 1 := p];
    }
  }

  // A signal to the workers wakes one that sleeps, and changes nothing that is counted.
  lemma {:induction false} FirstWorkerEffect(ws: seq<Worker>)
    ensures var r := FirstWorker(ws);
      && CountRunning(r) == CountRunning(ws) && InHand(r) == InHand(ws)
      && (ws != [] ==> WorkerAwake(r))
  {
    if ws != [] {
      var r := FirstWorker(ws);
      if ws[0] != Asleep {
        FirstWorkerEffect(ws[1..]);
        assert r[1..] == FirstWorker(ws[1..]);
      }
      assert r[0] != Asleep;
    }
  }

  lemma SignalWorkerEffect(ws: seq<Worker>, pick: nat)
    ensures var r := SignalWorker(ws, pick);
      && CountRunning(r) == CountRunning(ws) && InHand(r) == InHand(ws)
      && (ws != [] ==> WorkerAwake(r))
  {
    FirstWorkerEffect(ws);
    if pick < |ws| && ws[pick] == Asleep {
      SetWorker(ws, pick, Woken);
      SetHeld(ws, pick, Woken);
      assert InHand(ws) + multiset{} == InHand(ws);
      assert InHand(ws[pick := Woken]) + multiset{} == InHand(ws[pick := Woken]);
      assert SignalWorker(ws, pick)[pick] == Woken;
    }
  }

  // A signal to the submitters readies one that sleeps, if there is one.
  lemma {:induction false} FirstSubmitterEffect(ss: seq<Submitter>)
    ensures var r := FirstSubmitter(ss);
      && (SomeoneBlocked(ss) ==> CountReady(r) == CountReady(ss) + 1)
      && (SomeoneBlocked(r) ==> SomeoneBlocked(ss))
  {
    if ss != [] {
      var r := FirstSubmitter(ss);
      if Sleeps(ss[0]) {
        if s :| 0 <= s < |r| && Sleeps(r[s]) {
          assert Sleeps(ss[s]);
        }
      } else {
        FirstSubmitterEffect(ss[1..]);
        assert r[1..] == FirstSubmitter(ss[1..]);
        if s :| 0 <= s < |ss| && Sleeps(ss[s]) {
          assert Sleeps(ss[1..][s - 1]);
        }
        if s :| 0 <= s < |r| && Sleeps(r[s]) {
          assert Sleeps(r[1..][s - 1]);
          var u :| 0 <= u < |ss[1..]| && Sleeps(ss[1..][u]);
          assert Sleeps(ss[u + 1]);
        }
      }
    }
  }

  lemma SignalSubmitterEffect(ss: seq<Submitter>, pick: nat)
    ensures var r := SignalSubmitter(ss, pick);
      && (SomeoneBlocked(ss) ==> CountReady(r) == CountReady(ss) + 1)
      && (SomeoneBlocked(r) ==> SomeoneBlocked(ss))
  {
    FirstSubmitterEffect(ss);
    if pick < |ss| && Sleeps(ss[pick]) {
      SetSubmitter(ss, pick, ss[pick].(asleep := false));
    }
  }

  lemma OfferStep(st: State, s: nat, item: nat, priority: bool, pick: nat)
    requires Invariant(st) && s < |st.submitters|
    ensures Invariant(Offer(st, s, item, priority, pick))
  {
    var r := Offer(st, s, item, priority, pick);
    SetSubmitter(st.submitters, s, r.submitters[s]);
    if st.queued < st.max {
      SignalWorkerEffect(st.workers, pick);
      if u :| 0 <= u < |r.submitters| && Sleeps(r.submitters[u]) {
        assert Sleeps(st.submitters[u]);
      }
    }
  }

  lemma FetchStep(st: State, w: nat)
    requires Invariant(st) && Enabled(st, Fetch(w))
    ensures Invariant(DoFetch(st, w))
  {
    var r := DoFetch(st, w);
    SetWorker(st.workers, w, r.workers[w]);
    if st.priority != [] || st.work != [] {
      assert r.workers[w] != Asleep;
    }
  }

  lemma FinishStep(st: State, w: nat, pick: nat)
    requires Invariant(st) && Enabled(st, Finish(w, pick))
    ensures Invariant(DoFinish(st, w, pick))
  {
    SetWorker(st.workers, w, AtLoopTop);
    SignalSubmitterEffect(st.submitters, pick);
    assert DoFinish(st, w, pick).workers[w] != Asleep;
  }

  lemma InvariantStep(st: State, x: Step)
    requires Invariant(st) && Enabled(st, x)
    ensures Invariant(Next(st, x))
  {
    match x
    case Submit(s, item, priority, pick) => OfferStep(st, s, item, priority, pick);
    case Retry(s, pick) => OfferStep(st, s, st.submitters[s].item, st.submitters[s].priority, pick);
    case Fetch(w) => FetchStep(st, w);
    case Finish(w, pick) => FinishStep(st, w, pick);
  }

  lemma AddOne(a: multiset<nat>, w: multiset<nat>, p: multiset<nat>, h: multiset<nat>, f: multiset<nat>, x: multiset<nat>)
    requires a == w + p + h + f
    ensures a + x == (w + x) + p + h + f
    ensures a + x == w + (x + p) + h + f
  {
  }

  lemma OfferConserves(st: State, s: nat, item: nat, priority: bool, pick: nat)
    requires Conserved(st) && s < |st.submitters|
    ensures Conserved(Offer(st, s, item, priority, pick))
  {
    SignalWorkerEffect(st.workers, pick);
    AddOne(multiset(st.accepted), multiset(st.work), multiset(st.priority), InHand(st.workers), multiset(st.finished), multiset{item});
    assert multiset(st.accepted + [item]) == multiset(st.accepted) + multiset{item};
    assert multiset(st.work + [item]) == multiset(st.work) + multiset{item};
    assert multiset([item] + st.priority) == multiset{item} + multiset(st.priority);
  }

  // One item x moves from a queue to the hands of a worker.
  lemma MoveOne(w: multiset<nat>, p: multiset<nat>, h: multiset<nat>, f: multiset<nat>, x: multiset<nat>)
    ensures w + (x + p) + h + f == w + p + (h + x) + f
    ensures (x + w) + p + h + f == w + p + (h + x) + f
  {
  }

  lemma FetchConserves(st: State, w: nat)
    requires Conserved(st) && Enabled(st, Fetch(w))
    ensures Conserved(DoFetch(st, w))
  {
    var r := DoFetch(st, w);
    var x := Held(r.workers[w]);
    FetchHeld(st, w);
    MoveOne(multiset(r.work), multiset(r.priority), InHand(st.workers), multiset(st.finished), x);
    TakeFirst(st.priority);
    TakeFirst(st.work);
  }

  lemma TakeFirst(q: seq<nat>)
    ensures q != [] ==> multiset(q) == multiset{q[0]} + multiset(q[1..])
  {
    if q != [] {
      assert q == [q[0]] + q[1..];
    }
  }

  lemma FetchHeld(st: State, w: nat)
    requires Enabled(st, Fetch(w))
    ensures InHand(DoFetch(st, w).workers) == InHand(st.workers) + Held(DoFetch(st, w).workers[w])
  {
    var r := DoFetch(st, w);
    SetHeld(st.workers, w, r.workers[w]);
    assert InHand(r.workers) + multiset{} == InHand(r.workers);
  }

  lemma Shift(q: multiset<nat>, x: multiset<nat>, h: multiset<nat>, f: multiset<nat>)
    ensures (q + x) + h + f == q + (h + x) + f
  {
  }

  lemma FinishConserves(st: State, w: nat, pick: nat)
    requires Conserved(st) && Enabled(st, Finish(w, pick))
    ensures Conserved(DoFinish(st, w, pick))
  {
    var r := DoFinish(st, w, pick);
    SetHeld(st.workers, w, AtLoopTop);
    assert InHand(st.workers) + multiset{} == InHand(st.workers);
    assert multiset(r.finished) == multiset(st.finished) + Held(st.workers[w]);
    Shift(multiset(st.work) + multiset(st.priority) + InHand(r.workers), Held(st.workers[w]), multiset{}, multiset(st.finished));
  }

  lemma ConservedStep(st: State, x: Step)
    requires Conserved(st) && Enabled(st, x)
    ensures Conserved(Next(st, x))
  {
    match x
    case Submit(s, item, priority, pick) => OfferConserves(st, s, item, priority, pick);
    case Retry(s, pick) => OfferConserves(st, s, st.submitters[s].item, st.submitters[s].priority, pick);
    case Fetch(w) => FetchConserves(st, w);
    case Finish(w, pick) => FinishConserves(st, w, pick);
  }

  // ---------------------------------------------------------------------------------------
  // The promises, over every run
  // ---------------------------------------------------------------------------------------

  function Initial(max: nat, n: nat, m: nat): State {
    State(max, [], [], 0, 0, seq(n, _ => AtLoopTop), seq(m, _ => Outside), [], [], [], [])
  }

  ghost predicate IsRun(max: nat, n: nat, m: nat, run: seq<State>, steps: seq<Step>) {
    && max >= 1 && n >= 1 && |run| == |steps| + 1 && run[0] == Initial(max, n, m)
    && forall k :: 0 <= k < |steps| ==> Enabled(run[k], steps[k]) && run[k + 1] == Next(run[k], steps[k])
  }

  lemma {:induction false} NoneRunning(ws: seq<Worker>)
    requires forall i :: 0 <= i < |ws| ==> ws[i] == AtLoopTop
    ensures CountRunning(ws) == 0 && InHand(ws) == multiset{}
  {
    if ws != [] {
      NoneRunning(ws[1..]);
    }
  }

  lemma InitialHolds(max: nat, n: nat, m: nat)
    requires max >= 1 && n >= 1
    ensures Invariant(Initial(max, n, m)) && Conserved(Initial(max, n, m))
  {
    NoneRunning(Initial(max, n, m).workers);
  }

  lemma MaxStays(st: State, x: Step)
    requires Enabled(st, x)
    ensures Next(st, x).max == st.max
  {
  }

  lemma StepHolds(st: State, x: Step)
    requires Invariant(st) && Conserved(st) && Enabled(st, x)
    ensures Invariant(Next(st, x)) && Conserved(Next(st, x)) && Next(st, x).max == st.max
  {
    InvariantStep(st, x);
    ConservedStep(st, x);
    MaxStays(st, x);
  }

  lemma {:induction false} EveryRun(max: nat, n: nat, m: nat, run: seq<State>, steps: seq<Step>, k: nat)
    requires IsRun(max, n, m, run, steps) && k < |run|
    ensures Invariant(run[k]) && Conserved(run[k]) && run[k].max == max
  {
    if k == 0 {
      InitialHolds(max, n, m);
    } else {
      EveryRun(max, n, m, run, steps, k - 1);
      StepHolds(run[k - 1], steps[k - 1]);
    }
  }

  lemma {:induction false} CountWitness(ws: seq<Worker>, ss: seq<Submitter>)
    ensures CountRunning(ws) > 0 ==> WorkerAwake(ws)
    ensures CountReady(ss) > 0 ==> exists s :: 0 <= s < |ss| && ss[s].Blocked? && !ss[s].asleep
    decreases |ws| + |ss|
  {
    if ws != [] {
      CountWitness(ws[1..], ss);
      assert forall w :: 0 <= w < |ws| - 1 ==> ws[1..][w] == ws[w + 1];
      assert ws[0].Running? ==> ws[0] != Asleep;
    } else if ss != [] {
      CountWitness(ws, ss[1..]);
      assert forall s :: 0 <= s < |ss| - 1 ==> ss[1..][s] == ss[s + 1];
    }
  }

  // While anything is queued or any submitter is blocked, somebody can move: the pool never
  // comes to rest with workers and submitters all asleep.
  lemma NeverStuck(max: nat, n: nat, m: nat, run: seq<State>, steps: seq<Step>, k: nat)
    requires IsRun(max, n, m, run, steps) && k < |run|
    requires run[k].queued > 0 || exists s :: 0 <= s < |run[k].submitters| && run[k].submitters[s].Blocked?
    ensures WorkerAwake(run[k].workers) ||
      exists s :: 0 <= s < |run[k].submitters| && run[k].submitters[s].Blocked? && !run[k].submitters[s].asleep
  {
    EveryRun(max, n, m, run, steps, k);
    CountWitness(run[k].workers, run[k].submitters);
    if s :| 0 <= s < |run[k].submitters| && run[k].submitters[s].Blocked? {
      assert run[k].submitters[s].asleep ==> Sleeps(run[k].submitters[s]);
    }
  }

  // The queue respects its limit, and every accepted item is queued, running or finished,
  // exactly once; ordinary items are taken in the order they were accepted.
  lemma NothingLost(max: nat, n: nat, m: nat, run: seq<State>, steps: seq<Step>, k: nat)
    requires IsRun(max, n, m, run, steps) && k < |run|
    ensures var st := run[k];
      && st.queued == |st.work| + |st.priority| <= max
      && st.active == CountRunning(st.workers)
      && multiset(st.accepted) == multiset(st.work) + multiset(st.priority) + InHand(st.workers) + multiset(st.finished)
      && st.taken <= st.ordinary && st.ordinary[|st.taken|..] == st.work
  {
    EveryRun(max, n, m, run, steps, k);
  }
}
