// What every step of the thread pool keeps, and what follows for every reachable state.
module PoolProof {
  import opened PoolSpec

  // ---------------------------------------------------------------------------------------
  // Counting workers
  // ---------------------------------------------------------------------------------------

  predicate IsIdle(p: Phase) {
    p == Asleep || p == Woken
  }

  // Working on slow I/O, up to the moment the worker gives up its share of the threshold.
  predicate IsSlow(p: Phase) {
    (p.Running? || p.Finished?) && p.slow
  }

  function CountIdle(ws: seq<Phase>): nat {
    if ws == [] then 0 else (if IsIdle(ws[0]) then 1 else 0) + CountIdle(ws[1..])
  }

  function CountSlow(ws: seq<Phase>): nat {
    if ws == [] then 0 else (if IsSlow(ws[0]) then 1 else 0) + CountSlow(ws[1..])
  }

  lemma {:induction false} CountUpdate(ws: seq<Phase>, i: nat, p: Phase)
    requires i < |ws|
    ensures CountIdle(ws[i := p]) == CountIdle(ws) - (if IsIdle(ws[i]) then 1 else 0) + (if IsIdle(p) then 1 else 0)
    ensures CountSlow(ws[i := p]) == CountSlow(ws) - (if IsSlow(ws[i]) then 1 else 0) + (if IsSlow(p) then 1 else 0)
  {
    if i > 0 {
      CountUpdate(ws[1..], i - 1, p);
      assert ws[i := p][1..] == ws[1..][i - 1 := p];
    }
  }

  lemma {:induction false} CountZero(ws: seq<Phase>, i: nat)
    requires i < |ws|
    ensures IsIdle(ws[i]) ==> CountIdle(ws) > 0
    ensures IsSlow(ws[i]) ==> CountSlow(ws) > 0
  {
    if i > 0 {
      CountZero(ws[1..], i - 1);
    }
  }

  lemma {:induction false} CountWitness(ws: seq<Phase>)
    ensures CountIdle(ws) > 0 ==> exists i :: 0 <= i < |ws| && IsIdle(ws[i])
    ensures CountSlow(ws) > 0 ==> exists i :: 0 <= i < |ws| && IsSlow(ws[i])
    ensures CountSlow(ws) < |ws| ==> exists i :: 0 <= i < |ws| && !IsSlow(ws[i])
    ensures CountSlow(ws) <= |ws|
  {
    if ws != [] {
      CountWitness(ws[1..]);
      assert forall i :: 0 <= i < |ws| - 1 ==> ws[1..][i] == ws[i + 1];
    }
  }

  // A signal wakes one sleeping worker if there is one and changes nothing else.
  lemma {:induction false} SignalFirstEffect(ws: seq<Phase>)
    ensures var r := SignalFirst(ws);
      && CountIdle(r) == CountIdle(ws) && CountSlow(r) == CountSlow(ws)
      && (forall i :: 0 <= i < |ws| ==> r[i] == ws[i] || (ws[i] == Asleep && r[i] == Woken))
      && ((exists i :: 0 <= i < |ws| && ws[i] == Asleep) ==> exists i :: 0 <= i < |ws| && r[i] == Woken)
  {
    if ws != [] && ws[0] != Asleep {
      SignalFirstEffect(ws[1..]);
      var r := SignalFirst(ws);
      assert r[1..] == SignalFirst(ws[1..]);
      if exists i :: 0 <= i < |ws| && ws[i] == Asleep {
        var i :| 0 <= i < |ws| && ws[i] == Asleep;
        assert ws[1..][i - 1] == Asleep;
        var k :| 0 <= k < |ws[1..]| && SignalFirst(ws[1..])[k] == Woken;
        assert r[k + 1] == Woken;
      }
    } else if ws != [] {
      assert SignalFirst(ws)[0] == Woken;
    }
  }

  lemma SignalEffect(ws: seq<Phase>, pick: nat)
    ensures var r := Signal(ws, pick);
      && CountIdle(r) == CountIdle(ws) && CountSlow(r) == CountSlow(ws)
      && (forall i :: 0 <= i < |ws| ==> r[i] == ws[i] || (ws[i] == Asleep && r[i] == Woken))
      && ((exists i :: 0 <= i < |ws| && ws[i] == Asleep) ==> exists i :: 0 <= i < |ws| && r[i] == Woken)
  {
    SignalFirstEffect(ws);
    if pick < |ws| && ws[pick] == Asleep {
      CountUpdate(ws, pick, Woken);
      assert Signal(ws, pick)[pick] == Woken;
    }
  }

  // ---------------------------------------------------------------------------------------
  // The section of a worker
  // ---------------------------------------------------------------------------------------

  // The marker is linked whenever slow work is pending; nothing is linked twice.
  predicate QueuesOk(wq: seq<Item>, slow: seq<Job>) {
    NoDuplicates(wq) && NoDuplicates(slow) && (slow != [] ==> Marker in wq)
  }

  ghost predicate SameWork(a: seq<Item>, b: seq<Item>) {
    forall j :: Work(j) in a <==> Work(j) in b
  }

  lemma TailMembers<T>(s: seq<T>)
    requires s != []
    ensures forall x :: x in s <==> x == s[0] || x in s[1..]
    ensures NoDuplicates(s) ==> NoDuplicates(s[1..]) && s[0] !in s[1..]
  {
    assert s == [s[0]] + s[1..];
  }

  ghost predicate TakesWork(wq: seq<Item>, w: seq<Item>, job: Job) {
    Work(job) in wq && forall j :: Work(j) in w <==> Work(j) in wq && j != job
  }

  // A worker sleeps only if it must wait; it takes the head of the slow queue only below the
  // threshold, and otherwise a request of the main queue.
  ghost predicate Effect(wq: seq<Item>, slow: seq<Job>, running: int, threshold: nat, o: Outcome) {
    match o
    case Sleep(w) => MustWait(w, running, threshold) && QueuesOk(w, slow) && SameWork(w, wq)
    case Quit(w) => w != [] && w[0] == ExitMessage && QueuesOk(w, slow) && SameWork(w, wq)
    case Take(w, rest, job, isSlow) =>
      && QueuesOk(w, rest)
      && (isSlow ==> running < threshold && slow != [] && job == slow[0] && rest == slow[1..] && SameWork(w, wq))
      && (!isSlow ==> rest == slow && TakesWork(wq, w, job))
  }

  lemma {:induction false} SectionEffect(wq: seq<Item>, slow: seq<Job>, running: int, threshold: nat)
    requires QueuesOk(wq, slow)
    ensures Effect(wq, slow, running, threshold, Section(wq, slow, running, threshold))
    decreases |wq|, if wq != [] && wq[0] == Marker then 1 else 0
  {
    if !MustWait(wq, running, threshold) {
      TailMembers(wq);
      if wq[0] == Marker {
        if running >= threshold {
          assert wq[1..] != [];
          assert NoDuplicates(wq[1..] + [Marker]);
          assert SameWork(wq[1..] + [Marker], wq);
          SectionEffect(wq[1..] + [Marker], slow, running, threshold);
        } else if slow == [] {
          SectionEffect(wq[1..], slow, running, threshold);
        } else {
          TailMembers(slow);
        }
      }
    }
  }

  // ---------------------------------------------------------------------------------------
  // Scheduling: the counters are exact and no wakeup is lost
  // ---------------------------------------------------------------------------------------

  predicate IsAwake(p: Phase) {
    p != Asleep && p != Exited
  }

  ghost predicate SomeoneAwake(ws: seq<Phase>) {
    exists i :: 0 <= i < |ws| && IsAwake(ws[i])
  }

  ghost predicate AllExited(ws: seq<Phase>) {
    forall i :: 0 <= i < |ws| ==> ws[i] == Exited
  }

  // Whenever a worker would have something to do, some live worker is not asleep.
  ghost predicate NoLostWakeup(st: State) {
    !MustWait(st.wq, st.slowRunning, Threshold(st)) ==> SomeoneAwake(st.workers) || AllExited(st.workers)
  }

  ghost predicate Scheduled(st: State) {
    && |st.workers| >= 1
    && st.idle == CountIdle(st.workers)
    && st.slowRunning == CountSlow(st.workers) <= Threshold(st)
    && QueuesOk(st.wq, st.slow)
    && NoLostWakeup(st)
  }

  lemma AwakeAfterSignal(ws: seq<Phase>, pick: nat)
    ensures SomeoneAwake(ws) ==> SomeoneAwake(Signal(ws, pick))
    ensures SomeoneAwake(Signal(ws, pick)) || AllExited(Signal(ws, pick))
  {
    SignalEffect(ws, pick);
    var r := Signal(ws, pick);
    if i :| 0 <= i < |ws| && IsAwake(ws[i]) {
      assert IsAwake(r[i]);
    }
    if k :| 0 <= k < |r| && r[k] == Woken {
      assert IsAwake(r[k]);
    }
  }

  lemma PostScheduled(st: State, item: Item, pick: nat)
    requires Scheduled(st) && item !in st.wq
    ensures Scheduled(Post(st, item, pick))
  {
    var s := Post(st, item, pick);
    SignalEffect(st.workers, pick);
    AwakeAfterSignal(st.workers, pick);
    if st.idle == 0 && !AllExited(st.workers) {
      var i :| 0 <= i < |st.workers| && st.workers[i] != Exited;
      CountZero(st.workers, i);
      assert IsAwake(st.workers[i]);
    }
  }

  lemma ArriveCounts(st: State, i: nat)
    requires Scheduled(st) && Enabled(st, Enter(i, 0))
    ensures var s := Arrive(st, i);
      && s == st.(idle := s.idle, slowRunning := s.slowRunning)
      && s.idle == CountIdle(st.workers) - (if IsIdle(st.workers[i]) then 1 else 0)
      && s.slowRunning == CountSlow(st.workers) - (if IsSlow(st.workers[i]) then 1 else 0)
      && 0 <= s.slowRunning <= Threshold(st)
  {
    CountZero(st.workers, i);
  }

  lemma LeaveScheduled(st: State, a: State, i: nat, o: Outcome, pick: nat)
    requires Scheduled(st) && i < |st.workers|
    requires a == st.(idle := a.idle, slowRunning := a.slowRunning)
    requires a.idle == CountIdle(st.workers) - (if IsIdle(st.workers[i]) then 1 else 0)
    requires 0 <= a.slowRunning <= Threshold(st)
    requires a.slowRunning == CountSlow(st.workers) - (if IsSlow(st.workers[i]) then 1 else 0)
    requires Effect(st.wq, st.slow, a.slowRunning, Threshold(st), o)
    ensures Scheduled(Leave(a, i, o, pick))
  {
    match o
    case Sleep(wq) => CountUpdate(st.workers, i, Asleep);
    case Quit(wq) => QuitWorkers(st.workers, i, pick);
    case Take(wq, slow, job, isSlow) => LeaveTakeScheduled(st, a, i, o, pick);
  }

  lemma LeaveTakeScheduled(st: State, a: State, i: nat, o: Outcome, pick: nat)
    requires Scheduled(st) && i < |st.workers| && o.Take?
    requires a == st.(idle := a.idle, slowRunning := a.slowRunning)
    requires a.idle == CountIdle(st.workers) - (if IsIdle(st.workers[i]) then 1 else 0)
    requires 0 <= a.slowRunning <= Threshold(st)
    requires a.slowRunning == CountSlow(st.workers) - (if IsSlow(st.workers[i]) then 1 else 0)
    requires Effect(st.wq, st.slow, a.slowRunning, Threshold(st), o)
    ensures Scheduled(Leave(a, i, o, pick))
  {
    TakeWorkers(st.workers, i, pick, Running(o.job, o.isSlow));
  }

  lemma EnterScheduled(st: State, i: nat, pick: nat)
    requires Scheduled(st) && Enabled(st, Enter(i, pick))
    ensures Scheduled(DoEnter(st, i, pick))
  {
    var a := Arrive(st, i);
    ArriveCounts(st, i);
    SectionEffect(a.wq, a.slow, a.slowRunning, Threshold(a));
    LeaveScheduled(st, a, i, Section(a.wq, a.slow, a.slowRunning, Threshold(a)), pick);
  }

  lemma QuitWorkers(ws: seq<Phase>, i: nat, pick: nat)
    requires i < |ws|
    ensures var r := ws[i := Exited]; var t := Signal(r, pick);
      && CountIdle(t) == CountIdle(r) == CountIdle(ws) - (if IsIdle(ws[i]) then 1 else 0)
      && CountSlow(t) == CountSlow(r) == CountSlow(ws) - (if IsSlow(ws[i]) then 1 else 0)
      && (SomeoneAwake(t) || AllExited(t))
  {
    var r := ws[i := Exited];
    CountUpdate(ws, i, Exited);
    SignalEffect(r, pick);
    AwakeAfterSignal(r, pick);
  }

  lemma TakeWorkers(ws: seq<Phase>, i: nat, pick: nat, p: Phase)
    requires i < |ws| && p.Running?
    ensures var r := ws[i := p]; var t := Signal(r, pick);
      && CountIdle(t) == CountIdle(r) == CountIdle(ws) - (if IsIdle(ws[i]) then 1 else 0)
      && CountSlow(t) == CountSlow(r) == CountSlow(ws) - (if IsSlow(ws[i]) then 1 else 0) + (if p.slow then 1 else 0)
      && SomeoneAwake(r) && SomeoneAwake(t)
  {
    var r := ws[i := p];
    CountUpdate(ws, i, p);
    SignalEffect(r, pick);
    assert IsAwake(r[i]);
    AwakeAfterSignal(r, pick);
  }

  lemma DropMembers<T>(s: seq<T>, x: T)
    requires NoDuplicates(s)
    ensures NoDuplicates(Drop(s, x))
    ensures forall y :: y in Drop(s, x) <==> y in s && y != x
  {
    if s != [] {
      TailMembers(s);
      if s[0] != x {
        DropMembers(s[1..], x);
      }
    }
  }

  lemma CancelScheduled(st: State, job: Job)
    requires Scheduled(st) && Enabled(st, CancelBegin(job))
    ensures Scheduled(DoCancelBegin(st, job))
  {
    DropMembers(st.wq, Work(job));
    DropMembers(st.slow, job);
    DropKeepsWaiting(st.wq, job, st.slowRunning, Threshold(st));
    assert NoLostWakeup(DoCancelBegin(st, job));
  }

  lemma DropKeepsWaiting(wq: seq<Item>, job: Job, running: int, threshold: nat)
    ensures MustWait(wq, running, threshold) ==> MustWait(Drop(wq, Work(job)), running, threshold)
  {
    if wq == [Marker] {
      assert Drop(wq[1..], Work(job)) == [];
    }
  }

  lemma WorkerScheduled(st: State, i: nat, p: Phase)
    requires Scheduled(st) && i < |st.workers| && IsAwake(p)
    requires IsIdle(p) == IsIdle(st.workers[i]) && IsSlow(p) == IsSlow(st.workers[i])
    ensures Scheduled(st.(workers := st.workers[i := p]))
  {
    CountUpdate(st.workers, i, p);
    assert IsAwake(st.workers[i := p][i]);
  }

  lemma ScheduledStep(st: State, s: Step)
    requires Scheduled(st) && Enabled(st, s)
    requires s.Submit? ==> Work(s.job) !in st.wq && s.job !in st.slow
    ensures Scheduled(Next(st, s))
  {
    match s
    case Submit(job, isSlow, pick) =>
      var t := st.(work := st.work[job := Pending], place := st.place[job := if isSlow then InSlow else InPool]);
      assert Scheduled(t);
      if !isSlow {
        PostScheduled(t, Work(job), pick);
      } else if Marker in t.wq {
        assert Scheduled(t.(slow := t.slow + [job]));
      } else {
        PostScheduled(t, Marker, pick);
        assert Scheduled(Post(t.(slow := t.slow + [job]), Marker, pick));
      }
    case Enter(i, pick) => EnterScheduled(st, i, pick);
    case Spurious(i) => WorkerScheduled(st, i, Woken);
    case Finish(i) => WorkerScheduled(st, i, Finished(st.workers[i].slow));
    case CancelBegin(job) => CancelScheduled(st, job);
    case CancelEnd(job) =>
    case CallDone(l) =>
    case DoneBegin(l) =>
    case DoneNext(l) =>
    case PostExit(pick) => PostScheduled(st, ExitMessage, pick);
  }

  // ---------------------------------------------------------------------------------------
  // Every request is in exactly one place and is delivered at most once
  // ---------------------------------------------------------------------------------------

  function PlaceOf(st: State, j: Job): Place {
    if j in st.place then st.place[j] else Nowhere
  }

  // The queues and the workers hold j exactly where its place says.
  ghost predicate JobPlaced(st: State, j: Job) {
    var p := PlaceOf(st, j);
    && (Work(j) in st.wq <==> p == InPool)
    && (j in st.slow <==> p == InSlow)
    && (forall i :: 0 <= i < |st.workers| && st.workers[i].Running? && st.workers[i].job == j ==> p == AtWorker(i))
    && (p.AtWorker? ==> p.i < |st.workers| && st.workers[p.i].Running? && st.workers[p.i].job == j)
    && (j in st.done <==> p == Delivered)
    && (p != Nowhere ==> j.loop in st.loops && j in st.work)
  }

  ghost predicate JobInLoops(st: State, j: Job) {
    var p := PlaceOf(st, j);
    forall l :: l in st.loops ==>
      && (j in st.loops[l].queue <==> p == InLoop && l == j.loop)
      && (j in st.loops[l].batch <==> p == InBatch && l == j.loop)
      && (j in st.loops[l].cancelling <==> p == AtCanceller && l == j.loop)
  }

  // What has happened to j so far agrees with its place.
  ghost predicate JobHistory(st: State, j: Job) {
    var p := PlaceOf(st, j);
    if p == Nowhere then j !in st.executed && j !in st.cancelled
    else
      && j in st.work
      && (p == InPool || p == InSlow || p.AtWorker? ==> st.work[j] == Pending)
      && (p == AtCanceller ==> st.work[j] != Ran)
      && (p == InLoop || p == InBatch || p == Delivered ==> st.work[j] != Pending)
      && (j in st.executed <==> p.AtWorker? || st.work[j] == Ran)
      && (j in st.cancelled <==> p == AtCanceller || st.work[j] == Cancelled)
  }

  ghost predicate JobOk(st: State, j: Job) {
    JobPlaced(st, j) && JobInLoops(st, j) && JobHistory(st, j)
  }

  // A loop with delivered requests waiting has been notified, or is about to look.
  predicate LoopOk(st: State, l: nat)
    requires l in st.loops
  {
    var loop := st.loops[l];
    && NoDuplicates(loop.queue) && NoDuplicates(loop.batch)
    && (loop.queue != [] ==> loop.notified || loop.called)
  }

  ghost predicate Placed(st: State) {
    && NoDuplicates(st.wq) && NoDuplicates(st.slow) && NoDuplicates(st.done)
    && (forall j {:trigger JobOk(st, j)} :: JobOk(st, j))
    && (forall l {:trigger LoopOk(st, l)} :: l in st.loops ==> LoopOk(st, l))
  }

  predicate Runs(p: Phase, j: Job) {
    p.Running? && p.job == j
  }

  // Nothing about j differs between the two states.
  ghost predicate SameJob(st: State, s: State, j: Job) {
    && PlaceOf(s, j) == PlaceOf(st, j)
    && (Work(j) in s.wq <==> Work(j) in st.wq)
    && (j in s.slow <==> j in st.slow)
    && (j in s.done <==> j in st.done)
    && (j in s.executed <==> j in st.executed)
    && (j in s.cancelled <==> j in st.cancelled)
    && (j in st.work ==> j in s.work && s.work[j] == st.work[j])
  }

  ghost predicate SameWorkers(st: State, s: State, j: Job) {
    |s.workers| == |st.workers| && forall i :: 0 <= i < |st.workers| ==> (Runs(s.workers[i], j) <==> Runs(st.workers[i], j))
  }

  ghost predicate SameLoops(st: State, s: State, j: Job) {
    && s.loops.Keys == st.loops.Keys
    && forall l :: l in st.loops ==>
      && (j in s.loops[l].queue <==> j in st.loops[l].queue)
      && (j in s.loops[l].batch <==> j in st.loops[l].batch)
      && (j in s.loops[l].cancelling <==> j in st.loops[l].cancelling)
  }

  lemma Unmoved(st: State, s: State, j: Job)
    requires JobOk(st, j) && SameJob(st, s, j) && SameWorkers(st, s, j) && SameLoops(st, s, j)
    ensures JobOk(s, j)
  {
  }

  lemma SignalRuns(ws: seq<Phase>, pick: nat, j: Job)
    ensures forall i :: 0 <= i < |ws| ==> (Runs(Signal(ws, pick)[i], j) <==> Runs(ws[i], j))
  {
    SignalEffect(ws, pick);
  }

  lemma LoopsUntouched(st: State, s: State)
    requires Placed(st) && s.loops == st.loops
    ensures forall l :: l in s.loops ==> LoopOk(s, l)
  {
    forall l | l in s.loops ensures LoopOk(s, l) {
      assert LoopOk(st, l);
    }
  }

  lemma SubmitPlaced(st: State, job: Job, isSlow: bool, pick: nat)
    requires Placed(st) && QueuesOk(st.wq, st.slow) && Enabled(st, Submit(job, isSlow, pick))
    ensures Placed(DoSubmit(st, job, isSlow, pick))
  {
    var s := DoSubmit(st, job, isSlow, pick);
    assert JobOk(st, job);
    LoopsUntouched(st, s);
    forall j ensures JobOk(s, j) {
      assert JobOk(st, j);
      SignalRuns(st.workers, pick, j);
      assert SameWorkers(st, s, j);
      if j != job {
        Unmoved(st, s, j);
      }
    }
  }

  // A step of the workers that runs or finishes no request.
  lemma IdleStepPlaced(st: State, s: State)
    requires Placed(st) && QueuesOk(s.wq, st.slow) && SameWork(s.wq, st.wq)
    requires s.slow == st.slow && s.loops == st.loops && s.work == st.work && s.place == st.place
    requires s.executed == st.executed && s.cancelled == st.cancelled && s.done == st.done
    requires forall j :: SameWorkers(st, s, j)
    ensures Placed(s)
  {
    LoopsUntouched(st, s);
    forall j ensures JobOk(s, j) {
      assert JobOk(st, j);
      Unmoved(st, s, j);
    }
  }

  lemma LeaveIdlePlaced(st: State, a: State, i: nat, o: Outcome, pick: nat)
    requires Placed(st) && i < |st.workers| && !st.workers[i].Running?
    requires a == st.(idle := a.idle, slowRunning := a.slowRunning)
    requires !o.Take? && QueuesOk(o.wq, st.slow) && SameWork(o.wq, st.wq)
    ensures Placed(Leave(a, i, o, pick))
  {
    forall j ensures SameWorkers(st, Leave(a, i, o, pick), j) {
      SignalRuns(st.workers[i := Exited], pick, j);
    }
    IdleStepPlaced(st, Leave(a, i, o, pick));
  }

  lemma LeaveTakePlaced(st: State, a: State, i: nat, o: Outcome, pick: nat)
    requires Placed(st) && i < |st.workers| && !st.workers[i].Running?
    requires a == st.(idle := a.idle, slowRunning := a.slowRunning)
    requires o.Take? && QueuesOk(o.wq, o.slow)
    requires o.isSlow ==> st.slow != [] && o.job == st.slow[0] && o.slow == st.slow[1..] && SameWork(o.wq, st.wq)
    requires !o.isSlow ==> o.slow == st.slow && TakesWork(st.wq, o.wq, o.job)
    ensures Placed(Leave(a, i, o, pick))
  {
    var s := Leave(a, i, o, pick);
    assert JobOk(st, o.job);
    LoopsUntouched(st, s);
    if o.isSlow {
      TailMembers(st.slow);
    }
    forall j ensures JobOk(s, j) {
      assert JobOk(st, j);
      SignalRuns(st.workers[i := Running(o.job, o.isSlow)], pick, j);
      if j != o.job {
        assert SameWorkers(st, s, j);
        Unmoved(st, s, j);
      }
    }
  }

  lemma EnterPlaced(st: State, i: nat, pick: nat)
    requires Placed(st) && QueuesOk(st.wq, st.slow) && i < |st.workers| && !st.workers[i].Running?
    ensures Placed(DoEnter(st, i, pick))
  {
    var a := Arrive(st, i);
    SectionEffect(a.wq, a.slow, a.slowRunning, Threshold(a));
    var o := Section(a.wq, a.slow, a.slowRunning, Threshold(a));
    if o.Take? {
      LeaveTakePlaced(st, a, i, o, pick);
    } else {
      LeaveIdlePlaced(st, a, i, o, pick);
    }
  }

  lemma SpuriousPlaced(st: State, i: nat)
    requires Placed(st) && QueuesOk(st.wq, st.slow) && i < |st.workers| && st.workers[i] == Asleep
    ensures Placed(st.(workers := st.workers[i := Woken]))
  {
    IdleStepPlaced(st, st.(workers := st.workers[i := Woken]));
  }

  // The request moves to the queue of its loop, which is notified.
  lemma NotifyPlaced(st: State, s: State, job: Job)
    requires Placed(st) && job.loop in st.loops && (PlaceOf(st, job).AtWorker? || PlaceOf(st, job) == AtCanceller)
    requires var l := st.loops[job.loop];
      s.loops == st.loops[job.loop := l.(queue := l.queue + [job], notified := true, cancelling := l.cancelling - {job})]
    requires s.place == st.place[job := InLoop]
    requires forall j :: j != job ==> SameJob(st, s, j) && SameWorkers(st, s, j)
    requires JobPlaced(s, job) && JobHistory(s, job)
    requires s.wq == st.wq && s.slow == st.slow && s.done == st.done
    ensures Placed(s)
  {
    assert JobOk(st, job);
    forall l | l in s.loops ensures LoopOk(s, l) {
      assert LoopOk(st, l);
    }
    forall j ensures JobOk(s, j) {
      assert JobOk(st, j);
      if j != job {
        Unmoved(st, s, j);
      }
    }
  }

  lemma FinishPlaced(st: State, i: nat)
    requires Placed(st) && Enabled(st, Finish(i))
    ensures Placed(DoFinish(st, i))
  {
    var job := st.workers[i].job;
    assert JobOk(st, job);
    var l := st.loops[job.loop];
    assert l.cancelling - {job} == l.cancelling;
    NotifyPlaced(st, DoFinish(st, i), job);
  }

  lemma CancelBeginPlaced(st: State, job: Job)
    requires Placed(st) && Enabled(st, CancelBegin(job))
    ensures Placed(DoCancelBegin(st, job))
  {
    var s, l := DoCancelBegin(st, job), st.loops[job.loop];
    assert JobOk(st, job) && LoopOk(st, job.loop);
    if Cancellable(st, job) {
      DropMembers(st.wq, Work(job));
      DropMembers(st.slow, job);
      DropMembers(l.queue, job);
      DropMembers(l.batch, job);
      forall k | k in s.loops ensures LoopOk(s, k) {
        assert LoopOk(st, k);
      }
      forall j ensures JobOk(s, j) {
        assert JobOk(st, j);
        if j != job {
          Unmoved(st, s, j);
        }
      }
    }
  }

  lemma CancelEndPlaced(st: State, job: Job)
    requires Placed(st) && Enabled(st, CancelEnd(job))
    ensures Placed(DoCancelEnd(st, job))
  {
    assert JobOk(st, job);
    assert {job} - {job} == {};
    NotifyPlaced(st, DoCancelEnd(st, job), job);
  }

  lemma CallDonePlaced(st: State, l: nat)
    requires Placed(st) && Enabled(st, CallDone(l))
    ensures Placed(st.(loops := st.loops[l := st.loops[l].(notified := false, called := true)]))
  {
    var s := st.(loops := st.loops[l := st.loops[l].(notified := false, called := true)]);
    forall k | k in s.loops ensures LoopOk(s, k) {
      assert LoopOk(st, k);
    }
    forall j ensures JobOk(s, j) {
      assert JobOk(st, j);
      Unmoved(st, s, j);
    }
  }

  lemma DoneBeginPlaced(st: State, l: nat)
    requires Placed(st) && Enabled(st, DoneBegin(l))
    ensures Placed(DoDoneBegin(st, l))
  {
    var s := DoDoneBegin(st, l);
    forall k | k in s.loops ensures LoopOk(s, k) {
      assert LoopOk(st, k);
    }
    forall j ensures JobOk(s, j) {
      assert JobOk(st, j);
      if j !in st.loops[l].queue {
        Unmoved(st, s, j);
      }
    }
  }

  lemma DoneNextPlaced(st: State, l: nat)
    requires Placed(st) && Enabled(st, DoneNext(l))
    ensures Placed(DoDoneNext(st, l))
  {
    var s, job := DoDoneNext(st, l), st.loops[l].batch[0];
    assert JobOk(st, job) && LoopOk(st, l);
    TailMembers(st.loops[l].batch);
    forall k | k in s.loops ensures LoopOk(s, k) {
      assert LoopOk(st, k);
    }
    forall j ensures JobOk(s, j) {
      assert JobOk(st, j);
      if j != job {
        Unmoved(st, s, j);
      }
    }
  }

  lemma PostExitPlaced(st: State, pick: nat)
    requires Placed(st) && ExitMessage !in st.wq && QueuesOk(st.wq, st.slow)
    ensures Placed(Post(st, ExitMessage, pick))
  {
    forall j ensures SameWorkers(st, Post(st, ExitMessage, pick), j) {
      SignalRuns(st.workers, pick, j);
    }
    IdleStepPlaced(st, Post(st, ExitMessage, pick));
  }

  // ---------------------------------------------------------------------------------------
  // The invariant over all runs
  // ---------------------------------------------------------------------------------------

  ghost predicate Invariant(st: State) {
    Scheduled(st) && Placed(st)
  }

  lemma InvariantStep(st: State, s: Step)
    requires Invariant(st) && Enabled(st, s)
    ensures Invariant(Next(st, s))
  {
    match s
    case Submit(job, isSlow, pick) =>
      assert JobOk(st, job);
      ScheduledStep(st, s);
      SubmitPlaced(st, job, isSlow, pick);
    case Enter(i, pick) => ScheduledStep(st, s); EnterPlaced(st, i, pick);
    case Spurious(i) => ScheduledStep(st, s); SpuriousPlaced(st, i);
    case Finish(i) => ScheduledStep(st, s); FinishPlaced(st, i);
    case CancelBegin(job) => ScheduledStep(st, s); CancelBeginPlaced(st, job);
    case CancelEnd(job) => ScheduledStep(st, s); CancelEndPlaced(st, job);
    case CallDone(l) => ScheduledStep(st, s); CallDonePlaced(st, l);
    case DoneBegin(l) => ScheduledStep(st, s); DoneBeginPlaced(st, l);
    case DoneNext(l) => ScheduledStep(st, s); DoneNextPlaced(st, l);
    case PostExit(pick) => ScheduledStep(st, s); PostExitPlaced(st, pick);
  }

  // The pool as init_threads leaves it, with n workers about to start and the given loops.
  function Initial(n: nat, loopIds: set<nat>): State {
    State([], [], 0, 0, seq(n, _ => Starting), map l | l in loopIds :: Loop([], [], {}, false, false), map[], map[], {}, {}, [])
  }

  // The states of a run: each is reached from the one before by some enabled step.
  ghost predicate IsRun(n: nat, loopIds: set<nat>, run: seq<State>, steps: seq<Step>) {
    && |run| == |steps| + 1
    && run[0] == Initial(n, loopIds)
    && forall k :: 0 <= k < |steps| ==>
      Enabled(run[k], steps[k]) && run[k + 1] == Next(run[k], steps[k])
  }

  lemma {:induction false} InitialCounts(ws: seq<Phase>)
    requires forall i :: 0 <= i < |ws| ==> ws[i] == Starting
    ensures CountIdle(ws) == 0 && CountSlow(ws) == 0
  {
    if ws != [] {
      InitialCounts(ws[1..]);
    }
  }

  lemma InitialInvariant(n: nat, loopIds: set<nat>)
    requires n >= 1
    ensures Invariant(Initial(n, loopIds))
  {
    var st := Initial(n, loopIds);
    InitialCounts(st.workers);
    forall j ensures JobOk(st, j) {
    }
    forall l | l in st.loops ensures LoopOk(st, l) {
    }
  }

  lemma {:induction false} EveryRun(n: nat, loopIds: set<nat>, run: seq<State>, steps: seq<Step>, k: nat)
    requires n >= 1 && IsRun(n, loopIds, run, steps) && k < |run|
    ensures Invariant(run[k])
  {
    if k == 0 {
      InitialInvariant(n, loopIds);
    } else {
      EveryRun(n, loopIds, run, steps, k - 1);
      InvariantStep(run[k - 1], steps[k - 1]);
    }
  }

  // ---------------------------------------------------------------------------------------
  // The promises
  // ---------------------------------------------------------------------------------------

  // No lost wakeup: never are all live workers asleep and unsignalled while the condition
  // they wait for is over.
  lemma NeverAllAsleep(st: State)
    requires Invariant(st) && !MustWait(st.wq, st.slowRunning, Threshold(st))
    ensures !((exists i :: 0 <= i < |st.workers| && st.workers[i] == Asleep) &&
              (forall i :: 0 <= i < |st.workers| ==> st.workers[i] == Asleep || st.workers[i] == Exited))
  {
    if SomeoneAwake(st.workers) {
      var i :| 0 <= i < |st.workers| && IsAwake(st.workers[i]);
    }
  }

  // Slow I/O keeps within its threshold, so with two workers or more it never takes them all;
  // and while slow work is pending, the marker that leads a worker to it is linked, once.
  lemma SlowWorkBounded(st: State)
    requires Invariant(st)
    ensures st.slowRunning == CountSlow(st.workers) <= (|st.workers| + 1) / 2
    ensures st.slow != [] ==> multiset(st.wq)[Marker] == 1
    ensures |st.workers| >= 2 ==> exists i :: 0 <= i < |st.workers| && !IsSlow(st.workers[i])
  {
    CountWitness(st.workers);
    OnceEach(st.wq, Marker);
  }

  lemma {:induction false} OnceEach<T>(s: seq<T>, x: T)
    requires NoDuplicates(s)
    ensures multiset(s)[x] == if x in s then 1 else 0
  {
    if s != [] {
      assert s == [s[0]] + s[1..];
      OnceEach(s[1..], x);
    }
  }

  // A request that waits in the pool has a worker that is awake, even when it waits for the
  // slow-I/O threshold.
  lemma QueuedWorkHasWorker(st: State, j: Job)
    requires Invariant(st) && (PlaceOf(st, j) == InPool || PlaceOf(st, j) == InSlow)
    ensures SomeoneAwake(st.workers) || AllExited(st.workers)
  {
    assert JobOk(st, j);
    if MustWait(st.wq, st.slowRunning, Threshold(st)) {
      CountWitness(st.workers);
      var i :| 0 <= i < |st.workers| && IsSlow(st.workers[i]);
      assert IsAwake(st.workers[i]);
    }
  }

  // A request that waits for its loop has the loop's attention.
  lemma DoneWorkIsNotified(st: State, j: Job)
    requires Invariant(st) && PlaceOf(st, j) == InLoop
    ensures j.loop in st.loops && (st.loops[j.loop].notified || st.loops[j.loop].called)
  {
    assert JobOk(st, j) && LoopOk(st, j.loop);
  }

  // The status handed to the done callback.
  function Status(st: State, j: Job): int
    requires j in st.work
  {
    if st.work[j] == Cancelled then UV_ECANCELED else 0
  }

  const UV_ECANCELED := -125

  // Delivery happens at most once; it reports a cancellation exactly when a cancel succeeded,
  // and exactly the requests that were not cancelled have run.
  lemma DeliveredOnce(st: State, j: Job)
    requires Invariant(st)
    ensures NoDuplicates(st.done)
    ensures j in st.done <==> PlaceOf(st, j) == Delivered
    ensures j in st.done ==> j in st.work && (Status(st, j) == UV_ECANCELED <==> j in st.cancelled)
    ensures j in st.done ==> (j in st.executed <==> j !in st.cancelled)
    ensures !(j in st.executed && j in st.cancelled)
  {
    assert JobOk(st, j);
  }

  // Cancelling succeeds exactly for requests no worker has taken, and for those already
  // cancelled but not delivered.
  lemma CancelSucceedsIff(st: State, j: Job)
    requires Invariant(st) && Enabled(st, CancelBegin(j))
    ensures Cancellable(st, j) <==>
      (PlaceOf(st, j) == InPool || PlaceOf(st, j) == InSlow ||
       ((PlaceOf(st, j) == InLoop || PlaceOf(st, j) == InBatch) && j in st.cancelled))
    ensures Cancellable(st, j) ==> j !in st.executed
  {
    assert JobOk(st, j);
  }

  // No step runs a request that has run before, or that has been cancelled.
  lemma RunsOnce(st: State, s: Step, j: Job)
    requires Invariant(st) && Enabled(st, s) && j !in st.executed && j in Next(st, s).executed
    ensures s.Enter? && (PlaceOf(st, j) == InPool || PlaceOf(st, j) == InSlow)
    ensures j !in st.cancelled && PlaceOf(Next(st, s), j) == AtWorker(s.i)
  {
    assert JobOk(st, j);
    if s.Enter? {
      var a := Arrive(st, s.i);
      SectionEffect(a.wq, a.slow, a.slowRunning, Threshold(a));
    }
  }
}
