// The mutex sections of src/threadpool.c as they are written: shared variables updated in
// place, the worker's loop with its continue statements.  Each is proved to be the step of
// PoolSpec that it stands for.
module ThreadPool {
  import opened PoolSpec
  import opened PoolProof

  class Pool {
    var wq: seq<Item>
    var slowIoPendingWq: seq<Job>
    var idleThreads: int
    var slowIoWorkRunning: int
    // Where each worker thread is.
    var workers: seq<Phase>

    constructor (n: nat)
      ensures forall loopIds :: Matches(Initial(n, loopIds))
    {
      wq, slowIoPendingWq := [], [];
      idleThreads, slowIoWorkRunning := 0, 0;
      workers := seq(n, _ => Starting);
    }

    ghost predicate Matches(st: State)
      reads this
    {
      && wq == st.wq && slowIoPendingWq == st.slow
      && idleThreads == st.idle && slowIoWorkRunning == st.slowRunning && workers == st.workers
    }

    function SlowWorkThreadThreshold(): nat
      reads this`workers
    {
      (|workers| + 1) / 2
    }

    method CondSignal(pick: nat)
      modifies this`workers
      ensures workers == Signal(old(workers), pick)
    {
      workers := Signal(workers, pick);
    }

    // uv__work_submit, from post on.
    method PostRequest(job: Job, isSlow: bool, pick: nat, ghost st: State)
      requires Matches(st)
      modifies this
      ensures Matches(DoSubmit(st, job, isSlow, pick))
    {
      var q := Work(job);
      if isSlow {
        slowIoPendingWq := slowIoPendingWq + [job];
        if Marker in wq {
          return;
        }
        q := Marker;
      }
      wq := wq + [q];
      if idleThreads > 0 {
        CondSignal(pick);
      }
    }

    // worker, from where thread i has the mutex until it releases it by waiting, by leaving
    // with a request to run, or by leaving for good.
    method Worker(i: nat, pick: nat, ghost st: State)
      requires Matches(st) && QueuesOk(st.wq, st.slow) && Enabled(st, Enter(i, pick))
      modifies this
      ensures Matches(DoEnter(st, i, pick))
    {
      if workers[i] == Woken {
        idleThreads := idleThreads - 1;
      } else if workers[i].Finished? && workers[i].slow {
        slowIoWorkRunning := slowIoWorkRunning - 1;
      }
      ghost var a := Arrive(st, i);
      WorkerLoop(i, pick, a, Section(a.wq, a.slow, a.slowRunning, Threshold(a)));
    }

    // What the section comes to from here on is o; all but the main queue is as in a.
    ghost predicate Pending(a: State, o: Outcome)
      reads this
    {
      Matches(a.(wq := wq)) && NoDuplicates(wq) && o == Section(wq, a.slow, a.slowRunning, Threshold(a))
    }

    method WorkerLoop(i: nat, pick: nat, ghost a: State, ghost o: Outcome)
      requires Pending(a, o) && i < |a.workers|
      modifies this
      ensures Matches(Leave(a, i, o, pick))
    {
      var again := true;
      while again
        invariant if again then Pending(a, o) else Matches(Leave(a, i, o, pick))
        decreases again, |wq|, if wq != [] && wq[0] == Marker then 1 else 0
      {
        again := Iteration(i, pick, a, o);
      }
    }

    // One iteration of the loop: again says that the C code continues it.
    method Iteration(i: nat, pick: nat, ghost a: State, ghost o: Outcome) returns (again: bool)
      requires Pending(a, o) && i < |a.workers|
      modifies this
      ensures if again then Pending(a, o) else Matches(Leave(a, i, o, pick))
      ensures again ==> |wq| < |old(wq)| || (|wq| == |old(wq)| && wq != [] && old(wq)[0] == Marker && wq[0] != Marker)
    {
      var threshold := SlowWorkThreadThreshold();
      if wq == [] || (wq[0] == Marker && |wq| == 1 && slowIoWorkRunning >= threshold) {
        idleThreads := idleThreads + 1;
        workers := workers[i := Asleep];
        return false;
      }
      var q := wq[0];
      if q == ExitMessage {
        workers := workers[i := Exited];
        CondSignal(pick);
        return false;
      }
      TailMembers(wq);
      wq := wq[1..];
      if q != Marker {
        workers := workers[i := Running(q.job, false)];
        return false;
      }
      if slowIoWorkRunning >= threshold {
        wq := wq + [q];
        return true;
      }
      if slowIoPendingWq == [] {
        return true;
      }
      TakeSlow(i, pick);
      again := false;
    }

    // The marker has been taken off the queue and slow work may run.
    method TakeSlow(i: nat, pick: nat)
      requires i < |workers| && slowIoPendingWq != []
      modifies this
      ensures slowIoWorkRunning == old(slowIoWorkRunning) + 1 && idleThreads == old(idleThreads)
      ensures slowIoPendingWq == old(slowIoPendingWq)[1..]
      ensures wq == old(wq) + (if slowIoPendingWq != [] then [Marker] else [])
      ensures var ws := old(workers)[i := Running(old(slowIoPendingWq)[0], true)];
        workers == if slowIoPendingWq != [] then SignalIfIdle(idleThreads, ws, pick) else ws
    {
      slowIoWorkRunning := slowIoWorkRunning + 1;
      var job := slowIoPendingWq[0];
      slowIoPendingWq := slowIoPendingWq[1..];
      workers := workers[i := Running(job, true)];
      if slowIoPendingWq != [] {
        wq := wq + [Marker];
        if idleThreads > 0 {
          CondSignal(pick);
        }
      }
    }
  }
}
