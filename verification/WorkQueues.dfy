// The mutex sections of src/thread/threadpool_module.c as they are written: two singly linked
// lists of work items and the counters beside them, updated in place.  Each section is proved
// to be the step of BoundedPool that it stands for.
module WorkQueues {
  import opened BoundedPool

  class WorkItem {
    const func: nat
    var next: WorkItem?

    constructor (f: nat)
      ensures func == f && next == null
    {
      func := f;
      next := null;
    }
  }

  ghost function First(s: seq<WorkItem>): WorkItem? {
    if s == [] then null else s[0]
  }

  ghost predicate Link(s: seq<WorkItem>, i: int)
    requires 0 <= i < |s|
    reads s
  {
    s[i].next == (if i + 1 < |s| then s[i + 1] else null)
  }

  // The items of s form a list, one behind the other.
  ghost predicate Linked(s: seq<WorkItem>)
    reads s
  {
    && (forall i :: 0 <= i < |s| ==> Link(s, i))
    && (forall i, j :: 0 <= i < j < |s| ==> s[i] != s[j])
  }

  ghost function Funcs(s: seq<WorkItem>): (r: seq<nat>)
    ensures |r| == |s| && forall i :: 0 <= i < |s| ==> r[i] == s[i].func
  {
    seq(|s|, i requires 0 <= i < |s| => s[i].func)
  }

  class Pool {
    var workQueue: WorkItem?
    var priorityQueue: WorkItem?
    var queuedWork: int
    var activeThreads: int
    var maxQueueSize: nat
    // Where each worker and each submitting thread is.
    var workers: seq<Worker>
    var submitters: seq<Submitter>
    ghost var work: seq<WorkItem>
    ghost var priority: seq<WorkItem>

    ghost predicate WellLinked()
      reads this, work, priority
    {
      && workQueue == First(work) && priorityQueue == First(priority)
      && Linked(work) && Linked(priority)
      && forall x :: x in work ==> x !in priority
    }

    ghost predicate Matches(st: State)
      reads this
    {
      && maxQueueSize == st.max && Funcs(work) == st.work && Funcs(priority) == st.priority
      && queuedWork == st.queued && activeThreads == st.active && workers == st.workers && submitters == st.submitters
    }

    constructor (max: nat, n: nat, m: nat)
      ensures WellLinked() && Matches(Initial(max, n, m))
    {
      workQueue, priorityQueue, work, priority := null, null, [], [];
      queuedWork, activeThreads, maxQueueSize := 0, 0, max;
      workers := seq(n, _ => AtLoopTop);
      submitters := seq(m, _ => Outside);
    }

    // threadpool_submit_work, from where thread s has the mutex until it waits or returns.
    method SubmitWork(s: nat, func: nat, pick: nat, ghost st: State)
      requires WellLinked() && Matches(st) && s < |submitters|
      modifies this, work
      ensures WellLinked() && Matches(Offer(st, s, func, false, pick))
    {
      if queuedWork >= maxQueueSize {
        submitters := submitters[s := Blocked(func, false, true)];
        return;
      }
      var item := new WorkItem(func);
      Append(item);
      queuedWork := queuedWork + 1;
      workers := SignalWorker(workers, pick);
      submitters := submitters[s := Outside];
    }

    // The walk to the last item, and the new one behind it.
    method Append(item: WorkItem)
      requires WellLinked() && item !in work && item !in priority && item.next == null
      modifies this`workQueue, this`work, work
      ensures WellLinked() && work == old(work) + [item] && Funcs(work) == Funcs(old(work)) + [item.func]
    {
      ghost var s := work;
      if workQueue == null {
        workQueue := item;
      } else {
        assert Link(s, 0);
        var current := workQueue;
        ghost var i := 0;
        while current.next != null
          invariant 0 <= i < |s| && current == s[i] && Linked(s)
          decreases |s| - i
        {
          assert Link(s, i);
          current := current.next;
          i := i + 1;
        }
        assert Link(s, i);
        current.next := item;
      }
      work := s + [item];
      forall k | 0 <= k < |work| ensures Link(work, k) {
        assert k < |s| ==> old(Link(s, k));
      }
      forall k | 0 <= k < |priority| ensures Link(priority, k) {
        assert priority[k] in priority && old(Link(priority, k));
      }
    }

    // threadpool_submit_priority_work: the new item goes to the head.
    method SubmitPriorityWork(s: nat, func: nat, pick: nat, ghost st: State)
      requires WellLinked() && Matches(st) && s < |submitters|
      modifies this
      ensures WellLinked() && Matches(Offer(st, s, func, true, pick))
    {
      if queuedWork >= maxQueueSize {
        submitters := submitters[s := Blocked(func, true, true)];
        return;
      }
      var item := new WorkItem(func);
      Push(item);
      queuedWork := queuedWork + 1;
      workers := SignalWorker(workers, pick);
      submitters := submitters[s := Outside];
    }

    method Push(item: WorkItem)
      requires WellLinked() && item !in work && item !in priority
      modifies this`priorityQueue, this`priority, item
      ensures WellLinked() && priority == [item] + old(priority) && Funcs(priority) == [item.func] + Funcs(old(priority))
    {
      ghost var s := priority;
      item.next := priorityQueue;
      priorityQueue := item;
      priority := [item] + s;
      forall k | 0 <= k < |priority| ensures Link(priority, k) {
        assert k > 0 ==> old(Link(s, k - 1)) && priority[k] in s;
      }
      forall k | 0 <= k < |work| ensures Link(work, k) {
        assert work[k] in work && old(Link(work, k));
      }
    }

    // worker_thread, from where worker w has the mutex until it waits or runs an item.
    method Fetch(w: nat, ghost st: State) returns (item: WorkItem?)
      requires WellLinked() && Matches(st) && w < |workers|
      modifies this
      ensures WellLinked() && Matches(DoFetch(st, w))
      ensures item == null <==> st.priority == [] && st.work == []
      ensures item != null ==> item.func == if st.priority != [] then st.priority[0] else st.work[0]
    {
      item := null;
      if workQueue == null && priorityQueue == null {
        workers := workers[w := Asleep];
        return;
      }
      if priorityQueue != null {
        item := PopPriority();
      } else {
        item := PopWork();
      }
      queuedWork := queuedWork - 1;
      activeThreads := activeThreads + 1;
      workers := workers[w := Running(item.func)];
    }

    method PopPriority() returns (item: WorkItem)
      requires WellLinked() && priority != []
      modifies this`priorityQueue, this`priority
      ensures WellLinked() && item == old(priority)[0] && priority == old(priority)[1..]
      ensures Funcs(priority) == Funcs(old(priority))[1..]
    {
      assert Link(priority, 0);
      item := priorityQueue;
      priorityQueue := item.next;
      PopLinked(priority);
      priority := priority[1..];
    }

    method PopWork() returns (item: WorkItem)
      requires WellLinked() && work != []
      modifies this`workQueue, this`work
      ensures WellLinked() && item == old(work)[0] && work == old(work)[1..]
      ensures Funcs(work) == Funcs(old(work))[1..]
    {
      assert Link(work, 0);
      item := workQueue;
      workQueue := item.next;
      PopLinked(work);
      work := work[1..];
    }

    // The function of the item that worker w ran has returned.
    method Finish(w: nat, pick: nat, ghost st: State)
      requires WellLinked() && Matches(st) && Enabled(st, BoundedPool.Step.Finish(w, pick))
      modifies this`activeThreads, this`workers, this`submitters
      ensures WellLinked() && Matches(DoFinish(st, w, pick))
    {
      activeThreads := activeThreads - 1;
      workers := workers[w := AtLoopTop];
      submitters := SignalSubmitter(submitters, pick);
    }
  }

  lemma PopLinked(s: seq<WorkItem>)
    requires s != [] && Linked(s)
    ensures Linked(s[1..])
  {
    forall k | 0 <= k < |s| - 1 ensures Link(s[1..], k) {
      assert Link(s, k + 1);
    }
  }
}
