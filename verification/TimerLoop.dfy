// The timers of one loop (src/timer.c): a heap and rings over storage that is shared, proved
// against TimerSpec.
module TimerLoop {
  import opened Storage
  import opened QueueRing
  import opened IntrusiveHeap
  import opened TimerSpec

  const UV_EINVAL := -22

  ghost function RecordOf(t: Node): Timer
    reads t`timeout, t`startId, t`repeat, t`hasCallback, t`active, t`closing
  {
    Timer(t.timeout, t.startId, t.repeat, t.hasCallback, t.active, t.closing)
  }

  // A ring link that is linked to nothing but itself.
  ghost predicate Alone(t: Node)
    reads t`left, t`right, t`pos
  {
    t.left == t && t.right == t && t.pos == 0
  }

  lemma AloneIsRing(t: Node)
    ensures Alone(t) <==> Ring(t, [])
  {
    assert Ring(t, []) ==> Edge(t, [], 0);
  }

  // The links of a ring are what they were.
  twostate predicate RingKept(h: Node, q: seq<Node>)
    reads h, q
    ensures RingKept(h, q) && old(Ring(h, q)) ==> Ring(h, q)
  {
    && h.left == old(h.left) && h.right == old(h.right) && h.pos == old(h.pos)
    && (forall n :: n in q ==> n.left == old(n.left) && n.right == old(n.right) && n.pos == old(n.pos))
  }

  lemma {:induction false} WithoutIndex(q: seq<Node>, k: nat)
    requires k < |q| && forall i :: 0 <= i < k ==> q[i] != q[k]
    ensures Without(q, q[k]) == q[..k] + q[k + 1..]
  {
    if k > 0 {
      WithoutIndex(q[1..], k - 1);
      assert q[..k] == [q[0]] + q[1..][..k - 1];
    }
  }

  predicate InMemory(op: Op, memory: map<Node, nat>) {
    op.Init? ==> op.t in memory && memory[op.t] == op.startId
  }

  predicate AllInMemory(ops: seq<Op>, memory: map<Node, nat>) {
    forall i :: 0 <= i < |ops| ==> InMemory(ops[i], memory)
  }

  ghost predicate CallbacksInMemory(behaviour: nat -> seq<Op>, memory: map<Node, nat>) {
    forall i: nat :: AllInMemory(behaviour(i), memory)
  }

  class Loop {
    var time: nat
    var timerCounter: nat
    const heap: Heap
    // All handles initialised on this loop.
    ghost var timers: set<Node>
    // The ring of the uv__run_timers pass in progress.
    ghost var readyHead: Node?
    ghost var ready: seq<Node>

    constructor ()
      ensures Valid() && fresh(heap) && timers == {} && readyHead == null
      ensures Value() == State(0, 0, map[], [])
    {
      time, timerCounter := 0, 0;
      heap := new Heap();
      timers, readyHead, ready := {}, null, [];
    }

    ghost function Records(): (m: map<Node, Timer>)
      reads this`timers, timers`timeout, timers`startId, timers`repeat, timers`hasCallback, timers`active, timers`closing
      ensures m.Keys == timers
    {
      map t | t in timers :: RecordOf(t)
    }

    ghost function Value(): State
      reads this`time, this`timerCounter, this`timers, this`ready, timers`timeout, timers`startId, timers`repeat, timers`hasCallback, timers`active, timers`closing
    {
      State(time, timerCounter, Records(), ready)
    }

    lemma RecordsUpdated(m: map<Node, Timer>, t: Node)
      requires t in timers && m.Keys == timers
      requires forall u :: u in timers && u != t ==> RecordOf(u) == m[u]
      ensures Records() == m[t := RecordOf(t)]
    {
    }

    ghost function Actives(): set<Node>
      reads this`timers, timers`active
    {
      set t | t in timers && t.active
    }

    // An active timer's storage is a heap node of this heap ...
    ghost predicate ActiveInHeap()
      reads this`timers, heap, timers`active, heap.slots
    {
      heap.Valid() && Elements(heap.slots) == Actives()
    }

    // ... and an inactive one's is a ring link: in the ready ring or alone.
    ghost predicate InactiveInRing()
      reads this`timers, this`readyHead, this`ready, timers, Opt(readyHead), ready
    {
      && (readyHead == null ==> ready == [])
      && (readyHead != null ==> readyHead !in timers && Ring(readyHead, ready))
      && (forall t :: t in ready ==> t in timers && !t.active)
      && (forall t :: t in timers && !t.active && t !in ready ==> Alone(t))
    }

    ghost predicate Valid()
      reads this, heap, heap.slots, timers, Opt(readyHead), ready
    {
      ActiveInHeap() && InactiveInRing() && WellFormed(Value())
    }

    lemma SlotsAreActive()
      requires ActiveInHeap()
      ensures forall n :: n in heap.slots ==> n in timers && n.active
      ensures forall t :: t in timers && t.active ==> t in heap.slots
    {
      forall n | n in heap.slots ensures n in timers && n.active {
        assert n in Elements(heap.slots);
      }
      forall t | t in timers && t.active ensures t in heap.slots {
        assert t in Elements(heap.slots);
      }
    }

    method StopActive(t: Node)
      requires ActiveInHeap() && InactiveInRing() && t in timers && t.active
      modifies heap, timers`left, timers`right, timers`parent, timers`pos, t`active
      ensures ActiveInHeap() && InactiveInRing() && !t.active && Alone(t)
    {
      SlotsAreActive();
      assert readyHead != null ==> readyHead !in heap.slots;
      assert forall n :: n in ready ==> n !in heap.slots;
      heap.Remove(t);
      assert readyHead != null ==> RingKept(readyHead, ready);
      t.active := false;
      QueueRing.Init(t);
      assert readyHead != null ==> RingKept(readyHead, ready);
      AloneIsRing(t);
    }

    // uv__queue_remove on the storage of an inactive timer.
    method Detach(t: Node)
      requires ActiveInHeap() && InactiveInRing() && t in timers && !t.active
      modifies this`ready, timers`left, timers`right, timers`pos, Opt(readyHead)`left, Opt(readyHead)`right
      ensures ready == Without(old(ready), t) && t !in ready && forall n :: n in ready ==> n in old(ready)
      ensures readyHead != null ==> Ring(readyHead, ready)
      ensures forall n :: n in timers && n != t && (n.active || n !in ready) ==>
        n.left == old(n.left) && n.right == old(n.right) && n.pos == old(n.pos)
      ensures forall n :: n in old(ready) && n != t ==> n in ready
    {
      ghost var h, q, k := PlaceInRing(t);
      QueueRing.Remove(t, h, q, k);
      assert readyHead != null && t !in ready ==> RingKept(readyHead, ready);
      ready := Without(ready, t);
    }

    method StopInactive(t: Node)
      requires ActiveInHeap() && InactiveInRing() && t in timers && !t.active
      modifies this`ready, timers`left, timers`right, timers`pos, Opt(readyHead)`left, Opt(readyHead)`right
      ensures ActiveInHeap() && InactiveInRing() && Alone(t) && t !in ready
      ensures ready == Without(old(ready), t)
    {
      SlotsAreActive();
      Detach(t);
      label detached:
      QueueRing.Init(t);
      assert readyHead != null ==> RingKept@detached(readyHead, ready);
      AloneIsRing(t);
      assert Linked(heap.slots) by {
        forall i | 1 <= i <= |heap.slots| ensures Links(heap.slots, i) {
          assert old(Links(heap.slots, i));
        }
      }
    }

    // The ring an inactive timer is linked in, and its index there.
    lemma PlaceInRing(t: Node) returns (h: Node, q: seq<Node>, k: nat)
      requires InactiveInRing() && t in timers && !t.active
      ensures Ring(h, q)
      ensures t in ready ==> h == readyHead && q == ready && k < |q| && q[k] == t && Without(ready, t) == q[..k] + q[k + 1..]
      ensures t !in ready ==> h == t && q == [] && Without(ready, t) == ready
      ensures t !in Without(ready, t)
      ensures forall n :: n in Without(ready, t) ==> n in ready
      ensures forall n :: n in ready && n != t ==> n in Without(ready, t)
    {
      h, q, k := t, [], 0;
      if t in ready {
        QueueRing.Positions(readyHead, ready);
        h, q, k := readyHead, ready, t.pos - 1;
        forall i | 0 <= i < |q| ensures q[i].pos == i + 1 {
          assert Edge(h, q, i + 1);
        }
        WithoutIndex(ready, k);
        WithoutKeepsOthers(ready, t);
      } else {
        AloneIsRing(t);
        WithoutAbsent(ready, t);
      }
    }

    method StopTimer(t: Node)
      requires ActiveInHeap() && InactiveInRing() && t in timers
      modifies this`ready, heap, timers`left, timers`right, timers`parent, timers`pos, t`active,
        Opt(readyHead)`left, Opt(readyHead)`right
      ensures ActiveInHeap() && InactiveInRing() && Alone(t)
      ensures Value() == DoStop(old(Value()), t) && t !in ready && !t.active
    {
      ghost var m := Records();
      if t.active {
        StopActive(t);
        WithoutAbsent(ready, t);
      } else {
        StopInactive(t);
      }
      RecordsUpdated(m, t);
    }

    // The new due time, sequence number and callback of a stopped timer.
    method Stamp(t: Node, timeout: nat, repeat: nat)
      requires ActiveInHeap() && InactiveInRing() && t in timers && !t.active
      modifies this`timerCounter, t`timeout, t`repeat, t`startId, t`hasCallback
      ensures ActiveInHeap() && InactiveInRing()
      ensures RecordOf(t) == Timer(Clamp(time, timeout), old(timerCounter), repeat, true, false, t.closing)
      ensures timerCounter == old(timerCounter) + 1
    {
      SlotsAreActive();
      var clamped := (time + timeout) % (MAX64 + 1);
      if clamped < timeout {
        clamped := MAX64;
      }
      t.hasCallback := true;
      t.timeout := clamped;
      t.repeat := repeat;
      t.startId := timerCounter;
      timerCounter := timerCounter + 1;
    }

    // The storage of an inactive timer that is alone becomes a heap node.
    method InsertIntoHeap(t: Node)
      requires ActiveInHeap() && InactiveInRing() && t in timers && !t.active && t !in ready
      modifies heap, timers`left, timers`right, timers`parent, timers`pos, t`active
      ensures ActiveInHeap() && InactiveInRing() && t.active
    {
      SlotsAreActive();
      assert readyHead != null ==> readyHead !in heap.slots;
      assert forall n :: n in ready ==> n !in heap.slots;
      heap.Insert(t);
      assert readyHead != null ==> RingKept(readyHead, ready);
      t.active := true;
    }

    method Restart(t: Node, timeout: nat, repeat: nat)
      requires ActiveInHeap() && InactiveInRing() && t in timers
      modifies this`ready, this`timerCounter, heap, timers`left, timers`right, timers`parent, timers`pos,
        t`active, t`timeout, t`repeat, t`startId, t`hasCallback, Opt(readyHead)`left, Opt(readyHead)`right
      ensures ActiveInHeap() && InactiveInRing()
      ensures Records() == old(Records())[t := Timer(Clamp(time, timeout), old(timerCounter), repeat, true, true, t.closing)]
      ensures timerCounter == old(timerCounter) + 1 && ready == Without(old(ready), t)
    {
      ghost var m := Records();
      StopTimer(t);
      Stamp(t, timeout, repeat);
      InsertIntoHeap(t);
      RecordsUpdated(m, t);
    }

    method StartTimer(t: Node, hasCallback: bool, timeout: nat, repeat: nat) returns (err: int)
      requires ActiveInHeap() && InactiveInRing() && t in timers
      modifies this`ready, this`timerCounter, heap, timers`left, timers`right, timers`parent, timers`pos,
        t`active, t`timeout, t`repeat, t`startId, t`hasCallback, Opt(readyHead)`left, Opt(readyHead)`right
      ensures ActiveInHeap() && InactiveInRing()
      ensures Value() == DoStart(old(Value()), t, hasCallback, timeout, repeat)
      ensures err == if Refused(old(Value()), Start(t, hasCallback, timeout, repeat)) then UV_EINVAL else 0
    {
      if t.closing || !hasCallback {
        return UV_EINVAL;
      }
      StartOverwrites(Value(), t, timeout, repeat);
      Restart(t, timeout, repeat);
      err := 0;
    }

    method AgainTimer(t: Node) returns (err: int)
      requires ActiveInHeap() && InactiveInRing() && t in timers
      modifies this`ready, this`timerCounter, heap, timers`left, timers`right, timers`parent, timers`pos,
        t`active, t`timeout, t`repeat, t`startId, t`hasCallback, Opt(readyHead)`left, Opt(readyHead)`right
      ensures ActiveInHeap() && InactiveInRing()
      ensures Value() == DoAgain(old(Value()), t)
      ensures err == if Refused(old(Value()), Again(t)) then UV_EINVAL else 0
    {
      if !t.hasCallback {
        return UV_EINVAL;
      }
      if t.repeat != 0 {
        StopTimer(t);
        var _ := StartTimer(t, t.hasCallback, t.repeat, t.repeat);
      }
      err := 0;
    }

    method SetRepeat(t: Node, repeat: nat)
      requires ActiveInHeap() && InactiveInRing() && t in timers && repeat <= MAX64
      modifies t`repeat
      ensures ActiveInHeap() && InactiveInRing()
      ensures Value() == Apply(old(Value()), TimerSpec.SetRepeat(t, repeat))
    {
      ghost var m := Records();
      t.repeat := repeat;
      RecordsUpdated(m, t);
    }

    method MarkClosing(t: Node)
      requires ActiveInHeap() && InactiveInRing() && t in timers
      modifies t`closing
      ensures ActiveInHeap() && InactiveInRing()
      ensures Value() == old(Value()).(timers := old(Records())[t := old(Records())[t].(closing := true)])
    {
      ghost var m := Records();
      t.closing := true;
      RecordsUpdated(m, t);
    }

    // uv_close on a timer handle.
    method CloseTimer(t: Node)
      requires ActiveInHeap() && InactiveInRing() && t in timers
      modifies this`ready, heap, timers`left, timers`right, timers`parent, timers`pos, t`active, t`closing,
        Opt(readyHead)`left, Opt(readyHead)`right
      ensures ActiveInHeap() && InactiveInRing()
      ensures Value() == Apply(old(Value()), Close(t))
    {
      MarkClosing(t);
      StopTimer(t);
    }

    method UpdateTime(now: nat)
      requires ActiveInHeap() && InactiveInRing()
      modifies this`time
      ensures ActiveInHeap() && InactiveInRing()
      ensures Value() == old(Value()).(now := now)
    {
      time := now;
    }

    // uv_timer_init on memory that is no handle of this loop yet.
    method InitTimer(t: Node)
      requires Valid() && t !in timers && t != readyHead
      modifies this`timers, t
      ensures Valid() && timers == old(timers) + {t}
      ensures Value() == old(Value()).(timers := old(Records())[t := Timer(0, old(t.startId), 0, false, false, false)])
    {
      SlotsAreActive();
      ghost var m := Records();
      InitStorage(t);
      timers := timers + {t};
      assert Actives() == old(Actives());
      assert Records() == m[t := RecordOf(t)];
      InitWellFormed(old(Value()), t, RecordOf(t));
    }

    method InitStorage(t: Node)
      requires ActiveInHeap() && InactiveInRing() && t !in timers && t != readyHead
      modifies t
      ensures ActiveInHeap() && InactiveInRing() && Alone(t)
      ensures RecordOf(t) == Timer(0, old(t.startId), 0, false, false, false)
    {
      SlotsAreActive();
      t.active, t.closing := false, false;
      t.hasCallback := false;
      t.timeout := 0;
      t.repeat := 0;
      QueueRing.Init(t);
      AloneIsRing(t);
    }

    // No active timer is due before t.
    ghost predicate FirstDue(t: Node)
      reads this`timers, timers`active, timers`timeout, t`timeout
    {
      forall u :: u in timers && u.active ==> t.timeout <= u.timeout
    }

    // uv__next_timeout: how long the loop may block, in whole milliseconds of type int.
    method NextTimeout() returns (timeout: int)
      requires Valid()
      ensures timeout == -1 <==> forall t :: t in timers ==> !t.active
      ensures timeout >= 0 ==> timeout <= INT_MAX && forall t :: t in timers && t.active ==> t.timeout >= time + timeout || timeout == 0
      ensures timeout >= 0 ==> exists t :: t in timers && t.active && (t.timeout <= time + timeout || timeout == INT_MAX)
      ensures timeout >= -1
      ensures timeout >= 0 ==> exists t :: t in timers && t.active && FirstDue(t) && timeout == Wait(t.timeout - time)
    {
      var n := heap.Min();
      FirstIsLeast();
      if n == null {
        return -1;
      }
      assert FirstDue(n);
      if n.timeout <= time {
        return 0;
      }
      var diff := n.timeout - time;
      if diff > INT_MAX {
        diff := INT_MAX;
      }
      timeout := diff;
    }

    lemma FirstIsLeast()
      requires ActiveInHeap()
      ensures heap.min == null ==> forall t :: t in timers ==> !t.active
      ensures heap.min != null ==> heap.min in timers && heap.min.active
      ensures heap.min != null ==> forall t :: t in timers && t.active ==> !Less(t.Rank(), heap.min.Rank())
    {
      SlotsAreActive();
      forall t | t in timers && t.active ensures heap.min != null && !Less(t.Rank(), heap.min.Rank()) {
        IntrusiveHeap.Positions(heap.slots);
        RootIsLeast(heap.slots, t.pos);
      }
    }

    // memory is where timers may be, handles or not yet, and the start ids that lie in it.
    ghost predicate Stored(memory: map<Node, nat>)
      reads this`timers, this`readyHead, memory.Keys`startId
    {
      && timers <= memory.Keys && readyHead !in memory.Keys
      && forall t :: t in memory.Keys && t !in timers ==> t.startId == memory[t]
    }

    method Perform(op: Op, ghost memory: map<Node, nat>)
      requires Valid() && Legal(Value(), op) && Stored(memory) && InMemory(op, memory)
      modifies this, heap, memory.Keys, Opt(readyHead)
      ensures Valid() && old(timers) <= timers && readyHead == old(readyHead) && Stored(memory)
      ensures Value() == Apply(old(Value()), op)
    {
      ApplyWellFormed(Value(), op);
      match op
      case Start(t, hasCallback, timeout, repeat) => var _ := StartTimer(t, hasCallback, timeout, repeat);
      case Stop(t) => StopTimer(t);
      case Again(t) => var _ := AgainTimer(t);
      case SetRepeat(t, repeat) => SetRepeat(t, repeat);
      case Close(t) => CloseTimer(t);
      case UpdateTime(now) => UpdateTime(now);
      case Init(t, startId) => InitTimer(t);
    }

    // A callback: any sequence of operations.
    method PerformAll(ops: seq<Op>, ghost memory: map<Node, nat>)
      requires Valid() && AllLegal(Value(), ops) && Stored(memory) && AllInMemory(ops, memory)
      modifies this, heap, memory.Keys, Opt(readyHead)
      ensures Valid() && old(timers) <= timers && readyHead == old(readyHead) && Stored(memory)
      ensures Value() == ApplyAll(old(Value()), ops)
    {
      var i := 0;
      assert ops[0..] == ops;
      while i < |ops|
        invariant 0 <= i <= |ops|
        invariant Valid() && old(timers) <= timers && readyHead == old(readyHead) && Stored(memory)
        invariant AllLegal(Value(), ops[i..]) && ApplyAll(Value(), ops[i..]) == ApplyAll(old(Value()), ops)
      {
        assert ops[i..][0] == ops[i] && ops[i..][1..] == ops[i + 1..];
        Perform(ops[i], memory);
        i := i + 1;
      }
    }

    // ---------------------------------------------------------------------------------------
    // uv__run_timers
    // ---------------------------------------------------------------------------------------

    method CollectOne(handle: Node, head: Node)
      requires ActiveInHeap() && InactiveInRing() && handle in timers && handle.active && readyHead == head
      modifies this`ready, heap, timers`left, timers`right, timers`parent, timers`pos, handle`active, head`left, head`right
      ensures ActiveInHeap() && InactiveInRing()
      ensures Value() == Collect(old(Value()), handle) && Actives() == old(Actives()) - {handle}
    {
      StopTimer(handle);
      Enqueue(handle, head);
    }

    // uv__queue_insert_tail on the ready ring leaves every other timer's storage alone.
    method Join(t: Node, head: Node)
      requires Ring(head, ready) && t != head && t !in ready && readyHead == head && head !in timers
      requires forall n :: n in ready ==> n in timers && !n.active
      modifies this`ready, t`left, t`right, t`pos, head`left, head`right, ready`left
      ensures ready == old(ready) + [t] && Ring(head, ready)
      ensures forall n :: n in timers && n != t && (n.active || n !in ready) ==>
        n.left == old(n.left) && n.right == old(n.right) && n.pos == old(n.pos)
    {
      QueueRing.InsertTail(head, t, ready);
      ready := ready + [t];
    }

    // A stopped timer that is alone joins the ready ring.
    method Enqueue(t: Node, head: Node)
      requires ActiveInHeap() && InactiveInRing() && t in timers && !t.active && t !in ready && readyHead == head
      modifies this`ready, t`left, t`right, t`pos, head`left, head`right, ready`left
      ensures ActiveInHeap() && InactiveInRing()
      ensures Value() == old(Value()).(ready := old(ready) + [t])
    {
      SlotsAreActive();
      Join(t, head);
      assert Linked(heap.slots) by {
        forall i | 1 <= i <= |heap.slots| ensures Links(heap.slots, i) {
          assert old(Links(heap.slots, i));
        }
      }
      forall u | u in timers && !u.active && u !in ready ensures Alone(u) {
        assert u != t && u !in old(ready) && old(Alone(u));
      }
    }

    // One iteration of the first loop.
    method CollectNext(head: Node, ghost st: State) returns (more: bool)
      requires WellFormed(st) && ActiveInHeap() && InactiveInRing() && readyHead == head && Collecting(st, Value())
      modifies this`ready, heap, timers`left, timers`right, timers`parent, timers`pos, timers`active, head`left, head`right
      ensures ActiveInHeap() && InactiveInRing() && Collecting(st, Value())
      ensures if more then Actives() < old(Actives()) else Collected(st, Value())
    {
      var n := heap.Min();
      FirstIsLeast();
      if n == null {
        CollectEnd(st, Value());
        return false;
      }
      if n.timeout > time {
        CollectEnd(st, Value());
        return false;
      }
      CollectStep(st, Value(), n);
      CollectOne(n, head);
      more := true;
    }

    // The first loop: every due timer leaves the heap and joins the ready ring.
    method CollectDue(head: Node)
      requires Valid() && readyHead == head && ready == []
      modifies this`ready, heap, timers`left, timers`right, timers`parent, timers`pos, timers`active, head`left, head`right
      ensures Valid() && Collected(old(Value()), Value())
    {
      ghost var st := Value();
      var more := true;
      while more
        invariant ActiveInHeap() && InactiveInRing() && Collecting(st, Value())
        invariant !more ==> Collected(st, Value())
        decreases more, Actives()
      {
        more := CollectNext(head, st);
      }
      CollectedWellFormed(st, Value());
    }

    // The head of the ready ring is unlinked and, if it repeats, armed again.
    method RearmHead(head: Node) returns (handle: Node)
      requires ActiveInHeap() && InactiveInRing() && WellFormed(Value()) && readyHead == head && ready != []
      modifies this`ready, this`timerCounter, heap, timers, head`left, head`right
      ensures ActiveInHeap() && InactiveInRing()
      ensures handle == old(ready)[0] && Value() == TakeHead(old(Value()))
    {
      handle := PopHead(head);
      var _ := AgainTimer(handle);
    }

    method PopHead(head: Node) returns (handle: Node)
      requires ActiveInHeap() && InactiveInRing() && readyHead == head && ready != []
      modifies this`ready, timers`left, timers`right, timers`pos, head`left, head`right
      ensures ActiveInHeap() && InactiveInRing()
      ensures handle == old(ready)[0] && handle in timers && Value() == old(Value()).(ready := old(ready)[1..])
    {
      handle := QueueRing.Head(head, ready);
      StopInactive(handle);
    }

    // n callbacks of the pass have run, those of fired; all is what the whole pass amounts to.
    ghost predicate InPass(head: Node, all: (State, seq<Node>), fired: seq<Node>, behaviour: nat -> seq<Op>, n: nat, memory: map<Node, nat>)
      reads this, heap, heap.slots, timers, Opt(readyHead), ready, memory.Keys
    {
      && Valid() && readyHead == head && Stored(memory) && CallbacksInMemory(behaviour, memory)
      && Lawful(Value(), behaviour, n) && FiredSoFar(all, fired, Value(), behaviour, n)
    }

    // One iteration of the second loop: re-arm a repeating timer, then call its callback.
    method TakeTurn(head: Node, behaviour: nat -> seq<Op>, n: nat, ghost all: (State, seq<Node>), ghost fired: seq<Node>, ghost memory: map<Node, nat>)
      returns (handle: Node)
      requires InPass(head, all, fired, behaviour, n, memory) && ready != []
      modifies this, heap, memory.Keys, head
      ensures InPass(head, all, fired + [handle], behaviour, n + 1, memory)
      ensures old(timers) <= timers && |ready| < |old(ready)|
    {
      ghost var st := Value();
      FireTurn(all, fired, st, behaviour, n);
      TakeHeadReady(st);
      handle := RearmHead(head);
      PerformAll(behaviour(n), memory);
    }

    // The loop condition and one iteration.
    method NextTurn(head: Node, behaviour: nat -> seq<Op>, n: nat, ghost all: (State, seq<Node>), ghost fired: seq<Node>, ghost memory: map<Node, nat>)
      returns (handle: Node?)
      requires InPass(head, all, fired, behaviour, n, memory)
      modifies this, heap, memory.Keys, head
      ensures old(timers) <= timers
      ensures handle == null ==> Valid() && readyHead == head && all == (Value(), fired)
      ensures handle != null ==> InPass(head, all, fired + [handle], behaviour, n + 1, memory) && |ready| < |old(ready)|
    {
      var empty := QueueRing.Empty(head, ready);
      if empty {
        FireEnds(all, fired, Value(), behaviour, n);
        return null;
      }
      handle := TakeTurn(head, behaviour, n, all, fired, memory);
    }

    method FireReady(head: Node, behaviour: nat -> seq<Op>, ghost all: (State, seq<Node>), ghost memory: map<Node, nat>) returns (fired: seq<Node>)
      requires InPass(head, all, [], behaviour, 0, memory)
      modifies this, heap, memory.Keys, head
      ensures Valid() && old(timers) <= timers && readyHead == head
      ensures all == (Value(), fired)
    {
      fired := [];
      var n := 0;
      var handle := NextTurn(head, behaviour, n, all, fired, memory);
      while handle != null
        invariant old(timers) <= timers
        invariant handle == null ==> Valid() && readyHead == head && all == (Value(), fired)
        invariant handle != null ==> InPass(head, all, fired + [handle], behaviour, n + 1, memory)
        decreases handle != null, |ready|
      {
        fired := fired + [handle];
        n := n + 1;
        handle := NextTurn(head, behaviour, n, all, fired, memory);
      }
    }

    // Both loops, over the ring of head.
    method Pass(head: Node, behaviour: nat -> seq<Op>, ghost memory: map<Node, nat>) returns (fired: seq<Node>)
      requires Valid() && readyHead == head && ready == [] && Stored(memory) && CallbacksInMemory(behaviour, memory)
      requires Lawful(AfterCollecting(Value()), behaviour, 0)
      modifies this, heap, memory.Keys, head
      ensures Valid() && old(timers) <= timers && readyHead == head && ready == []
      ensures Fire(AfterCollecting(old(Value())), behaviour, 0) == (Value(), fired)
    {
      ghost var s := AfterCollecting(Value());
      CollectDue(head);
      CollectedOnce(old(Value()), s, Value());
      FireBegins(s, behaviour, 0);
      fired := FireReady(head, behaviour, Fire(s, behaviour, 0), memory);
    }

    // uv__run_timers, with callbacks that may do anything legal.
    method RunTimers(behaviour: nat -> seq<Op>, ghost memory: map<Node, nat>) returns (fired: seq<Node>)
      requires Valid() && readyHead == null && Stored(memory) && CallbacksInMemory(behaviour, memory)
      requires Lawful(AfterCollecting(Value()), behaviour, 0)
      modifies this, heap, memory.Keys
      ensures Valid() && old(timers) <= timers && readyHead == null
      ensures Fire(AfterCollecting(old(Value())), behaviour, 0) == (Value(), fired)
    {
      var head := NewHead();
      fired := Pass(head, behaviour, memory);
      DropHead(head);
    }

    ghost method DropHead(head: Node)
      requires Valid() && readyHead == head && ready == []
      modifies this`readyHead
      ensures Valid() && readyHead == null && Value() == old(Value())
    {
      readyHead := null;
    }

    // The ready_queue variable of uv__run_timers, initialised.
    method NewHead() returns (head: Node)
      requires Valid() && readyHead == null
      modifies this`readyHead
      ensures Valid() && fresh(head) && readyHead == head && ready == [] && Value() == old(Value())
    {
      head := new Node();
      AloneIsRing(head);
      readyHead := head;
    }
  }
}
