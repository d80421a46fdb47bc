// What the timer functions of src/timer.c do, as a state machine over values, and the
// promises uv__run_timers makes to arbitrary callbacks.
module TimerSpec {
  import opened Storage

  const MAX64: nat := 0xFFFF_FFFF_FFFF_FFFF
  const INT_MAX: nat := 0x7FFF_FFFF

  datatype Timer = Timer(timeout: nat, startId: nat, repeat: nat, hasCallback: bool, active: bool, closing: bool)

  // ready is the private queue of the uv__run_timers pass in progress, if any.
  datatype State = State(now: nat, counter: nat, timers: map<Node, Timer>, ready: seq<Node>)

  // What a callback, or any other code of the loop thread, may do to the timers.
  datatype Op =
    | Start(t: Node, hasCallback: bool, timeout: nat, repeat: nat)
    | Stop(t: Node)
    | Again(t: Node)
    | SetRepeat(t: Node, repeat: nat)
    | Close(t: Node)
    | UpdateTime(now: nat)
    // uv_timer_init on memory that is no handle yet; what the start id in it is does not matter.
    | Init(t: Node, startId: nat)

  predicate Legal(st: State, op: Op) {
    match op
    case Start(t, _, timeout, repeat) => t in st.timers && timeout <= MAX64 && repeat <= MAX64
    case Stop(t) => t in st.timers
    case Again(t) => t in st.timers
    case SetRepeat(t, repeat) => t in st.timers && repeat <= MAX64
    case Close(t) => t in st.timers
    case UpdateTime(now) => now <= MAX64
    case Init(t, _) => t !in st.timers
  }

  // Each operation is legal when its turn comes.
  predicate AllLegal(st: State, ops: seq<Op>)
    decreases |ops|
  {
    ops != [] ==> Legal(st, ops[0]) && AllLegal(Apply(st, ops[0]), ops[1..])
  }

  function KeyOf(r: Timer): Key {
    Key(r.timeout, r.startId)
  }

  predicate TimerOk(st: State, t: Node)
    requires t in st.timers
  {
    var r := st.timers[t];
    && r.repeat <= MAX64 && r.timeout <= MAX64
    && (r.active ==> r.hasCallback && !r.closing && r.startId < st.counter)
  }

  predicate Distinguishable(st: State, t: Node, u: Node)
    requires t in st.timers && u in st.timers
  {
    t != u && st.timers[t].active && st.timers[u].active ==> st.timers[t].startId != st.timers[u].startId
  }

  predicate ReadyOk(st: State, t: Node) {
    t in st.timers && !st.timers[t].active && st.timers[t].hasCallback && !st.timers[t].closing
  }

  predicate WellFormed(st: State) {
    && st.now <= MAX64
    && (forall t {:trigger TimerOk(st, t)} :: t in st.timers ==> TimerOk(st, t))
    && (forall t, u {:trigger Distinguishable(st, t, u)} :: t in st.timers && u in st.timers ==> Distinguishable(st, t, u))
    && (forall t {:trigger ReadyOk(st, t)} :: t in st.ready ==> ReadyOk(st, t))
    && NoDuplicates(st.ready)
  }

  predicate NoDuplicates(q: seq<Node>) {
    forall i, j :: 0 <= i < j < |q| ==> q[i] != q[j]
  }

  // q without the (only) occurrence of t.
  function Without(q: seq<Node>, t: Node): (r: seq<Node>)
    ensures |r| <= |q|
  {
    if q == [] then [] else if q[0] == t then q[1..] else [q[0]] + Without(q[1..], t)
  }

  // 64-bit addition, clamped to the largest value when it wraps.
  function Clamp(now: nat, timeout: nat): nat {
    var sum := (now + timeout) % (MAX64 + 1);
    if sum < timeout then MAX64 else sum
  }

  // The wait of uv__next_timeout for a timer due in so many milliseconds: not negative, and an int.
  function Wait(due: int): (w: nat)
    ensures w <= INT_MAX
  {
    if due < 0 then 0 else if due > INT_MAX then INT_MAX else due
  }

  lemma ClampSaturates(now: nat, timeout: nat)
    requires now <= MAX64 && timeout <= MAX64
    ensures Clamp(now, timeout) == if now + timeout <= MAX64 then now + timeout else MAX64
  {
  }

  function DoStop(st: State, t: Node): (r: State)
    requires t in st.timers
    ensures r.timers.Keys == st.timers.Keys
  {
    st.(timers := st.timers[t := st.timers[t].(active := false)], ready := Without(st.ready, t))
  }

  // Callers see UV_EINVAL exactly when Refused holds.
  predicate Refused(st: State, op: Op) {
    match op
    case Start(t, hasCallback, _, _) => t in st.timers && (st.timers[t].closing || !hasCallback)
    case Again(t) => t in st.timers && !st.timers[t].hasCallback
    case _ => false
  }

  function DoStart(st: State, t: Node, hasCallback: bool, timeout: nat, repeat: nat): (r: State)
    requires t in st.timers
    ensures r.timers.Keys == st.timers.Keys
  {
    if st.timers[t].closing || !hasCallback then st
    else
      var s := DoStop(st, t);
      s.(timers := s.timers[t := Timer(Clamp(st.now, timeout), st.counter, repeat, true, true, false)], counter := st.counter + 1)
  }

  // Stopping first leaves no trace in the record that starting writes.
  lemma StartOverwrites(st: State, t: Node, timeout: nat, repeat: nat)
    requires t in st.timers && !st.timers[t].closing
    ensures DoStart(st, t, true, timeout, repeat) == State(st.now, st.counter + 1,
      st.timers[t := Timer(Clamp(st.now, timeout), st.counter, repeat, true, true, false)], Without(st.ready, t))
  {
  }

  function DoAgain(st: State, t: Node): (r: State)
    requires t in st.timers
    ensures r.timers.Keys == st.timers.Keys
  {
    if !st.timers[t].hasCallback || st.timers[t].repeat == 0 then st
    else DoStart(DoStop(st, t), t, true, st.timers[t].repeat, st.timers[t].repeat)
  }

  function Apply(st: State, op: Op): (r: State)
    requires Legal(st, op)
    ensures st.timers.Keys <= r.timers.Keys
  {
    match op
    case Start(t, hasCallback, timeout, repeat) => DoStart(st, t, hasCallback, timeout, repeat)
    case Stop(t) => DoStop(st, t)
    case Again(t) => DoAgain(st, t)
    case SetRepeat(t, repeat) => st.(timers := st.timers[t := st.timers[t].(repeat := repeat)])
    case Close(t) => DoStop(st.(timers := st.timers[t := st.timers[t].(closing := true)]), t)
    case UpdateTime(now) => st.(now := now)
    case Init(t, startId) => st.(timers := st.timers[t := Timer(0, startId, 0, false, false, false)])
  }

  function ApplyAll(st: State, ops: seq<Op>): (r: State)
    requires AllLegal(st, ops)
    ensures st.timers.Keys <= r.timers.Keys
    decreases |ops|
  {
    if ops == [] then st else ApplyAll(Apply(st, ops[0]), ops[1..])
  }

  // ---------------------------------------------------------------------------------------
  // What stays true
  // ---------------------------------------------------------------------------------------

  lemma WithoutKeepsOthers(q: seq<Node>, t: Node)
    requires NoDuplicates(q)
    ensures var r := Without(q, t);
      && NoDuplicates(r) && t !in r
      && (forall u :: u in r ==> u in q)
      && (forall u :: u in q && u != t ==> u in r)
  {
    if q != [] && q[0] != t {
      WithoutKeepsOthers(q[1..], t);
      assert q[0] !in q[1..];
      assert Without(q, t)[1..] == Without(q[1..], t);
    }
  }

  lemma WithoutAscending(q: seq<Node>, t: Node, m: map<Node, Timer>)
    requires NoDuplicates(q) && Ascending(q, m)
    ensures Ascending(Without(q, t), m)
  {
    if q != [] && q[0] != t {
      WithoutKeepsOthers(q[1..], t);
      WithoutAscending(q[1..], t, m);
      assert Without(q, t)[1..] == Without(q[1..], t);
    }
  }

  // A step that touches only t keeps the state well formed.
  lemma OneTimerChanged(st: State, s: State, t: Node)
    requires WellFormed(st) && t in st.timers && s.timers.Keys == st.timers.Keys
    requires forall u :: u in st.timers && u != t ==> s.timers[u] == st.timers[u]
    requires st.counter <= s.counter && s.now <= MAX64 && TimerOk(s, t)
    requires s.timers[t].active ==>
      s.timers[t].startId == st.counter || (st.timers[t].active && s.timers[t].startId == st.timers[t].startId)
    requires forall u :: u in s.ready ==> u in st.ready && (u == t ==> ReadyOk(s, t))
    requires NoDuplicates(s.ready)
    ensures WellFormed(s)
  {
    forall u | u in s.timers ensures TimerOk(s, u) {
      assert TimerOk(st, u);
    }
    forall u, v | u in s.timers && v in s.timers ensures Distinguishable(s, u, v) {
      assert Distinguishable(st, u, v) && TimerOk(st, u) && TimerOk(st, v);
    }
    forall u | u in s.ready ensures ReadyOk(s, u) {
      assert ReadyOk(st, u);
    }
  }

  lemma DoStopWellFormed(st: State, t: Node)
    requires WellFormed(st) && t in st.timers
    ensures WellFormed(DoStop(st, t))
    ensures forall u :: u in st.ready && u != t ==> u in DoStop(st, t).ready
    ensures forall u :: u in DoStop(st, t).ready ==> u in st.ready && u != t
  {
    WithoutKeepsOthers(st.ready, t);
    assert TimerOk(st, t);
    OneTimerChanged(st, DoStop(st, t), t);
  }

  lemma DoStartWellFormed(st: State, t: Node, hasCallback: bool, timeout: nat, repeat: nat)
    requires WellFormed(st) && t in st.timers && timeout <= MAX64 && repeat <= MAX64
    ensures WellFormed(DoStart(st, t, hasCallback, timeout, repeat))
  {
    WithoutKeepsOthers(st.ready, t);
    ClampSaturates(st.now, timeout);
    if !st.timers[t].closing && hasCallback {
      OneTimerChanged(st, DoStart(st, t, hasCallback, timeout, repeat), t);
    }
  }

  lemma DoAgainWellFormed(st: State, t: Node)
    requires WellFormed(st) && t in st.timers
    ensures WellFormed(DoAgain(st, t))
  {
    assert TimerOk(st, t);
    DoStopWellFormed(st, t);
    DoStartWellFormed(DoStop(st, t), t, true, st.timers[t].repeat, st.timers[t].repeat);
  }

  lemma CloseWellFormed(st: State, t: Node)
    requires WellFormed(st) && t in st.timers
    ensures WellFormed(Apply(st, Close(t)))
  {
    assert TimerOk(st, t);
    WithoutKeepsOthers(st.ready, t);
    OneTimerChanged(st, Apply(st, Close(t)), t);
  }

  lemma SetRepeatWellFormed(st: State, t: Node, repeat: nat)
    requires WellFormed(st) && t in st.timers && repeat <= MAX64
    ensures WellFormed(Apply(st, SetRepeat(t, repeat)))
  {
    assert TimerOk(st, t);
    assert t in st.ready ==> ReadyOk(st, t);
    OneTimerChanged(st, Apply(st, SetRepeat(t, repeat)), t);
  }

  lemma UpdateTimeWellFormed(st: State, now: nat)
    requires WellFormed(st) && now <= MAX64
    ensures WellFormed(st.(now := now))
  {
    var s := st.(now := now);
    forall u | u in s.timers ensures TimerOk(s, u) {
      assert TimerOk(st, u);
    }
    forall u, v | u in s.timers && v in s.timers ensures Distinguishable(s, u, v) {
      assert Distinguishable(st, u, v);
    }
    forall u | u in s.ready ensures ReadyOk(s, u) {
      assert ReadyOk(st, u);
    }
  }

  lemma ApplyWellFormed(st: State, op: Op)
    requires WellFormed(st) && Legal(st, op)
    ensures WellFormed(Apply(st, op))
  {
    match op
    case Start(t, hasCallback, timeout, repeat) => DoStartWellFormed(st, t, hasCallback, timeout, repeat);
    case Stop(t) => DoStopWellFormed(st, t);
    case Again(t) => DoAgainWellFormed(st, t);
    case SetRepeat(t, repeat) => SetRepeatWellFormed(st, t, repeat);
    case Close(t) => CloseWellFormed(st, t);
    case UpdateTime(now) => UpdateTimeWellFormed(st, now);
    case Init(t, startId) => InitWellFormed(st, t, Timer(0, startId, 0, false, false, false));
  }

  lemma InitWellFormed(st: State, t: Node, r: Timer)
    requires WellFormed(st) && t !in st.timers && !r.active && r.repeat <= MAX64 && r.timeout <= MAX64
    ensures WellFormed(st.(timers := st.timers[t := r]))
  {
    var s := st.(timers := st.timers[t := r]);
    forall u | u in s.timers ensures TimerOk(s, u) {
      assert u != t ==> TimerOk(st, u);
    }
    forall u, v | u in s.timers && v in s.timers ensures Distinguishable(s, u, v) {
      assert u != t && v != t ==> Distinguishable(st, u, v);
    }
    forall u | u in s.ready ensures ReadyOk(s, u) {
      assert ReadyOk(st, u);
    }
  }

  // Nothing a callback does adds to the ready queue or reorders it.
  lemma ApplyShrinks(st: State, op: Op)
    requires WellFormed(st) && Legal(st, op)
    ensures var r := Apply(st, op).ready;
      && |r| <= |st.ready|
      && (forall t :: t in r ==> t in st.ready)
      && (forall m: map<Node, Timer> :: Ascending(st.ready, m) ==> Ascending(r, m))
  {
    var r := Apply(st, op).ready;
    if r != st.ready {
      var t := op.t;
      DoStopWellFormed(st, t);
      WithoutAbsent(Without(st.ready, t), t);
      assert r == Without(st.ready, t);
      forall m: map<Node, Timer> | Ascending(st.ready, m) ensures Ascending(r, m) {
        WithoutAscending(st.ready, t, m);
      }
    }
  }

  // A timer waiting in the ready queue loses its place exactly when it is stopped, closed,
  // started again or re-armed.
  predicate Displaces(st: State, op: Op, t: Node) {
    match op
    case Start(u, hasCallback, _, _) => u == t && hasCallback
    case Stop(u) => u == t
    case Again(u) => u == t && u in st.timers && st.timers[u].repeat != 0
    case Close(u) => u == t
    case _ => false
  }

  lemma ApplyReady(st: State, op: Op, t: Node)
    requires WellFormed(st) && Legal(st, op)
    ensures t in Apply(st, op).ready <==> t in st.ready && !Displaces(st, op, t)
  {
    assert t in st.ready ==> ReadyOk(st, t);
    match op
    case Start(u, hasCallback, timeout, repeat) => DoStopWellFormed(st, u);
    case Stop(u) => DoStopWellFormed(st, u);
    case Again(u) =>
      DoStopWellFormed(st, u);
      DoStopWellFormed(DoStop(st, u), u);
    case SetRepeat(u, repeat) =>
    case Close(u) => DoStopWellFormed(st, u);
    case UpdateTime(now) =>
    case Init(u, startId) =>
  }

  // ---------------------------------------------------------------------------------------
  // One pass of uv__run_timers
  // ---------------------------------------------------------------------------------------

  predicate Due(st: State, t: Node) {
    t in st.timers && st.timers[t].active && st.timers[t].timeout <= st.now
  }

  // q is in strictly ascending order of the keys the timers have in m.
  predicate Ascending(q: seq<Node>, m: map<Node, Timer>) {
    q == [] ||
    (q[0] in m && (forall u :: u in q[1..] ==> u in m && Less(KeyOf(m[q[0]]), KeyOf(m[u]))) && Ascending(q[1..], m))
  }

  // The first loop: s holds exactly the due timers, stopped, in the order of timer_less_than.
  predicate Collected(st: State, s: State) {
    && s.now == st.now && s.counter == st.counter && s.timers.Keys == st.timers.Keys
    && (forall t :: t in s.ready ==> Due(st, t))
    && (forall t :: t in st.timers && Due(st, t) ==> t in s.ready)
    && Ascending(s.ready, st.timers)
    && (forall t :: t in st.timers ==>
          s.timers[t] == if Due(st, t) then st.timers[t].(active := false) else st.timers[t])
  }

  // What the pass does with the head of the ready queue before it calls the callback.
  function TakeHead(st: State): (r: State)
    requires WellFormed(st) && st.ready != []
    ensures r.timers.Keys == st.timers.Keys
  {
    assert ReadyOk(st, st.ready[0]);
    DoAgain(st.(ready := st.ready[1..]), st.ready[0])
  }

  lemma TakeHeadReady(st: State)
    requires WellFormed(st) && st.ready != []
    ensures WellFormed(TakeHead(st)) && TakeHead(st).ready == st.ready[1..]
  {
    var t, s := st.ready[0], st.(ready := st.ready[1..]);
    assert t !in s.ready && ReadyOk(st, t) && TimerOk(st, t);
    OneTimerChanged(st, s, t);
    DoAgainWellFormed(s, t);
    WithoutAbsent(s.ready, t);
  }

  lemma WithoutAbsent(q: seq<Node>, t: Node)
    requires t !in q
    ensures Without(q, t) == q
  {
  }

  lemma {:induction false} ApplyAllWellFormed(st: State, ops: seq<Op>)
    requires WellFormed(st) && AllLegal(st, ops)
    ensures WellFormed(ApplyAll(st, ops)) && |ApplyAll(st, ops).ready| <= |st.ready|
    ensures forall t :: t in ApplyAll(st, ops).ready ==> t in st.ready
    ensures forall m: map<Node, Timer> :: Ascending(st.ready, m) ==> Ascending(ApplyAll(st, ops).ready, m)
    decreases |ops|
  {
    if ops != [] {
      ApplyWellFormed(st, ops[0]);
      ApplyShrinks(st, ops[0]);
      ApplyAllWellFormed(Apply(st, ops[0]), ops[1..]);
    }
  }

  // What the callbacks of a pass do is legal when they do it; behaviour(n) is the n-th of them.
  ghost predicate Lawful(st: State, behaviour: nat -> seq<Op>, n: nat)
    requires WellFormed(st)
    decreases |st.ready|
  {
    st.ready != [] ==>
      (TakeHeadReady(st);
       AllLegal(TakeHead(st), behaviour(n)) && Lawful(Turn(st, behaviour(n)), behaviour, n + 1))
  }

  // One turn of the second loop: the head leaves the queue, is re-armed if it repeats, and
  // its callback runs.
  function Turn(st: State, ops: seq<Op>): (r: State)
    requires WellFormed(st) && st.ready != [] && AllLegal(TakeHead(st), ops)
    ensures WellFormed(r) && |r.ready| < |st.ready| && st.timers.Keys <= r.timers.Keys
  {
    TakeHeadReady(st);
    ApplyAllWellFormed(TakeHead(st), ops);
    ApplyAll(TakeHead(st), ops)
  }

  // The second loop: the final state and the timers fired, in order.  behaviour(n) is what
  // the n-th callback of the pass does; it may be anything.
  ghost function Fire(st: State, behaviour: nat -> seq<Op>, n: nat): (r: (State, seq<Node>))
    requires WellFormed(st)
    requires Lawful(st, behaviour, n)
    ensures st.timers.Keys <= r.0.timers.Keys && WellFormed(r.0) && r.0.ready == []
    decreases |st.ready|
  {
    if st.ready == [] then (st, [])
    else
      var r := Fire(Turn(st, behaviour(n)), behaviour, n + 1);
      (r.0, [st.ready[0]] + r.1)
  }

  // The timers in fired have had their turns and the pass goes on from st.
  ghost predicate FiredSoFar(all: (State, seq<Node>), fired: seq<Node>, st: State, behaviour: nat -> seq<Op>, n: nat)
    requires WellFormed(st) && Lawful(st, behaviour, n)
  {
    var r := Fire(st, behaviour, n);
    all == (r.0, fired + r.1)
  }

  lemma FireBegins(st: State, behaviour: nat -> seq<Op>, n: nat)
    requires WellFormed(st) && Lawful(st, behaviour, n)
    ensures FiredSoFar(Fire(st, behaviour, n), [], st, behaviour, n)
  {
    var r := Fire(st, behaviour, n);
    assert [] + r.1 == r.1;
  }

  lemma FireTurn(all: (State, seq<Node>), fired: seq<Node>, st: State, behaviour: nat -> seq<Op>, n: nat)
    requires WellFormed(st) && st.ready != [] && Lawful(st, behaviour, n)
    requires FiredSoFar(all, fired, st, behaviour, n)
    ensures FiredSoFar(all, fired + [st.ready[0]], Turn(st, behaviour(n)), behaviour, n + 1)
  {
    var r := Fire(Turn(st, behaviour(n)), behaviour, n + 1);
    assert fired + ([st.ready[0]] + r.1) == fired + [st.ready[0]] + r.1;
  }

  lemma FireEnds(all: (State, seq<Node>), fired: seq<Node>, st: State, behaviour: nat -> seq<Op>, n: nat)
    requires WellFormed(st) && st.ready == [] && Lawful(st, behaviour, n)
    requires FiredSoFar(all, fired, st, behaviour, n)
    ensures all == (st, fired)
  {
    assert fired + [] == fired;
  }

  // One of the operations displaces t.
  predicate DisplacedBy(st: State, ops: seq<Op>, t: Node)
    requires AllLegal(st, ops)
    decreases |ops|
  {
    ops != [] &&
    (Displaces(st, ops[0], t) || DisplacedBy(Apply(st, ops[0]), ops[1..], t))
  }

  // A callback that runs before the turn of t displaces it.
  ghost predicate DisplacedEarlier(st: State, behaviour: nat -> seq<Op>, n: nat, t: Node)
    requires WellFormed(st)
    requires Lawful(st, behaviour, n)
    decreases |st.ready|
  {
    if st.ready == [] || st.ready[0] == t then false
    else
      DisplacedBy(TakeHead(st), behaviour(n), t) || DisplacedEarlier(Turn(st, behaviour(n)), behaviour, n + 1, t)
  }

  lemma {:induction false} ApplyAllReady(st: State, ops: seq<Op>, t: Node)
    requires WellFormed(st) && AllLegal(st, ops)
    ensures t in ApplyAll(st, ops).ready <==> t in st.ready && !DisplacedBy(st, ops, t)
    decreases |ops|
  {
    if ops != [] {
      ApplyWellFormed(st, ops[0]);
      ApplyReady(st, ops[0], t);
      ApplyAllReady(Apply(st, ops[0]), ops[1..], t);
      if t !in st.ready {
        StaysOut(Apply(st, ops[0]), ops[1..], t);
      }
    }
  }

  lemma StaysOut(st: State, ops: seq<Op>, t: Node)
    requires WellFormed(st) && AllLegal(st, ops) && t !in st.ready
    ensures t !in ApplyAll(st, ops).ready
  {
    ApplyAllWellFormed(st, ops);
  }

  lemma TurnAscending(st: State, ops: seq<Op>, m: map<Node, Timer>)
    requires WellFormed(st) && st.ready != [] && AllLegal(TakeHead(st), ops) && Ascending(st.ready, m)
    ensures Ascending(Turn(st, ops).ready, m)
    ensures forall t :: t in Turn(st, ops).ready ==> t in st.ready[1..]
  {
    TakeHeadReady(st);
    ApplyAllWellFormed(TakeHead(st), ops);
  }

  // The timers fired are among those that were ready, in the same order.
  lemma {:induction false} FireAscending(st: State, behaviour: nat -> seq<Op>, n: nat, m: map<Node, Timer>)
    requires WellFormed(st) && Ascending(st.ready, m)
    requires Lawful(st, behaviour, n)
    ensures Ascending(Fire(st, behaviour, n).1, m)
    ensures forall t :: t in Fire(st, behaviour, n).1 ==> t in st.ready
    decreases |st.ready|
  {
    if st.ready != [] {
      var s := Turn(st, behaviour(n));
      TurnAscending(st, behaviour(n), m);
      FireAscending(s, behaviour, n + 1, m);
      assert Fire(st, behaviour, n).1[1..] == Fire(s, behaviour, n + 1).1;
    }
  }

  // A ready timer is fired unless an earlier callback displaces it.
  lemma {:induction false} FireComplete(st: State, behaviour: nat -> seq<Op>, n: nat, t: Node)
    requires WellFormed(st) && t in st.ready
    requires Lawful(st, behaviour, n)
    ensures t in Fire(st, behaviour, n).1 <==> !DisplacedEarlier(st, behaviour, n, t)
    decreases |st.ready|
  {
    if st.ready[0] != t {
      TurnReady(st, behaviour(n), t);
      var s := Turn(st, behaviour(n));
      if t in s.ready {
        FireComplete(s, behaviour, n + 1, t);
      } else {
        FireOnlyReady(s, behaviour, n + 1, t);
      }
    }
  }

  lemma TurnReady(st: State, ops: seq<Op>, t: Node)
    requires WellFormed(st) && st.ready != [] && AllLegal(TakeHead(st), ops) && t != st.ready[0]
    ensures t in Turn(st, ops).ready <==> t in st.ready && !DisplacedBy(TakeHead(st), ops, t)
  {
    TakeHeadReady(st);
    ApplyAllReady(TakeHead(st), ops, t);
  }

  lemma {:induction false} FireOnlyReady(st: State, behaviour: nat -> seq<Op>, n: nat, t: Node)
    requires WellFormed(st) && t !in st.ready
    requires Lawful(st, behaviour, n)
    ensures t !in Fire(st, behaviour, n).1
    decreases |st.ready|
  {
    if st.ready != [] {
      TurnReady(st, behaviour(n), t);
      FireOnlyReady(Turn(st, behaviour(n)), behaviour, n + 1, t);
    }
  }

  lemma {:induction false} AscendingPairs(q: seq<Node>, m: map<Node, Timer>, i: nat, j: nat)
    requires Ascending(q, m) && i < j < |q|
    ensures q[i] in m && q[j] in m && Less(KeyOf(m[q[i]]), KeyOf(m[q[j]])) && q[i] != q[j]
  {
    if i > 0 {
      AscendingPairs(q[1..], m, i - 1, j - 1);
    } else {
      assert q[j] in q[1..];
    }
  }

  // The state of the first loop after some timers have been moved.
  predicate Collecting(st: State, s: State) {
    && s.now == st.now && s.counter == st.counter && s.timers.Keys == st.timers.Keys
    && (forall t :: t in s.ready ==> Due(st, t))
    && Ascending(s.ready, st.timers)
    && (forall t :: t in st.timers ==>
          s.timers[t] == if t in s.ready then st.timers[t].(active := false) else st.timers[t])
    && (forall t, u :: t in s.ready && u in s.timers && s.timers[u].active ==>
          t in st.timers && Less(KeyOf(st.timers[t]), KeyOf(s.timers[u])))
  }

  function Collect(s: State, t: Node): State
    requires t in s.timers
  {
    var r := DoStop(s, t);
    r.(ready := r.ready + [t])
  }

  lemma {:induction false} AscendingAppend(q: seq<Node>, m: map<Node, Timer>, t: Node)
    requires Ascending(q, m) && t in m && forall u :: u in q ==> u in m && Less(KeyOf(m[u]), KeyOf(m[t]))
    ensures Ascending(q + [t], m)
  {
    if q != [] {
      AscendingAppend(q[1..], m, t);
      assert (q + [t])[1..] == q[1..] + [t];
    }
  }

  lemma CollectStep(st: State, s: State, t: Node)
    requires WellFormed(st) && Collecting(st, s)
    requires t in s.timers && s.timers[t].active && s.timers[t].timeout <= s.now
    requires forall u :: u in s.timers && s.timers[u].active ==> !Less(KeyOf(s.timers[u]), KeyOf(s.timers[t]))
    ensures Collecting(st, Collect(s, t))
  {
    WithoutAbsent(s.ready, t);
    AscendingAppend(s.ready, st.timers, t);
    forall u | u in st.timers && s.timers[u].active && u != t
      ensures Less(KeyOf(s.timers[t]), KeyOf(s.timers[u]))
    {
      assert Distinguishable(st, t, u);
    }
  }

  lemma CollectEnd(st: State, s: State)
    requires Collecting(st, s)
    requires forall u :: u in s.timers && s.timers[u].active ==> s.timers[u].timeout > s.now
    ensures Collected(st, s)
  {
  }

  lemma CollectedWellFormed(st: State, s: State)
    requires WellFormed(st) && st.ready == [] && Collected(st, s)
    ensures WellFormed(s)
  {
    forall i, j | 0 <= i < j < |s.ready| ensures s.ready[i] != s.ready[j] {
      AscendingPairs(s.ready, st.timers, i, j);
    }
    forall u | u in s.timers ensures TimerOk(s, u) {
      assert TimerOk(st, u);
    }
    forall u, v | u in s.timers && v in s.timers ensures Distinguishable(s, u, v) {
      assert Distinguishable(st, u, v);
    }
    forall u | u in s.ready ensures ReadyOk(s, u) {
      assert TimerOk(st, u);
    }
  }

  ghost predicate IsLeast(t: Node, active: set<Node>, m: map<Node, Timer>)
    requires active <= m.Keys
  {
    t in active && forall u :: u in active ==> !Less(KeyOf(m[u]), KeyOf(m[t]))
  }

  lemma {:induction false} LeastExists(active: set<Node>, m: map<Node, Timer>)
    requires active != {} && active <= m.Keys
    ensures exists t :: t in active && IsLeast(t, active, m)
    decreases |active|
  {
    var t :| t in active;
    var rest := active - {t};
    if rest == {} {
      assert active == {t} && IsLeast(t, active, m);
    } else {
      LeastExists(rest, m);
      var u :| u in rest && IsLeast(u, rest, m);
      assert IsLeast(if Less(KeyOf(m[u]), KeyOf(m[t])) then u else t, active, m);
    }
  }

  // What heap_min answers: an active timer than which none is less.
  ghost function Least(active: set<Node>, m: map<Node, Timer>): (t: Node)
    requires active != {} && active <= m.Keys
    ensures IsLeast(t, active, m)
  {
    LeastExists(active, m);
    var t :| t in active && IsLeast(t, active, m);
    t
  }

  ghost function ActiveIn(s: State): (a: set<Node>)
    ensures a <= s.timers.Keys
  {
    set t | t in s.timers && s.timers[t].active
  }

  ghost function CollectFrom(st: State, s: State): (r: State)
    requires WellFormed(st) && Collecting(st, s)
    ensures Collected(st, r)
    decreases |ActiveIn(s)|
  {
    if NoneDue(s) then
      CollectDone(st, s);
      s
    else
      CollectMore(st, s);
      CollectFrom(st, Collect(s, Least(ActiveIn(s), s.timers)))
  }

  // Where the first loop ends.
  ghost predicate NoneDue(s: State) {
    ActiveIn(s) != {} ==> s.timers[Least(ActiveIn(s), s.timers)].timeout > s.now
  }

  lemma CollectDone(st: State, s: State)
    requires Collecting(st, s) && NoneDue(s)
    ensures Collected(st, s)
  {
    forall u | u in s.timers && s.timers[u].active ensures s.timers[u].timeout > s.now {
      assert u in ActiveIn(s);
    }
    CollectEnd(st, s);
  }

  lemma CollectMore(st: State, s: State)
    requires WellFormed(st) && Collecting(st, s) && !NoneDue(s)
    ensures var t := Least(ActiveIn(s), s.timers);
      && t in s.timers && Collecting(st, Collect(s, t)) && |ActiveIn(Collect(s, t))| < |ActiveIn(s)|
  {
    var t := Least(ActiveIn(s), s.timers);
    forall u | u in s.timers && s.timers[u].active ensures !Less(KeyOf(s.timers[u]), KeyOf(s.timers[t])) {
      assert u in ActiveIn(s);
    }
    CollectStep(st, s, t);
    assert ActiveIn(Collect(s, t)) == ActiveIn(s) - {t};
  }

  // The state between the two loops of a pass.
  ghost function AfterCollecting(st: State): (s: State)
    requires WellFormed(st) && st.ready == []
    ensures Collected(st, s) && WellFormed(s)
  {
    var s := CollectFrom(st, st);
    CollectedWellFormed(st, s);
    s
  }

  // There is only one way to collect: the queue is determined by the due timers.
  lemma CollectedOnce(st: State, s: State, s': State)
    requires Collected(st, s) && Collected(st, s')
    ensures s == s'
  {
    AscendingOnce(s.ready, s'.ready, st.timers);
    assert s.timers == s'.timers;
  }

  lemma {:induction false} AscendingOnce(q: seq<Node>, r: seq<Node>, m: map<Node, Timer>)
    requires Ascending(q, m) && Ascending(r, m)
    requires forall t :: t in q ==> t in r
    requires forall t :: t in r ==> t in q
    ensures q == r
  {
    assert r != [] ==> r[0] in q;
    if q != [] {
      assert q[0] in r && r[0] in q;
      assert q[0] == r[0];
      assert q[0] !in q[1..] && r[0] !in r[1..];
      forall t | t in q[1..] ensures t in r[1..] {
        assert t in r && r == [r[0]] + r[1..];
      }
      forall t | t in r[1..] ensures t in q[1..] {
        assert t in q && q == [q[0]] + q[1..];
      }
      AscendingOnce(q[1..], r[1..], m);
    }
  }

  // The promise of uv__run_timers, whatever the callbacks do: every timer fires at most once,
  // only timers due at the start fire, in the order of (timeout, start id), and a due timer is
  // left out only if an earlier callback stopped, closed, restarted or re-armed it.
  lemma RunTimersPass(st: State, s: State, behaviour: nat -> seq<Op>)
    requires WellFormed(st) && st.ready == [] && Collected(st, s) && WellFormed(s)
    requires Lawful(s, behaviour, 0)
    ensures var (r, log) := Fire(s, behaviour, 0);
      && WellFormed(r) && r.ready == []
      && NoDuplicates(log)
      && (forall t :: t in log ==> Due(st, t))
      && (forall i, j :: 0 <= i < j < |log| ==>
            log[i] in st.timers && log[j] in st.timers && Less(KeyOf(st.timers[log[i]]), KeyOf(st.timers[log[j]])))
      && (forall t :: t in st.timers && Due(st, t) ==> (t in log <==> !DisplacedEarlier(s, behaviour, 0, t)))
  {
    var log := Fire(s, behaviour, 0).1;
    FireAscending(s, behaviour, 0, st.timers);
    forall i, j | 0 <= i < j < |log| ensures log[i] != log[j] && log[i] in st.timers && log[j] in st.timers && Less(KeyOf(st.timers[log[i]]), KeyOf(st.timers[log[j]])) {
      AscendingPairs(log, st.timers, i, j);
    }
    forall t | t in st.timers && Due(st, t) ensures t in log <==> !DisplacedEarlier(s, behaviour, 0, t) {
      FireComplete(s, behaviour, 0, t);
    }
  }

  // A repeating timer is armed again before its callback runs, at the current time plus its
  // repeat value, behind every timer started before it with the same due time.
  lemma RepeatRearmed(st: State)
    requires WellFormed(st) && st.ready != []
    ensures var t, s := st.ready[0], TakeHead(st);
      && t in st.timers
      && (st.timers[t].repeat == 0 ==> !s.timers[t].active && s.counter == st.counter)
      && (st.timers[t].repeat != 0 ==>
            && s.timers[t].active && s.timers[t].timeout == Clamp(st.now, st.timers[t].repeat)
            && forall u :: u in st.timers && u != t && s.timers[u].active ==> s.timers[u].startId < s.timers[t].startId)
  {
    var t, s := st.ready[0], TakeHead(st);
    assert ReadyOk(st, t);
    forall u | u in st.timers && u != t && s.timers[u].active ensures s.timers[u].startId < st.counter {
      assert TimerOk(st, u);
    }
  }
}
