// The global thread pool of src/threadpool.c as a state machine.  Every section that holds a
// mutex is one step; a worker waiting on the condition is asleep until it is signalled or
// wakes spuriously.  Any number of workers and any number of loops take part.
module PoolSpec {

  // A request: submitted once, on behalf of one loop.
  datatype Job = Job(id: nat, loop: nat)

  // What is linked in the main queue.
  datatype Item = Work(job: Job) | Marker | ExitMessage

  // Where a worker is outside the mutex.
  datatype Phase =
    | Starting
    | Asleep
    | Woken
    | Running(job: Job, slow: bool)
    | Finished(slow: bool)
    | Exited

  // The work pointer of a request: not run yet, cleared after running, or uv__cancelled.
  datatype WorkPtr = Pending | Ran | Cancelled

  // Where a request is.  A loop thread that cancels holds the request between two sections.
  datatype Place = Nowhere | InPool | InSlow | AtWorker(i: nat) | AtCanceller | InLoop | InBatch | Delivered

  datatype Loop = Loop(queue: seq<Job>, batch: seq<Job>, cancelling: set<Job>, notified: bool, called: bool)

  datatype State = State(
    wq: seq<Item>,
    slow: seq<Job>,
    idle: int,
    slowRunning: int,
    workers: seq<Phase>,
    loops: map<nat, Loop>,
    work: map<Job, WorkPtr>,
    place: map<Job, Place>,
    executed: set<Job>,
    cancelled: set<Job>,
    done: seq<Job>)

  function Threshold(st: State): nat {
    (|st.workers| + 1) / 2
  }

  predicate MustWait(wq: seq<Item>, running: int, threshold: nat) {
    wq == [] || (wq == [Marker] && running >= threshold)
  }

  predicate NoDuplicates<T(==)>(s: seq<T>) {
    forall i, j :: 0 <= i < j < |s| ==> s[i] != s[j]
  }

  // ---------------------------------------------------------------------------------------
  // The section of a worker between taking and releasing the mutex
  // ---------------------------------------------------------------------------------------

  datatype Outcome =
    | Sleep(wq: seq<Item>)
    | Quit(wq: seq<Item>)
    | Take(wq: seq<Item>, slow: seq<Job>, job: Job, isSlow: bool)

  function Section(wq: seq<Item>, slow: seq<Job>, running: int, threshold: nat): Outcome
    decreases |wq|, if wq != [] && wq[0] == Marker then 1 else 0
  {
    if MustWait(wq, running, threshold) then Sleep(wq)
    else if wq[0] == ExitMessage then Quit(wq)
    else if wq[0] != Marker then Take(wq[1..], slow, wq[0].job, false)
    else if running >= threshold then
      // The marker is linked at most once, so there is another item to go on with.
      if Marker in wq[1..] then Sleep(wq) else Section(wq[1..] + [Marker], slow, running, threshold)
    else if slow == [] then Section(wq[1..], slow, running, threshold)
    else Take(wq[1..] + (if slow[1..] != [] then [Marker] else []), slow[1..], slow[0], true)
  }

  // uv_cond_signal: one sleeping worker wakes, if there is one; pick says which.
  function Signal(ws: seq<Phase>, pick: nat): (r: seq<Phase>)
    ensures |r| == |ws|
  {
    if pick < |ws| && ws[pick] == Asleep then ws[pick := Woken] else SignalFirst(ws)
  }

  function SignalFirst(ws: seq<Phase>): (r: seq<Phase>)
    ensures |r| == |ws|
  {
    if ws == [] then [] else if ws[0] == Asleep then [Woken] + ws[1..] else [ws[0]] + SignalFirst(ws[1..])
  }

  function SignalIfIdle(idle: int, ws: seq<Phase>, pick: nat): (r: seq<Phase>)
    ensures |r| == |ws|
  {
    if idle > 0 then Signal(ws, pick) else ws
  }

  // ---------------------------------------------------------------------------------------
  // The steps
  // ---------------------------------------------------------------------------------------

  datatype Step =
    | Submit(job: Job, isSlow: bool, pick: nat)      // uv__work_submit
    | Enter(i: nat, pick: nat)                       // a worker takes the mutex
    | Spurious(i: nat)                               // a wait returns without a signal
    | Finish(i: nat)                                 // the work callback returned
    | CancelBegin(job: Job)                          // uv__work_cancel, first half
    | CancelEnd(job: Job)                            // uv__work_cancel, second half
    | CallDone(l: nat)                               // the loop dispatches wq_async
    | DoneBegin(l: nat)                              // uv__work_done takes the queue
    | DoneNext(l: nat)                               // uv__work_done delivers one request
    | PostExit(pick: nat)                            // uv__threadpool_cleanup

  predicate Enabled(st: State, s: Step) {
    match s
    case Submit(job, _, _) => job !in st.place && job.loop in st.loops
    case Enter(i, _) => i < |st.workers| && (st.workers[i] == Starting || st.workers[i] == Woken || st.workers[i].Finished?)
    case Spurious(i) => i < |st.workers| && st.workers[i] == Asleep
    case Finish(i) => i < |st.workers| && st.workers[i].Running? && st.workers[i].job.loop in st.loops
    // A request is cancelled on its loop's thread and never after its delivery.
    case CancelBegin(job) => job in st.place && st.place[job] != Delivered && job in st.work &&
      job.loop in st.loops && st.loops[job.loop].cancelling == {}
    case CancelEnd(job) => job.loop in st.loops && st.loops[job.loop].cancelling == {job}
    case CallDone(l) => l in st.loops && st.loops[l].notified && !st.loops[l].called && st.loops[l].batch == [] && st.loops[l].cancelling == {}
    case DoneBegin(l) => l in st.loops && st.loops[l].called && st.loops[l].batch == []
    case DoneNext(l) => l in st.loops && st.loops[l].batch != [] && st.loops[l].cancelling == {}
    case PostExit(_) => ExitMessage !in st.wq
  }

  function Post(st: State, item: Item, pick: nat): State {
    st.(wq := st.wq + [item], workers := SignalIfIdle(st.idle, st.workers, pick))
  }

  function DoSubmit(st: State, job: Job, isSlow: bool, pick: nat): State {
    var s := st.(work := st.work[job := Pending], place := st.place[job := if isSlow then InSlow else InPool]);
    if !isSlow then Post(s, Work(job), pick)
    else
      var t := s.(slow := s.slow + [job]);
      if Marker in t.wq then t else Post(t, Marker, pick)
  }

  // The counters a worker adjusts as it takes the mutex.
  function Arrive(st: State, i: nat): State
    requires i < |st.workers|
  {
    match st.workers[i]
    case Woken => st.(idle := st.idle - 1)
    case Finished(slow) => if slow then st.(slowRunning := st.slowRunning - 1) else st
    case _ => st
  }

  // How worker i leaves the mutex.
  function Leave(s: State, i: nat, o: Outcome, pick: nat): State
    requires i < |s.workers|
  {
    match o
    case Sleep(wq) => s.(wq := wq, idle := s.idle + 1, workers := s.workers[i := Asleep])
    case Quit(wq) => s.(wq := wq, workers := Signal(s.workers[i := Exited], pick))
    case Take(wq, slow, job, isSlow) =>
      var ws := s.workers[i := Running(job, isSlow)];
      s.(wq := wq, slow := slow,
         slowRunning := if isSlow then s.slowRunning + 1 else s.slowRunning,
         workers := if isSlow && slow != [] then SignalIfIdle(s.idle, ws, pick) else ws,
         place := s.place[job := AtWorker(i)], executed := s.executed + {job})
  }

  function DoEnter(st: State, i: nat, pick: nat): State
    requires i < |st.workers|
  {
    var s := Arrive(st, i);
    Leave(s, i, Section(s.wq, s.slow, s.slowRunning, Threshold(s)), pick)
  }

  function Notify(st: State, job: Job): State
    requires job.loop in st.loops
  {
    var l := st.loops[job.loop];
    st.(loops := st.loops[job.loop := l.(queue := l.queue + [job], notified := true)], place := st.place[job := InLoop])
  }

  function DoFinish(st: State, i: nat): State
    requires Enabled(st, Finish(i))
  {
    var w := st.workers[i];
    Notify(st.(workers := st.workers[i := Finished(w.slow)], work := st.work[w.job := Ran]), w.job)
  }

  // The queue link of the request is in use.
  predicate Linked(st: State, job: Job) {
    Work(job) in st.wq || job in st.slow ||
    (job.loop in st.loops && (job in st.loops[job.loop].queue || job in st.loops[job.loop].batch))
  }

  // uv_cancel succeeds iff the request is linked in some queue and its work pointer is set.
  predicate Cancellable(st: State, job: Job)
    requires job in st.work
  {
    Linked(st, job) && st.work[job] != Ran
  }

  function Drop<T(==)>(s: seq<T>, x: T): seq<T> {
    if s == [] then [] else if s[0] == x then s[1..] else [s[0]] + Drop(s[1..], x)
  }

  function DoCancelBegin(st: State, job: Job): State
    requires Enabled(st, CancelBegin(job))
  {
    if !Cancellable(st, job) then st
    else
      var l := st.loops[job.loop];
      st.(wq := Drop(st.wq, Work(job)), slow := Drop(st.slow, job),
          loops := st.loops[job.loop := l.(queue := Drop(l.queue, job), batch := Drop(l.batch, job), cancelling := {job})],
          place := st.place[job := AtCanceller], cancelled := st.cancelled + {job})
  }

  function DoCancelEnd(st: State, job: Job): State
    requires Enabled(st, CancelEnd(job))
  {
    var s := Notify(st.(work := st.work[job := Cancelled]), job);
    s.(loops := s.loops[job.loop := s.loops[job.loop].(cancelling := {})])
  }

  function DoDoneBegin(st: State, l: nat): State
    requires Enabled(st, DoneBegin(l))
  {
    var q := st.loops[l].queue;
    st.(loops := st.loops[l := st.loops[l].(queue := [], batch := q, called := false)],
        place := map j | j in st.place :: if j in q then InBatch else st.place[j])
  }

  function DoDoneNext(st: State, l: nat): State
    requires Enabled(st, DoneNext(l))
  {
    var job := st.loops[l].batch[0];
    st.(loops := st.loops[l := st.loops[l].(batch := st.loops[l].batch[1..])],
        place := st.place[job := Delivered], done := st.done + [job])
  }

  function Next(st: State, s: Step): State
    requires Enabled(st, s)
  {
    match s
    case Submit(job, isSlow, pick) => DoSubmit(st, job, isSlow, pick)
    case Enter(i, pick) => DoEnter(st, i, pick)
    case Spurious(i) => st.(workers := st.workers[i := Woken])
    case Finish(i) => DoFinish(st, i)
    case CancelBegin(job) => DoCancelBegin(st, job)
    case CancelEnd(job) => DoCancelEnd(st, job)
    case CallDone(l) => st.(loops := st.loops[l := st.loops[l].(notified := false, called := true)])
    case DoneBegin(l) => DoDoneBegin(st, l)
    case DoneNext(l) => DoDoneNext(st, l)
    case PostExit(pick) => Post(st, ExitMessage, pick)
  }
}
