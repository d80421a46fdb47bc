// uv_async_send and the loop's side of it (src/unix/async.c), one atomic operation or one
// system call a step, for any number of handles and sending threads.
module Async {

  datatype Stage = Open | Closing | Closed

  // sets counts the exchanges that turned pending from 0 to 1, calls the callbacks.
  datatype Handle = Handle(pending: bool, busy: int, stage: Stage, sets: nat, calls: nat)

  // How far a thread has come in uv_async_send.
  datatype Sender =
    | Outside
    | SawClear(h: nat)    // the cheap read returned 0
    | Entered(h: nat)     // busy has been incremented
    | MustWrite(h: nat)   // the exchange returned 0
    | Leaving(h: nat)     // busy is about to be decremented

  // Where the loop thread is: outside uv__async_io, in its read loop, past it, or in its
  // pass over the handles, with those it has still to visit.
  datatype LoopPhase = Polling | Reading | Drained | Visiting(queue: seq<nat>)

  // The handle uv__async_spin waits for, if the loop thread is in it.
  datatype Spin = NotSpinning | SpinningOn(h: nat)

  // An eventfd returns its whole counter in one read of 8 bytes; a pipe holds single bytes.
  datatype Channel = EventFd | Pipe

  datatype State = State(
    channel: Channel,
    readable: nat,               // what the wakeup descriptor holds
    list: seq<nat>,              // loop->async_handles
    phase: LoopPhase,
    spin: Spin,
    handles: map<nat, Handle>,
    senders: seq<Sender>)

  const BUFFER: nat := 1024

  datatype Step =
    | Init(h: nat)
    | SendRead(t: nat, h: nat)
    | SendEnter(t: nat)
    | SendExchange(t: nat)
    | SendWrite(t: nat, full: bool)
    | SendLeave(t: nat)
    | LoopWake
    | LoopRead
    | LoopMove
    | LoopVisit
    | LoopReturn
    | SpinStore(h: nat)
    | SpinDone

  predicate Enabled(st: State, s: Step) {
    match s
    case Init(h) => h !in st.handles && st.spin == NotSpinning && (st.phase == Polling || st.phase.Visiting?)
    case SendRead(t, h) => t < |st.senders| && st.senders[t] == Outside && h in st.handles
    case SendEnter(t) => t < |st.senders| && st.senders[t].SawClear? && st.senders[t].h in st.handles
    case SendExchange(t) => t < |st.senders| && st.senders[t].Entered? && st.senders[t].h in st.handles
    // A full descriptor refuses the write with EAGAIN; it is readable then.
    case SendWrite(t, full) => t < |st.senders| && st.senders[t].MustWrite? && (full ==> st.readable > 0)
    case SendLeave(t) => t < |st.senders| && st.senders[t].Leaving? && st.senders[t].h in st.handles
    case LoopWake => st.phase == Polling && st.spin == NotSpinning
    case LoopRead => st.phase == Reading && st.spin == NotSpinning
    case LoopMove => st.phase == Drained && st.spin == NotSpinning
    case LoopVisit => st.phase.Visiting? && st.phase.queue != [] && st.phase.queue[0] in st.handles && st.spin == NotSpinning
    case LoopReturn => st.phase == Visiting([]) && st.spin == NotSpinning
    // uv_close is called from the loop thread, also from a callback during a pass.
    case SpinStore(h) => h in st.handles && st.handles[h].stage == Open && st.spin == NotSpinning &&
      (st.phase == Polling || st.phase.Visiting?)
    case SpinDone => st.spin.SpinningOn? && st.spin.h in st.handles && st.handles[st.spin.h].busy == 0
  }

  function Drop(s: seq<nat>, x: nat): seq<nat> {
    if s == [] then [] else if s[0] == x then s[1..] else [s[0]] + Drop(s[1..], x)
  }

  function SetSender(st: State, t: nat, p: Sender): State
    requires t < |st.senders|
  {
    st.(senders := st.senders[t := p])
  }

  function SetHandle(st: State, h: nat, v: Handle): State {
    st.(handles := st.handles[h := v])
  }

  function Next(st: State, s: Step): State
    requires Enabled(st, s)
  {
    match s
    case Init(h) => SetHandle(st, h, Handle(false, 0, Open, 0, 0)).(list := st.list + [h])
    case SendRead(t, h) => if st.handles[h].pending then st else SetSender(st, t, SawClear(h))
    case SendEnter(t) =>
      var h := st.senders[t].h;
      SetHandle(SetSender(st, t, Entered(h)), h, st.handles[h].(busy := st.handles[h].busy + 1))
    case SendExchange(t) =>
      var h := st.senders[t].h;
      if st.handles[h].pending then SetSender(st, t, Leaving(h))
      else SetHandle(SetSender(st, t, MustWrite(h)), h, st.handles[h].(pending := true, sets := st.handles[h].sets + 1))
    case SendWrite(t, full) =>
      SetSender(st, t, Leaving(st.senders[t].h)).(readable := if full then st.readable else st.readable + 1)
    case SendLeave(t) =>
      var h := st.senders[t].h;
      SetHandle(SetSender(st, t, Outside), h, st.handles[h].(busy := st.handles[h].busy - 1))
    case LoopWake => st.(phase := Reading)
    case LoopRead =>
      // A read that fills the buffer is repeated; any other read has drained the descriptor.
      if st.channel == Pipe && st.readable >= BUFFER then st.(readable := st.readable - BUFFER)
      else st.(readable := 0, phase := Drained)
    case LoopMove => st.(phase := Visiting(st.list), list := [])
    case LoopVisit =>
      var h, v := st.phase.queue[0], st.handles[st.phase.queue[0]];
      var s := st.(phase := Visiting(st.phase.queue[1..]), list := st.list + [h]);
      if v.pending then SetHandle(s, h, v.(pending := false, calls := v.calls + 1)) else s
    case LoopReturn => st.(phase := Polling)
    case SpinStore(h) => SetHandle(st, h, st.handles[h].(pending := true, stage := Closing)).(spin := SpinningOn(h))
    case SpinDone =>
      var h := st.spin.h;
      SetHandle(st, h, st.handles[h].(stage := Closed)).(
        spin := NotSpinning,
        list := Drop(st.list, h),
        phase := if st.phase.Visiting? then Visiting(Drop(st.phase.queue, h)) else st.phase)
  }

  // ---------------------------------------------------------------------------------------
  // The invariant
  // ---------------------------------------------------------------------------------------

  predicate Inside(p: Sender, h: nat) {
    (p.Entered? || p.MustWrite? || p.Leaving?) && p.h == h
  }

  function CountInside(ps: seq<Sender>, h: nat): nat {
    if ps == [] then 0 else (if Inside(ps[0], h) then 1 else 0) + CountInside(ps[1..], h)
  }

  predicate Queued(st: State, h: nat) {
    h in st.list || (st.phase.Visiting? && h in st.phase.queue)
  }

  ghost predicate SomeoneWrites(st: State, h: nat) {
    exists t :: 0 <= t < |st.senders| && st.senders[t] == MustWrite(h)
  }

  // The loop thread will still look at h in the pass it is in.
  predicate ToVisit(st: State, h: nat) {
    ((st.phase == Reading || st.phase == Drained) && h in st.list) || (st.phase.Visiting? && h in st.phase.queue)
  }

  ghost predicate HandleOk(st: State, h: nat)
    requires h in st.handles
  {
    var v := st.handles[h];
    && v.busy == CountInside(st.senders, h)
    && (v.stage == Open ==>
          && v.sets == v.calls + (if v.pending then 1 else 0)
          && (v.pending ==> st.readable > 0 || SomeoneWrites(st, h) || ToVisit(st, h))
          && Queued(st, h))
    && (v.stage == Closing ==> v.pending && st.spin == SpinningOn(h))
    && (v.stage == Closed ==> v.pending && !SomeoneWrites(st, h) && !Queued(st, h))
  }

  predicate SenderOk(st: State, t: nat)
    requires t < |st.senders|
  {
    st.senders[t] != Outside ==> st.senders[t].h in st.handles
  }

  predicate NoDuplicates(s: seq<nat>) {
    forall i, j :: 0 <= i < j < |s| ==> s[i] != s[j]
  }

  predicate ListsOk(st: State) {
    && NoDuplicates(st.list)
    && (forall h :: h in st.list ==> h in st.handles)
    && (st.phase.Visiting? ==> NoDuplicates(st.phase.queue))
    && (st.phase.Visiting? ==> forall h :: h in st.phase.queue ==> h in st.handles && h !in st.list)
    && (st.spin.SpinningOn? ==> st.spin.h in st.handles && st.handles[st.spin.h].stage == Closing)
    && (st.spin.SpinningOn? ==> st.phase == Polling || st.phase.Visiting?)
  }

  ghost predicate Invariant(st: State) {
    && ListsOk(st)
    && (forall h {:trigger HandleOk(st, h)} :: h in st.handles ==> HandleOk(st, h))
    && (forall t {:trigger SenderOk(st, t)} :: 0 <= t < |st.senders| ==> SenderOk(st, t))
  }

  lemma {:induction false} CountSet(ps: seq<Sender>, t: nat, p: Sender, h: nat)
    requires t < |ps|
    ensures CountInside(ps[t := p], h) == CountInside(ps, h) - (if Inside(ps[t], h) then 1 else 0) + (if Inside(p, h) then 1 else 0)
  {
    if t > 0 {
      CountSet(ps[1..], t - 1, p, h);
      assert ps[t := p][1..] == ps[1..][t - 1 := p];
    }
  }

  lemma {:induction false} CountNone(ps: seq<Sender>, t: nat, h: nat)
    requires t < |ps| && Inside(ps[t], h)
    ensures CountInside(ps, h) > 0
  {
    if t > 0 {
      CountNone(ps[1..], t - 1, h);
    }
  }

  lemma TailMembers(s: seq<nat>)
    requires s != []
    ensures forall x :: x in s <==> x == s[0] || x in s[1..]
    ensures NoDuplicates(s) ==> NoDuplicates(s[1..]) && s[0] !in s[1..]
  {
    assert s == [s[0]] + s[1..];
  }

  lemma DropMembers(s: seq<nat>, x: nat)
    requires NoDuplicates(s)
    ensures NoDuplicates(Drop(s, x))
    ensures forall y :: y in Drop(s, x) <==> y in s && y != x
  {
    if s != [] {
      TailMembers(s);
      if s[0] != x {
        DropMembers(s[1..], x);
      }
    }
  }

  // A sender moves; the handles other than its own are as before, and so is what the loop does.
  lemma SenderMoves(st: State, s: State, t: nat, p: Sender, h: nat)
    requires Invariant(st) && t < |st.senders| && h in st.handles
    requires s == st.(senders := st.senders[t := p], handles := s.handles, readable := s.readable)
    requires s.handles.Keys == st.handles.Keys && s.readable >= st.readable
    requires forall k :: k in st.handles && k != h ==> s.handles[k] == st.handles[k]
    requires s.handles[h].stage == st.handles[h].stage
    requires st.senders[t] == Outside || st.senders[t].h == h
    requires p == Outside || p.h == h
    requires HandleOk(s, h)
    ensures Invariant(s)
  {
    forall k | k in s.handles ensures HandleOk(s, k) {
      assert HandleOk(st, k);
      CountSet(st.senders, t, p, k);
      if k != h && SomeoneWrites(st, k) {
        var u :| 0 <= u < |st.senders| && st.senders[u] == MustWrite(k);
        assert s.senders[u] == MustWrite(k);
      }
    }
    forall u | 0 <= u < |s.senders| ensures SenderOk(s, u) {
      assert SenderOk(st, u);
    }
  }

  lemma SendStep(st: State, s: Step)
    requires Invariant(st) && Enabled(st, s)
    requires s.SendRead? || s.SendEnter? || s.SendExchange? || s.SendWrite? || s.SendLeave?
    ensures Invariant(Next(st, s))
  {
    var r, t := Next(st, s), s.t;
    assert SenderOk(st, t);
    var h := if s.SendRead? then s.h else st.senders[t].h;
    assert HandleOk(st, h);
    CountSet(st.senders, t, r.senders[t], h);
    if SomeoneWrites(st, h) {
      var u :| 0 <= u < |st.senders| && st.senders[u] == MustWrite(h);
      assert u != t ==> r.senders[u] == MustWrite(h);
    }
    if r.senders[t] == MustWrite(h) {
      assert SomeoneWrites(r, h);
    }
    if st.senders[t].MustWrite? {
      CountNone(st.senders, t, h);
    }
    assert HandleOk(r, h);
    if r != st {
      SenderMoves(st, r, t, r.senders[t], h);
    }
  }

  // The loop thread moves without touching a handle.
  lemma LoopMoves(st: State, s: State)
    requires Invariant(st) && s == st.(readable := s.readable, list := s.list, phase := s.phase) && ListsOk(s)
    requires forall h :: h in st.handles ==> (Queued(s, h) <==> Queued(st, h))
    requires forall h :: h in st.handles && Queued(st, h) ==> ToVisit(s, h) || (s.readable == st.readable && !ToVisit(st, h))
    ensures Invariant(s)
  {
    forall k | k in s.handles ensures HandleOk(s, k) {
      assert HandleOk(st, k);
    }
    forall u | 0 <= u < |s.senders| ensures SenderOk(s, u) {
      assert SenderOk(st, u);
    }
  }

  lemma VisitStep(st: State)
    requires Invariant(st) && Enabled(st, LoopVisit)
    ensures Invariant(Next(st, LoopVisit))
  {
    var s, h := Next(st, LoopVisit), st.phase.queue[0];
    TailMembers(st.phase.queue);
    assert HandleOk(st, h);
    forall k | k in s.handles ensures HandleOk(s, k) {
      assert HandleOk(st, k);
    }
    forall u | 0 <= u < |s.senders| ensures SenderOk(s, u) {
      assert SenderOk(st, u);
    }
  }

  lemma InitStep(st: State, h: nat)
    requires Invariant(st) && Enabled(st, Init(h))
    ensures Invariant(Next(st, Init(h)))
  {
    var s := Next(st, Init(h));
    NobodyInside(st, h);
    forall k | k in s.handles ensures HandleOk(s, k) {
      assert k != h ==> HandleOk(st, k);
    }
    forall u | 0 <= u < |s.senders| ensures SenderOk(s, u) {
      assert SenderOk(st, u);
    }
  }

  lemma NobodyInside(st: State, h: nat)
    requires h !in st.handles
    requires forall t {:trigger SenderOk(st, t)} :: 0 <= t < |st.senders| ==> SenderOk(st, t)
    ensures CountInside(st.senders, h) == 0
  {
    forall t | 0 <= t < |st.senders| ensures !Inside(st.senders[t], h) {
      assert SenderOk(st, t);
    }
    CountAbsent(st.senders, h);
  }

  lemma {:induction false} CountAbsent(ps: seq<Sender>, h: nat)
    requires forall t :: 0 <= t < |ps| ==> !Inside(ps[t], h)
    ensures CountInside(ps, h) == 0
  {
    if ps != [] {
      CountAbsent(ps[1..], h);
    }
  }

  lemma SpinStep(st: State, s: Step)
    requires Invariant(st) && Enabled(st, s) && (s.SpinStore? || s.SpinDone?)
    ensures Invariant(Next(st, s))
  {
    var r := Next(st, s);
    var h := if s.SpinStore? then s.h else st.spin.h;
    assert HandleOk(st, h);
    DropMembers(st.list, h);
    if st.phase.Visiting? {
      DropMembers(st.phase.queue, h);
    }
    if s.SpinDone? && SomeoneWrites(st, h) {
      var u :| 0 <= u < |st.senders| && st.senders[u] == MustWrite(h);
      CountNone(st.senders, u, h);
    }
    forall k | k in r.handles ensures HandleOk(r, k) {
      assert HandleOk(st, k);
    }
    forall u | 0 <= u < |r.senders| ensures SenderOk(r, u) {
      assert SenderOk(st, u);
    }
  }

  lemma InvariantStep(st: State, s: Step)
    requires Invariant(st) && Enabled(st, s)
    ensures Invariant(Next(st, s))
  {
    match s
    case Init(h) => InitStep(st, h);
    case SpinStore(h) => SpinStep(st, s);
    case SpinDone => SpinStep(st, s);
    case LoopWake => LoopMoves(st, Next(st, s));
    case LoopRead => LoopMoves(st, Next(st, s));
    case LoopMove => LoopMoves(st, Next(st, s));
    case LoopReturn => LoopMoves(st, Next(st, s));
    case LoopVisit => VisitStep(st);
    case _ => SendStep(st, s);
  }

  // ---------------------------------------------------------------------------------------
  // The promises, over every run
  // ---------------------------------------------------------------------------------------

  function Initial(channel: Channel, threads: nat): State {
    State(channel, 0, [], Polling, NotSpinning, map[], seq(threads, _ => Outside))
  }

  ghost predicate IsRun(channel: Channel, threads: nat, run: seq<State>, steps: seq<Step>) {
    && |run| == |steps| + 1
    && run[0] == Initial(channel, threads)
    && forall k :: 0 <= k < |steps| ==> Enabled(run[k], steps[k]) && run[k + 1] == Next(run[k], steps[k])
  }

  lemma {:induction false} EveryRun(channel: Channel, threads: nat, run: seq<State>, steps: seq<Step>, k: nat)
    requires IsRun(channel, threads, run, steps) && k < |run|
    ensures Invariant(run[k])
  {
    if k == 0 {
      forall t | 0 <= t < threads ensures SenderOk(run[0], t) {
      }
    } else {
      EveryRun(channel, threads, run, steps, k - 1);
      InvariantStep(run[k - 1], steps[k - 1]);
    }
  }

  // A wakeup is never lost: the loop will be woken for a pending handle, or has it in hand.
  lemma WakeupNotLost(channel: Channel, threads: nat, run: seq<State>, steps: seq<Step>, k: nat, h: nat)
    requires IsRun(channel, threads, run, steps) && k < |run|
    requires h in run[k].handles && run[k].handles[h].stage == Open && run[k].handles[h].pending
    ensures run[k].readable > 0 || SomeoneWrites(run[k], h) || ToVisit(run[k], h)
  {
    EveryRun(channel, threads, run, steps, k);
    assert HandleOk(run[k], h);
  }

  // Sends are merged but not dropped: pending is cleared only by the visit that calls the
  // callback, and every change of pending from 0 to 1 is answered by one callback.
  lemma CallsAnswerSends(channel: Channel, threads: nat, run: seq<State>, steps: seq<Step>, k: nat, h: nat)
    requires IsRun(channel, threads, run, steps) && k < |steps|
    requires h in run[k].handles && run[k].handles[h].stage == Open
    ensures run[k].handles[h].sets == run[k].handles[h].calls + (if run[k].handles[h].pending then 1 else 0)
    ensures run[k].handles[h].pending && h in run[k + 1].handles && !run[k + 1].handles[h].pending ==>
      steps[k] == LoopVisit && run[k + 1].handles[h].calls == run[k].handles[h].calls + 1
  {
    EveryRun(channel, threads, run, steps, k);
    assert HandleOk(run[k], h);
  }

  // Once uv__async_spin has returned for h, in no later state is any thread about to write on
  // behalf of h, however far it had come in uv_async_send.
  lemma {:induction false} NoWriteAfterSpin(channel: Channel, threads: nat, run: seq<State>, steps: seq<Step>, k: nat, m: nat, h: nat)
    requires IsRun(channel, threads, run, steps) && k <= m < |run|
    requires h in run[k].handles && run[k].handles[h].stage == Closed
    ensures h in run[m].handles && run[m].handles[h].stage == Closed && run[m].handles[h].pending
    ensures !SomeoneWrites(run[m], h)
    decreases m
  {
    EveryRun(channel, threads, run, steps, m);
    if k < m {
      NoWriteAfterSpin(channel, threads, run, steps, k, m - 1, h);
      EveryRun(channel, threads, run, steps, m - 1);
      ClosedStays(run[m - 1], steps[m - 1], h);
    }
    assert HandleOk(run[m], h);
  }

  lemma ClosedStays(st: State, s: Step, h: nat)
    requires Invariant(st) && Enabled(st, s) && h in st.handles && st.handles[h].stage == Closed
    ensures h in Next(st, s).handles && Next(st, s).handles[h].stage == Closed
  {
    assert HandleOk(st, h);
  }
}
