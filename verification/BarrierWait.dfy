// uv_barrier_wait of src/thread-common.c as it is written: the fields of the barrier updated
// in place between taking the mutex and giving it up.  Each section is proved to be the step
// of Barrier that it stands for.
module BarrierWait {
  import opened Barrier

  class UvBarrier {
    var threshold: nat
    var inn: nat
    var out: nat
    // Where each thread is.
    var threads: seq<Phase>
    // The number of rounds that are over; only the phases of the model need it.
    var round: nat

    constructor (count: nat, n: nat)
      requires count > 0
      ensures Matches(Initial(count, n))
    {
      threshold, inn, out, round := count, 0, 0, 0;
      threads := seq(n, _ => Outside);
    }

    ghost predicate Matches(st: State)
      reads this
    {
      threshold == st.threshold && inn == st.inn && out == st.out && threads == st.threads && round == |st.past|
    }

    // Thread t has taken the mutex on entry: until it waits or returns. last is the result.
    method Wait(t: nat, ghost st: State) returns (returned: bool, last: bool)
      requires Matches(st) && Invariant(st) && Enabled(st, Call(t))
      modifies this
      ensures Matches(Next(st, Call(t)))
      ensures returned <==> threads[t] == Outside
      ensures returned && last <==> round == old(round) + 1
    {
      returned, last := PassGate(t, st);
    }

    // A wait of thread t is over: the loop that it was in goes on.
    method Resume(t: nat, ghost st: State) returns (returned: bool, last: bool)
      requires Matches(st) && Invariant(st) && Enabled(st, Wake(t))
      modifies this
      ensures Matches(Next(st, Wake(t)))
      ensures returned <==> threads[t] == Outside
      ensures returned && last <==> round == old(round) + 1
    {
      assert ThreadOk(st, t);
      if threads[t].AtGate? {
        returned, last := PassGate(t, st);
      } else if inn != 0 {
        threads := threads[t := Inside(threads[t].round, true)];
        returned, last := false, false;
      } else {
        CountMember(threads, t);
        last := Leave(t, st);
        returned := true;
      }
    }

    method CondBroadcast()
      modifies this`threads
      ensures threads == Broadcast(old(threads))
    {
      threads := Broadcast(threads);
    }

    method PassGate(t: nat, ghost st: State) returns (returned: bool, last: bool)
      requires Matches(st) && Invariant(st) && t < |threads| && !threads[t].Inside?
      modifies this
      ensures Matches(Enter(st, t))
      ensures returned <==> threads[t] == Outside
      ensures returned && last <==> round == old(round) + 1
    {
      returned, last := false, false;
      if out != 0 {
        threads := threads[t := AtGate(true)];
        return;
      }
      inn := inn + 1;
      if inn != threshold {
        threads := threads[t := Inside(round, true)];
        return;
      }
      inn := 0;
      out := threshold;
      CondBroadcast();
      ghost var s := st.(inn := st.inn + 1, cur := st.cur.(entered := st.cur.entered + 1));
      last := Leave(t, s.(inn := 0, out := s.threshold, threads := Broadcast(s.threads)));
      returned := true;
    }

    method Leave(t: nat, ghost st: State) returns (last: bool)
      requires Matches(st) && t < |threads| && out > 0
      modifies this
      ensures Matches(Return(st, t).0) && threads[t] == Outside
      ensures last == Return(st, t).1 && round == old(round) + if last then 1 else 0
    {
      threads := threads[t := Outside];
      out := out - 1;
      last := out == 0;
      if last {
        CondBroadcast();
        round := round + 1;
      }
    }
  }
}
