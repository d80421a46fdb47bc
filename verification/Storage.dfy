// The storage a uv_timer_t shares between its two possible containers, together with
// the fields of the timer itself.
module Storage {

  // The order of timer_less_than: first the due time, then the start sequence number.
  datatype Key = Key(timeout: nat, startId: nat)

  predicate Less(a: Key, b: Key) {
    if a.timeout != b.timeout then a.timeout < b.timeout else a.startId < b.startId
  }

  /**
   * In C the timer holds "union { void* heap[3]; struct uv__queue queue; } node".  The three
   * words below are that union: read as a heap node they are left, right and parent; read as
   * a ring link, left is the next pointer and right is the prev pointer.  Nothing but the
   * invariants of the client says which reading is the current one.
   * A bare ring head is a Node whose timer fields are not used.
   */
  class Node {
    var left: Node?
    var right: Node?
    var parent: Node?

    var timeout: nat
    var startId: nat
    var repeat: nat
    var hasCallback: bool
    var active: bool
    var closing: bool

    // The index of the node in the container that currently holds it.
    ghost var pos: nat

    constructor ()
      ensures left == this && right == this && pos == 0
    {
      left, right, parent := this, this, null;
      timeout, startId, repeat := 0, 0, 0;
      hasCallback, active, closing := false, false, false;
      pos := 0;
    }

    function Rank(): Key
      reads this`timeout, this`startId
    {
      Key(timeout, startId)
    }
  }
}
