// The priority message queue of src/thread/thread_comm_module.c: a doubly linked list kept in
// descending order of priority, spliced in place.
module MessageQueue {

  // THREAD_PRIORITY_LOW is 0 and THREAD_PRIORITY_URGENT is 3.
  type Priority = p: int | 0 <= p < 4

  datatype Message = Message(priority: Priority, data: seq<bv8>)

  // ---------------------------------------------------------------------------------------
  // The queue as a sequence
  // ---------------------------------------------------------------------------------------

  // m goes behind every message of the same or a higher priority.
  function Insert(q: seq<Message>, m: Message): seq<Message> {
    if q != [] && q[0].priority >= m.priority then [q[0]] + Insert(q[1..], m) else [m] + q
  }

  predicate Descending(q: seq<Message>) {
    forall i, j :: 0 <= i < j < |q| ==> q[i].priority >= q[j].priority
  }

  // The messages of one priority, in queue order.
  function Level(q: seq<Message>, p: Priority): seq<Message> {
    if q == [] then [] else (if q[0].priority == p then [q[0]] else []) + Level(q[1..], p)
  }

  lemma {:induction false} InsertDescending(q: seq<Message>, m: Message)
    requires Descending(q)
    ensures Descending(Insert(q, m)) && |Insert(q, m)| == |q| + 1
    ensures forall x :: x in Insert(q, m) ==> x in q || x == m
  {
    if q != [] && q[0].priority >= m.priority {
      InsertDescending(q[1..], m);
      var r := Insert(q[1..], m);
      forall x | x in r ensures q[0].priority >= x.priority {
        if x in q[1..] {
          var i :| 0 <= i < |q[1..]| && q[1..][i] == x;
        }
      }
    }
  }

  lemma {:induction false} InsertLevel(q: seq<Message>, m: Message, p: Priority)
    requires Descending(q)
    ensures Level(Insert(q, m), p) == if p == m.priority then Level(q, p) + [m] else Level(q, p)
  {
    var r := Insert(q, m);
    if q != [] && q[0].priority >= m.priority {
      InsertLevel(q[1..], m, p);
      assert r[1..] == Insert(q[1..], m);
    } else {
      assert r[1..] == q;
      if p == m.priority {
        LevelEmpty(q, p);
      }
    }
  }

  lemma {:induction false} LevelEmpty(q: seq<Message>, p: Priority)
    requires forall x :: x in q ==> x.priority != p
    ensures Level(q, p) == []
  {
    if q != [] {
      LevelEmpty(q[1..], p);
    }
  }

  lemma LevelStep(q: seq<Message>, p: Priority)
    requires q != []
    ensures Level(q, p) == if q[0].priority == p then [q[0]] + Level(q[1..], p) else Level(q[1..], p)
  {
  }

  lemma {:induction false} InsertAt(q: seq<Message>, m: Message, i: nat)
    requires i <= |q| && (forall k :: 0 <= k < i ==> q[k].priority >= m.priority)
    requires i < |q| ==> q[i].priority < m.priority
    ensures Insert(q, m) == q[..i] + [m] + q[i..]
  {
    if i > 0 {
      InsertAt(q[1..], m, i - 1);
      assert q[..i] == [q[0]] + q[1..][..i - 1];
      assert q[1..][i - 1..] == q[i..];
    }
  }

  // A queue in order is its levels, the highest first.
  lemma {:induction false} Levels(q: seq<Message>)
    requires Descending(q)
    ensures q == Level(q, 3) + Level(q, 2) + Level(q, 1) + Level(q, 0)
  {
    if q != [] {
      var t := q[1..];
      Levels(t);
      forall k: Priority | k > q[0].priority ensures Level(t, k) == [] {
        LevelEmpty(t, k);
      }
      LevelStep(q, 3);
      LevelStep(q, 2);
      LevelStep(q, 1);
      LevelStep(q, 0);
      PutFirst(q[0], Level(t, 3), Level(t, 2), Level(t, 1), Level(t, 0));
    }
  }

  lemma PutFirst(m: Message, d: seq<Message>, c: seq<Message>, b: seq<Message>, a: seq<Message>)
    ensures [m] + (d + c + b + a) == ([m] + d) + c + b + a
    ensures d == [] ==> [m] + (d + c + b + a) == d + ([m] + c) + b + a
    ensures d == c == [] ==> [m] + (d + c + b + a) == d + c + ([m] + b) + a
    ensures d == c == b == [] ==> [m] + (d + c + b + a) == d + c + b + ([m] + a)
  {
  }

  // ---------------------------------------------------------------------------------------
  // Any interleaving of the operations is one first-in first-out queue per priority
  // ---------------------------------------------------------------------------------------

  datatype Op = Enqueue(m: Message) | Dequeue | Clear

  // What an operation reports: the status of an enqueue, the message of a dequeue.
  datatype Report = Accepted | Refused | Got(m: Message) | Nothing | Cleared

  function Apply(q: seq<Message>, max: nat, op: Op): (seq<Message>, Report) {
    match op
    case Enqueue(m) => if |q| >= max then (q, Refused) else (Insert(q, m), Accepted)
    case Dequeue => if q == [] then (q, Nothing) else (q[1..], Got(q[0]))
    case Clear => ([], Cleared)
  }

  // The reference: four separate queues, served from urgent to low.
  datatype Fifos = Fifos(urgent: seq<Message>, high: seq<Message>, normal: seq<Message>, low: seq<Message>)

  function Size(f: Fifos): nat {
    |f.urgent| + |f.high| + |f.normal| + |f.low|
  }

  function ApplyFifos(f: Fifos, max: nat, op: Op): (Fifos, Report) {
    match op
    case Enqueue(m) =>
      if Size(f) >= max then (f, Refused)
      else (Append(f, m), Accepted)
    case Dequeue =>
      if f.urgent != [] then (f.(urgent := f.urgent[1..]), Got(f.urgent[0]))
      else if f.high != [] then (f.(high := f.high[1..]), Got(f.high[0]))
      else if f.normal != [] then (f.(normal := f.normal[1..]), Got(f.normal[0]))
      else if f.low != [] then (f.(low := f.low[1..]), Got(f.low[0]))
      else (f, Nothing)
    case Clear => (Fifos([], [], [], []), Cleared)
  }

  function Split(q: seq<Message>): Fifos {
    Fifos(Level(q, 3), Level(q, 2), Level(q, 1), Level(q, 0))
  }

  lemma {:induction false} SplitSize(q: seq<Message>)
    ensures Size(Split(q)) == |q|
  {
    if q != [] {
      SplitSize(q[1..]);
    }
  }

  lemma EnqueueSplits(q: seq<Message>, max: nat, m: Message)
    requires Descending(q)
    ensures Descending(Apply(q, max, Enqueue(m)).0)
    ensures ApplyFifos(Split(q), max, Enqueue(m)) == (Split(Apply(q, max, Enqueue(m)).0), Apply(q, max, Enqueue(m)).1)
  {
    SplitSize(q);
    InsertDescending(q, m);
    InsertSplits(q, m);
  }

  function Append(f: Fifos, m: Message): Fifos {
    if m.priority == 3 then f.(urgent := f.urgent + [m])
    else if m.priority == 2 then f.(high := f.high + [m])
    else if m.priority == 1 then f.(normal := f.normal + [m])
    else f.(low := f.low + [m])
  }

  lemma InsertSplits(q: seq<Message>, m: Message)
    requires Descending(q)
    ensures Split(Insert(q, m)) == Append(Split(q), m)
  {
    InsertLevel(q, m, 3);
    InsertLevel(q, m, 2);
    InsertLevel(q, m, 1);
    InsertLevel(q, m, 0);
  }

  lemma DequeueSplits(q: seq<Message>, max: nat)
    requires Descending(q)
    ensures Descending(Apply(q, max, Dequeue).0)
    ensures ApplyFifos(Split(q), max, Dequeue) == (Split(Apply(q, max, Dequeue).0), Apply(q, max, Dequeue).1)
  {
    if q != [] {
      FrontLevel(q, 3);
      FrontLevel(q, 2);
      FrontLevel(q, 1);
      FrontLevel(q, 0);
    }
  }

  // The first message heads its own level, and every higher level is empty.
  lemma FrontLevel(q: seq<Message>, k: Priority)
    requires Descending(q) && q != []
    ensures k > q[0].priority ==> Level(q, k) == Level(q[1..], k) == []
    ensures k == q[0].priority ==> Level(q, k) != [] && Level(q, k)[0] == q[0] && Level(q, k)[1..] == Level(q[1..], k)
    ensures k < q[0].priority ==> Level(q, k) == Level(q[1..], k)
  {
    LevelStep(q, k);
    if k > q[0].priority {
      LevelEmpty(q, k);
    }
  }

  lemma ApplySplits(q: seq<Message>, max: nat, op: Op)
    requires Descending(q)
    ensures Descending(Apply(q, max, op).0)
    ensures ApplyFifos(Split(q), max, op) == (Split(Apply(q, max, op).0), Apply(q, max, op).1)
  {
    match op
    case Enqueue(m) => EnqueueSplits(q, max, m);
    case Dequeue => DequeueSplits(q, max);
    case Clear =>
  }

  function Run(q: seq<Message>, max: nat, ops: seq<Op>): seq<Report>
    decreases |ops|
  {
    if ops == [] then [] else [Apply(q, max, ops[0]).1] + Run(Apply(q, max, ops[0]).0, max, ops[1..])
  }

  function RunFifos(f: Fifos, max: nat, ops: seq<Op>): seq<Report>
    decreases |ops|
  {
    if ops == [] then [] else [ApplyFifos(f, max, ops[0]).1] + RunFifos(ApplyFifos(f, max, ops[0]).0, max, ops[1..])
  }

  lemma {:induction false} RunIsFifoPerPriority(q: seq<Message>, max: nat, ops: seq<Op>)
    requires Descending(q)
    ensures Run(q, max, ops) == RunFifos(Split(q), max, ops)
    decreases |ops|
  {
    if ops != [] {
      ApplySplits(q, max, ops[0]);
      RunIsFifoPerPriority(Apply(q, max, ops[0]).0, max, ops[1..]);
    }
  }

  // ---------------------------------------------------------------------------------------
  // The linked list
  // ---------------------------------------------------------------------------------------

  class Node {
    const message: Message
    var next: Node?
    var prev: Node?
    // The index of the node in its queue.
    ghost var pos: int

    constructor (m: Message)
      ensures message == m && next == null && prev == null
    {
      message, next, prev := m, null, null;
    }
  }

  ghost function At(s: seq<Node>, i: int): Node? {
    if 0 <= i < |s| then s[i] else null
  }

  ghost predicate Linked(s: seq<Node>, i: int)
    requires 0 <= i < |s|
    reads s`next, s`prev, s`pos
  {
    s[i].next == At(s, i + 1) && s[i].prev == At(s, i - 1) && s[i].pos == i
  }

  ghost function MessagesOf(s: seq<Node>): (q: seq<Message>)
    ensures |q| == |s| && forall i :: 0 <= i < |s| ==> q[i] == s[i].message
  {
    seq(|s|, i requires 0 <= i < |s| => s[i].message)
  }

  lemma MessagesSplice(s: seq<Node>, n: Node, i: nat)
    requires i <= |s|
    ensures MessagesOf(s[..i] + [n] + s[i..]) == MessagesOf(s)[..i] + [n.message] + MessagesOf(s)[i..]
  {
  }

  lemma MessagesTail(s: seq<Node>)
    requires s != []
    ensures MessagesOf(s[1..]) == MessagesOf(s)[1..]
  {
  }

  class Queue {
    var head: Node?
    var tail: Node?
    var size: nat
    var maxSize: nat
    ghost var nodes: seq<Node>

    ghost predicate WellLinked()
      reads this, nodes`next, nodes`prev, nodes`pos
    {
      && head == At(nodes, 0) && tail == At(nodes, |nodes| - 1) && size == |nodes|
      && forall i :: 0 <= i < |nodes| ==> Linked(nodes, i)
    }

    ghost function Contents(): seq<Message>
      reads this`nodes
    {
      MessagesOf(nodes)
    }

    ghost predicate Valid()
      reads this, nodes`next, nodes`prev, nodes`pos
    {
      WellLinked() && size <= maxSize && Descending(Contents())
    }

    constructor (queueSize: nat)
      ensures Valid() && Contents() == [] && maxSize == queueSize && nodes == []
    {
      head, tail, size, maxSize, nodes := null, null, 0, queueSize, [];
    }

    // enqueue_message: -1 if the queue is full, else the message goes in by its priority.
    method Enqueue(message: Message) returns (status: int)
      requires Valid()
      modifies this, nodes`next, nodes`prev, nodes`pos
      ensures Valid() && maxSize == old(maxSize)
      ensures if |old(Contents())| >= maxSize then status == -1 && Contents() == old(Contents())
              else status == 0 && Contents() == Insert(old(Contents()), message)
    {
      if size >= maxSize {
        return -1;
      }
      InsertDescending(Contents(), message);
      var newNode := new Node(message);
      var current, prev, i := Seek(message.priority);
      Splice(newNode, current, prev, i);
      status := 0;
    }

    // The place behind every message of the same or a higher priority.
    method Seek(priority: Priority) returns (current: Node?, prev: Node?, ghost i: nat)
      requires Valid()
      ensures i <= |nodes| && current == At(nodes, i) && prev == At(nodes, i - 1)
      ensures forall m: Message :: m.priority == priority ==> Insert(Contents(), m) == Contents()[..i] + [m] + Contents()[i..]
    {
      current, prev, i := head, null, 0;
      while current != null && current.message.priority >= priority
        invariant i <= |nodes| && current == At(nodes, i) && prev == At(nodes, i - 1)
        invariant forall k :: 0 <= k < i ==> Contents()[k].priority >= priority
        decreases |nodes| - i
      {
        assert Linked(nodes, i);
        prev := current;
        current := current.next;
        i := i + 1;
      }
      forall m: Message | m.priority == priority ensures Insert(Contents(), m) == Contents()[..i] + [m] + Contents()[i..] {
        InsertAt(Contents(), m, i);
      }
    }

    // Links the new node between prev and current, which are at i - 1 and i.
    method Splice(newNode: Node, current: Node?, prev: Node?, ghost i: nat)
      requires WellLinked() && newNode !in nodes
      requires i <= |nodes| && current == At(nodes, i) && prev == At(nodes, i - 1)
      modifies this`head, this`tail, this`size, this`nodes, newNode`next, newNode`prev, newNode`pos, nodes`next, nodes`prev, nodes`pos
      ensures WellLinked() && nodes == old(nodes)[..i] + [newNode] + old(nodes)[i..]
      ensures size == old(size) + 1
      ensures Contents() == old(Contents())[..i] + [newNode.message] + old(Contents())[i..]
    {
      MessagesSplice(nodes, newNode, i);
      Relink(newNode, current, prev, i);
      Renumber(newNode, i);
    }

    method Relink(newNode: Node, current: Node?, prev: Node?, ghost i: nat)
      requires WellLinked() && newNode !in nodes
      requires i <= |nodes| && current == At(nodes, i) && prev == At(nodes, i - 1)
      modifies this`head, this`tail, this`size, newNode`next, newNode`prev, nodes`next, nodes`prev
      ensures size == old(size) + 1 == |nodes| + 1
      ensures head == (if i == 0 then newNode else nodes[0]) && tail == (if i == |nodes| then newNode else nodes[|nodes| - 1])
      ensures newNode.next == At(nodes, i) && newNode.prev == At(nodes, i - 1)
      ensures forall k :: 0 <= k < |nodes| ==> LinkedAround(newNode, i, k)
    {
      ghost var s := nodes;
      assert i < |s| ==> Linked(s, i);
      assert i >= 1 ==> Linked(s, i - 1);
      newNode.next := current;
      newNode.prev := prev;
      if prev != null {
        prev.next := newNode;
      } else {
        head := newNode;
      }
      if current != null {
        current.prev := newNode;
      } else {
        tail := newNode;
      }
      size := size + 1;
      forall k | 0 <= k < |nodes| ensures LinkedAround(newNode, i, k) {
        assert old(Linked(s, k));
      }
    }

    // The bookkeeping of Splice: from the links the nodes have now, the new sequence is linked.
    ghost method Renumber(newNode: Node, i: nat)
      requires newNode !in nodes && i <= |nodes| && size == |nodes| + 1
      requires head == (if i == 0 then newNode else nodes[0]) && tail == (if i == |nodes| then newNode else nodes[|nodes| - 1])
      requires newNode.next == At(nodes, i) && newNode.prev == At(nodes, i - 1)
      requires forall k :: 0 <= k < |nodes| ==> LinkedAround(newNode, i, k)
      modifies this`nodes, newNode`pos, nodes`pos
      ensures WellLinked() && nodes == old(nodes)[..i] + [newNode] + old(nodes)[i..]
    {
      ghost var s := nodes;
      forall n | n in s && n.pos >= i { n.pos := n.pos + 1; }
      newNode.pos := i;
      nodes := s[..i] + [newNode] + s[i..];
      forall k | 0 <= k < |nodes| ensures Linked(nodes, k) {
        if k != i {
          assert old(LinkedAround(newNode, i, if k < i then k else k - 1));
          assert nodes[k] == s[if k < i then k else k - 1] && nodes[k] in s;
        }
      }
    }

    ghost predicate LinkedAround(newNode: Node, i: nat, k: nat)
      requires i <= |nodes| && k < |nodes|
      reads this`nodes, nodes`next, nodes`prev, nodes`pos
    {
      && nodes[k].pos == k
      && nodes[k].next == (if k + 1 == i then newNode else At(nodes, k + 1))
      && nodes[k].prev == (if k == i then newNode else At(nodes, k - 1))
    }

    // dequeue_message: -1 if the queue is empty, else the first message.
    method Dequeue() returns (status: int, message: Message)
      requires Valid()
      modifies this, nodes`next, nodes`prev, nodes`pos
      ensures Valid() && maxSize == old(maxSize)
      ensures if old(Contents()) == [] then status == -1 && Contents() == []
              else status == 0 && message == old(Contents())[0] && Contents() == old(Contents())[1..]
      ensures nodes == if old(nodes) == [] then [] else old(nodes)[1..]
    {
      if size == 0 {
        return -1, Message(0, []);
      }
      message := head.message;
      RemoveHead();
      status := 0;
    }

    method RemoveHead()
      requires WellLinked() && nodes != []
      modifies this`head, this`tail, this`size, this`nodes, nodes`next, nodes`prev, nodes`pos
      ensures WellLinked() && nodes == old(nodes)[1..] && Contents() == old(Contents())[1..]
    {
      MessagesTail(nodes);
      ghost var s := nodes;
      assert Linked(s, 0);
      assert |s| > 1 ==> Linked(s, 1);
      var node := head;
      head := node.next;
      if head != null {
        head.prev := null;
      } else {
        tail := null;
      }
      size := size - 1;
      forall n | n in s { n.pos := n.pos - 1; }
      nodes := s[1..];
      forall k | 0 <= k < |nodes| ensures Linked(nodes, k) {
        assert old(Linked(s, k + 1));
        assert nodes[k] in s;
      }
    }

    // The loop of thread_comm_clear_message_queue.
    method Clear()
      requires Valid()
      modifies this, nodes`next, nodes`prev, nodes`pos
      ensures Valid() && maxSize == old(maxSize) && Contents() == []
    {
      ghost var k := 0;
      while size > 0
        invariant Valid() && maxSize == old(maxSize)
        invariant k <= |old(nodes)| && nodes == old(nodes)[k..]
        decreases size
      {
        var _, _ := Dequeue();
        k := k + 1;
      }
    }
  }
}
