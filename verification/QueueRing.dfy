// The intrusive circular queue of src/queue.h.  A ring is a head and the sequence of its
// members; every operation is proved against that sequence.
module QueueRing {
  import opened Storage

  // The i-th cell around the ring of head h: the head is cell 0 and cell |q| + 1.
  ghost function Nth(h: Node, q: seq<Node>, i: int): Node {
    if 1 <= i <= |q| then q[i - 1] else h
  }

  ghost predicate Edge(h: Node, q: seq<Node>, i: int)
    reads h`left, h`right, h`pos, q`left, q`right, q`pos
  {
    && Nth(h, q, i).left == Nth(h, q, i + 1)
    && Nth(h, q, i + 1).right == Nth(h, q, i)
    && Nth(h, q, i).pos == i
  }

  // Next and prev links agree all the way around, and no cell occurs twice.
  ghost predicate Ring(h: Node, q: seq<Node>)
    reads h`left, h`right, h`pos, q`left, q`right, q`pos
  {
    forall i :: 0 <= i <= |q| ==> Edge(h, q, i)
  }

  lemma Positions(h: Node, q: seq<Node>)
    requires Ring(h, q)
    ensures h !in q
    ensures forall n :: n in q ==> 1 <= n.pos <= |q| && q[n.pos - 1] == n
  {
    assert Edge(h, q, 0);
    forall n | n in q ensures 1 <= n.pos <= |q| && q[n.pos - 1] == n {
      var i :| 0 <= i < |q| && q[i] == n;
      assert Edge(h, q, i + 1);
    }
  }

  method Init(q: Node)
    modifies q`left, q`right, q`pos
    ensures Ring(q, [])
  {
    q.left := q;
    q.right := q;
    q.pos := 0;
    assert Edge(q, [], 0);
  }

  method Empty(h: Node, ghost q: seq<Node>) returns (b: bool)
    requires Ring(h, q)
    ensures b <==> q == []
  {
    Positions(h, q);
    assert Edge(h, q, 0);
    b := h == h.left;
  }

  method Head(h: Node, ghost q: seq<Node>) returns (x: Node)
    requires Ring(h, q)
    ensures x == if q == [] then h else q[0]
  {
    assert Edge(h, q, 0);
    x := h.left;
  }

  method InsertHead(h: Node, x: Node, ghost q: seq<Node>)
    requires Ring(h, q) && x != h && x !in q
    modifies h`left, q`right, h`right, x`left, x`right, x`pos, q`pos
    ensures Ring(h, [x] + q)
  {
    Positions(h, q);
    assert Edge(h, q, 0);
    x.left := h.left;
    x.right := h;
    x.left.right := x;
    h.left := x;
    forall n | n in q { n.pos := n.pos + 1; }
    x.pos := 1;
    forall i | 0 <= i <= |q| + 1 ensures Edge(h, [x] + q, i) {
      assert i >= 1 ==> old(Edge(h, q, i - 1));
    }
  }

  method InsertTail(h: Node, x: Node, ghost q: seq<Node>)
    requires Ring(h, q) && x != h && x !in q
    modifies h`left, h`right, q`left, x`left, x`right, x`pos
    ensures Ring(h, q + [x])
  {
    assert Edge(h, q, |q|) && Edge(h, q, 0);
    x.left := h;
    x.right := h.right;
    x.right.left := x;
    h.right := x;
    x.pos := |q| + 1;
    forall i | 0 <= i <= |q| + 1 ensures Edge(h, q + [x], i) {
      assert i <= |q| ==> old(Edge(h, q, i));
    }
  }

  method Unlink(x: Node)
    requires x.left != null && x.right != null
    modifies x.right`left, x.left`right
    ensures old(x.right).left == old(x.left)
    ensures old(x.left).right == old(x.right)
  {
    x.right.left := x.left;
    x.left.right := x.right;
  }

  // Unlinks x from whatever ring it is in: it is the member of index k, or a cell alone.
  // The words of x itself are left dangling.
  method Remove(x: Node, ghost h: Node, ghost q: seq<Node>, ghost k: nat)
    requires Ring(h, q)
    requires if x == h then q == [] else k < |q| && q[k] == x
    modifies h`left, h`right, q`left, q`right, q`pos
    ensures Ring(h, if x == h then [] else q[..k] + q[k + 1..])
    ensures x != h ==> x.left == old(x.left) && x.right == old(x.right)
  {
    Positions(h, q);
    RemoveNeighbours(x, h, q, k);
    Unlink(x);
    if x != h {
      ghost var r := q[..k] + q[k + 1..];
      assert old(Edge(h, q, k)) && old(Edge(h, q, k + 1)) && (k + 2 <= |q| ==> old(Edge(h, q, k + 2)));
      forall n | n in q && n.pos > k { n.pos := n.pos - 1; }
      forall i | 0 <= i <= |r| ensures Edge(h, r, i) {
        assert Nth(h, r, i) == if i <= k then Nth(h, q, i) else Nth(h, q, i + 1);
        assert Nth(h, r, i + 1) == if i + 1 <= k then Nth(h, q, i + 1) else Nth(h, q, i + 2);
        assert old(Edge(h, q, i));
        assert old(Edge(h, q, i + 1));
        assert i >= 1 ==> r[i - 1] in q;
      }
    } else {
      assert Edge(h, [], 0);
    }
  }

  lemma RemoveNeighbours(x: Node, h: Node, q: seq<Node>, k: nat)
    requires Ring(h, q)
    requires if x == h then q == [] else k < |q| && q[k] == x
    ensures x == h ==> x.left == x && x.right == x && x.pos == 0
    ensures x != h ==> x.right == Nth(h, q, k) && x.left == Nth(h, q, k + 2) && h.pos == 0 && x.pos == k + 1
    ensures x != h ==> Nth(h, q, k).pos == k && (k + 2 <= |q| ==> Nth(h, q, k + 2).pos == k + 2)
  {
    assert Edge(h, q, 0);
    if x != h {
      assert Edge(h, q, k) && Edge(h, q, k + 1);
      assert k + 2 <= |q| ==> Edge(h, q, k + 2);
    }
  }

  // uv__queue_split: the cells of h from index k on (the first of them is x) move to n.
  method Split(h: Node, x: Node, n: Node, ghost q: seq<Node>, ghost k: nat)
    requires Ring(h, q) && k < |q| && q[k] == x && n != h && n !in q
    modifies h`left, h`right, n`left, n`right, n`pos, q`left, q`right, q`pos
    ensures Ring(h, q[..k]) && Ring(n, q[k..])
  {
    Positions(h, q);
    assert Edge(h, q, k) && Edge(h, q, |q|) && Edge(h, q, 0);
    n.right := h.right;
    n.right.left := n;
    n.left := x;
    h.right := x.right;
    h.right.left := h;
    x.right := n;
    n.pos := 0;
    forall m | m in q && m.pos > k { m.pos := m.pos - k; }
    ghost var a, b := q[..k], q[k..];
    forall i | 0 <= i <= |a| ensures Edge(h, a, i) {
      assert old(Edge(h, q, i));
      assert i >= 1 ==> a[i - 1] in q;
    }
    forall i | 0 <= i <= |b| ensures Edge(n, b, i) {
      assert old(Edge(h, q, i + k));
      assert i >= 1 ==> b[i - 1] == q[i + k - 1] && b[i - 1] in q;
      assert i < |b| ==> b[i] == q[i + k];
    }
  }

  // uv__queue_move: n takes over all cells of h, and h is left empty.
  method Move(h: Node, n: Node, ghost q: seq<Node>)
    requires Ring(h, q) && n != h && n !in q
    modifies h`left, h`right, n`left, n`right, n`pos, q`left, q`right, q`pos
    ensures Ring(h, []) && Ring(n, q)
  {
    var empty := Empty(h, q);
    if empty {
      Init(n);
    } else {
      assert Edge(h, q, 0);
      assert q[0..] == q && q[..0] == [];
      Split(h, h.left, n, q, 0);
    }
  }

  // uv__queue_add: the cells of n are appended to those of h; the head n is left dangling.
  method Add(h: Node, n: Node, ghost q: seq<Node>, ghost r: seq<Node>)
    requires Ring(h, q) && Ring(n, r) && h != n && h !in r && n !in q
    requires forall x :: x in q ==> x !in r
    modifies h`left, h`right, n`right, q`left, r`left, r`right, r`pos
    ensures Ring(h, q + r)
  {
    Positions(h, q);
    Positions(n, r);
    assert Edge(h, q, |q|) && Edge(h, q, 0) && Edge(n, r, 0) && Edge(n, r, |r|);
    h.right.left := n.left;
    n.left.right := h.right;
    h.right := n.right;
    h.right.left := h;
    forall m | m in r { m.pos := m.pos + |q|; }
    var s := q + r;
    forall i | 0 <= i <= |s| ensures Edge(h, s, i) {
      assert i <= |q| ==> old(Edge(h, q, i));
      assert i >= |q| ==> old(Edge(n, r, i - |q|));
    }
  }
}
