// The top-down splay tree of libuv's tree.h. ins is the in-order sequence of the nodes; every node
// knows in ghost fields its index in it and which stretch of it its subtree covers.
module SplayTree {

  class Node {
    const key: int
    var left: Node?
    var right: Node?
    ghost var pos: int
    ghost var lo: int
    ghost var hi: int

    constructor (k: int)
      ensures key == k && left == null && right == null
    {
      key, left, right := k, null, null;
    }
  }

  predicate Less(ins: seq<Node>, i: int, j: int)
    requires 0 <= i < |ins| && 0 <= j < |ins|
  {
    ins[i].key < ins[j].key
  }

  ghost predicate Ascending(ins: seq<Node>) {
    forall i, j {:trigger Less(ins, i, j)} :: 0 <= i < j < |ins| ==> Less(ins, i, j)
  }

  ghost predicate Placed(ins: seq<Node>)
    reads ins`pos
  {
    forall i :: 0 <= i < |ins| ==> ins[i].pos == i
  }

  // c is the root of the nodes lo to hi, or null if there are none.
  ghost predicate Covers(ins: seq<Node>, c: Node?, lo: int, hi: int)
    reads ins`lo, ins`hi, ins`pos
  {
    if lo == hi then c == null else c != null && c in ins && c.lo == lo <= c.pos < hi == c.hi
  }

  // Node i in a tree that the splaying has cut in three: the nodes below a, those from a to b, and
  // those from b on. What is above the last node below a and what is below node b is open.
  ghost predicate Shape(ins: seq<Node>, i: int, a: int, b: int)
    requires 0 <= i < |ins|
    reads ins`left, ins`right, ins`lo, ins`hi, ins`pos
  {
    var n := ins[i];
    && (if i < a then 0 else if i < b then a else b) <= n.lo <= i
    && i < n.hi <= (if i < a then a else if i < b then b else |ins|)
    && (if i == b then n.lo == b else Covers(ins, n.left, n.lo, i))
    && (if i == a - 1 then n.hi == a else Covers(ins, n.right, i + 1, n.hi))
  }

  ghost predicate Shapes(ins: seq<Node>, a: int, b: int)
    reads ins`left, ins`right, ins`lo, ins`hi, ins`pos
  {
    forall i :: 0 <= i < |ins| ==> Shape(ins, i, a, b)
  }

  // The three parts: root has the middle one, hub, the node on the stack, the roots of the two
  // others, and left and right are where the next nodes go.
  ghost predicate Parts(ins: seq<Node>, root: Node?, hub: Node, left: Node, right: Node, a: int, b: int)
    reads ins`left, ins`right, ins`lo, ins`hi, ins`pos, hub`left, hub`right
  {
    && Placed(ins) && hub !in ins && 0 <= a < b <= |ins| && Shapes(ins, a, b)
    && Covers(ins, root, a, b)
    && (if a == 0 then left == hub else left == ins[a - 1] && Covers(ins, hub.right, 0, a))
    && (if b == |ins| then right == hub else right == ins[b] && Covers(ins, hub.left, b, |ins|))
  }

  lemma Within(ins: seq<Node>, c: Node, a: int, b: int)
    requires Placed(ins) && 0 <= a <= b <= |ins| && Shapes(ins, a, b) && c in ins
    ensures 0 <= c.pos < |ins| && ins[c.pos] == c && Shape(ins, c.pos, a, b)
    ensures 0 <= c.lo <= c.pos < c.hi <= |ins|
  {
    var i :| 0 <= i < |ins| && ins[i] == c;
    assert Shape(ins, i, a, b);
  }

  // The nodes of a subtree cover stretches on one side of its root.
  lemma {:induction false} Nested(ins: seq<Node>, i: int, j: int, a: int, b: int)
    requires Placed(ins) && 0 <= a <= i < b <= |ins| && Shapes(ins, a, b) && ins[i].lo <= j < ins[i].hi
    ensures 0 <= ins[i].lo && ins[i].hi <= |ins|
    ensures j < i ==> ins[i].lo <= ins[j].lo && ins[j].hi <= i
    ensures j > i ==> i < ins[j].lo && ins[j].hi <= ins[i].hi
    decreases ins[i].hi - ins[i].lo
  {
    assert Shape(ins, i, a, b);
    if j < i {
      var c := ins[i].left;
      Within(ins, c, a, b);
      if j != c.pos {
        Nested(ins, c.pos, j, a, b);
      }
    } else if j > i {
      var c := ins[i].right;
      Within(ins, c, a, b);
      if j != c.pos {
        Nested(ins, c.pos, j, a, b);
      }
    }
  }

  lemma AllNested(ins: seq<Node>, i: int, a: int, b: int)
    requires Placed(ins) && 0 <= a <= i < b <= |ins| && Shapes(ins, a, b)
    ensures 0 <= ins[i].lo <= i < ins[i].hi <= |ins|
    ensures forall j :: ins[i].lo <= j < i ==> ins[i].lo <= ins[j].lo && ins[j].hi <= i
    ensures forall j :: i < j < ins[i].hi ==> i < ins[j].lo && ins[j].hi <= ins[i].hi
  {
    assert Shape(ins, i, a, b);
    forall j | ins[i].lo <= j < i ensures ins[i].lo <= ins[j].lo && ins[j].hi <= i {
      Nested(ins, i, j, a, b);
    }
    forall j | i < j < ins[i].hi ensures i < ins[j].lo && ins[j].hi <= ins[i].hi {
      Nested(ins, i, j, a, b);
    }
  }

  predicate KeyBelow(ins: seq<Node>, i: int, k: int)
    requires 0 <= i < |ins|
  {
    ins[i].key < k
  }

  predicate KeyAbove(ins: seq<Node>, i: int, k: int)
    requires 0 <= i < |ins|
  {
    ins[i].key > k
  }

  // The key is between the nodes below a and those from b on.
  ghost predicate Around(ins: seq<Node>, a: int, b: int, k: int) {
    && (forall i {:trigger KeyBelow(ins, i, k)} :: 0 <= i < |ins| && i < a ==> KeyBelow(ins, i, k))
    && (forall i {:trigger KeyAbove(ins, i, k)} :: 0 <= i < |ins| && i >= b ==> KeyAbove(ins, i, k))
  }

  // Node p has the key k, or no node is between it and k.
  ghost predicate Nearest(ins: seq<Node>, p: int, k: int) {
    && 0 <= p < |ins|
    && (ins[p].key < k ==> Around(ins, 0, p + 1, k))
    && (ins[p].key > k ==> Around(ins, p, |ins|, k))
  }

  lemma CutAbove(ins: seq<Node>, a: int, b: int, p: int, k: int)
    requires Ascending(ins) && Around(ins, a, b, k) && 0 <= p < |ins| && k < ins[p].key
    ensures Around(ins, a, p, k)
    ensures p == a ==> Nearest(ins, p, k)
  {
    forall i | p <= i < |ins| ensures KeyAbove(ins, i, k) {
      assert p < i ==> Less(ins, p, i);
    }
  }

  lemma CutBelow(ins: seq<Node>, a: int, b: int, p: int, k: int)
    requires Ascending(ins) && Around(ins, a, b, k) && 0 <= p < |ins| && k > ins[p].key
    ensures Around(ins, p + 1, b, k)
    ensures p == b - 1 ==> Nearest(ins, p, k)
  {
    forall i | 0 <= i <= p ensures KeyBelow(ins, i, k) {
      assert i < p ==> Less(ins, i, p);
    }
  }

  lemma NearestFinds(ins: seq<Node>, p: int, k: int)
    requires Ascending(ins) && Nearest(ins, p, k)
    ensures ins[p].key == k || forall n :: n in ins ==> n.key != k
  {
    forall n | n in ins && ins[p].key != k ensures n.key != k {
      var i :| 0 <= i < |ins| && ins[i] == n;
      if i < p {
        assert Less(ins, i, p) && (ins[p].key > k ==> KeyBelow(ins, i, k));
      } else if i > p {
        assert Less(ins, p, i) && (ins[p].key < k ==> KeyAbove(ins, i, k));
      }
    }
  }

  // Node i where the tree is cut in two before node p and the upper half is to move by d.
  ghost predicate Half(ins: seq<Node>, i: int, p: int, d: int)
    requires 0 <= i < |ins|
    reads ins`left, ins`right, ins`lo, ins`hi, ins`pos
  {
    var n, at := ins[i], if i < p then i else i + d;
    && n.pos == at && (if i < p then 0 else p + d) <= n.lo <= at < n.hi <= (if i < p then p else |ins| + d)
    && Covers(ins, n.left, n.lo, at) && Covers(ins, n.right, at + 1, n.hi)
  }

  ghost predicate Halves(ins: seq<Node>, p: int, d: int)
    reads ins`left, ins`right, ins`lo, ins`hi, ins`pos
  {
    forall i :: 0 <= i < |ins| ==> Half(ins, i, p, d)
  }

  // The upper half, whose root is c, moves on.
  ghost method Move(s: seq<Node>, p: int, d0: int, d: int, c: Node?, b: Node?)
    requires 0 <= p <= |s| && 0 <= d0 && Halves(s, p, d0) && Covers(s, c, p + d0, |s| + d0) && Covers(s, b, 0, p)
    modifies s`pos, s`lo, s`hi
    ensures Halves(s, p, d) && Covers(s, c, p + d, |s| + d) && Covers(s, b, 0, p)
  {
    ShiftBy(s, p, d - d0);
    forall i | 0 <= i < |s| ensures Half(s, i, p, d) {
      assert old(Half(s, i, p, d0));
    }
  }

  ghost method ShiftBy(s: seq<Node>, p: int, d: int)
    modifies s`pos, s`lo, s`hi
    ensures forall n :: n in s ==> n.pos == old(n.pos) + (if old(n.pos) >= p then d else 0)
    ensures forall n :: n in s ==> n.lo == old(n.lo) + (if old(n.pos) >= p then d else 0)
    ensures forall n :: n in s ==> n.hi == old(n.hi) + (if old(n.pos) >= p then d else 0)
  {
    forall n | n in s && n.pos >= p { n.lo := n.lo + d; }
    forall n | n in s && n.pos >= p { n.hi := n.hi + d; }
    forall n | n in s && n.pos >= p { n.pos := n.pos + d; }
  }

  // The bookkeeping of an insertion: elm is between the two halves of s.
  ghost method Join(s: seq<Node>, elm: Node, p: int)
    requires 0 <= p <= |s| && elm !in s && Halves(s, p, 0)
    requires Covers(s, elm.left, 0, p) && Covers(s, elm.right, p, |s|)
    modifies s`pos, s`lo, s`hi, elm`pos, elm`lo, elm`hi
    ensures var ins := s[..p] + [elm] + s[p..];
            Placed(ins) && Shapes(ins, 0, |ins|) && Covers(ins, elm, 0, |ins|)
  {
    ghost var ins := s[..p] + [elm] + s[p..];
    elm.pos, elm.lo, elm.hi := p, 0, |ins|;
    forall i | 0 <= i < |s| ensures Half(s, i, p, 0) {
      assert old(Half(s, i, p, 0));
    }
    Move(s, p, 0, 1, elm.right, elm.left);
    Reindex(s, ins, elm, p);
  }

  lemma Reindex(s: seq<Node>, ins: seq<Node>, elm: Node, p: int)
    requires 0 <= p <= |s| && Halves(s, p, 1) && ins == s[..p] + [elm] + s[p..]
    requires elm.pos == p && elm.lo == 0 && elm.hi == |ins| && Covers(s, elm.left, 0, p) && Covers(s, elm.right, p + 1, |ins|)
    ensures Placed(ins) && Shapes(ins, 0, |ins|) && Covers(ins, elm, 0, |ins|)
  {
    assert ins[p] == elm;
    assert forall n :: n in s ==> n in ins;
    forall i | 0 <= i < |ins| ensures ins[i].pos == i && Shape(ins, i, 0, |ins|) {
      if i != p {
        var j := if i < p then i else i - 1;
        assert Half(s, j, p, 1) && ins[i] == s[j];
      }
    }
  }

  lemma InWithout(ins: seq<Node>, p: int, s: seq<Node>)
    requires 0 <= p < |ins| && s == ins[..p] + ins[p + 1..]
    ensures forall n :: n in ins && n != ins[p] ==> n in s
  {
    forall n | n in ins && n != ins[p] ensures n in s {
      var i :| 0 <= i < |ins| && ins[i] == n;
      assert n == s[if i < p then i else i - 1];
    }
  }

  // Without its root r a tree is two halves, the upper one still one place too far.
  lemma Excise(ins: seq<Node>, r: Node, s: seq<Node>)
    requires Placed(ins) && Shapes(ins, 0, |ins|) && Covers(ins, r, 0, |ins|) && s == ins[..r.pos] + ins[r.pos + 1..]
    ensures Halves(s, r.pos, 1) && Covers(s, r.left, 0, r.pos) && Covers(s, r.right, r.pos + 1, |s| + 1)
  {
    var p := r.pos;
    Within(ins, r, 0, |ins|);
    AllNested(ins, p, 0, |ins|);
    InWithout(ins, p, s);
    forall i | 0 <= i < |s| ensures Half(s, i, p, 1) {
      var j := if i < p then i else i + 1;
      assert Shape(ins, j, 0, |ins|) && s[i] == ins[j];
    }
  }

  lemma RemoveAscending(ins: seq<Node>, s: seq<Node>, p: int)
    requires Ascending(ins) && 0 <= p < |ins| && s == ins[..p] + ins[p + 1..]
    ensures Ascending(s) && Around(s, p, p, ins[p].key)
  {
    forall i, j | 0 <= i < j < |s| ensures Less(s, i, j) {
      assert Less(ins, if i < p then i else i + 1, if j < p then j else j + 1);
    }
    forall i | 0 <= i < p ensures KeyBelow(s, i, ins[p].key) {
      assert Less(ins, i, p);
    }
    forall i | p <= i < |s| ensures KeyAbove(s, i, ins[p].key) {
      assert Less(ins, p, i + 1);
    }
  }

  // The lower half is a tree of its own.
  lemma Lower(s: seq<Node>, p: int, d: int, c: Node?)
    requires 0 <= p <= |s| && 0 <= d && Halves(s, p, d) && Covers(s, c, 0, p)
    ensures Placed(s[..p]) && Shapes(s[..p], 0, p) && Covers(s[..p], c, 0, p)
  {
    var low := s[..p];
    forall n | n in s && n.pos < p ensures n in low {
      var i :| 0 <= i < |s| && s[i] == n;
      assert Half(s, i, p, d);
      assert low[i] == n;
    }
    forall i | 0 <= i < p ensures low[i].pos == i && Shape(low, i, 0, p) {
      assert Half(s, i, p, d);
    }
  }

  lemma InsertAscending(s: seq<Node>, elm: Node, p: int)
    requires Ascending(s) && 0 <= p <= |s| && Around(s, p, p, elm.key)
    ensures Ascending(s[..p] + [elm] + s[p..])
  {
    var ins := s[..p] + [elm] + s[p..];
    forall i, j | 0 <= i < j < |ins| ensures Less(ins, i, j) {
      var i', j' := if i < p then i else i - 1, if j < p then j else j - 1;
      if i == p {
        assert KeyAbove(s, j', elm.key);
      } else if j == p {
        assert KeyBelow(s, i', elm.key);
      } else {
        assert Less(s, i', j');
      }
    }
  }

  // What the loop needs to know of the root of the middle part and its children.
  lemma RootFacts(ins: seq<Node>, root: Node?, hub: Node, left: Node, right: Node, a: int, b: int)
    requires Parts(ins, root, hub, left, right, a, b)
    ensures root != null && root in ins && root != hub && a <= root.pos < b && ins[root.pos] == root
    ensures if root.left == null then root.pos == a else root.left in ins && a <= root.left.pos < root.pos && ins[root.left.pos] == root.left
    ensures if root.right == null then root.pos == b - 1
            else root.right in ins && root.pos < root.right.pos < b && ins[root.right.pos] == root.right
  {
    Within(ins, root, a, b);
    if root.left != null {
      Within(ins, root.left, a, b);
    }
    if root.right != null {
      Within(ins, root.right, a, b);
    }
  }

  // The open slot to the left of right: nothing is said of it yet.
  method SetLeft(ghost ins: seq<Node>, right: Node, c: Node?, ghost a: int, ghost b: int)
    requires Placed(ins) && 0 <= a < b <= |ins| && Shapes(ins, a, b) && (right in ins ==> b < |ins| && right == ins[b])
    modifies right`left
    ensures right.left == c && Shapes(ins, a, b)
  {
    right.left := c;
    forall i | 0 <= i < |ins| ensures Shape(ins, i, a, b) {
      assert old(Shape(ins, i, a, b));
    }
  }

  // The open slot to the right of left.
  method SetRight(ghost ins: seq<Node>, left: Node, c: Node?, ghost a: int, ghost b: int)
    requires Placed(ins) && 0 <= a < b <= |ins| && Shapes(ins, a, b) && (left in ins ==> a > 0 && left == ins[a - 1])
    modifies left`right
    ensures left.right == c && Shapes(ins, a, b)
  {
    left.right := c;
    forall i | 0 <= i < |ins| ensures Shape(ins, i, a, b) {
      assert old(Shape(ins, i, a, b));
    }
  }

  // The nodes below c as the pointers lead to them, from left to right.
  ghost function InOrder(ins: seq<Node>, c: Node?, lo: int, hi: int): seq<Node>
    requires Placed(ins) && Shapes(ins, 0, |ins|) && 0 <= lo <= hi <= |ins| && Covers(ins, c, lo, hi)
    reads ins`left, ins`right, ins`lo, ins`hi, ins`pos
    decreases hi - lo
  {
    if c == null then []
    else
      Within(ins, c, 0, |ins|);
      InOrder(ins, c.left, lo, c.pos) + [c] + InOrder(ins, c.right, c.pos + 1, hi)
  }

  lemma {:induction false} InOrderIsStretch(ins: seq<Node>, c: Node?, lo: int, hi: int)
    requires Placed(ins) && Shapes(ins, 0, |ins|) && 0 <= lo <= hi <= |ins| && Covers(ins, c, lo, hi)
    ensures InOrder(ins, c, lo, hi) == ins[lo..hi]
    decreases hi - lo
  {
    if c != null {
      Within(ins, c, 0, |ins|);
      InOrderIsStretch(ins, c.left, lo, c.pos);
      InOrderIsStretch(ins, c.right, c.pos + 1, hi);
    }
  }

  class Head {
    var root: Node?
    ghost var ins: seq<Node>

    // SPLAY_INIT
    constructor ()
      ensures Valid() && ins == []
    {
      root, ins := null, [];
    }

    ghost predicate Valid()
      reads this, ins`left, ins`right, ins`lo, ins`hi, ins`pos
    {
      Ascending(ins) && Placed(ins) && Shapes(ins, 0, |ins|) && Covers(ins, root, 0, |ins|)
    }

    // SPLAY_ROTATE_RIGHT, where tmp is the left child of the root.
    method RotateRight(tmp: Node, hub: Node, left: Node, right: Node, ghost a: int, ghost b: int)
      requires Parts(ins, root, hub, left, right, a, b) && tmp == root.left
      modifies this`root, root`left, root`lo, tmp`right, tmp`hi
      ensures Parts(ins, root, hub, left, right, a, b) && root == tmp && root.right == old(root)
      ensures root.left == old(root.left.left) && old(root).right == old(root.right)
    {
      Within(ins, root, a, b);
      Within(ins, tmp, a, b);
      var r := root;
      root.left := tmp.right;
      tmp.right := root;
      root := tmp;
      r.lo := tmp.pos + 1;
      tmp.hi := b;
      forall i | 0 <= i < |ins| ensures Shape(ins, i, a, b) {
        assert old(Shape(ins, i, a, b));
      }
    }

    // SPLAY_ROTATE_LEFT, where tmp is the right child of the root.
    method RotateLeft(tmp: Node, hub: Node, left: Node, right: Node, ghost a: int, ghost b: int)
      requires Parts(ins, root, hub, left, right, a, b) && tmp == root.right
      modifies this`root, root`right, root`hi, tmp`left, tmp`lo
      ensures Parts(ins, root, hub, left, right, a, b) && root == tmp && root.left == old(root)
      ensures root.right == old(root.right.right) && old(root).left == old(root.left)
    {
      Within(ins, root, a, b);
      Within(ins, tmp, a, b);
      var r := root;
      root.right := tmp.left;
      tmp.left := root;
      root := tmp;
      r.hi := tmp.pos;
      tmp.lo := a;
      forall i | 0 <= i < |ins| ensures Shape(ins, i, a, b) {
        assert old(Shape(ins, i, a, b));
      }
    }

    // SPLAY_LINKLEFT: the root and all to its right go below right; its left child is the new root.
    method LinkLeft(hub: Node, left: Node, right0: Node, ghost a: int, ghost b0: int) returns (right: Node, ghost b: int)
      requires Parts(ins, root, hub, left, right0, a, b0) && root.left != null
      modifies this`root, right0`left, ins`lo
      ensures Parts(ins, root, hub, left, right, a, b) && a < b == old(root.pos) < b0 && right == old(root) && root == old(root.left)
    {
      right := root;
      b := root.pos;
      Within(ins, root, a, b0);
      SetLeft(ins, right0, root, a, b0);
      root := root.left;
      MoveRight(ins, right, a, b0);
    }

    // SPLAY_LINKRIGHT: the root and all to its left go below left; its right child is the new root.
    method LinkRight(hub: Node, left0: Node, right: Node, ghost a0: int, ghost b: int) returns (left: Node, ghost a: int)
      requires Parts(ins, root, hub, left0, right, a0, b) && root.right != null
      modifies this`root, left0`right, ins`hi
      ensures Parts(ins, root, hub, left, right, a, b) && a0 < a == old(root.pos) + 1 < b && left == old(root) && root == old(root.right)
    {
      left := root;
      a := root.pos + 1;
      Within(ins, root, a0, b);
      SetRight(ins, left0, root, a0, b);
      root := root.right;
      MoveLeft(ins, left, a0, b);
    }

    // SPLAY_ASSEMBLE: the two outer parts become the subtrees of the root.
    method Assemble(hub: Node, left: Node, right: Node, ghost a: int, ghost b: int)
      requires Parts(ins, root, hub, left, right, a, b)
      modifies root`left, root`right, left`right, right`left, ins`lo, ins`hi
      ensures Shapes(ins, 0, |ins|) && Covers(ins, root, 0, |ins|)
    {
      Within(ins, root, a, b);
      ghost var rl, rr := root.left, root.right;
      SetRight(ins, left, root.left, a, b);
      SetLeft(ins, right, root.right, a, b);
      root.left := hub.right;
      root.right := hub.left;
      forall i | 0 <= i < |ins| && i != root.pos ensures Shape(ins, i, a, b) {
        assert old(Shape(ins, i, a, b));
      }
      Merge(ins, root, rl, rr, a, b);
    }

    // The loop body where the key is less than the root's: done is where the loop breaks.
    method StepLeft(k: int, hub: Node, left: Node, right0: Node, ghost a: int, ghost b0: int)
      returns (done: bool, right: Node, ghost b: int)
      requires Ascending(ins) && Parts(ins, root, hub, left, right0, a, b0) && Around(ins, a, b0, k)
      requires root != null && k < root.key
      modifies this`root, ins`left, ins`right, ins`lo, ins`hi, hub`left
      ensures Parts(ins, root, hub, left, right, a, b) && Around(ins, a, b, k)
      ensures if done then b == b0 && right == right0 && Nearest(ins, root.pos, k) else b < b0
    {
      RootFacts(ins, root, hub, left, right0, a, b0);
      CutAbove(ins, a, b0, root.pos, k);
      var tmp := root.left;
      if tmp == null {
        return true, right0, b0;
      }
      var stop := false;
      if k < tmp.key {
        stop := ZigRight(tmp, hub, left, right0, a, b0);
      }
      RootFacts(ins, root, hub, left, right0, a, b0);
      CutAbove(ins, a, b0, root.pos, k);
      if stop {
        return true, right0, b0;
      }
      right, b := LinkLeft(hub, left, right0, a, b0);
      done := false;
    }

    // The rotation, and whether nothing is left of the new root.
    method ZigRight(tmp: Node, hub: Node, left: Node, right: Node, ghost a: int, ghost b: int) returns (stop: bool)
      requires Parts(ins, root, hub, left, right, a, b) && tmp == root.left
      modifies this`root, ins`left, ins`right, ins`lo, ins`hi
      ensures Parts(ins, root, hub, left, right, a, b) && root == tmp && (stop <==> root.left == null)
    {
      RootFacts(ins, root, hub, left, right, a, b);
      RotateRight(tmp, hub, left, right, a, b);
      stop := root.left == null;
    }

    // The loop body where the key is greater than the root's.
    method StepRight(k: int, hub: Node, left0: Node, right: Node, ghost a0: int, ghost b: int)
      returns (done: bool, left: Node, ghost a: int)
      requires Ascending(ins) && Parts(ins, root, hub, left0, right, a0, b) && Around(ins, a0, b, k)
      requires root != null && k > root.key
      modifies this`root, ins`left, ins`right, ins`lo, ins`hi, hub`right
      ensures Parts(ins, root, hub, left, right, a, b) && Around(ins, a, b, k)
      ensures if done then a == a0 && left == left0 && Nearest(ins, root.pos, k) else a > a0
    {
      RootFacts(ins, root, hub, left0, right, a0, b);
      CutBelow(ins, a0, b, root.pos, k);
      var tmp := root.right;
      if tmp == null {
        return true, left0, a0;
      }
      var stop := false;
      if k > tmp.key {
        stop := ZigLeft(tmp, hub, left0, right, a0, b);
      }
      RootFacts(ins, root, hub, left0, right, a0, b);
      CutBelow(ins, a0, b, root.pos, k);
      if stop {
        return true, left0, a0;
      }
      left, a := LinkRight(hub, left0, right, a0, b);
      done := false;
    }

    // The rotation, and whether nothing is right of the new root.
    method ZigLeft(tmp: Node, hub: Node, left: Node, right: Node, ghost a: int, ghost b: int) returns (stop: bool)
      requires Parts(ins, root, hub, left, right, a, b) && tmp == root.right
      modifies this`root, ins`left, ins`right, ins`lo, ins`hi
      ensures Parts(ins, root, hub, left, right, a, b) && root == tmp && (stop <==> root.right == null)
    {
      RootFacts(ins, root, hub, left, right, a, b);
      RotateLeft(tmp, hub, left, right, a, b);
      stop := root.right == null;
    }

    // The loop of SPLAY.
    method SplayLoop(k: int, hub: Node) returns (left: Node, right: Node, ghost a: int, ghost b: int)
      requires Ascending(ins) && Parts(ins, root, hub, hub, hub, 0, |ins|)
      modifies this`root, ins`left, ins`right, ins`lo, ins`hi, hub`left, hub`right
      ensures Parts(ins, root, hub, left, right, a, b) && root != null && Nearest(ins, root.pos, k)
    {
      left, right, a, b := hub, hub, 0, |ins|;
      RootFacts(ins, root, hub, left, right, a, b);
      while k != root.key
        invariant Parts(ins, root, hub, left, right, a, b) && Around(ins, a, b, k)
        invariant root != null && 0 <= root.pos < |ins| && ins[root.pos] == root
        decreases b - a
      {
        var done;
        if k < root.key {
          done, right, b := StepLeft(k, hub, left, right, a, b);
        } else {
          done, left, a := StepRight(k, hub, left, right, a, b);
        }
        if done {
          return;
        }
        RootFacts(ins, root, hub, left, right, a, b);
      }
    }

    // SPLAY: the node nearest to the key comes to the root, and the order stays.
    method Splay(k: int)
      requires Valid() && ins != []
      modifies this`root, ins`left, ins`right, ins`lo, ins`hi
      ensures Valid() && root != null && root in ins && Nearest(ins, root.pos, k)
    {
      var hub := new Node(k);
      var left, right, a, b := SplayLoop(k, hub);
      RootFacts(ins, root, hub, left, right, a, b);
      Assemble(hub, left, right, a, b);
    }

    // SPLAY_FIND
    method Find(k: int) returns (found: Node?)
      requires Valid()
      modifies this`root, ins`left, ins`right, ins`lo, ins`hi
      ensures Valid() && (if found != null then found in ins && found.key == k else forall n :: n in ins ==> n.key != k)
    {
      if root == null {
        return null;
      }
      Splay(k);
      Within(ins, root, 0, |ins|);
      NearestFinds(ins, root.pos, k);
      found := if k == root.key then root else null;
    }

    // SPLAY_INSERT: null if elm went in, before the first greater node, or the node that has its key.
    method Insert(elm: Node) returns (existing: Node?, ghost p: int)
      requires Valid() && elm !in ins
      modifies this, ins`left, ins`right, ins`lo, ins`hi, ins`pos, elm`left, elm`right, elm`lo, elm`hi, elm`pos
      ensures Valid()
      ensures if existing == null then
          0 <= p <= |old(ins)| && ins == old(ins)[..p] + [elm] + old(ins)[p..] && root == elm
          && (forall n :: n in old(ins) ==> n.key != elm.key)
        else ins == old(ins) && existing in ins && existing.key == elm.key
    {
      existing, p := null, 0;
      if root == null {
        elm.left, elm.right := null, null;
      } else {
        Splay(elm.key);
        Within(ins, root, 0, |ins|);
        NearestFinds(ins, root.pos, elm.key);
        if elm.key < root.key {
          p := InsertBefore(elm);
        } else if elm.key > root.key {
          p := InsertAfter(elm);
        } else {
          existing := root;
          return;
        }
      }
      PutRoot(elm, p);
    }

    // elm, with the two halves of the tree below it, becomes the root.
    method PutRoot(elm: Node, ghost p: int)
      requires 0 <= p <= |ins| && elm !in ins && Placed(ins) && Halves(ins, p, 0)
      requires Covers(ins, elm.left, 0, p) && Covers(ins, elm.right, p, |ins|)
      requires Ascending(ins) && Around(ins, p, p, elm.key)
      modifies this, ins`pos, ins`lo, ins`hi, elm`pos, elm`lo, elm`hi
      ensures Valid() && ins == old(ins)[..p] + [elm] + old(ins)[p..] && root == elm
    {
      root := elm;
      InsertAscending(ins, elm, p);
      Join(ins, elm, p);
      ins := ins[..p] + [elm] + ins[p..];
    }

    // The root and what is right of it go to the right of elm, what is left of it to the left.
    method InsertBefore(elm: Node) returns (ghost p: int)
      requires Valid() && root != null && root in ins && elm !in ins && elm.key < root.key && Nearest(ins, root.pos, elm.key)
      modifies root`left, root`lo, elm`left, elm`right
      ensures Placed(ins) && Halves(ins, p, 0) && Covers(ins, elm.left, 0, p) && Covers(ins, elm.right, p, |ins|)
      ensures 0 <= p <= |ins| && Around(ins, p, p, elm.key)
    {
      Within(ins, root, 0, |ins|);
      AllNested(ins, root.pos, 0, |ins|);
      p := root.pos;
      CutAbove(ins, p, |ins|, p, elm.key);
      elm.left := root.left;
      elm.right := root;
      root.left := null;
      root.lo := p;
      forall i | 0 <= i < |ins| ensures Half(ins, i, p, 0) {
        assert old(Shape(ins, i, 0, |ins|));
      }
    }

    // The root and what is left of it go to the left of elm, what is right of it to the right.
    method InsertAfter(elm: Node) returns (ghost p: int)
      requires Valid() && root != null && root in ins && elm !in ins && elm.key > root.key && Nearest(ins, root.pos, elm.key)
      modifies root`right, root`hi, elm`left, elm`right
      ensures Placed(ins) && Halves(ins, p, 0) && Covers(ins, elm.left, 0, p) && Covers(ins, elm.right, p, |ins|)
      ensures 0 <= p <= |ins| && Around(ins, p, p, elm.key)
    {
      Within(ins, root, 0, |ins|);
      AllNested(ins, root.pos, 0, |ins|);
      p := root.pos + 1;
      CutBelow(ins, 0, p, root.pos, elm.key);
      elm.right := root.right;
      elm.left := root;
      root.right := null;
      root.hi := p;
      forall i | 0 <= i < |ins| ensures Half(ins, i, p, 0) {
        assert old(Shape(ins, i, 0, |ins|));
      }
    }

    // SPLAY_REMOVE: elm if a node with its key was there, and p the index of that node, else null.
    method Remove(elm: Node) returns (removed: Node?, ghost p: int)
      requires Valid()
      modifies this, ins`left, ins`right, ins`lo, ins`hi, ins`pos
      ensures Valid()
      ensures if removed == null then ins == old(ins) && forall n :: n in ins ==> n.key != elm.key
              else removed == elm && 0 <= p < |old(ins)| && old(ins)[p].key == elm.key && ins == old(ins)[..p] + old(ins)[p + 1..]
    {
      removed, p := null, 0;
      if root == null {
        return;
      }
      Splay(elm.key);
      RootAt();
      NearestFinds(ins, root.pos, elm.key);
      if elm.key == root.key {
        p := root.pos;
        RemoveRoot(elm.key);
        removed := elm;
      }
    }

    lemma RootAt()
      requires Valid() && root != null
      ensures 0 <= root.pos < |ins| && ins[root.pos] == root && root in ins && root.lo == 0 && root.hi == |ins|
      ensures root.left == null <==> root.pos == 0
      ensures root.right == null <==> root.pos == |ins| - 1
    {
      Within(ins, root, 0, |ins|);
    }

    method RemoveRoot(k: int)
      requires Valid() && root != null && root.key == k
      modifies this, ins`left, ins`right, ins`lo, ins`hi, ins`pos
      ensures Valid() && 0 <= old(root.pos) < |old(ins)| && ins == old(ins)[..old(root.pos)] + old(ins)[old(root.pos) + 1..]
    {
      RootAt();
      ghost var p := root.pos;
      ghost var s := ins[..p] + ins[p + 1..];
      Excise(ins, root, s);
      RemoveAscending(ins, s, p);
      if root.left == null {
        root := root.right;
        Descend(s);
      } else {
        Separate(k, s, p);
      }
    }

    // Nothing was left of the removed root: the upper half is the whole tree.
    ghost method Descend(s: seq<Node>)
      requires Halves(s, 0, 1) && Covers(s, root, 1, |s| + 1) && Ascending(s)
      modifies this`ins, s`pos, s`lo, s`hi
      ensures Valid() && ins == s
    {
      Move(s, 0, 1, 0, root, null);
      ins := s;
      forall i | 0 <= i < |s| ensures s[i].pos == i && Shape(s, i, 0, |s|) {
        assert Half(s, i, 0, 0);
      }
    }

    // The lower half is splayed and the upper one hung below it.
    method Separate(k: int, ghost s: seq<Node>, ghost p: int)
      requires root != null && 0 < p <= |s| && Halves(s, p, 1) && Covers(s, root.left, 0, p) && Covers(s, root.right, p + 1, |s| + 1)
      requires Ascending(s) && Around(s, p, p, k)
      modifies this, s`left, s`right, s`lo, s`hi, s`pos
      ensures Valid() && ins == s
    {
      var tmp := root.right;
      root := root.left;
      SplayLower(k, s, p);
      Graft(tmp, s, p);
    }

    // SPLAY of the lower half, where every key is less: its last node comes to the root.
    method SplayLower(k: int, ghost s: seq<Node>, ghost p: int)
      requires 0 < p <= |s| && Halves(s, p, 1) && Covers(s, root, 0, p) && Around(s, p, p, k) && Ascending(s)
      modifies this, s[..p]`left, s[..p]`right, s[..p]`lo, s[..p]`hi
      ensures Halves(s, p, 1) && Covers(s, root, 0, p) && root.right == null && root.pos == p - 1
      ensures forall n :: n in s && n.pos > p ==> n.lo == old(n.lo) && n.hi == old(n.hi)
    {
      Lower(s, p, 1, root);
      ins := s[..p];
      forall i, j | 0 <= i < j < p ensures Less(ins, i, j) {
        assert Less(s, i, j);
      }
      Splay(k);
      RootAt();
      assert KeyBelow(s, root.pos, k);
      assert KeyBelow(s, p - 1, k) && !KeyAbove(ins, p - 1, k);
      forall i | 0 <= i < |s| ensures Half(s, i, p, 1) {
        if i < p {
          assert Shape(ins, i, 0, p) && ins[i] == s[i];
        } else {
          assert old(Half(s, i, p, 1));
        }
      }
    }

    // The upper half goes below the root of the lower one.
    method Graft(tmp: Node?, ghost s: seq<Node>, ghost p: int)
      requires 0 < p <= |s| && Halves(s, p, 1) && Covers(s, root, 0, p) && Covers(s, tmp, p + 1, |s| + 1) && Ascending(s)
      requires root.right == null && root.pos == p - 1
      modifies this, s`right, s`pos, s`lo, s`hi
      ensures Valid() && ins == s
    {
      Move(s, p, 1, 0, tmp, root);
      label L:
      root.right := tmp;
      root.hi := |s|;
      ins := s;
      forall i | 0 <= i < |s| ensures s[i].pos == i && Shape(s, i, 0, |s|) {
        assert old@L(Half(s, i, p, 0));
      }
    }
  }

  // The bookkeeping of LinkLeft: the root r of the middle part is now the first node of the right one.
  ghost method MoveRight(ins: seq<Node>, r: Node, a: int, b0: int)
    requires Placed(ins) && 0 <= a < b0 <= |ins| && Shapes(ins, a, b0)
    requires Covers(ins, r, a, b0) && r.left != null && (b0 < |ins| ==> ins[b0].left == r)
    modifies ins`lo
    ensures Shapes(ins, a, r.pos) && r.lo == r.pos
    ensures forall n :: n in ins && n != r ==> n.lo == if old(n.lo) == b0 && n.pos >= b0 then r.pos else old(n.lo)
  {
    var b := r.pos;
    Within(ins, r, a, b0);
    AllNested(ins, b, a, b0);
    forall n | n in ins && (n == r || (n.pos >= b0 && n.lo == b0)) { n.lo := b; }
    forall i | 0 <= i < |ins| ensures Shape(ins, i, a, b) {
      assert old(Shape(ins, i, a, b0));
    }
  }

  // The bookkeeping of LinkRight: the root r of the middle part is now the last node of the left one.
  ghost method MoveLeft(ins: seq<Node>, r: Node, a0: int, b: int)
    requires Placed(ins) && 0 <= a0 < b <= |ins| && Shapes(ins, a0, b)
    requires Covers(ins, r, a0, b) && r.right != null && (a0 > 0 ==> ins[a0 - 1].right == r)
    modifies ins`hi
    ensures Shapes(ins, r.pos + 1, b) && r.hi == r.pos + 1
    ensures forall n :: n in ins && n != r ==> n.hi == if old(n.hi) == a0 && n.pos < a0 then r.pos + 1 else old(n.hi)
  {
    var a := r.pos + 1;
    Within(ins, r, a0, b);
    AllNested(ins, r.pos, a0, b);
    forall n | n in ins && (n == r || (n.pos < a0 && n.hi == a0)) { n.hi := a; }
    forall i | 0 <= i < |ins| ensures Shape(ins, i, a, b) {
      assert old(Shape(ins, i, a0, b));
    }
  }

  // The bookkeeping of Assemble: rl and rr were the children of the root r.
  ghost method Merge(ins: seq<Node>, r: Node, rl: Node?, rr: Node?, a: int, b: int)
    requires Placed(ins) && 0 <= a <= r.pos < b <= |ins| && ins[r.pos] == r && r.lo == a && r.hi == b
    requires forall i :: 0 <= i < |ins| && i != r.pos ==> Shape(ins, i, a, b)
    requires Covers(ins, rl, a, r.pos) && Covers(ins, rr, r.pos + 1, b)
    requires if a == 0 then r.left == rl else Covers(ins, r.left, 0, a) && ins[a - 1].right == rl
    requires if b == |ins| then r.right == rr else Covers(ins, r.right, b, |ins|) && ins[b].left == rr
    modifies ins`lo, ins`hi
    ensures Shapes(ins, 0, |ins|) && Covers(ins, r, 0, |ins|)
  {
    MergeLow(ins, r, rl, a, b);
    MergeHigh(ins, r, rr, b);
  }

  ghost method MergeLow(ins: seq<Node>, r: Node, rl: Node?, a: int, b: int)
    requires Placed(ins) && 0 <= a <= r.pos < b <= |ins| && ins[r.pos] == r && r.lo == a && r.hi == b
    requires forall i :: 0 <= i < |ins| && i != r.pos ==> Shape(ins, i, a, b)
    requires Covers(ins, rl, a, r.pos)
    requires if a == 0 then r.left == rl else Covers(ins, r.left, 0, a) && ins[a - 1].right == rl
    modifies r`lo, ins`hi
    ensures forall i :: 0 <= i < |ins| && i != r.pos ==> Shape(ins, i, 0, b)
    ensures r.lo == 0 && Covers(ins, r.left, 0, r.pos)
    ensures forall n :: n in ins && n.pos >= a ==> n.hi == old(n.hi)
  {
    r.lo := 0;
    forall n | n in ins && n.pos < a && n.hi == a { n.hi := r.pos; }
    forall i | 0 <= i < |ins| && i != r.pos ensures Shape(ins, i, 0, b) {
      assert old(Shape(ins, i, a, b));
    }
  }

  ghost method MergeHigh(ins: seq<Node>, r: Node, rr: Node?, b: int)
    requires Placed(ins) && 0 <= r.pos < b <= |ins| && ins[r.pos] == r && r.lo == 0 && r.hi == b
    requires forall i :: 0 <= i < |ins| && i != r.pos ==> Shape(ins, i, 0, b)
    requires Covers(ins, rr, r.pos + 1, b) && Covers(ins, r.left, 0, r.pos)
    requires if b == |ins| then r.right == rr else Covers(ins, r.right, b, |ins|) && ins[b].left == rr
    modifies r`hi, ins`lo
    ensures Shapes(ins, 0, |ins|) && Covers(ins, r, 0, |ins|)
  {
    r.hi := |ins|;
    forall n | n in ins && n.pos >= b && n.lo == b { n.lo := r.pos + 1; }
    forall i | 0 <= i < |ins| ensures Shape(ins, i, 0, |ins|) {
      if i != r.pos {
        assert old(Shape(ins, i, 0, b));
      }
    }
  }
}
