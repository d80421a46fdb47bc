// The pointers of libuv's red-black tree, moved in place; the records of RedBlackModel follow every step.
module RedBlack {
  import opened RedBlackModel
  import opened RedBlackShift

  class Node {
    const key: int
    var left: Node?
    var right: Node?
    var parent: Node?
    var red: bool
    // The index of the node in its tree.
    ghost var pos: int

    constructor (k: int)
      ensures key == k && left == null && right == null && parent == null
    {
      key, left, right, parent := k, null, null, null;
    }
  }

  ghost function NodeAt(ins: seq<Node>, i: int): Node? {
    if 0 <= i < |ins| then ins[i] else null
  }

  // Node i has what record i says.
  ghost predicate Mirrors(ins: seq<Node>, m: seq<Rec>, i: int)
    requires 0 <= i < |ins| && |m| == |ins|
    reads ins`left, ins`right, ins`parent, ins`red, ins`pos
  {
    var n := ins[i];
    && n.pos == i && n.left == NodeAt(ins, m[i].left) && n.right == NodeAt(ins, m[i].right)
    && n.parent == NodeAt(ins, m[i].parent) && n.red == m[i].red
  }

  ghost predicate Mirrored(ins: seq<Node>, m: seq<Rec>)
    reads ins`left, ins`right, ins`parent, ins`red, ins`pos
  {
    |m| == |ins| && forall i :: 0 <= i < |ins| ==> Mirrors(ins, m, i)
  }

  ghost predicate Distinct(ins: seq<Node>) {
    forall i, j :: 0 <= i < j < |ins| ==> ins[i] != ins[j]
  }

  lemma SameNode(ins: seq<Node>, a: int, b: int)
    requires Distinct(ins) && -1 <= a < |ins| && -1 <= b < |ins|
    ensures NodeAt(ins, a) == NodeAt(ins, b) <==> a == b
  {
  }

  lemma MirrorsDistinct(ins: seq<Node>, m: seq<Rec>)
    requires Mirrored(ins, m)
    ensures Distinct(ins)
  {
    forall i, j | 0 <= i < j < |ins| ensures ins[i] != ins[j] {
      assert Mirrors(ins, m, i) && Mirrors(ins, m, j);
    }
  }

  // The stretch below the grandparent is the longer one.
  lemma Grows(m: seq<Rec>, root: int, x: int, p: int, g: int)
    requires Linked(m, root) && 0 <= x < |m| && m[x].parent == p && 0 <= p < |m| && m[p].parent == g && 0 <= g < |m|
    ensures Size(m, g) > Size(m, x)
  {
    assert Shape(m, root, x) && Shape(m, root, p) && Shape(m, root, g);
  }

  lemma Bigger(m: seq<Rec>, root: int, par: int, x: int)
    requires Linked(m, root) && 0 <= par < |m| && (x == -1 || (0 <= x < |m| && m[x].parent == par))
    ensures Size(m, par) > Size(m, x)
  {
    assert Shape(m, root, par);
    if x != -1 {
      assert Shape(m, root, x);
    }
  }

  lemma SizeAtMost(m: seq<Rec>, root: int, x: int)
    requires Linked(m, root) && -1 <= x < |m|
    ensures Size(m, x) <= |m|
  {
    if x != -1 {
      SizeBound(m, root, x);
    }
  }

  lemma SizeBound(m: seq<Rec>, root: int, x: int)
    requires Linked(m, root) && 0 <= x < |m|
    ensures 0 < Size(m, x) <= |m|
  {
    assert Shape(m, root, x);
  }

  lemma InsertAscending(s: seq<Node>, elm: Node, p: int)
    requires Ascending(s) && 0 <= p <= |s| && Around(s, p, p, elm.key)
    ensures Ascending(s[..p] + [elm] + s[p..])
  {
    var ins := s[..p] + [elm] + s[p..];
    forall i, j | 0 <= i < j < |ins| ensures Less(ins, i, j) {
      var i', j' := if i < p then i else i - 1, if j < p then j else j - 1;
      if i == p {
        assert KeyAbove(s, j', elm.key);
      } else if j == p {
        assert KeyBelow(s, i', elm.key);
      } else {
        assert Less(s, i', j');
      }
    }
  }

  // Node j, at index at by now, when elm already hangs below node u but is not counted yet.
  ghost predicate LeafMirrors(s: seq<Node>, m: seq<Rec>, elm: Node, u: int, less: bool, j: int, at: int)
    requires |m| == |s| && 0 <= j < |s|
    reads s`left, s`right, s`parent, s`red, s`pos
  {
    var n := s[j];
    && n.pos == at && n.left == (if j == u && less then elm else NodeAt(s, m[j].left))
    && n.right == (if j == u && !less then elm else NodeAt(s, m[j].right))
    && n.parent == NodeAt(s, m[j].parent) && n.red == m[j].red
  }

  lemma LeafReindex(s: seq<Node>, m: seq<Rec>, root: int, elm: Node, u: int, less: bool)
    requires |m| == |s| && 0 <= u < |m| && Free(m, u, less) && Linked(m, root)
    requires elm.pos == LeafIndex(u, less) && elm.parent == s[u] && elm.left == null && elm.right == null && elm.red
    requires forall j :: 0 <= j < |s| ==> LeafMirrors(s, m, elm, u, less, j, Up(j, LeafIndex(u, less)))
    ensures var p := LeafIndex(u, less); Mirrored(s[..p] + [elm] + s[p..], AddLeaf(m, u, less))
  {
    var p := LeafIndex(u, less);
    var ins, r := s[..p] + [elm] + s[p..], AddLeaf(m, u, less);
    NodeUp(s, elm, p, u);
    forall i | 0 <= i < |ins| ensures Mirrors(ins, r, i) {
      if i != p {
        var j := if i < p then i else i - 1;
        assert LeafMirrors(s, m, elm, u, less, j, Up(j, p)) && Shape(m, root, j);
        LeafNodes(s, elm, m, root, u, less, j);
      }
    }
  }

  lemma DropTop(s: seq<Node>, m: seq<Rec>, root: int, q: int)
    requires |m| == |s| && 0 <= q < |m| && Single(m, q) && Linked(m, root)
    ensures NodeAt(s[..q] + s[q + 1..], DropLink(m, q, root)) == NodeAt(s, if root == q then OnlyChild(m, q) else root)
  {
    assert Shape(m, root, q);
    NodeDown(s, q, if root == q then OnlyChild(m, q) else root);
  }

  // Node j, at index at by now, when the pointers to and from node q have been led past it and it is still counted.
  ghost predicate DropMirrors(s: seq<Node>, m: seq<Rec>, q: int, j: int, at: int)
    requires |m| == |s| && 0 <= j < |s| && 0 <= q < |s|
    reads s`left, s`right, s`parent, s`red, s`pos
  {
    var n := s[j];
    && n.pos == at && n.red == m[j].red
    && n.left == NodeAt(s, if m[j].left == q then OnlyChild(m, q) else m[j].left)
    && n.right == NodeAt(s, if m[j].right == q then OnlyChild(m, q) else m[j].right)
    && n.parent == NodeAt(s, if m[j].parent == q then m[q].parent else m[j].parent)
  }

  lemma DropReindex(s: seq<Node>, m: seq<Rec>, root: int, q: int)
    requires |m| == |s| && 0 <= q < |m| && Single(m, q) && Linked(m, root)
    requires forall j :: 0 <= j < |s| && j != q ==> DropMirrors(s, m, q, j, Down(j, q))
    ensures Mirrored(s[..q] + s[q + 1..], Drop(m, q))
  {
    var ins, r := s[..q] + s[q + 1..], Drop(m, q);
    assert Shape(m, root, q);
    forall i | 0 <= i < |ins| ensures Mirrors(ins, r, i) {
      var j := if i < q then i else i + 1;
      assert DropMirrors(s, m, q, j, Down(j, q)) && Shape(m, root, j);
      DropNodes(s, m, root, q, j);
    }
  }

  lemma NotInWithout(s: seq<Node>, q: int)
    requires Distinct(s) && 0 <= q < |s|
    ensures s[q] !in s[..q] + s[q + 1..]
  {
    var r := s[..q] + s[q + 1..];
    forall i | 0 <= i < |r| ensures r[i] != s[q] {
      assert r[i] == s[if i < q then i else i + 1];
    }
  }

  lemma RemoveAscending(s: seq<Node>, p: int)
    requires Ascending(s) && 0 <= p < |s|
    ensures Ascending(s[..p] + s[p + 1..])
  {
    var r := s[..p] + s[p + 1..];
    forall i, j | 0 <= i < j < |r| ensures Less(r, i, j) {
      assert Less(s, if i < p then i else i + 1, if j < p then j else j + 1);
    }
  }

  lemma NodeDown(s: seq<Node>, q: int, i: int)
    requires 0 <= q < |s| && -1 <= i < |s| && i != q
    ensures NodeAt(s[..q] + s[q + 1..], Down(i, q)) == NodeAt(s, i)
  {
  }

  // The records without node q, said with nodes.
  lemma DropNodes(s: seq<Node>, m: seq<Rec>, root: int, q: int, j: int)
    requires |s| == |m| && 0 <= q < |m| && Single(m, q) && Shape(m, root, q) && 0 <= j < |m| && j != q && Shape(m, root, j)
    ensures var ins, r := s[..q] + s[q + 1..], Drop(m, q)[Down(j, q)];
            && ins[Down(j, q)] == s[j] && r.red == m[j].red
            && NodeAt(ins, r.left) == NodeAt(s, if m[j].left == q then OnlyChild(m, q) else m[j].left)
            && NodeAt(ins, r.right) == NodeAt(s, if m[j].right == q then OnlyChild(m, q) else m[j].right)
            && NodeAt(ins, r.parent) == NodeAt(s, if m[j].parent == q then m[q].parent else m[j].parent)
  {
    DropAtIndex(m, q, j);
    NodeDown(s, q, j);
    NodeDown(s, q, if m[j].left == q then OnlyChild(m, q) else m[j].left);
    NodeDown(s, q, if m[j].right == q then OnlyChild(m, q) else m[j].right);
    NodeDown(s, q, if m[j].parent == q then m[q].parent else m[j].parent);
  }

  // The pointers that have been led past node q, said with nodes.
  lemma PastNodes(s: seq<Node>, m: seq<Rec>, root: int, q: int, j: int)
    requires Distinct(s) && |s| == |m| && 0 <= q < |m| && Single(m, q) && Shape(m, root, q) && 0 <= j < |m| && j != q && Shape(m, root, j)
    ensures var elm, child, up := s[q], NodeAt(s, OnlyChild(m, q)), NodeAt(s, m[q].parent);
            && NodeAt(s, if m[j].left == q then OnlyChild(m, q) else m[j].left) ==
               (if s[j] == up && NodeAt(s, m[j].left) == elm then child else NodeAt(s, m[j].left))
            && NodeAt(s, if m[j].right == q then OnlyChild(m, q) else m[j].right) ==
               (if s[j] == up && NodeAt(s, m[j].left) != elm then child else NodeAt(s, m[j].right))
            && NodeAt(s, if m[j].parent == q then m[q].parent else m[j].parent) ==
               (if s[j] == child then up else NodeAt(s, m[j].parent))
  {
    SameNode(s, j, m[q].parent);
    SameNode(s, j, OnlyChild(m, q));
    SameNode(s, m[j].left, q);
  }

  ghost predicate Kid(s: seq<Node>, m: seq<Rec>, z: int, i: int)
    requires |m| == |s| && 0 <= z < |s| && 0 <= i < |s|
  {
    s[i] == NodeAt(s, m[z].left) || s[i] == NodeAt(s, m[z].right)
  }

  // The same records where elm is node z now.
  lemma SwappedNodes(s: seq<Node>, elm: Node, m: seq<Rec>, root: int, z: int, i: int)
    requires Distinct(s) && elm !in s && |s| == |m| && 0 <= z < |m| && Shape(m, root, z) && 0 <= i < |m| && Shape(m, root, i)
    ensures var ins, was, up := s[z := elm], s[z], NodeAt(s, m[z].parent);
            && (i != z ==> ins[i] == s[i])
            && (i != z ==> NodeAt(ins, m[i].left) == (if s[i] == up && NodeAt(s, m[i].left) == was then elm else NodeAt(s, m[i].left)))
            && (i != z ==> NodeAt(ins, m[i].right) == (if s[i] == up && NodeAt(s, m[i].left) != was then elm else NodeAt(s, m[i].right)))
            && (i != z ==> NodeAt(ins, m[i].parent) == (if Kid(s, m, z, i) then elm else NodeAt(s, m[i].parent)))
            && (i == z ==> NodeAt(ins, m[i].left) == NodeAt(s, m[i].left))
            && (i == z ==> NodeAt(ins, m[i].right) == NodeAt(s, m[i].right))
            && (i == z ==> NodeAt(ins, m[i].parent) == NodeAt(s, m[i].parent))
  {
    SameNode(s, i, m[z].parent);
    SameNode(s, m[i].left, z);
    SameNode(s, i, m[z].left);
    SameNode(s, i, m[z].right);
  }

  lemma NodeUp(s: seq<Node>, elm: Node, p: int, i: int)
    requires 0 <= p <= |s| && -1 <= i < |s|
    ensures NodeAt(s[..p] + [elm] + s[p..], Up(i, p)) == NodeAt(s, i)
  {
  }

  // The records with the leaf, said with nodes.
  lemma LeafNodes(s: seq<Node>, elm: Node, m: seq<Rec>, root: int, u: int, less: bool, j: int)
    requires |s| == |m| && 0 <= u < |m| && 0 <= j < |m| && Shape(m, root, j)
    ensures var p := LeafIndex(u, less);
            var ins, r := s[..p] + [elm] + s[p..], AddLeaf(m, u, less)[Up(j, p)];
            && ins[Up(j, p)] == s[j] && r.red == m[j].red && NodeAt(ins, r.parent) == NodeAt(s, m[j].parent)
            && NodeAt(ins, r.left) == (if j == u && less then elm else NodeAt(s, m[j].left))
            && NodeAt(ins, r.right) == (if j == u && !less then elm else NodeAt(s, m[j].right))
  {
    var p := LeafIndex(u, less);
    AddLeafRec(m, u, less, j);
    NodeUp(s, elm, p, j);
    NodeUp(s, elm, p, m[j].left);
    NodeUp(s, elm, p, m[j].right);
    NodeUp(s, elm, p, m[j].parent);
  }

  // The turned record i, said with nodes.
  ghost predicate TurnedLeft(ins: seq<Node>, m: seq<Rec>, e: int, i: int)
    requires |m| == |ins| && 0 <= e < |m| && 0 <= m[e].right < |m| && 0 <= i < |m|
  {
    var r, n, elm, tmp := TurnLeft(m, e), ins[i], ins[e], ins[m[e].right];
    var up, inner := NodeAt(ins, m[e].parent), NodeAt(ins, m[m[e].right].left);
    && NodeAt(ins, r[i].left) == (if n == tmp then elm else if n == up && NodeAt(ins, m[i].left) == elm then tmp else NodeAt(ins, m[i].left))
    && NodeAt(ins, r[i].right) == (if n == elm then inner else if n == up && NodeAt(ins, m[i].left) != elm then tmp else NodeAt(ins, m[i].right))
    && NodeAt(ins, r[i].parent) == (if n == elm then tmp else if n == tmp then up else if n == inner then elm else NodeAt(ins, m[i].parent))
    && r[i].red == m[i].red
  }

  lemma TurnLeftNodes(ins: seq<Node>, m: seq<Rec>, root: int, e: int, i: int)
    requires Distinct(ins) && |m| == |ins| && NearLeft(m, root, e) && 0 <= i < |m| && Shape(m, root, i)
    ensures TurnedLeft(ins, m, e, i)
  {
    var t := m[e].right;
    SameNode(ins, i, e);
    SameNode(ins, i, t);
    SameNode(ins, i, m[e].parent);
    SameNode(ins, i, m[t].left);
    SameNode(ins, m[i].left, e);
  }

  // The turned record i, said with nodes.
  ghost predicate TurnedRight(ins: seq<Node>, m: seq<Rec>, e: int, i: int)
    requires |m| == |ins| && 0 <= e < |m| && 0 <= m[e].left < |m| && 0 <= i < |m|
  {
    var r, n, elm, tmp := TurnRight(m, e), ins[i], ins[e], ins[m[e].left];
    var up, inner := NodeAt(ins, m[e].parent), NodeAt(ins, m[m[e].left].right);
    && NodeAt(ins, r[i].left) == (if n == elm then inner else if n == up && NodeAt(ins, m[i].left) == elm then tmp else NodeAt(ins, m[i].left))
    && NodeAt(ins, r[i].right) == (if n == tmp then elm else if n == up && NodeAt(ins, m[i].left) != elm then tmp else NodeAt(ins, m[i].right))
    && NodeAt(ins, r[i].parent) == (if n == elm then tmp else if n == tmp then up else if n == inner then elm else NodeAt(ins, m[i].parent))
    && r[i].red == m[i].red
  }

  lemma TurnRightNodes(ins: seq<Node>, m: seq<Rec>, root: int, e: int, i: int)
    requires Distinct(ins) && |m| == |ins| && NearRight(m, root, e) && 0 <= i < |m| && Shape(m, root, i)
    ensures TurnedRight(ins, m, e, i)
  {
    var t := m[e].left;
    SameNode(ins, i, e);
    SameNode(ins, i, t);
    SameNode(ins, i, m[e].parent);
    SameNode(ins, i, m[t].right);
    SameNode(ins, m[i].left, e);
  }

  predicate Less(ins: seq<Node>, i: int, j: int)
    requires 0 <= i < |ins| && 0 <= j < |ins|
  {
    ins[i].key < ins[j].key
  }

  ghost predicate Ascending(ins: seq<Node>) {
    forall i, j {:trigger Less(ins, i, j)} :: 0 <= i < j < |ins| ==> Less(ins, i, j)
  }

  predicate KeyBelow(ins: seq<Node>, i: int, k: int)
    requires 0 <= i < |ins|
  {
    ins[i].key < k
  }

  predicate KeyAbove(ins: seq<Node>, i: int, k: int)
    requires 0 <= i < |ins|
  {
    ins[i].key > k
  }

  // The key is between the nodes below a and those from b on.
  ghost predicate Around(ins: seq<Node>, a: int, b: int, k: int) {
    && (forall i {:trigger KeyBelow(ins, i, k)} :: 0 <= i < |ins| && i < a ==> KeyBelow(ins, i, k))
    && (forall i {:trigger KeyAbove(ins, i, k)} :: 0 <= i < |ins| && i >= b ==> KeyAbove(ins, i, k))
  }

  class Tree {
    var root: Node?
    ghost var ins: seq<Node>
    ghost var m: seq<Rec>
    ghost var top: int

    // The pointers form a search tree, linked both ways.
    ghost predicate Formed()
      reads this, ins`left, ins`right, ins`parent, ins`red, ins`pos
    {
      Mirrored(ins, m) && Linked(m, top) && root == NodeAt(ins, top)
    }

    // And it is ordered by key and balanced.
    ghost predicate Valid()
      reads this, ins`left, ins`right, ins`parent, ins`red, ins`pos
    {
      Formed() && RedBlackModel.Valid(m, top) && Ascending(ins)
    }

    // RB_INIT
    constructor ()
      ensures Valid() && ins == []
    {
      root, ins, m, top := null, [], [], -1;
    }

    // The assignments of RB_ROTATE_LEFT, and what they leave in every node.
    method SwingLeft(elm: Node, tmp: Node)
      requires elm in ins && tmp in ins && elm != tmp && tmp == elm.right
      requires tmp.left != null ==> tmp.left in ins && tmp.left != elm && tmp.left != tmp
      requires elm.parent != null ==> elm.parent in ins && elm.parent != elm && elm.parent != tmp && elm.parent != tmp.left
      modifies this`root, ins`left, ins`right, ins`parent
      ensures root == if old(elm.parent) == null then tmp else old(root)
      ensures forall n :: n in ins ==> (n.left == if n == tmp then elm else if n == old(elm.parent) && old(n.left) == elm then tmp else old(n.left))
      ensures forall n :: n in ins ==> (n.right == if n == elm then old(tmp.left) else if n == old(elm.parent) && old(n.left) != elm then tmp else old(n.right))
      ensures forall n :: n in ins ==> (n.parent ==
        if n == elm then tmp else if n == tmp then old(elm.parent) else if n == old(tmp.left) then elm else old(n.parent))
    {
      elm.right := tmp.left;
      if elm.right != null {
        tmp.left.parent := elm;
      }
      tmp.parent := elm.parent;
      if tmp.parent != null {
        if elm == elm.parent.left {
          elm.parent.left := tmp;
        } else {
          elm.parent.right := tmp;
        }
      } else {
        root := tmp;
      }
      tmp.left := elm;
      elm.parent := tmp;
    }

    // RB_ROTATE_LEFT
    method RotateLeft(elm: Node, tmp: Node, ghost e: int)
      requires Formed() && 0 <= e < |ins| && elm == ins[e] && tmp == elm.right
      modifies this`root, this`m, this`top, ins`left, ins`right, ins`parent
      ensures Formed() && 0 <= old(m)[e].right < |m| && m == TurnLeft(old(m), e) && top == NewRoot(old(m), old(top), e, old(m)[e].right)
    {
      LeftFacts(e);
      SwingLeft(elm, tmp);
      top := NewRoot(m, top, e, m[e].right);
      m := TurnLeft(m, e);
      forall i | 0 <= i < |ins| ensures Mirrors(ins, m, i) {
        assert old(Mirrors(ins, m, i)) && TurnedLeft(ins, old(m), e, i);
      }
    }

    lemma LeftFacts(e: int)
      requires Formed() && 0 <= e < |ins| && ins[e].right != null
      ensures Distinct(ins) && NearLeft(m, top, e)
      ensures var elm := ins[e]; var tmp := ins[m[e].right];
        && tmp == elm.right && elm != tmp && elm.parent == NodeAt(ins, m[e].parent) && tmp.left == NodeAt(ins, m[m[e].right].left)
        && (tmp.left != null ==> tmp.left in ins && tmp.left != elm && tmp.left != tmp)
        && (elm.parent != null ==> elm.parent in ins && elm.parent != elm && elm.parent != tmp && elm.parent != tmp.left)
      ensures Linked(TurnLeft(m, e), NewRoot(m, top, e, m[e].right)) && (m[e].parent == -1 <==> ins[e].parent == null)
      ensures forall i :: 0 <= i < |m| ==> TurnedLeft(ins, m, e, i)
    {
      MirrorsDistinct(ins, m);
      assert Shape(m, top, e) && Mirrors(ins, m, e);
      assert Shape(m, top, m[e].right) && (m[e].parent != -1 ==> Shape(m, top, m[e].parent));
      assert Mirrors(ins, m, m[e].right);
      TurnLeftLinked(m, top, e);
      forall i | 0 <= i < |m| ensures TurnedLeft(ins, m, e, i) {
        assert Shape(m, top, i);
        TurnLeftNodes(ins, m, top, e, i);
      }
    }

    // The assignments of RB_ROTATE_RIGHT, and what they leave in every node.
    method SwingRight(elm: Node, tmp: Node)
      requires elm in ins && tmp in ins && elm != tmp && tmp == elm.left
      requires tmp.right != null ==> tmp.right in ins && tmp.right != elm && tmp.right != tmp
      requires elm.parent != null ==> elm.parent in ins && elm.parent != elm && elm.parent != tmp && elm.parent != tmp.right
      modifies this`root, ins`left, ins`right, ins`parent
      ensures root == if old(elm.parent) == null then tmp else old(root)
      ensures forall n :: n in ins ==> (n.left == if n == elm then old(tmp.right) else if n == old(elm.parent) && old(n.left) == elm then tmp else old(n.left))
      ensures forall n :: n in ins ==> (n.right == if n == tmp then elm else if n == old(elm.parent) && old(n.left) != elm then tmp else old(n.right))
      ensures forall n :: n in ins ==> (n.parent ==
        if n == elm then tmp else if n == tmp then old(elm.parent) else if n == old(tmp.right) then elm else old(n.parent))
    {
      elm.left := tmp.right;
      if elm.left != null {
        tmp.right.parent := elm;
      }
      tmp.parent := elm.parent;
      if tmp.parent != null {
        if elm == elm.parent.left {
          elm.parent.left := tmp;
        } else {
          elm.parent.right := tmp;
        }
      } else {
        root := tmp;
      }
      tmp.right := elm;
      elm.parent := tmp;
    }

    // RB_ROTATE_RIGHT
    method RotateRight(elm: Node, tmp: Node, ghost e: int)
      requires Formed() && 0 <= e < |ins| && elm == ins[e] && tmp == elm.left
      modifies this`root, this`m, this`top, ins`left, ins`right, ins`parent
      ensures Formed() && 0 <= old(m)[e].left < |m| && m == TurnRight(old(m), e) && top == NewRoot(old(m), old(top), e, old(m)[e].left)
    {
      RightFacts(e);
      SwingRight(elm, tmp);
      top := NewRoot(m, top, e, m[e].left);
      m := TurnRight(m, e);
      forall i | 0 <= i < |ins| ensures Mirrors(ins, m, i) {
        assert old(Mirrors(ins, m, i)) && TurnedRight(ins, old(m), e, i);
      }
    }

    lemma RightFacts(e: int)
      requires Formed() && 0 <= e < |ins| && ins[e].left != null
      ensures Distinct(ins) && NearRight(m, top, e)
      ensures var elm := ins[e]; var tmp := ins[m[e].left];
        && tmp == elm.left && elm != tmp && elm.parent == NodeAt(ins, m[e].parent) && tmp.right == NodeAt(ins, m[m[e].left].right)
        && (tmp.right != null ==> tmp.right in ins && tmp.right != elm && tmp.right != tmp)
        && (elm.parent != null ==> elm.parent in ins && elm.parent != elm && elm.parent != tmp && elm.parent != tmp.right)
      ensures Linked(TurnRight(m, e), NewRoot(m, top, e, m[e].left)) && (m[e].parent == -1 <==> ins[e].parent == null)
      ensures forall i :: 0 <= i < |m| ==> TurnedRight(ins, m, e, i)
    {
      MirrorsDistinct(ins, m);
      assert Shape(m, top, e) && Mirrors(ins, m, e);
      assert Shape(m, top, m[e].left) && (m[e].parent != -1 ==> Shape(m, top, m[e].parent));
      assert Mirrors(ins, m, m[e].left);
      TurnRightLinked(m, top, e);
      forall i | 0 <= i < |m| ensures TurnedRight(ins, m, e, i) {
        assert Shape(m, top, i);
        TurnRightNodes(ins, m, top, e, i);
      }
    }

    // New records with the old links, and the colours to match.
    lemma Repainted(before: seq<Rec>)
      requires Linked(before, top) && |m| == |before| == |ins| && (forall i :: 0 <= i < |m| ==> SameLinks(before[i], m[i]))
      requires root == NodeAt(ins, top) && (forall i :: 0 <= i < |ins| ==> Mirrors(ins, m, i))
      ensures Formed()
    {
      RelinkLinked(before, m, top);
    }

    // RB_SET_BLACKRED
    method SetBlackRed(black: Node, other: Node, ghost p: int, ghost g: int)
      requires Formed() && 0 <= p < |ins| && 0 <= g < |ins| && p != g && black == ins[p] && other == ins[g]
      modifies this`m, ins`red
      ensures Formed() && m == Swap(old(m), p, g)
    {
      MirrorsDistinct(ins, m);
      black.red := false;
      other.red := true;
      m := Swap(m, p, g);
      forall i | 0 <= i < |ins| ensures Mirrors(ins, m, i) {
        assert old(Mirrors(ins, m, i));
        SameNode(ins, i, p);
        SameNode(ins, i, g);
      }
      Repainted(old(m));
    }

    // ---------------------------------------------------------------------------------------
    // Insertion
    // ---------------------------------------------------------------------------------------

    // elm, node x, and perhaps its parent are red, and nothing else is wrong.
    ghost predicate Inserting(elm: Node, x: int)
      reads this, ins`left, ins`right, ins`parent, ins`red, ins`pos
    {
      Formed() && InsertInv(m, top, x) && ins[x] == elm
    }

    // The nodes that the loop looks at.
    lemma InsertFacts(elm: Node, x: int)
      requires Inserting(elm, x)
      ensures -1 <= m[x].parent < |m| && elm.parent == NodeAt(ins, m[x].parent) && (m[x].parent != -1 ==> ins[m[x].parent].red == Red(m, m[x].parent))
      ensures Red(m, m[x].parent) ==>
        (var p := m[x].parent; var g := m[p].parent; 0 <= g < |m| && p != g && ins[p].parent == ins[g] && Uncle(p, g) && Kids(x, p))
    {
      assert Shape(m, top, x) && Mirrors(ins, m, x);
      if m[x].parent != -1 {
        assert Mirrors(ins, m, m[x].parent);
      }
      if Red(m, m[x].parent) {
        Family(m, top, x);
        KidsFacts(x, m[x].parent);
        UncleFacts(m[x].parent, m[m[x].parent].parent);
      }
    }

    lemma KidsFacts(x: int, p: int)
      requires Formed() && 0 <= p < |m| && 0 <= x < |m| && (m[p].left == x || m[p].right == x)
      ensures Kids(x, p)
    {
      MirrorsDistinct(ins, m);
      assert Shape(m, top, p) && Mirrors(ins, m, p);
      SameNode(ins, m[p].left, x);
      SameNode(ins, m[p].right, x);
    }

    lemma UncleFacts(p: int, g: int)
      requires Formed() && 0 <= p < |m| && 0 <= g < |m| && p != g && (m[g].left == p || m[g].right == p)
      requires var u := Other(m[g], p); u == -1 || (0 <= u < |m| && m[u].parent == g && u != p && u != g)
      ensures Uncle(p, g) && ins[p].parent == NodeAt(ins, m[p].parent)
    {
      MirrorsDistinct(ins, m);
      assert Shape(m, top, g) && Mirrors(ins, m, g) && Mirrors(ins, m, p);
      SameNode(ins, m[g].left, p);
      if Other(m[g], p) != -1 {
        assert Mirrors(ins, m, Other(m[g], p));
      }
    }

    // The uncle, as the pointers give it.
    ghost predicate Uncle(p: int, g: int)
      requires |m| == |ins| && 0 <= p < |m| && 0 <= g < |m|
      reads this, ins`left, ins`right, ins`red
    {
      var u := Other(m[g], p);
      && (ins[g].left == ins[p] <==> m[g].left == p) && (m[g].left == p || m[g].right == p)
      && (if m[g].left == p then ins[g].right else ins[g].left) == NodeAt(ins, u) && -1 <= u < |m| && u != p && u != g
      && (u != -1 ==> ins[u].red == Red(m, u) && m[u].parent == g && 0 <= u)
    }

    ghost predicate Kids(x: int, p: int)
      requires |m| == |ins| && 0 <= p < |m| && 0 <= x < |m|
      reads this, ins`left, ins`right
    {
      && (ins[p].left == ins[x] <==> m[p].left == x) && (ins[p].right == ins[x] <==> m[p].right == x)
      && (m[p].left == x || m[p].right == x)
    }

    // The uncle is red: the parent and the uncle become black and the grandparent red.
    method RecolorUp(elm: Node, parent: Node, gparent: Node, tmp: Node, ghost x: int, ghost p: int, ghost g: int, ghost u: int)
      requires Inserting(elm, x) && m[x].parent == p && FamilyAt(m, p, g, u)
      requires parent == ins[p] && gparent == ins[g] && tmp == ins[u]
      modifies this`m, ins`red
      ensures Inserting(gparent, g) && SizesKept(old(m), m)
    {
      MirrorsDistinct(ins, m);
      RecolorKeeps(m, top, x, p, g, u);
      tmp.red := false;
      parent.red := false;
      gparent.red := true;
      m := Recolor(m, p, g, u);
      forall i | 0 <= i < |ins| ensures Mirrors(ins, m, i) {
        assert old(Mirrors(ins, m, i));
        SameNode(ins, i, p);
        SameNode(ins, i, g);
        SameNode(ins, i, u);
      }
    }

    ghost predicate SizesKept(before: seq<Rec>, after: seq<Rec>) {
      |before| == |after| && forall i :: 0 <= i < |before| ==> Size(after, i) == Size(before, i)
    }

    // The parent is the left child of the grandparent and the uncle is not red.
    method StraightenLeft(elm0: Node, parent0: Node, gparent: Node, ghost x0: int, ghost p0: int, ghost g: int)
      returns (elm: Node, ghost x: int)
      requires Inserting(elm0, x0) && Red(m, p0) && m[x0].parent == p0 && m[p0].parent == g && 0 <= g < |m| && p0 != g
      requires m[g].left == p0 && !Red(m, m[g].right) && Kids(x0, p0) && parent0 == ins[p0] && gparent == ins[g]
      modifies this`root, this`m, this`top, ins`left, ins`right, ins`parent, ins`red
      ensures Inserting(elm, x) && !Red(m, m[x].parent)
    {
      var parent := parent0;
      ghost var p := p0;
      elm, x := elm0, x0;
      if parent.right == elm {
        InnerLeft(m, top, x, p, g);
        RotateLeft(parent, elm, p);
        elm, parent, x, p := parent, elm, p, x;
      }
      OuterRightKeeps(m, top, x, p, g);
      SetBlackRed(parent, gparent, p, g);
      assert Mirrors(ins, m, g);
      RotateRight(gparent, parent, g);
    }

    // The parent is the right child of the grandparent and the uncle is not red.
    method StraightenRight(elm0: Node, parent0: Node, gparent: Node, ghost x0: int, ghost p0: int, ghost g: int)
      returns (elm: Node, ghost x: int)
      requires Inserting(elm0, x0) && Red(m, p0) && m[x0].parent == p0 && m[p0].parent == g && 0 <= g < |m| && p0 != g
      requires m[g].right == p0 && !Red(m, m[g].left) && Kids(x0, p0) && parent0 == ins[p0] && gparent == ins[g]
      modifies this`root, this`m, this`top, ins`left, ins`right, ins`parent, ins`red
      ensures Inserting(elm, x) && !Red(m, m[x].parent)
    {
      var parent := parent0;
      ghost var p := p0;
      elm, x := elm0, x0;
      if parent.left == elm {
        InnerRight(m, top, x, p, g);
        RotateRight(parent, elm, p);
        elm, parent, x, p := parent, elm, p, x;
      }
      OuterLeftKeeps(m, top, x, p, g);
      SetBlackRed(parent, gparent, p, g);
      assert Mirrors(ins, m, g);
      RotateLeft(gparent, parent, g);
    }

    // One iteration of the loop of RB_INSERT_COLOR.
    method InsertStep(elm0: Node, ghost x0: int) returns (elm: Node, ghost x: int)
      requires Inserting(elm0, x0) && Red(m, m[x0].parent)
      modifies this`root, this`m, this`top, ins`left, ins`right, ins`parent, ins`red
      ensures Inserting(elm, x) && (Red(m, m[x].parent) ==> Size(m, x) > old(Size(m, x0)))
    {
      InsertFacts(elm0, x0);
      var parent := elm0.parent;
      var gparent := parent.parent;
      ghost var p := m[x0].parent;
      ghost var g := m[p].parent;
      ghost var u := Other(m[g], p);
      Family(m, top, x0);
      Grows(m, top, x0, p, g);
      if parent == gparent.left {
        var tmp := gparent.right;
        if tmp != null && tmp.red {
          RecolorUp(elm0, parent, gparent, tmp, x0, p, g, u);
          elm, x := gparent, g;
        } else {
          elm, x := StraightenLeft(elm0, parent, gparent, x0, p, g);
        }
      } else {
        var tmp := gparent.left;
        if tmp != null && tmp.red {
          RecolorUp(elm0, parent, gparent, tmp, x0, p, g, u);
          elm, x := gparent, g;
        } else {
          elm, x := StraightenRight(elm0, parent, gparent, x0, p, g);
        }
      }
    }

    // RB_INSERT_COLOR
    method InsertColor(elm0: Node, ghost x0: int)
      requires Inserting(elm0, x0)
      modifies this`root, this`m, this`top, ins`left, ins`right, ins`parent, ins`red
      ensures Formed() && RedBlackModel.Valid(m, top)
    {
      var elm := elm0;
      ghost var x := x0;
      InsertFacts(elm, x);
      while elm.parent != null && elm.parent.red
        invariant Inserting(elm, x)
        decreases if Red(m, m[x].parent) then 1 + |m| - Size(m, x) else 0
      {
        InsertFacts(elm, x);
        SizeBound(m, top, x);
        elm, x := InsertStep(elm, x);
        InsertFacts(elm, x);
        SizeBound(m, top, x);
      }
      InsertFacts(elm, x);
      InsertDone(m, top, x);
      BlackenRoot();
    }

    // RB_COLOR(head->rbh_root, field) = RB_BLACK;
    method BlackenRoot()
      requires Formed() && root != null && 0 <= top < |m|
      modifies this`m, root`red
      ensures Formed() && m == Paint(old(m), top, false, old(m)[top].bh + (if old(m)[top].red then 1 else 0))
    {
      MirrorsDistinct(ins, m);
      PaintLinked(m, top, top, false, m[top].bh + (if m[top].red then 1 else 0));
      root.red := false;
      m := Paint(m, top, false, m[top].bh + (if m[top].red then 1 else 0));
      forall i | 0 <= i < |ins| ensures Mirrors(ins, m, i) {
        assert old(Mirrors(ins, m, i));
        SameNode(ins, i, top);
      }
    }

    // The stretch lo to hi, below tmp, is where the key k is or would be.
    ghost predicate Searching(tmp: Node?, t: int, u: int, lo: int, hi: int, k: int)
      reads this, ins`left, ins`right, ins`parent, ins`red, ins`pos
    {
      && Formed() && Ascending(ins) && tmp == NodeAt(ins, t) && -1 <= t < |ins| && -1 <= u < |ins| && 0 <= lo <= hi <= |ins|
      && Child(m, t, u, lo, hi) && Around(ins, lo, hi, k)
      && (if u == -1 then lo == 0 && hi == |ins| else (lo == u + 1 && m[u].right == t) || (hi == u && m[u].left == t))
    }

    lemma SearchBegins(k: int)
      requires Valid()
      ensures Searching(root, top, -1, 0, |ins|, k)
    {
    }

    // The search goes down from tmp on the side of the key.
    lemma SearchStep(tmp: Node, t: int, u: int, lo: int, hi: int, k: int)
      requires Searching(tmp, t, u, lo, hi, k)
      ensures 0 <= t < |m| && ins[t] == tmp && lo <= t < hi
      ensures k < tmp.key ==> Searching(tmp.left, m[t].left, t, lo, t, k)
      ensures k > tmp.key ==> Searching(tmp.right, m[t].right, t, t + 1, hi, k)
    {
      assert Shape(m, top, t) && Mirrors(ins, m, t);
      if k < tmp.key {
        forall i | t <= i < |ins| ensures KeyAbove(ins, i, k) {
          assert t < i ==> Less(ins, t, i);
        }
      } else if k > tmp.key {
        forall i | 0 <= i <= t ensures KeyBelow(ins, i, k) {
          assert i < t ==> Less(ins, i, t);
        }
      }
    }

    lemma SearchEnds(t: int, u: int, lo: int, hi: int, k: int)
      requires Searching(null, t, u, lo, hi, k)
      ensures lo == hi && t == -1 && forall n :: n in ins ==> n.key != k
    {
      assert lo == hi;
      forall n | n in ins ensures n.key != k {
        var i :| 0 <= i < |ins| && ins[i] == n;
        assert (i < lo ==> KeyBelow(ins, i, k)) && (i >= hi ==> KeyAbove(ins, i, k));
      }
    }

    // RB_FIND
    method Find(k: int) returns (found: Node?)
      requires Valid()
      ensures if found != null then found in ins && found.key == k else forall n :: n in ins ==> n.key != k
    {
      var tmp := root;
      ghost var t, u, lo, hi := top, -1, 0, |ins|;
      SearchBegins(k);
      while tmp != null
        invariant Searching(tmp, t, u, lo, hi, k)
        decreases hi - lo
      {
        SearchStep(tmp, t, u, lo, hi, k);
        if k < tmp.key {
          t, u, hi := m[t].left, t, t;
          tmp := tmp.left;
        } else if k > tmp.key {
          t, u, lo := m[t].right, t, t + 1;
          tmp := tmp.right;
        } else {
          return tmp;
        }
      }
      SearchEnds(t, u, lo, hi, k);
      found := null;
    }

    // RB_NFIND: the first node whose key is not less.
    method FindNext(k: int) returns (res: Node?)
      requires Valid()
      ensures res == null ==> forall n :: n in ins ==> n.key < k
      ensures res != null ==> res in ins && res.key >= k && forall n :: n in ins && n.key >= k ==> res.key <= n.key
    {
      var tmp := root;
      res := null;
      ghost var t, u, lo, hi := top, -1, 0, |ins|;
      SearchBegins(k);
      while tmp != null
        invariant Searching(tmp, t, u, lo, hi, k) && res == NodeAt(ins, hi)
        decreases hi - lo
      {
        SearchStep(tmp, t, u, lo, hi, k);
        if k < tmp.key {
          res := tmp;
          t, u, hi := m[t].left, t, t;
          tmp := tmp.left;
        } else if k > tmp.key {
          t, u, lo := m[t].right, t, t + 1;
          tmp := tmp.right;
        } else {
          LeastFrom(t, k);
          return tmp;
        }
      }
      SearchEnds(t, u, lo, hi, k);
      assert (hi < |ins| ==> KeyAbove(ins, hi, k)) && (hi > 0 ==> KeyBelow(ins, hi - 1, k));
      if hi < |ins| {
        LeastFrom(hi, k);
      } else {
        forall n | n in ins ensures n.key < k {
          var i :| 0 <= i < |ins| && ins[i] == n;
          assert KeyBelow(ins, i, k);
        }
      }
    }

    lemma LeastFrom(t: int, k: int)
      requires Ascending(ins) && 0 <= t < |ins| && ins[t].key >= k
      ensures t == 0 || ins[t - 1].key < k || ins[t].key == k ==> forall n :: n in ins && n.key >= k ==> ins[t].key <= n.key
    {
      if t == 0 || ins[t - 1].key < k || ins[t].key == k {
        forall n | n in ins && n.key >= k ensures ins[t].key <= n.key {
          var i :| 0 <= i < |ins| && ins[i] == n;
          assert (i < t ==> Less(ins, i, t)) && (i < t - 1 ==> Less(ins, i, t - 1)) && (i > t ==> Less(ins, t, i));
        }
      }
    }

    // RB_SET, and elm goes below its parent.
    method SetLeaf(elm: Node, parent: Node?, less: bool)
      requires elm !in ins && (parent != null ==> parent in ins)
      modifies this`root, ins`left, ins`right, elm`left, elm`right, elm`parent, elm`red
      ensures elm.parent == parent && elm.left == null && elm.right == null && elm.red
      ensures root == if parent == null then elm else old(root)
      ensures forall n :: n in ins ==> n.left == (if n == parent && less then elm else old(n.left))
      ensures forall n :: n in ins ==> n.right == (if n == parent && !less then elm else old(n.right))
    {
      elm.parent := parent;
      elm.left, elm.right := null, null;
      elm.red := true;
      if parent != null {
        if less {
          parent.left := elm;
        } else {
          parent.right := elm;
        }
      } else {
        root := elm;
      }
    }

    ghost method ShiftUp(elm: Node, p: int)
      requires elm !in ins
      modifies ins`pos, elm`pos
      ensures elm.pos == p && forall n :: n in ins ==> n.pos == Up(old(n.pos), p)
    {
      forall n | n in ins { n.pos := Up(n.pos, p); }
      elm.pos := p;
    }

    // The first node.
    method LinkFirst(elm: Node)
      requires Formed() && ins == []
      modifies this, elm
      ensures Formed() && ins == [elm] && m == [Rec(-1, -1, -1, true, 0, 1, 0)] && top == 0
    {
      SetLeaf(elm, null, false);
      elm.pos := 0;
      ins, m, top := [elm], [Rec(-1, -1, -1, true, 0, 1, 0)], 0;
    }

    // A further node, below node u.
    method LinkLeaf(elm: Node, parent: Node, less: bool, ghost u: int)
      requires Formed() && elm !in ins && 0 <= u < |m| && parent == ins[u] && Free(m, u, less)
      modifies this, ins`left, ins`right, ins`pos, elm
      ensures ghost var p := LeafIndex(u, less); 0 <= p <= |old(ins)| && ins == old(ins)[..p] + [elm] + old(ins)[p..]
      ensures Formed() && m == AddLeaf(old(m), u, less) && top == Up(old(top), LeafIndex(u, less))
    {
      MirrorsDistinct(ins, m);
      SetLeaf(elm, parent, less);
      forall j | 0 <= j < |ins| ensures LeafMirrors(ins, m, elm, u, less, j, j) {
        assert old(Mirrors(ins, m, j));
        SameNode(ins, j, u);
      }
      FinishLink(elm, u, less);
    }

    ghost method ShiftLeaf(elm: Node, u: int, less: bool)
      requires |m| == |ins| && elm !in ins && 0 <= u < |m| && Free(m, u, less)
      requires forall j :: 0 <= j < |ins| ==> LeafMirrors(ins, m, elm, u, less, j, j)
      modifies ins`pos, elm`pos
      ensures elm.pos == LeafIndex(u, less)
      ensures forall j :: 0 <= j < |ins| ==> LeafMirrors(ins, m, elm, u, less, j, Up(j, LeafIndex(u, less)))
    {
      ghost var p := LeafIndex(u, less);
      ShiftUp(elm, p);
      forall j | 0 <= j < |ins| ensures LeafMirrors(ins, m, elm, u, less, j, Up(j, p)) {
        assert old(LeafMirrors(ins, m, elm, u, less, j, j));
      }
    }

    ghost method FinishLink(elm: Node, u: int, less: bool)
      requires |m| == |ins| && elm !in ins && 0 <= u < |m| && Free(m, u, less) && Linked(m, top) && root == NodeAt(ins, top)
      requires elm.parent == ins[u] && elm.left == null && elm.right == null && elm.red
      requires forall j :: 0 <= j < |ins| ==> LeafMirrors(ins, m, elm, u, less, j, j)
      modifies this`ins, this`m, this`top, ins`pos, elm`pos
      ensures ghost var p := LeafIndex(u, less); 0 <= p <= |old(ins)| && ins == old(ins)[..p] + [elm] + old(ins)[p..]
      ensures Formed() && m == AddLeaf(old(m), u, less) && top == Up(old(top), LeafIndex(u, less))
    {
      AddLeafLinked(m, top, u, less);
      ghost var p := LeafIndex(u, less);
      NodeUp(ins, elm, p, top);
      ShiftLeaf(elm, u, less);
      LeafReindex(ins, m, top, elm, u, less);
      top := Up(top, p);
      ins, m := ins[..p] + [elm] + ins[p..], AddLeaf(m, u, less);
    }

    // RB_INSERT: null if elm went in at its place, or the node that has its key.
    method Insert(elm: Node) returns (existing: Node?, ghost p: int)
      requires Valid() && elm !in ins
      modifies this, ins`left, ins`right, ins`parent, ins`red, ins`pos, elm
      ensures Valid()
      ensures if existing == null then
          0 <= p <= |old(ins)| && ins == old(ins)[..p] + [elm] + old(ins)[p..] && forall n :: n in old(ins) ==> n.key != elm.key
        else ins == old(ins) && m == old(m) && existing in ins && existing.key == elm.key
    {
      var parent, comp;
      ghost var u;
      existing, parent, comp, u, p := Locate(elm.key);
      if existing == null {
        InsertAt(elm, parent, comp < 0, u, p);
      }
    }

    // The search of RB_INSERT: the node with the key, or below which node and on which side it would be.
    method Locate(k: int) returns (found: Node?, parent: Node?, comp: int, ghost u: int, ghost p: int)
      requires Valid()
      ensures found != null ==> found in ins && found.key == k
      ensures found == null ==> -1 <= u < |m| && parent == NodeAt(ins, u) && 0 <= p <= |ins| && Around(ins, p, p, k)
      ensures found == null ==> if u == -1 then |ins| == 0 else Free(m, u, comp < 0) && p == LeafIndex(u, comp < 0)
      ensures found == null ==> forall n :: n in ins ==> n.key != k
    {
      var tmp := root;
      parent, comp := null, 0;
      ghost var t, lo, hi := top, 0, |ins|;
      u, p := -1, 0;
      SearchBegins(k);
      while tmp != null
        invariant Searching(tmp, t, u, lo, hi, k) && parent == NodeAt(ins, u)
        invariant u != -1 ==> if comp < 0 then hi == u && m[u].left == t else lo == u + 1 && m[u].right == t
        decreases hi - lo
      {
        SearchStep(tmp, t, u, lo, hi, k);
        parent := tmp;
        if k < parent.key {
          comp := -1;
          t, u, hi := m[t].left, t, t;
          tmp := tmp.left;
        } else if k > parent.key {
          comp := 1;
          t, u, lo := m[t].right, t, t + 1;
          tmp := tmp.right;
        } else {
          return tmp, parent, comp, u, p;
        }
      }
      SearchEnds(t, u, lo, hi, k);
      p := lo;
      found := null;
    }

    // The leaf is linked where the search ended, and the colours are mended.
    method InsertAt(elm: Node, parent: Node?, less: bool, ghost u: int, ghost p: int)
      requires Valid() && elm !in ins && -1 <= u < |m| && parent == NodeAt(ins, u) && 0 <= p <= |ins| && Around(ins, p, p, elm.key)
      requires if u == -1 then |ins| == 0 else Free(m, u, less) && p == LeafIndex(u, less)
      modifies this, ins`left, ins`right, ins`parent, ins`red, ins`pos, elm
      ensures Valid() && ins == old(ins)[..p] + [elm] + old(ins)[p..]
    {
      InsertAscending(ins, elm, p);
      if parent == null {
        LinkFirst(elm);
        assert Linked(m, top) && Even(m, 0) && Calm(m, 0, 0);
      } else {
        AddLeafColours(m, top, u, less);
        LinkLeaf(elm, parent, less, u);
      }
      InsertColor(elm, p);
    }

    // ---------------------------------------------------------------------------------------
    // Removal
    // ---------------------------------------------------------------------------------------

    // parent is short of a black node on the side of its child elm; nothing else but the colour of elm is wrong.
    ghost predicate Removing(parent: Node?, elm: Node?, par: int, x: int, onLeft: bool)
      reads this, ins`left, ins`right, ins`parent, ins`red, ins`pos
    {
      Formed() && RemoveInv(m, top, par, x, onLeft) && -1 <= x < |m| && parent == NodeAt(ins, par) && elm == NodeAt(ins, x)
    }

    // Blackens elm, if there is one.
    method Blacken(elm: Node?, ghost x: int)
      requires Formed() && -1 <= x < |m| && elm == NodeAt(ins, x)
      modifies this`m, ins`red
      ensures Formed()
      ensures m == if x == -1 then old(m) else Paint(old(m), x, false, old(m)[x].bh + (if old(m)[x].red then 1 else 0))
    {
      if elm != null {
        MirrorsDistinct(ins, m);
        PaintLinked(m, top, x, false, m[x].bh + (if m[x].red then 1 else 0));
        elm.red := false;
        m := Paint(m, x, false, m[x].bh + (if m[x].red then 1 else 0));
        forall i | 0 <= i < |ins| ensures Mirrors(ins, m, i) {
          assert old(Mirrors(ins, m, i));
          SameNode(ins, i, x);
        }
      }
    }

    // The node c of the records, as the pointers give it.
    ghost predicate Gives(n: Node?, c: int)
      requires |m| == |ins|
      reads this, ins`red
    {
      -1 <= c < |m| && n == NodeAt(ins, c) && (n != null <==> c != -1) && (n != null ==> n.red == Red(m, c) && n in ins)
    }

    lemma GivesKids(i: int)
      requires Formed() && 0 <= i < |m|
      ensures Gives(ins[i], i) && Gives(ins[i].left, m[i].left) && Gives(ins[i].right, m[i].right) && Gives(ins[i].parent, m[i].parent)
    {
      assert Shape(m, top, i) && Mirrors(ins, m, i);
      if m[i].left != -1 { assert Mirrors(ins, m, m[i].left); }
      if m[i].right != -1 { assert Mirrors(ins, m, m[i].right); }
      if m[i].parent != -1 { assert Mirrors(ins, m, m[i].parent); }
    }

    // The sibling and both nephews are black: the sibling becomes red, and now the parent is short.
    method ShrinkUp(parent0: Node, elm0: Node?, tmp: Node, ghost par0: int, ghost x0: int, ghost onLeft0: bool, ghost w: int)
      returns (parent: Node?, elm: Node, ghost par: int, ghost x: int, ghost onLeft: bool)
      requires Removing(parent0, elm0, par0, x0, onLeft0) && x0 != top && 0 <= par0 < |m| && !Red(m, x0)
      requires w == (if onLeft0 then m[par0].right else m[par0].left) && 0 <= w < |m| && tmp == ins[w]
      requires !m[w].red && !Red(m, m[w].left) && !Red(m, m[w].right)
      modifies this`m, ins`red
      ensures Removing(parent, elm, par, x, onLeft) && Size(m, x) > old(Size(m, x0))
    {
      MirrorsDistinct(ins, m);
      GivesKids(par0);
      Sibling(m, top, par0, x0, onLeft0);
      ShrinkKeeps(m, top, par0, x0, onLeft0, w);
      Bigger(m, top, par0, x0);
      tmp.red := true;
      m := Shrink(m, w, par0);
      forall i | 0 <= i < |ins| ensures Mirrors(ins, m, i) {
        assert old(Mirrors(ins, m, i));
        SameNode(ins, i, w);
      }
      elm, x := parent0, par0;
      parent, par := elm.parent, m[par0].parent;
      onLeft := par != -1 && m[par].left == x;
    }

    // w takes the colour of the parent, which becomes black like the nephew z.
    method Settle(parent: Node, tmp: Node, nephew: Node, ghost par: int, ghost w: int, ghost z: int)
      requires Formed() && 0 <= par < |m| && 0 <= w < |m| && 0 <= z < |m| && par != w && z != w && z != par
      requires parent == ins[par] && tmp == ins[w] && nephew == ins[z]
      modifies this`m, ins`red
      ensures Formed() && m == Settled(old(m), par, w, z)
    {
      MirrorsDistinct(ins, m);
      assert Mirrors(ins, m, par);
      tmp.red := parent.red;
      parent.red := false;
      nephew.red := false;
      m := Settled(m, par, w, z);
      forall i | 0 <= i < |ins| ensures Mirrors(ins, m, i) {
        assert old(Mirrors(ins, m, i));
        SameNode(ins, i, w);
        SameNode(ins, i, par);
        SameNode(ins, i, z);
      }
      Repainted(old(m));
    }

    // A red sibling comes up over the parent.
    method RaiseSiblingLeft(parent: Node, elm: Node?, tmp: Node, ghost par: int, ghost x: int, ghost w: int)
      requires Removing(parent, elm, par, x, true) && x != top && 0 <= par < |m| && !Red(m, x) && m[par].right == w && Red(m, w) && tmp == ins[w]
      modifies this`root, this`m, this`top, ins`left, ins`right, ins`parent, ins`red
      ensures Removing(parent, elm, par, x, true) && x != top && !Red(m, x) && !Red(m, m[par].right) && Size(m, x) == old(Size(m, x))
    {
      Sibling(m, top, par, x, true);
      RaiseLeft(m, top, par, x, w);
      GivesKids(par);
      SetBlackRed(tmp, parent, w, par);
      GivesKids(par);
      RotateLeft(parent, tmp, par);
    }

    // The near nephew is red, the far one is not: it comes up over the sibling.
    method RaiseNephewLeft(parent: Node, elm: Node?, tmp: Node, oleft: Node, ghost par: int, ghost x: int, ghost w: int, ghost v: int)
      requires Removing(parent, elm, par, x, true) && x != top && 0 <= par < |m| && !Red(m, x) && m[par].right == w && 0 <= w < |m| && !m[w].red
      requires m[w].left == v && Red(m, v) && !Red(m, m[w].right) && tmp == ins[w] && oleft == ins[v]
      modifies this`root, this`m, this`top, ins`left, ins`right, ins`parent, ins`red
      ensures Removing(parent, elm, par, x, true) && x != top && !Red(m, x) && m[par].right == v && !m[v].red && Red(m, m[v].right)
    {
      assert Shape(m, top, w) && Shape(m, top, par);
      NephewLeft(m, top, par, x, w, v);
      SetBlackRed(oleft, tmp, v, w);
      GivesKids(w);
      RotateRight(tmp, oleft, w);
    }

    // The case that ends the loop: the far nephew is red, or becomes so.
    method FinishLeft(parent: Node, elm: Node?, tmp0: Node, ghost par: int, ghost x: int, ghost w0: int)
      requires Removing(parent, elm, par, x, true) && x != top && 0 <= par < |m| && !Red(m, x) && m[par].right == w0 && 0 <= w0 < |m| && !m[w0].red
      requires tmp0 == ins[w0] && (Red(m, m[w0].left) || Red(m, m[w0].right))
      modifies this`root, this`m, this`top, ins`left, ins`right, ins`parent, ins`red
      ensures Formed() && RedBlackModel.Valid(m, top)
    {
      var tmp := tmp0;
      ghost var w := w0;
      GivesKids(w);
      if tmp.right == null || !tmp.right.red {
        var near := tmp.left;
        RaiseNephewLeft(parent, elm, tmp, near, par, x, w, m[w].left);
        GivesKids(par);
        tmp := parent.right;
        w := m[par].right;
      }
      RaiseLastLeft(parent, elm, tmp, par, x, w);
    }

    // The sibling with a red far nephew comes up over the parent.
    method RaiseLastLeft(parent: Node, elm: Node?, tmp: Node, ghost par: int, ghost x: int, ghost w: int)
      requires Removing(parent, elm, par, x, true) && x != top && 0 <= par < |m| && !Red(m, x) && m[par].right == w && 0 <= w < |m| && !m[w].red
      requires tmp == ins[w] && Red(m, m[w].right)
      modifies this`root, this`m, this`top, ins`left, ins`right, ins`parent, ins`red
      ensures Formed() && RedBlackModel.Valid(m, top)
    {
      GivesKids(w);
      assert Shape(m, top, w) && Shape(m, top, par);
      SettleLeft(m, top, par, x, w, m[w].right);
      Settle(parent, tmp, tmp.right, par, w, m[w].right);
      GivesKids(par);
      RotateLeft(parent, tmp, par);
    }

    // One iteration of the loop of RB_REMOVE_COLOR with elm on the left: done is where it breaks.
    method RemoveStepLeft(parent0: Node, elm0: Node?, ghost par0: int, ghost x0: int)
      returns (done: bool, parent: Node?, elm: Node?, ghost par: int, ghost x: int, ghost onLeft: bool)
      requires Removing(parent0, elm0, par0, x0, true) && x0 != top && 0 <= par0 < |m| && !Red(m, x0)
      modifies this`root, this`m, this`top, ins`left, ins`right, ins`parent, ins`red
      ensures if done then Formed() && RedBlackModel.Valid(m, top)
              else Removing(parent, elm, par, x, onLeft) && Size(m, x) > old(Size(m, x0))
    {
      done, parent, elm, par, x, onLeft := false, parent0, elm0, par0, x0, true;
      Sibling(m, top, par, x, true);
      GivesKids(par);
      var tmp := parent0.right;
      if tmp.red {
        RaiseSiblingLeft(parent0, elm, tmp, par, x, m[par].right);
        Sibling(m, top, par, x, true);
        GivesKids(par);
        tmp := parent0.right;
      }
      ghost var w := m[par].right;
      GivesKids(w);
      if (tmp.left == null || !tmp.left.red) && (tmp.right == null || !tmp.right.red) {
        parent, elm, par, x, onLeft := ShrinkUp(parent0, elm, tmp, par, x, true, w);
      } else {
        FinishLeft(parent0, elm, tmp, par, x, w);
        done := true;
      }
    }

    // A red sibling comes up over the parent.
    method RaiseSiblingRight(parent: Node, elm: Node?, tmp: Node, ghost par: int, ghost x: int, ghost w: int)
      requires Removing(parent, elm, par, x, false) && x != top && 0 <= par < |m| && !Red(m, x) && m[par].left == w && Red(m, w) && tmp == ins[w]
      modifies this`root, this`m, this`top, ins`left, ins`right, ins`parent, ins`red
      ensures Removing(parent, elm, par, x, false) && x != top && !Red(m, x) && !Red(m, m[par].left) && Size(m, x) == old(Size(m, x))
    {
      Sibling(m, top, par, x, false);
      RaiseRight(m, top, par, x, w);
      GivesKids(par);
      SetBlackRed(tmp, parent, w, par);
      GivesKids(par);
      RotateRight(parent, tmp, par);
    }

    // The near nephew is red, the far one is not: it comes up over the sibling.
    method RaiseNephewRight(parent: Node, elm: Node?, tmp: Node, oleft: Node, ghost par: int, ghost x: int, ghost w: int, ghost v: int)
      requires Removing(parent, elm, par, x, false) && x != top && 0 <= par < |m| && !Red(m, x) && m[par].left == w && 0 <= w < |m| && !m[w].red
      requires m[w].right == v && Red(m, v) && !Red(m, m[w].left) && tmp == ins[w] && oleft == ins[v]
      modifies this`root, this`m, this`top, ins`left, ins`right, ins`parent, ins`red
      ensures Removing(parent, elm, par, x, false) && x != top && !Red(m, x) && m[par].left == v && !m[v].red && Red(m, m[v].left)
    {
      assert Shape(m, top, w) && Shape(m, top, par);
      NephewRight(m, top, par, x, w, v);
      SetBlackRed(oleft, tmp, v, w);
      GivesKids(w);
      RotateLeft(tmp, oleft, w);
    }

    // The case that ends the loop: the far nephew is red, or becomes so.
    method FinishRight(parent: Node, elm: Node?, tmp0: Node, ghost par: int, ghost x: int, ghost w0: int)
      requires Removing(parent, elm, par, x, false) && x != top && 0 <= par < |m| && !Red(m, x) && m[par].left == w0 && 0 <= w0 < |m| && !m[w0].red
      requires tmp0 == ins[w0] && (Red(m, m[w0].left) || Red(m, m[w0].right))
      modifies this`root, this`m, this`top, ins`left, ins`right, ins`parent, ins`red
      ensures Formed() && RedBlackModel.Valid(m, top)
    {
      var tmp := tmp0;
      ghost var w := w0;
      GivesKids(w);
      if tmp.left == null || !tmp.left.red {
        var near := tmp.right;
        RaiseNephewRight(parent, elm, tmp, near, par, x, w, m[w].right);
        GivesKids(par);
        tmp := parent.left;
        w := m[par].left;
      }
      RaiseLastRight(parent, elm, tmp, par, x, w);
    }

    // The sibling with a red far nephew comes up over the parent.
    method RaiseLastRight(parent: Node, elm: Node?, tmp: Node, ghost par: int, ghost x: int, ghost w: int)
      requires Removing(parent, elm, par, x, false) && x != top && 0 <= par < |m| && !Red(m, x) && m[par].left == w && 0 <= w < |m| && !m[w].red
      requires tmp == ins[w] && Red(m, m[w].left)
      modifies this`root, this`m, this`top, ins`left, ins`right, ins`parent, ins`red
      ensures Formed() && RedBlackModel.Valid(m, top)
    {
      GivesKids(w);
      assert Shape(m, top, w) && Shape(m, top, par);
      SettleRight(m, top, par, x, w, m[w].left);
      Settle(parent, tmp, tmp.left, par, w, m[w].left);
      GivesKids(par);
      RotateRight(parent, tmp, par);
    }

    // One iteration of the loop of RB_REMOVE_COLOR with elm on the right: done is where it breaks.
    method RemoveStepRight(parent0: Node, elm0: Node?, ghost par0: int, ghost x0: int)
      returns (done: bool, parent: Node?, elm: Node?, ghost par: int, ghost x: int, ghost onLeft: bool)
      requires Removing(parent0, elm0, par0, x0, false) && x0 != top && 0 <= par0 < |m| && !Red(m, x0)
      modifies this`root, this`m, this`top, ins`left, ins`right, ins`parent, ins`red
      ensures if done then Formed() && RedBlackModel.Valid(m, top)
              else Removing(parent, elm, par, x, onLeft) && Size(m, x) > old(Size(m, x0))
    {
      done, parent, elm, par, x, onLeft := false, parent0, elm0, par0, x0, false;
      Sibling(m, top, par, x, false);
      GivesKids(par);
      var tmp := parent0.left;
      if tmp.red {
        RaiseSiblingRight(parent0, elm, tmp, par, x, m[par].left);
        Sibling(m, top, par, x, false);
        GivesKids(par);
        tmp := parent0.left;
      }
      ghost var w := m[par].left;
      GivesKids(w);
      if (tmp.left == null || !tmp.left.red) && (tmp.right == null || !tmp.right.red) {
        parent, elm, par, x, onLeft := ShrinkUp(parent0, elm, tmp, par, x, false, w);
      } else {
        FinishRight(parent0, elm, tmp, par, x, w);
        done := true;
      }
    }

    // RB_REMOVE_COLOR
    method RemoveColor(parent0: Node?, elm0: Node?, ghost par0: int, ghost x0: int, ghost onLeft0: bool)
      requires Removing(parent0, elm0, par0, x0, onLeft0)
      modifies this`root, this`m, this`top, ins`left, ins`right, ins`parent, ins`red
      ensures Formed() && RedBlackModel.Valid(m, top)
    {
      var parent, elm := parent0, elm0;
      ghost var par, x, onLeft := par0, x0, onLeft0;
      RemoveFacts(parent, elm, par, x, onLeft);
      while (elm == null || !elm.red) && elm != root
        invariant Removing(parent, elm, par, x, onLeft)
        decreases |m| - Size(m, x)
      {
        RemoveFacts(parent, elm, par, x, onLeft);
        var done;
        if parent.left == elm {
          done, parent, elm, par, x, onLeft := RemoveStepLeft(parent, elm, par, x);
        } else {
          done, parent, elm, par, x, onLeft := RemoveStepRight(parent, elm, par, x);
        }
        if done {
          BlackenBlack();
          return;
        }
        SizeAtMost(m, top, x);
      }
      RemoveFacts(parent, elm, par, x, onLeft);
      RemoveDone(m, top, par, x, onLeft);
      Blacken(elm, x);
    }

    // elm = RB_ROOT(head), made black once more.
    method BlackenBlack()
      requires Formed() && RedBlackModel.Valid(m, top)
      modifies this`m, ins`red
      ensures Formed() && RedBlackModel.Valid(m, top)
    {
      Blacken(root, top);
      assert m == old(m);
    }

    // What the guard of the loop and its first test mean for the records.
    lemma RemoveFacts(parent: Node?, elm: Node?, par: int, x: int, onLeft: bool)
      requires Removing(parent, elm, par, x, onLeft)
      ensures elm == root <==> x == top
      ensures elm == null || !elm.red <==> !Red(m, x)
      ensures x != top ==> parent != null && 0 <= par < |m| && (parent.left == elm <==> onLeft)
    {
      MirrorsDistinct(ins, m);
      SameNode(ins, x, top);
      if x != -1 {
        assert Mirrors(ins, m, x);
      }
      if x != top {
        Sibling(m, top, par, x, onLeft);
        GivesKids(par);
        SameNode(ins, m[par].left, x);
      }
    }

    // if (child) RB_PARENT(child) = parent; and the pointer to elm becomes one to child.
    method LeadPast(elm: Node, child: Node?, parent: Node?)
      requires elm in ins && elm.parent == parent && (child != null ==> child in ins && child != elm)
      requires parent != null ==> parent in ins && parent != elm && parent != child
      modifies this`root, ins`left, ins`right, ins`parent
      ensures root == if parent == null then child else old(root)
      ensures forall n :: n in ins ==> (n.left == if n == parent && old(n.left) == elm then child else old(n.left))
      ensures forall n :: n in ins ==> (n.right == if n == parent && old(n.left) != elm then child else old(n.right))
      ensures forall n :: n in ins ==> (n.parent == if n == child then parent else old(n.parent))
    {
      if child != null {
        child.parent := parent;
      }
      if parent != null {
        if parent.left == elm {
          parent.left := child;
        } else {
          parent.right := child;
        }
      } else {
        root := child;
      }
    }

    lemma UnlinkFacts(q: int)
      requires Formed() && 0 <= q < |m| && Single(m, q)
      ensures Distinct(ins) && Shape(m, top, q)
      ensures var elm, child := ins[q], NodeAt(ins, OnlyChild(m, q));
        && elm.parent == NodeAt(ins, m[q].parent) && (elm.parent == null <==> m[q].parent == -1) && (top == q <==> m[q].parent == -1)
        && (child != null ==> child in ins && child != elm)
        && (elm.parent != null ==> elm.parent in ins && elm.parent != elm && elm.parent != child)
    {
      MirrorsDistinct(ins, m);
      GivesKids(q);
      assert Shape(m, top, q) && Shape(m, top, top);
      if m[q].parent != -1 {
        assert Shape(m, top, m[q].parent);
        SameNode(ins, m[q].parent, q);
        SameNode(ins, m[q].parent, OnlyChild(m, q));
      }
      SameNode(ins, OnlyChild(m, q), q);
    }

    // Node q, with at most one child, leaves the tree; its own fields stay.
    method Unlink(elm: Node, child: Node?, parent: Node?, ghost q: int)
      requires Formed() && 0 <= q < |m| && elm == ins[q] && Single(m, q) && child == NodeAt(ins, OnlyChild(m, q)) && parent == elm.parent
      modifies this`root, this`ins, this`m, this`top, ins`left, ins`right, ins`parent, ins`pos
      ensures Formed() && ins == old(ins)[..q] + old(ins)[q + 1..] && m == Drop(old(m), q) && top == DropLink(old(m), q, old(top))
      ensures elm.left == old(elm.left) && elm.right == old(elm.right) && elm.parent == parent && elm.red == old(elm.red)
    {
      UnlinkFacts(q);
      LeadPast(elm, child, parent);
      forall j | 0 <= j < |ins| && j != q ensures DropMirrors(ins, m, q, j, j) {
        assert old(Mirrors(ins, m, j)) && Shape(m, top, j);
        PastNodes(ins, m, top, q, j);
      }
      FinishUnlink(q);
    }

    ghost method ShiftDown(q: int)
      modifies ins`pos
      ensures forall n :: n in ins ==> n.pos == Down(old(n.pos), q)
    {
      forall n | n in ins { n.pos := Down(n.pos, q); }
    }

    ghost method FinishUnlink(q: int)
      requires |m| == |ins| && 0 <= q < |ins| && Single(m, q) && Linked(m, top)
      requires root == NodeAt(ins, if top == q then OnlyChild(m, q) else top)
      requires forall j :: 0 <= j < |ins| && j != q ==> DropMirrors(ins, m, q, j, j)
      modifies this`ins, this`m, this`top, ins`pos
      ensures Formed() && ins == old(ins)[..q] + old(ins)[q + 1..] && m == Drop(old(m), q) && top == DropLink(old(m), q, old(top))
    {
      DropLinked(m, top, q);
      DropTop(ins, m, top, q);
      ShiftDown(q);
      forall j | 0 <= j < |ins| && j != q ensures DropMirrors(ins, m, q, j, Down(j, q)) {
        assert old(DropMirrors(ins, m, q, j, j));
      }
      DropReindex(ins, m, top, q);
      top := DropLink(m, q, top);
      ins, m := ins[..q] + ins[q + 1..], Drop(m, q);
    }

    // (elm)->field = (old)->field, and what led to old leads to elm.
    method TakeFields(elm: Node, was: Node)
      requires elm !in ins && was in ins && was.left != null && was.left in ins && (was.right != null ==> was.right in ins)
      requires (was.parent != null ==> was.parent in ins && was.parent != was.left && was.parent != was.right && was.parent != was)
      requires was.left != was && was.right != was && was.left != was.right
      modifies this`root, ins`left, ins`right, ins`parent, elm`left, elm`right, elm`parent, elm`red
      ensures elm.left == was.left == old(was.left) && elm.right == was.right == old(was.right)
      ensures elm.parent == was.parent == old(was.parent) && elm.red == was.red == old(was.red)
      ensures root == if old(was.parent) == null then elm else old(root)
      ensures forall n :: n in ins ==> (n.left == if n == old(was.parent) && old(n.left) == was then elm else old(n.left))
      ensures forall n :: n in ins ==> (n.right == if n == old(was.parent) && old(n.left) != was then elm else old(n.right))
      ensures forall n :: n in ins ==> (n.parent == if n == old(was.left) || n == old(was.right) then elm else old(n.parent))
    {
      elm.left, elm.right, elm.parent, elm.red := was.left, was.right, was.parent, was.red;
      if was.parent != null {
        if was.parent.left == was {
          was.parent.left := elm;
        } else {
          was.parent.right := elm;
        }
      } else {
        root := elm;
      }
      was.left.parent := elm;
      if was.right != null {
        was.right.parent := elm;
      }
    }

    // elm takes the place of node z.
    method Substitute(elm: Node, was: Node, ghost z: int)
      requires Formed() && elm !in ins && 0 <= z < |m| && was == ins[z] && m[z].left != -1
      modifies this`root, this`ins, ins`left, ins`right, ins`parent, elm`left, elm`right, elm`parent, elm`red, elm`pos
      ensures Formed() && ins == old(ins)[z := elm]
    {
      SubstituteFacts(z);
      TakeFields(elm, was);
      ghost var s := ins;
      elm.pos := z;
      ins := s[z := elm];
      forall i | 0 <= i < |ins| ensures Mirrors(ins, m, i) {
        assert old(Mirrors(ins, m, i)) && Shape(m, top, i);
        SwappedNodes(s, elm, m, top, z, i);
      }
    }

    lemma SubstituteFacts(z: int)
      requires Formed() && 0 <= z < |m| && m[z].left != -1
      ensures Distinct(ins) && Shape(m, top, z)
      ensures var was := ins[z];
        && was.left == NodeAt(ins, m[z].left) && was.right == NodeAt(ins, m[z].right) && was.parent == NodeAt(ins, m[z].parent)
        && was.left != null && was.left in ins && (was.right != null ==> was.right in ins)
        && (was.parent != null ==> was.parent in ins && was.parent != was.left && was.parent != was.right && was.parent != was)
        && was.left != was && was.right != was && was.left != was.right
        && (was.parent == null <==> m[z].parent == -1) && (was.parent == null <==> z == top)
    {
      MirrorsDistinct(ins, m);
      GivesKids(z);
      assert Shape(m, top, z) && Shape(m, top, top);
      if m[z].parent != -1 { assert Shape(m, top, m[z].parent); }
      SameNode(ins, m[z].left, z);
      SameNode(ins, m[z].right, z);
      SameNode(ins, m[z].left, m[z].right);
      SameNode(ins, m[z].parent, z);
      SameNode(ins, m[z].parent, m[z].left);
      SameNode(ins, m[z].parent, m[z].right);
    }

    // The node of the tree that is furthest to the left below elm.
    method Leftmost(elm0: Node, ghost e0: int) returns (elm: Node, ghost e: int)
      requires Formed() && 0 <= e0 < |m| && elm0 == ins[e0]
      ensures e == m[e0].lo && 0 <= e < |m| && elm == ins[e] && elm.left == null && m[e].left == -1
    {
      elm, e := elm0, e0;
      GivesKids(e);
      assert Shape(m, top, e);
      while elm.left != null
        invariant 0 <= e < |m| && elm == ins[e] && m[e].lo == m[e0].lo && Gives(elm.left, m[e].left) && Shape(m, top, e)
        decreases e
      {
        elm, e := elm.left, m[e].left;
        GivesKids(e);
        assert Shape(m, top, e);
      }
    }

    // RB_NEXT: the next node in order, or null.
    method Next(elm0: Node) returns (elm: Node?)
      requires Formed() && elm0 in ins
      ensures 0 <= elm0.pos < |ins| && ins[elm0.pos] == elm0 && elm == NodeAt(ins, elm0.pos + 1)
    {
      ghost var p := PosOf(elm0);
      GivesKids(p);
      assert Shape(m, top, p);
      elm := elm0;
      if elm.right != null {
        ghost var e := m[p].right;
        GivesKids(e);
        elm, e := Leftmost(elm.right, e);
      } else if elm.parent != null && elm == elm.parent.left {
        IsLeft(p);
        elm := elm.parent;
      } else {
        elm := Climb(elm0, p);
      }
    }

    // The climb of RB_NEXT while the node is a right child.
    method Climb(elm0: Node, ghost p: int) returns (elm: Node?)
      requires Formed() && 0 <= p < |m| && elm0 == ins[p] && elm0.right == null
      ensures elm == NodeAt(ins, p + 1)
    {
      var cur := elm0;
      ghost var c := p;
      GivesKids(c);
      assert Shape(m, top, c);
      while cur.parent != null && cur == cur.parent.right
        invariant 0 <= c < |m| && cur == ins[c] && m[c].hi == p + 1 && Gives(cur.parent, m[c].parent)
        decreases |m| - Size(m, c)
      {
        IsRight(c);
        Bigger(m, top, m[c].parent, c);
        SizeAtMost(m, top, m[c].parent);
        cur, c := cur.parent, m[c].parent;
        GivesKids(c);
      }
      if cur.parent == null {
        assert Shape(m, top, c);
      } else {
        IsLeft(c);
      }
      elm := cur.parent;
    }

    lemma IsLeft(c: int)
      requires Formed() && 0 <= c < |m| && ins[c].parent != null && (ins[c] == ins[c].parent.left || ins[c] != ins[c].parent.right)
      ensures ins[c].parent == NodeAt(ins, m[c].hi)
    {
      MirrorsDistinct(ins, m);
      GivesKids(c);
      assert Shape(m, top, c);
      GivesKids(m[c].parent);
      assert Shape(m, top, m[c].parent);
      SameNode(ins, c, m[m[c].parent].left);
    }

    lemma IsRight(c: int)
      requires Formed() && 0 <= c < |m| && ins[c].parent != null && ins[c] == ins[c].parent.right
      ensures 0 <= m[c].parent < |m| && m[m[c].parent].hi == m[c].hi && m[m[c].parent].right == c
    {
      MirrorsDistinct(ins, m);
      GivesKids(c);
      assert Shape(m, top, c);
      GivesKids(m[c].parent);
      assert Shape(m, top, m[c].parent);
      SameNode(ins, c, m[m[c].parent].right);
    }

    ghost method PosOf(n: Node) returns (p: int)
      requires Formed() && n in ins
      ensures p == n.pos && 0 <= p < |ins| && ins[p] == n
    {
      p :| 0 <= p < |ins| && ins[p] == n;
      assert Mirrors(ins, m, p);
    }

    // RB_REMOVE; p is the index that elm had.
    method Remove(elm: Node) returns (removed: Node, ghost p: int)
      requires Valid() && elm in ins
      modifies this, ins`left, ins`right, ins`parent, ins`red, ins`pos
      ensures Valid() && removed == elm && 0 <= p < |old(ins)| && old(ins)[p] == elm && ins == old(ins)[..p] + old(ins)[p + 1..]
    {
      p := PosOf(elm);
      removed := elm;
      GivesKids(p);
      RemoveAscending(ins, p);
      if elm.left == null {
        RemoveSingle(elm, elm.right, p);
      } else if elm.right == null {
        RemoveSingle(elm, elm.left, p);
      } else {
        RemoveInner(elm, p);
      }
    }

    // A node with at most one child.
    method RemoveSingle(elm: Node, child: Node?, ghost q: int)
      requires Formed() && RedBlackModel.Valid(m, top) && 0 <= q < |m| && elm == ins[q] && Single(m, q) && child == NodeAt(ins, OnlyChild(m, q))
      modifies this, ins`left, ins`right, ins`parent, ins`red, ins`pos
      ensures Formed() && RedBlackModel.Valid(m, top) && ins == old(ins)[..q] + old(ins)[q + 1..]
    {
      var parent, color := elm.parent, elm.red;
      ghost var par, x, onLeft := Dropping(q);
      Unlink(elm, child, parent, q);
      if !color {
        RemoveColor(parent, child, par, x, onLeft);
      }
    }

    // What removing node q leaves to mend.
    ghost method Dropping(q: int) returns (par: int, x: int, onLeft: bool)
      requires Formed() && RedBlackModel.Valid(m, top) && 0 <= q < |m| && Single(m, q)
      ensures ins[q].red == m[q].red && (m[q].red ==> RedBlackModel.Valid(Drop(m, q), DropLink(m, q, top)))
      ensures !m[q].red ==> RemoveInv(Drop(m, q), DropLink(m, q, top), par, x, onLeft)
      ensures par == Down(m[q].parent, q) && x == Down(OnlyChild(m, q), q) && -1 <= par < |m| - 1 && -1 <= x < |m| - 1
      ensures var s := ins[..q] + ins[q + 1..]; NodeAt(s, par) == ins[q].parent && NodeAt(s, x) == NodeAt(ins, OnlyChild(m, q))
    {
      par, x := Down(m[q].parent, q), Down(OnlyChild(m, q), q);
      onLeft := m[q].parent != -1 && 0 <= m[q].parent < |m| && m[m[q].parent].left == q;
      GivesKids(q);
      assert Shape(m, top, q) && (m[q].parent != -1 ==> Shape(m, top, m[q].parent));
      NodeDown(ins, q, m[q].parent);
      NodeDown(ins, q, OnlyChild(m, q));
      if m[q].red {
        DropRed(m, top, q);
      } else {
        DropBlack(m, top, q);
      }
    }

    // A node with two children: the next node in order leaves its place and takes that of was.
    method RemoveInner(was: Node, ghost z: int)
      requires Formed() && RedBlackModel.Valid(m, top) && 0 <= z < |m| && was == ins[z] && was.left != null && was.right != null
      modifies this, ins`left, ins`right, ins`parent, ins`red, ins`pos
      ensures Formed() && RedBlackModel.Valid(m, top) && ins == old(ins)[..z] + old(ins)[z + 1..]
    {
      var elm;
      ghost var q;
      elm, q := NextBelow(was, z);
      var child, parent, color := elm.right, elm.parent, elm.red;
      ghost var par, x, onLeft := Dropping(q);
      InnerFacts(z, q);
      Unlink(elm, child, parent, q);
      if elm.parent == was {
        parent := elm;
      }
      Substitute(elm, was, z);
      if !color {
        RemoveColor(parent, child, par, x, onLeft);
      }
    }

    // The leftmost node on the right of was is the next one in order and has no left child.
    method NextBelow(was: Node, ghost z: int) returns (elm: Node, ghost q: int)
      requires Formed() && 0 <= z < |m| && was == ins[z] && was.left != null && was.right != null
      ensures q == z + 1 && q < |m| && elm == ins[q] && m[q].left == -1 && m[z].left != -1 && elm.right == NodeAt(ins, OnlyChild(m, q))
    {
      GivesKids(z);
      assert Shape(m, top, z);
      assert Shape(m, top, m[z].right) && Mirrors(ins, m, m[z].right);
      elm, q := Leftmost(was.right, m[z].right);
      GivesKids(q);
    }

    // Node z and the parent of the next node q, when q has gone and stands in the place of z.
    lemma InnerFacts(z: int, q: int)
      requires Formed() && 0 <= z && q == z + 1 && q < |m| && Single(m, q) && m[z].left != -1 && m[q].left == -1
      ensures Drop(m, q)[z].left != -1 && ins[q] !in ins[..q] + ins[q + 1..] && (ins[..q] + ins[q + 1..])[z] == ins[z]
      ensures (ins[..q] + ins[q + 1..])[z := ins[q]] == ins[..z] + ins[z + 1..]
      ensures var s := (ins[..q] + ins[q + 1..])[z := ins[q]];
              && NodeAt(s, Down(m[q].parent, q)) == (if ins[q].parent == ins[z] then ins[q] else ins[q].parent)
              && NodeAt(s, Down(OnlyChild(m, q), q)) == NodeAt(ins, OnlyChild(m, q))
    {
      MirrorsDistinct(ins, m);
      GivesKids(q);
      assert Shape(m, top, q) && Shape(m, top, z);
      NotInWithout(ins, q);
      DropAtIndex(m, q, z);
      SameNode(ins, m[q].parent, z);
      NodeDown(ins, q, m[q].parent);
      NodeDown(ins, q, OnlyChild(m, q));
    }
  }
}
