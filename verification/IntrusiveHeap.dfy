// The parent-linked binary min-heap of src/heap-inl.h, proved to be a complete binary tree
// stored in level order: slot i of the ghost array has its parent in slot i / 2 and its
// children in slots 2i and 2i + 1.
module IntrusiveHeap {
  import opened Storage

  // Slots are numbered from 1, as the bit paths of the C code number them.
  ghost function At(s: seq<Node>, i: int): Node? {
    if 1 <= i <= |s| then s[i - 1] else null
  }

  ghost function Elements(s: seq<Node>): set<Node> {
    set n | n in s
  }

  ghost predicate Links(s: seq<Node>, i: int)
    requires 1 <= i <= |s|
    reads s`left, s`right, s`parent, s`pos
  {
    var n := s[i - 1];
    n.pos == i && n.left == At(s, 2 * i) && n.right == At(s, 2 * i + 1) && n.parent == At(s, i / 2)
  }

  // All three links of every node are those of the complete tree; no node occurs twice.
  ghost predicate Linked(s: seq<Node>)
    reads s`left, s`right, s`parent, s`pos
  {
    forall i :: 1 <= i <= |s| ==> Links(s, i)
  }

  lemma Positions(s: seq<Node>)
    requires Linked(s)
    ensures forall n :: n in s ==> 1 <= n.pos <= |s| && s[n.pos - 1] == n
  {
    forall n | n in s ensures 1 <= n.pos <= |s| && s[n.pos - 1] == n {
      var i :| 0 <= i < |s| && s[i] == n;
      assert Links(s, i + 1);
    }
  }

  // ---------------------------------------------------------------------------------------
  // The heap order
  // ---------------------------------------------------------------------------------------

  // Slot i is not below its parent in the order.
  ghost predicate InOrder(s: seq<Node>, i: int)
    requires 2 <= i <= |s|
    reads s`timeout, s`startId
  {
    !Less(s[i - 1].Rank(), s[i / 2 - 1].Rank())
  }

  ghost predicate Ordered(s: seq<Node>)
    reads s`timeout, s`startId
  {
    forall i :: 2 <= i <= |s| ==> InOrder(s, i)
  }

  // Slot i is not below the parent of its parent.
  ghost predicate BelowGrand(s: seq<Node>, i: int)
    requires 4 <= i <= |s|
    reads s`timeout, s`startId
  {
    !Less(s[i - 1].Rank(), s[i / 2 / 2 - 1].Rank())
  }

  // Ordered but for the edge from slot j up to its parent.
  ghost predicate OrderedButUp(s: seq<Node>, j: int)
    reads s`timeout, s`startId
  {
    && (forall i :: 2 <= i <= |s| && i != j ==> InOrder(s, i))
    && (forall i :: 4 <= i <= |s| && i / 2 == j ==> BelowGrand(s, i))
  }

  // Ordered but for the edges from slot j to its parent and to its children.
  ghost predicate OrderedButAround(s: seq<Node>, j: int)
    reads s`timeout, s`startId
  {
    && (forall i :: 2 <= i <= |s| && i != j && i / 2 != j ==> InOrder(s, i))
    && (forall i :: 4 <= i <= |s| && i / 2 == j ==> BelowGrand(s, i))
  }

  lemma {:induction false} RootIsLeast(s: seq<Node>, i: int)
    requires Ordered(s) && 1 <= i <= |s|
    ensures !Less(s[i - 1].Rank(), s[0].Rank())
    decreases i
  {
    if i >= 2 {
      assert InOrder(s, i);
      RootIsLeast(s, i / 2);
    }
  }

  ghost function Swapped(s: seq<Node>, i: int, j: int): (r: seq<Node>)
    requires 1 <= i <= |s| && 1 <= j <= |s|
    ensures |r| == |s|
  {
    s[i - 1 := s[j - 1]][j - 1 := s[i - 1]]
  }

  lemma SwappedElements(s: seq<Node>, i: int, j: int)
    requires 1 <= i <= |s| && 1 <= j <= |s|
    ensures Elements(Swapped(s, i, j)) == Elements(s)
  {
    var r := Swapped(s, i, j);
    forall n | n in s ensures n in r {
      var k :| 0 <= k < |s| && s[k] == n;
      assert r[if k == i - 1 then j - 1 else if k == j - 1 then i - 1 else k] == n;
    }
  }

  // One step of the walk up: the unordered edge moves one level towards the root.
  lemma SwapUp(s: seq<Node>, j: int)
    requires 2 <= j <= |s| && OrderedButUp(s, j) && Less(s[j - 1].Rank(), s[j / 2 - 1].Rank())
    ensures OrderedButUp(Swapped(s, j / 2, j), j / 2)
  {
    var r, h := Swapped(s, j / 2, j), j / 2;
    forall i | 2 <= i <= |r| && i != h ensures InOrder(r, i) {
      assert i != j ==> InOrder(s, i);
      assert i / 2 == j ==> BelowGrand(s, i);
    }
    forall i | 4 <= i <= |r| && i / 2 == h ensures BelowGrand(r, i) {
      assert InOrder(s, h);
      assert i != j ==> InOrder(s, i);
    }
  }

  // One step of the walk down: c is the smaller child of slot j and goes up.
  lemma SwapDown(s: seq<Node>, j: int, c: int)
    requires 1 <= j && c / 2 == j && 2 <= c <= |s| && OrderedButAround(s, j)
    requires Less(s[c - 1].Rank(), s[j - 1].Rank())
    requires forall i :: 2 <= i <= |s| && i / 2 == j ==> !Less(s[i - 1].Rank(), s[c - 1].Rank())
    ensures OrderedButAround(Swapped(s, j, c), c)
  {
    var r := Swapped(s, j, c);
    forall i | 2 <= i <= |r| && i != c && i / 2 != c ensures InOrder(r, i) {
      assert i != j && i / 2 != j ==> InOrder(s, i);
      assert i == j ==> BelowGrand(s, c);
    }
    forall i | 4 <= i <= |r| && i / 2 == c ensures BelowGrand(r, i) {
      assert InOrder(s, i);
    }
  }

  // Moving the last node into slot p of the rest disturbs the order only around p.
  lemma ReplaceOrder(s: seq<Node>, p: int)
    requires Ordered(s) && 1 <= p < |s|
    ensures OrderedButAround(s[..|s| - 1][p - 1 := s[|s| - 1]], p)
  {
    var r := s[..|s| - 1][p - 1 := s[|s| - 1]];
    forall i | 2 <= i <= |r| && i != p && i / 2 != p ensures InOrder(r, i) {
      assert InOrder(s, i);
    }
    forall i | 4 <= i <= |r| && i / 2 == p ensures BelowGrand(r, i) {
      assert InOrder(s, i) && InOrder(s, p);
    }
  }

  lemma WithoutLast(s: seq<Node>, p: int)
    requires Linked(s) && 1 <= p <= |s|
    ensures var r, last := s[..|s| - 1], s[|s| - 1];
      && last !in r
      && Elements(r) == Elements(s) - {last}
      && (Ordered(s) ==> Ordered(r))
      && (p < |s| ==> s[p - 1] != last && Elements(r[p - 1 := last]) == Elements(s) - {s[p - 1]})
  {
    var r, last := s[..|s| - 1], s[|s| - 1];
    Positions(s);
    assert Links(s, |s|) && Links(s, p);
    forall n | n in r ensures n in s && n != last {
      var i :| 0 <= i < |r| && r[i] == n;
      assert Links(s, i + 1);
    }
    assert forall i :: 2 <= i <= |r| && InOrder(s, i) ==> InOrder(r, i);
    if p < |s| {
      var t := r[p - 1 := last];
      forall n | n in s && n != s[p - 1] ensures n in t {
        assert t[if n == last then p - 1 else n.pos - 1] == n;
      }
      forall n | n in t ensures n in s && n != s[p - 1] {
        var i :| 0 <= i < |t| && t[i] == n;
        assert Links(s, i + 1);
      }
    }
  }

  // ---------------------------------------------------------------------------------------
  // The bit path
  // ---------------------------------------------------------------------------------------

  // Where k steps lead from slot i when the lowest bit of path says right or left.
  ghost function Descend(i: nat, k: nat, path: nat): nat
    decreases k
  {
    if k == 0 then i else Descend(2 * i + path % 2, k - 1, path / 2)
  }

  lemma {:induction false} DescendGrows(i: nat, k: nat, path: nat)
    ensures Descend(i, k, path) >= i
    decreases k
  {
    if k > 0 {
      DescendGrows(2 * i + path % 2, k - 1, path / 2);
    }
  }

  lemma DescendStep(n: nat, k: nat, path: nat)
    ensures Descend(n / 2, k + 1, path * 2 + n % 2) == Descend(n, k, path)
  {
    assert (path * 2 + n % 2) % 2 == n % 2 && (path * 2 + n % 2) / 2 == path;
  }

  // The path read off the bits of a slot number leads from the root to that slot.
  method PathTo(slot: nat) returns (path: nat, k: nat)
    requires slot >= 1
    ensures Descend(1, k, path) == slot
  {
    path, k := 0, 0;
    var n := slot;
    while n >= 2
      invariant n >= 1
      invariant Descend(n, k, path) == slot
    {
      DescendStep(n, k, path);
      path := path * 2 + n % 2;
      k := k + 1;
      n := n / 2;
    }
  }

  // ---------------------------------------------------------------------------------------
  // The heap object
  // ---------------------------------------------------------------------------------------

  // A pointer to a child pointer: the address of heap->min or of a field of a node.
  datatype Place = MinField | LeftField(node: Node) | RightField(node: Node)

  ghost function PlaceOf(s: seq<Node>, i: int): Place
    requires 1 <= i && i / 2 <= |s|
  {
    if i == 1 then MinField else if i % 2 == 0 then LeftField(s[i / 2 - 1]) else RightField(s[i / 2 - 1])
  }

  ghost function Opt(a: Node?): set<Node> {
    if a == null then {} else {a}
  }

  ghost function Sibling(j: int): int {
    if j % 2 == 0 then j + 1 else j - 1
  }

  // child hangs under parent; top, side, l and r are the nodes around the two.
  ghost predicate Family(parent: Node, child: Node, top: Node?, side: Node?, l: Node?, r: Node?)
    reads {parent, child} + Opt(top)
  {
    && parent != child
    && parent.parent == top && child.parent == parent && child.left == l && child.right == r
    && (if parent.left == child then parent.right == side else parent.right == child && parent.left == side && side != null)
    && (top != null ==> top != parent && top != child && (top.left == parent) != (top.right == parent))
    && side != child && side != parent && l != parent && l != child && r != parent && r != child
    && (side != null ==> side != top && side != l && side != r)
    && (l != null ==> l != top && l != r)
    && (r != null ==> r != top)
  }

  lemma FamilyAt(s: seq<Node>, j: int)
    requires Linked(s) && 2 <= j <= |s|
    ensures Family(s[j / 2 - 1], s[j - 1], At(s, j / 2 / 2), At(s, Sibling(j)), At(s, 2 * j), At(s, 2 * j + 1))
  {
    var i, k := j / 2, Sibling(j);
    assert Links(s, i) && Links(s, j);
    assert k <= |s| ==> Links(s, k);
    assert 2 * j <= |s| ==> Links(s, 2 * j);
    assert 2 * j + 1 <= |s| ==> Links(s, 2 * j + 1);
    if i >= 2 {
      assert Links(s, i / 2);
      assert Sibling(i) <= |s| ==> Links(s, Sibling(i));
    }
  }

  // The links of a node as a value, to compare two states of the memory.
  datatype Cell = Cell(left: Node?, right: Node?, parent: Node?, pos: nat)

  ghost function Cells(s: seq<Node>): (m: map<Node, Cell>)
    reads s`left, s`right, s`parent, s`pos
    ensures m.Keys == Elements(s)
  {
    map n | n in s :: Cell(n.left, n.right, n.parent, n.pos)
  }

  ghost predicate LinksIn(m: map<Node, Cell>, s: seq<Node>, i: int)
    requires 1 <= i <= |s|
  {
    s[i - 1] in m && m[s[i - 1]] == Cell(At(s, 2 * i), At(s, 2 * i + 1), At(s, i / 2), i)
  }

  ghost predicate LinkedIn(m: map<Node, Cell>, s: seq<Node>)
  {
    forall i :: 1 <= i <= |s| ==> LinksIn(m, s, i)
  }

  lemma LinkedIffLinkedIn(s: seq<Node>)
    ensures Linked(s) <==> LinkedIn(Cells(s), s)
  {
    forall i | 1 <= i <= |s| ensures Links(s, i) <==> LinksIn(Cells(s), s, i) {
      assert s[i - 1] in s;
    }
  }

  // What the exchange of child with its parent does to the links.
  ghost predicate Exchanged(m: map<Node, Cell>, m': map<Node, Cell>, parent: Node, child: Node,
                            top: Node?, side: Node?, l: Node?, r: Node?, j: nat)
    requires m.Keys == m'.Keys && parent in m && child in m
  {
    && m'[parent] == Cell(l, r, child, j)
    && m'[child] == (if m[parent].left == child then Cell(parent, side, top, j / 2) else Cell(side, parent, top, j / 2))
    && (forall n :: n in m && n != parent && n != child ==>
          && m'[n].pos == m[n].pos
          && m'[n].parent == (if n == side then child else if n == l || n == r then parent else m[n].parent)
          && m'[n].left == (if n == top && m[n].left == parent then child else m[n].left)
          && m'[n].right == (if n == top && m[n].left != parent then child else m[n].right))
  }

  // The same for slot k, by slot numbers.
  ghost predicate ExchangedAt(m: map<Node, Cell>, m': map<Node, Cell>, s: seq<Node>, j: int, k: int)
    requires 2 <= j <= |s| && 1 <= k <= |s| && m.Keys == m'.Keys == Elements(s)
  {
    var i, parent, child, n := j / 2, s[j / 2 - 1], s[j - 1], s[k - 1];
    if k == i then m'[n] == Cell(At(s, 2 * j), At(s, 2 * j + 1), child, j)
    else if k == j then m'[n] == (if j == 2 * i then Cell(parent, At(s, j + 1), At(s, i / 2), i) else Cell(At(s, j - 1), parent, At(s, i / 2), i))
    else
      && m'[n].pos == k
      && m'[n].parent == (if k / 2 == i then child else if k / 2 == j then parent else At(s, k / 2))
      && m'[n].left == (if 2 * k == i then child else At(s, 2 * k))
      && m'[n].right == (if 2 * k + 1 == i then child else At(s, 2 * k + 1))
  }

  lemma ExchangedSlot(m: map<Node, Cell>, m': map<Node, Cell>, s: seq<Node>, j: int, k: int)
    requires 2 <= j <= |s| && 1 <= k <= |s| && m.Keys == m'.Keys == Elements(s)
    requires LinkedIn(m, s)
    requires Exchanged(m, m', s[j / 2 - 1], s[j - 1], At(s, j / 2 / 2), At(s, Sibling(j)), At(s, 2 * j), At(s, 2 * j + 1), j)
    ensures ExchangedAt(m, m', s, j, k)
  {
    var i := j / 2;
    assert LinksIn(m, s, i) && LinksIn(m, s, j) && LinksIn(m, s, k);
    if k == i || k == j {
      assert Sibling(j) <= |s| ==> LinksIn(m, s, Sibling(j));
    } else {
      ExchangedUp(m, m', s, j, k);
      ExchangedDown(m, m', s, j, k);
    }
  }

  lemma ExchangedUp(m: map<Node, Cell>, m': map<Node, Cell>, s: seq<Node>, j: int, k: int)
    requires 2 <= j <= |s| && 1 <= k <= |s| && k != j && k != j / 2 && m.Keys == m'.Keys == Elements(s)
    requires LinkedIn(m, s)
    requires Exchanged(m, m', s[j / 2 - 1], s[j - 1], At(s, j / 2 / 2), At(s, Sibling(j)), At(s, 2 * j), At(s, 2 * j + 1), j)
    ensures var n := s[k - 1];
      m'[n].pos == k && m'[n].parent == (if k / 2 == j / 2 then s[j - 1] else if k / 2 == j then s[j / 2 - 1] else At(s, k / 2))
  {
    assert LinksIn(m, s, j / 2) && LinksIn(m, s, j) && LinksIn(m, s, k);
    assert Sibling(j) <= |s| ==> LinksIn(m, s, Sibling(j));
    assert 2 * j <= |s| ==> LinksIn(m, s, 2 * j);
    assert 2 * j + 1 <= |s| ==> LinksIn(m, s, 2 * j + 1);
  }

  lemma ExchangedDown(m: map<Node, Cell>, m': map<Node, Cell>, s: seq<Node>, j: int, k: int)
    requires 2 <= j <= |s| && 1 <= k <= |s| && k != j && k != j / 2 && m.Keys == m'.Keys == Elements(s)
    requires LinkedIn(m, s)
    requires Exchanged(m, m', s[j / 2 - 1], s[j - 1], At(s, j / 2 / 2), At(s, Sibling(j)), At(s, 2 * j), At(s, 2 * j + 1), j)
    ensures var n := s[k - 1];
      && m'[n].left == (if 2 * k == j / 2 then s[j - 1] else At(s, 2 * k))
      && m'[n].right == (if 2 * k + 1 == j / 2 then s[j - 1] else At(s, 2 * k + 1))
  {
    var i := j / 2;
    assert LinksIn(m, s, i) && LinksIn(m, s, j) && LinksIn(m, s, k);
    if i >= 2 {
      assert LinksIn(m, s, i / 2);
      assert Sibling(i) <= |s| ==> LinksIn(m, s, Sibling(i));
    }
  }

  lemma ExchangeSwaps(m: map<Node, Cell>, m': map<Node, Cell>, s: seq<Node>, j: int)
    requires 2 <= j <= |s| && m.Keys == m'.Keys == Elements(s)
    requires LinkedIn(m, s)
    requires Exchanged(m, m', s[j / 2 - 1], s[j - 1], At(s, j / 2 / 2), At(s, Sibling(j)), At(s, 2 * j), At(s, 2 * j + 1), j)
    ensures Elements(Swapped(s, j / 2, j)) == Elements(s)
    ensures LinkedIn(m', Swapped(s, j / 2, j))
  {
    SwappedElements(s, j / 2, j);
    forall i | 1 <= i <= |s| ensures ExchangedAt(m, m', s, j, i) {
      ExchangedSlot(m, m', s, j, i);
    }
    forall k | 1 <= k <= |s| ensures LinksIn(m', Swapped(s, j / 2, j), k) {
      assert ExchangedAt(m, m', s, j, k);
      ExchangedLinks(m, m', s, j, k);
    }
  }

  lemma ExchangedLinks(m: map<Node, Cell>, m': map<Node, Cell>, s: seq<Node>, j: int, k: int)
    requires 2 <= j <= |s| && 1 <= k <= |s| && m.Keys == m'.Keys == Elements(s)
    requires ExchangedAt(m, m', s, j, k) && ExchangedAt(m, m', s, j, j / 2) && ExchangedAt(m, m', s, j, j)
    ensures LinksIn(m', Swapped(s, j / 2, j), k)
  {
  }

  lemma SwapDone(m: map<Node, Cell>, s: seq<Node>, j: int)
    requires 2 <= j <= |s| && m.Keys == Elements(s) && LinkedIn(m, s)
    requires Exchanged(m, Cells(s), s[j / 2 - 1], s[j - 1], At(s, j / 2 / 2), At(s, Sibling(j)), At(s, 2 * j), At(s, 2 * j + 1), j)
    ensures Linked(Swapped(s, j / 2, j)) && Elements(Swapped(s, j / 2, j)) == Elements(s)
  {
    ExchangeSwaps(m, Cells(s), s, j);
    assert Cells(Swapped(s, j / 2, j)) == Cells(s);
    LinkedIffLinkedIn(Swapped(s, j / 2, j));
  }

  // What the replacement of node by child at slot p does to the links.
  ghost predicate Replaced(m: map<Node, Cell>, m': map<Node, Cell>, node: Node, child: Node,
                           l: Node?, r: Node?, top: Node?, p: nat)
    requires m.Keys == m'.Keys && child in m
  {
    && m'[child] == Cell(l, r, top, p)
    && (forall n :: n in m && n != node && n != child ==>
          && m'[n].pos == m[n].pos
          && m'[n].parent == (if n == l || n == r then child else m[n].parent)
          && m'[n].left == (if n == top && m[n].left == node then child else m[n].left)
          && m'[n].right == (if n == top && m[n].left != node then child else m[n].right))
  }

  lemma ReplacedSlot(m: map<Node, Cell>, m': map<Node, Cell>, s: seq<Node>, child: Node, p: int, k: int)
    requires 1 <= p <= |s| && 1 <= k <= |s| && m.Keys == m'.Keys && child in m && child !in s && LinkedIn(m, s)
    requires Replaced(m, m', s[p - 1], child, At(s, 2 * p), At(s, 2 * p + 1), At(s, p / 2), p)
    ensures LinksIn(m', s[p - 1 := child], k)
  {
    assert LinksIn(m, s, k) && LinksIn(m, s, p);
    if k != p {
      assert 2 * p <= |s| ==> LinksIn(m, s, 2 * p);
      assert 2 * p + 1 <= |s| ==> LinksIn(m, s, 2 * p + 1);
      assert p >= 2 ==> LinksIn(m, s, p / 2) && (Sibling(p) <= |s| ==> LinksIn(m, s, Sibling(p)));
    }
  }

  lemma ReplaceDone(m: map<Node, Cell>, s: seq<Node>, child: Node, p: int)
    requires 1 <= p <= |s| && m.Keys == Elements(s + [child]) && child in m && child !in s && LinkedIn(m, s)
    requires Replaced(m, Cells(s + [child]), s[p - 1], child, At(s, 2 * p), At(s, 2 * p + 1), At(s, p / 2), p)
    ensures Linked(s[p - 1 := child])
  {
    var m' := Cells(s + [child]);
    var r := s[p - 1 := child];
    forall k | 1 <= k <= |r| ensures Links(r, k) {
      ReplacedSlot(m, m', s, child, p, k);
    }
  }

  lemma NeighboursOf(s: seq<Node>, p: int)
    requires Linked(s) && 1 <= p <= |s|
    ensures var node, l, r, top := s[p - 1], At(s, 2 * p), At(s, 2 * p + 1), At(s, p / 2);
      && Links(s, p)
      && (l != null ==> l != node && l != r && l != top)
      && (r != null ==> r != node && r != top)
      && (top != null ==> top != node && (top.left == node) != (top.right == node))
  {
    assert Links(s, p);
    assert 2 * p <= |s| ==> Links(s, 2 * p);
    assert 2 * p + 1 <= |s| ==> Links(s, 2 * p + 1);
    if p >= 2 {
      assert Links(s, p / 2);
      assert Sibling(p) <= |s| ==> Links(s, Sibling(p));
    }
  }

  class Heap {
    var min: Node?
    var nelts: nat
    // The nodes in level order.
    ghost var slots: seq<Node>

    ghost predicate Shape()
      reads this, slots`left, slots`right, slots`parent, slots`pos
    {
      nelts == |slots| && min == At(slots, 1) && Linked(slots)
    }

    ghost predicate Valid()
      reads this, slots`left, slots`right, slots`parent, slots`pos, slots`timeout, slots`startId
    {
      Shape() && Ordered(slots)
    }

    constructor ()
      ensures Valid() && slots == []
    {
      min, nelts, slots := null, 0, [];
    }

    function Min(): (n: Node?)
      reads this, slots`left, slots`right, slots`parent, slots`pos
      requires Shape()
      ensures n == At(slots, 1)
    {
      min
    }

    // heap_node_swap on the nodes themselves: parent and child exchange their links, and the
    // nodes around them are redirected.
    method ExchangeLinks(parent: Node, child: Node, ghost top: Node?, ghost side: Node?, ghost l: Node?, ghost r: Node?)
      requires Family(parent, child, top, side, l, r)
      requires top == null <==> min == parent
      modifies this`min, parent`left, parent`right, parent`parent, child`left, child`right, child`parent,
        Opt(top)`left, Opt(top)`right, Opt(side)`parent, Opt(l)`parent, Opt(r)`parent
      ensures child.parent == top && parent.parent == child && parent.left == l && parent.right == r
      ensures if old(parent.left) == child then child.left == parent && child.right == side
              else child.right == parent && child.left == side
      ensures side != null ==> side.parent == child
      ensures l != null ==> l.parent == parent
      ensures r != null ==> r.parent == parent
      ensures if top == null then min == child else
        min == old(min) &&
        if old(top.left) == parent then top.left == child && top.right == old(top.right)
        else top.right == child && top.left == old(top.left)
    {
      var left, right, up := parent.left, parent.right, parent.parent;
      parent.left, parent.right, parent.parent := child.left, child.right, child.parent;
      child.left, child.right, child.parent := left, right, up;

      parent.parent := child;
      var sibling;
      if child.left == child {
        child.left := parent;
        sibling := child.right;
      } else {
        child.right := parent;
        sibling := child.left;
      }
      if sibling != null {
        sibling.parent := child;
      }
      if parent.left != null {
        parent.left.parent := parent;
      }
      if parent.right != null {
        parent.right.parent := parent;
      }
      if child.parent == null {
        min := child;
      } else if child.parent.left == parent {
        child.parent.left := child;
      } else {
        child.parent.right := child;
      }
    }

    // The same seen from the whole set of nodes.
    method ExchangeAmong(parent: Node, child: Node, ghost s: seq<Node>, ghost top: Node?, ghost side: Node?,
                         ghost l: Node?, ghost r: Node?, ghost j: nat)
      requires Family(parent, child, top, side, l, r)
      requires top == null <==> min == parent
      requires {parent, child} + Opt(top) + Opt(side) + Opt(l) + Opt(r) <= Elements(s)
      modifies this`min, s`left, s`right, s`parent, s`pos
      ensures Exchanged(old(Cells(s)), Cells(s), parent, child, top, side, l, r, j)
      ensures min == if top == null then child else old(min)
    {
      ExchangeLinks(parent, child, top, side, l, r);
      parent.pos, child.pos := j, j / 2;
    }

    // heap_node_swap: the two nodes exchange their slots and the tree stays complete.
    method NodeSwap(parent: Node, child: Node, ghost j: int)
      requires Shape()
      requires 2 <= j <= |slots| && slots[j - 1] == child && slots[j / 2 - 1] == parent
      modifies this`min, this`slots, Elements(slots)`left, Elements(slots)`right, Elements(slots)`parent, Elements(slots)`pos
      ensures Shape() && slots == Swapped(old(slots), j / 2, j)
      ensures Elements(slots) == Elements(old(slots))
    {
      ExchangeSlots(parent, child, j);
      slots := Swapped(slots, j / 2, j);
    }

    method ExchangeSlots(parent: Node, child: Node, ghost j: int)
      requires Shape()
      requires 2 <= j <= |slots| && slots[j - 1] == child && slots[j / 2 - 1] == parent
      modifies this`min, Elements(slots)`left, Elements(slots)`right, Elements(slots)`parent, Elements(slots)`pos
      ensures Linked(Swapped(slots, j / 2, j)) && Elements(Swapped(slots, j / 2, j)) == Elements(slots)
      ensures min == if j / 2 == 1 then child else old(min)
    {
      ghost var s, m := slots, Cells(slots);
      SwapReady(j);
      ExchangeAmong(parent, child, s, At(s, j / 2 / 2), At(s, Sibling(j)), At(s, 2 * j), At(s, 2 * j + 1), j);
      SwapDone(m, s, j);
    }

    lemma SwapReady(j: int)
      requires Shape() && 2 <= j <= |slots|
      ensures LinkedIn(Cells(slots), slots)
      ensures var s, i := slots, j / 2;
        && Family(s[i - 1], s[j - 1], At(s, i / 2), At(s, Sibling(j)), At(s, 2 * j), At(s, 2 * j + 1))
        && (At(s, i / 2) == null <==> min == s[i - 1])
    {
      LinkedIffLinkedIn(slots);
      FamilyAt(slots, j);
      assert Links(slots, 1) && Links(slots, j / 2);
    }

    method Load(p: Place, ghost i: int) returns (n: Node?)
      requires Shape() && 1 <= i && i / 2 <= |slots| && p == PlaceOf(slots, i)
      ensures n == At(slots, i)
    {
      assert i >= 2 ==> Links(slots, i / 2);
      match p
      case MinField => n := min;
      case LeftField(o) => n := o.left;
      case RightField(o) => n := o.right;
    }

    method Store(p: Place, n: Node?)
      modifies this`min, (if p.LeftField? then {p.node} else {})`left, (if p.RightField? then {p.node} else {})`right
      ensures match p case MinField => min == n case LeftField(o) => o.left == n && min == old(min) case RightField(o) => o.right == n && min == old(min)
    {
      match p
      case MinField => min := n;
      case LeftField(o) => o.left := n;
      case RightField(o) => o.right := n;
    }

    // The walk of the two pointers down the tree: child ends at the place of the given slot,
    // parent one level above it.
    method Walk(slot: nat) returns (parent: Place, child: Place)
      requires Shape() && 1 <= slot <= |slots| + 1
      ensures child == PlaceOf(slots, slot)
      ensures slot >= 2 ==> parent == PlaceOf(slots, slot / 2)
      ensures slot == 1 ==> parent == child
    {
      var path, k := PathTo(slot);
      parent, child := MinField, MinField;
      ghost var i: nat := 1;
      while k > 0
        invariant 1 <= i && Descend(i, k, path) == slot
        invariant i / 2 <= |slots| && child == PlaceOf(slots, i)
        invariant i >= 2 ==> parent == PlaceOf(slots, i / 2)
        invariant i == 1 ==> parent == child
      {
        DescendGrows(2 * i + path % 2, k - 1, path / 2);
        assert Links(slots, i);
        assert i >= 2 ==> Links(slots, i / 2);
        parent := child;
        var n := Load(child, i);
        child := if path % 2 == 1 then RightField(n) else LeftField(n);
        i := 2 * i + path % 2;
        path := path / 2;
        k := k - 1;
      }
    }

    // Stores the new node in the left-most free place of the bottom row.
    method Hang(child: Place, node: Node)
      requires Shape() && node !in slots && child == PlaceOf(slots, nelts + 1)
      requires node.left == null && node.right == null && node.parent == At(slots, (nelts + 1) / 2)
      modifies this, node`pos, slots`left, slots`right
      ensures Shape() && slots == old(slots) + [node]
    {
      ghost var s, n := slots, nelts + 1;
      assert n >= 2 ==> Links(s, n / 2);
      Store(child, node);
      nelts := nelts + 1;
      node.pos := n;
      slots := s + [node];
      forall k | 1 <= k <= |slots| ensures Links(slots, k) {
        assert k < n ==> old(Links(s, k));
      }
    }

    method Append(node: Node)
      requires Shape() && node !in slots
      modifies this, node`left, node`right, node`parent, node`pos, slots`left, slots`right
      ensures Shape() && slots == old(slots) + [node]
    {
      node.left := null;
      node.right := null;
      node.parent := null;
      var parent, child := Walk(1 + nelts);
      var above := Load(parent, if nelts >= 1 then (nelts + 1) / 2 else 1);
      node.parent := above;
      Hang(child, node);
    }

    // Takes the last node of the bottom row off the tree.
    method Unlink() returns (child: Node)
      requires Shape() && nelts > 0
      modifies this, slots`left, slots`right
      ensures Shape() && slots == old(slots)[..old(nelts) - 1] && child == old(slots)[old(nelts) - 1]
    {
      var _, max := Walk(nelts);
      child := Load(max, nelts);
      CutLast(max);
    }

    method CutLast(max: Place)
      requires Shape() && nelts > 0 && max == PlaceOf(slots, nelts)
      modifies this, slots`left, slots`right
      ensures Shape() && slots == old(slots)[..old(nelts) - 1]
    {
      ghost var s, n := slots, nelts;
      assert Links(s, 1) && Links(s, n);
      assert n >= 2 ==> Links(s, n / 2);
      nelts := nelts - 1;
      Store(max, null);
      slots := s[..n - 1];
      forall k | 1 <= k <= |slots| ensures Links(slots, k) {
        assert old(Links(s, k));
      }
    }

    // child takes over the links, and so the slot, of node; l, r and top are around it.
    method TakeOver(node: Node, child: Node, ghost l: Node?, ghost r: Node?, ghost top: Node?)
      requires node.left == l && node.right == r && node.parent == top && node != child
      requires l != node && l != child && r != node && r != child && top != node && top != child
      requires (l == null || l != r) && (l == null || l != top) && (r == null || r != top)
      requires top != null ==> (top.left == node) != (top.right == node)
      modifies this`min, child`left, child`right, child`parent,
        Opt(l)`parent, Opt(r)`parent, Opt(top)`left, Opt(top)`right
      ensures child.left == l && child.right == r && child.parent == top
      ensures l != null ==> l.parent == child
      ensures r != null ==> r.parent == child
      ensures min == if top == null then child else old(min)
      ensures top != null ==> top.left == (if old(top.left) == node then child else old(top.left))
      ensures top != null ==> top.right == (if old(top.left) == node then old(top.right) else child)
    {
      child.left := node.left;
      child.right := node.right;
      child.parent := node.parent;
      if child.left != null {
        child.left.parent := child;
      }
      if child.right != null {
        child.right.parent := child;
      }
      if node.parent == null {
        min := child;
      } else if node.parent.left == node {
        node.parent.left := child;
      } else {
        node.parent.right := child;
      }
    }

    // The same seen from the whole set of nodes.
    method TakeOverAmong(node: Node, child: Node, ghost s: seq<Node>, ghost p: nat)
      requires Linked(s) && 1 <= p <= |s| && s[p - 1] == node && child !in s
      requires p == 1 <==> min == node
      modifies this`min, child`left, child`right, child`parent, child`pos, s`left, s`right, s`parent
      ensures Replaced(old(Cells(s + [child])), Cells(s + [child]), node, child, At(s, 2 * p), At(s, 2 * p + 1), At(s, p / 2), p)
      ensures min == if p == 1 then child else old(min)
    {
      NeighboursOf(s, p);
      assert child in s + [child];
      TakeOver(node, child, At(s, 2 * p), At(s, 2 * p + 1), At(s, p / 2));
      child.pos := p;
    }

    method Replace(node: Node, child: Node, ghost p: int)
      requires Shape() && 1 <= p <= |slots| && slots[p - 1] == node && child !in slots
      modifies this`min, this`slots, child`left, child`right, child`parent, child`pos,
        slots`left, slots`right, slots`parent
      ensures Shape() && slots == old(slots)[p - 1 := child]
    {
      ghost var s, t := slots, slots + [child];
      ghost var m := Cells(t);
      assert LinkedIn(m, s) by {
        forall i | 1 <= i <= |s| ensures LinksIn(m, s, i) {
          assert Links(s, i) && t[i - 1] == s[i - 1];
        }
      }
      assert Links(s, 1) && Links(s, p);
      TakeOverAmong(node, child, s, p);
      ReplaceDone(m, s, child, p);
      slots := s[p - 1 := child];
    }

    // One step of the walk up.
    method Climb(node: Node, ghost j: int)
      requires Shape() && 2 <= j <= |slots| && slots[j - 1] == node && OrderedButUp(slots, j)
      requires node.parent == At(slots, j / 2) && Less(node.Rank(), slots[j / 2 - 1].Rank())
      modifies this`min, this`slots, Elements(slots)`left, Elements(slots)`right, Elements(slots)`parent, Elements(slots)`pos
      ensures Shape() && |slots| == old(|slots|) && slots[j / 2 - 1] == node && OrderedButUp(slots, j / 2)
      ensures Elements(slots) == Elements(old(slots))
    {
      SwapUp(slots, j);
      NodeSwap(node.parent, node, j);
    }

    // The walk up at the end of heap_insert and heap_remove.
    method WalkUp(node: Node, ghost i: int)
      requires Shape() && 1 <= i <= |slots| && slots[i - 1] == node && OrderedButUp(slots, i)
      modifies this`min, this`slots, Elements(slots)`left, Elements(slots)`right, Elements(slots)`parent, Elements(slots)`pos
      ensures Valid() && Elements(slots) == Elements(old(slots))
      ensures nelts == old(nelts)
    {
      ghost var j := i;
      assert Links(slots, j);
      while node.parent != null && Less(node.Rank(), node.parent.Rank())
        invariant Shape() && 1 <= j <= |slots| && slots[j - 1] == node && OrderedButUp(slots, j)
        invariant node.parent == At(slots, j / 2)
        invariant Elements(slots) == Elements(old(slots))
        decreases j
      {
        Climb(node, j);
        j := j / 2;
        assert Links(slots, j);
      }
      assert j >= 2 ==> InOrder(slots, j);
    }

    method SmallestChild(child: Node, ghost j: int) returns (smallest: Node, ghost c: int)
      requires Shape() && 1 <= j <= |slots| && slots[j - 1] == child
      ensures smallest == child && OrderedButAround(slots, j) ==> OrderedButUp(slots, j)
      ensures smallest != child ==> 2 <= c <= |slots| && c / 2 == j && slots[c - 1] == smallest
      ensures smallest != child ==> Less(smallest.Rank(), child.Rank())
      ensures smallest != child ==>
        forall i :: 2 <= i <= |slots| && i / 2 == j ==> !Less(slots[i - 1].Rank(), smallest.Rank())
    {
      assert Links(slots, j);
      smallest, c := child, j;
      if child.left != null && Less(child.left.Rank(), smallest.Rank()) {
        smallest := child.left;
        c := 2 * j;
      }
      if child.right != null && Less(child.right.Rank(), smallest.Rank()) {
        smallest := child.right;
        c := 2 * j + 1;
      }
      assert forall i :: 2 <= i <= |slots| && i / 2 == j ==> i == 2 * j || i == 2 * j + 1;
    }

    // The walk down of heap_remove: the node changes place with its smallest child.
    method WalkDown(child: Node, ghost i: int) returns (ghost j: int)
      requires Shape() && 1 <= i <= |slots| && slots[i - 1] == child && OrderedButAround(slots, i)
      modifies this`min, this`slots, Elements(slots)`left, Elements(slots)`right, Elements(slots)`parent, Elements(slots)`pos
      ensures Shape() && 1 <= j <= |slots| && slots[j - 1] == child && OrderedButUp(slots, j)
      ensures Elements(slots) == Elements(old(slots))
      ensures nelts == old(nelts)
    {
      j := i;
      while true
        invariant Shape() && 1 <= j <= |slots| && slots[j - 1] == child && OrderedButAround(slots, j)
        invariant Elements(slots) == Elements(old(slots))
        decreases |slots| - j
      {
        var smallest;
        ghost var c;
        smallest, c := SmallestChild(child, j);
        if smallest == child {
          break;
        }
        StepDown(child, smallest, j, c);
        j := c;
      }
    }

    method StepDown(child: Node, smallest: Node, ghost j: int, ghost c: int)
      requires Shape() && 1 <= j && c / 2 == j && 2 <= c <= |slots| && slots[j - 1] == child && slots[c - 1] == smallest
      requires OrderedButAround(slots, j) && Less(smallest.Rank(), child.Rank())
      requires forall i :: 2 <= i <= |slots| && i / 2 == j ==> !Less(slots[i - 1].Rank(), smallest.Rank())
      modifies this`min, this`slots, Elements(slots)`left, Elements(slots)`right, Elements(slots)`parent, Elements(slots)`pos
      ensures Shape() && slots == Swapped(old(slots), j, c) && OrderedButAround(slots, c)
      ensures Elements(slots) == Elements(old(slots)) && nelts == old(nelts)
    {
      SwapDown(slots, j, c);
      NodeSwap(child, smallest, c);
    }

    method Insert(node: Node)
      requires Valid() && node !in slots
      modifies this, node`left, node`right, node`parent, node`pos, slots`left, slots`right, slots`parent, slots`pos
      ensures Valid() && Elements(slots) == Elements(old(slots)) + {node}
      ensures nelts == old(nelts) + 1
    {
      ghost var s := slots;
      Append(node);
      forall i | 2 <= i <= |slots| && i != |slots| ensures InOrder(slots, i) {
        assert InOrder(s, i);
      }
      WalkUp(node, |slots|);
    }

    // heap_remove of any node of the heap.
    method Remove(node: Node?)
      requires Valid() && (nelts > 0 ==> node in slots)
      modifies this, slots`left, slots`right, slots`parent, slots`pos
      ensures Valid()
      ensures old(nelts) == 0 ==> slots == old(slots)
      ensures Elements(slots) == if node == null then Elements(old(slots)) else Elements(old(slots)) - {node}
    {
      if nelts == 0 {
        return;
      }
      ghost var s, p := slots, node.pos;
      Positions(s);
      WithoutLast(s, p);
      var child := Unlink();
      if child == node {
        // If child was the root, clearing its place has already cleared min.
        assert child != min;
        return;
      }
      Replace(node, child, p);
      ReplaceOrder(s, p);
      ghost var j := WalkDown(child, p);
      WalkUp(child, j);
    }

    method Dequeue()
      requires Valid()
      modifies this, slots`left, slots`right, slots`parent, slots`pos
      ensures Valid()
      ensures old(nelts) == 0 ==> slots == old(slots)
      ensures old(nelts) > 0 ==> Elements(slots) == Elements(old(slots)) - {old(min)}
    {
      Remove(min);
    }
  }
}
