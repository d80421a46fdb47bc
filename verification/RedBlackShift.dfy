// How the records of the red-black tree change when a leaf is added or a node with at most one
// child is taken out, and how high the tree can be.
module RedBlackShift {
  import opened RedBlackModel

  // ---------------------------------------------------------------------------------------
  // A new leaf
  // ---------------------------------------------------------------------------------------

  function Up(i: int, p: int): int {
    if i >= p then i + 1 else i
  }

  // Node p and those behind it move up by one; stretches move from t on.
  function UpRec(r: Rec, p: int, t: int): Rec {
    Rec(Up(r.left, p), Up(r.right, p), Up(r.parent, p), r.red, Up(r.lo, t), Up(r.hi, t), r.bh)
  }

  // The leaf p goes below u: to its left, and then p is u's index, or to its right.
  function LeafRec(m: seq<Rec>, u: int, onLeft: bool, i: int): Rec
    requires 0 <= u < |m| && 0 <= i <= |m|
  {
    var p := if onLeft then u else u + 1;
    if i == p then Rec(-1, -1, Up(u, p), true, p, p + 1, 0)
    else
      var j := if i < p then i else i - 1;
      var r := UpRec(m[j], p, u + 1);
      if j != u then r else if onLeft then r.(left := p) else r.(right := p)
  }

  function AddLeaf(m: seq<Rec>, u: int, onLeft: bool): (r: seq<Rec>)
    requires 0 <= u < |m|
    ensures |r| == |m| + 1
  {
    seq(|m| + 1, i requires 0 <= i <= |m| => LeafRec(m, u, onLeft, i))
  }

  predicate Free(m: seq<Rec>, u: int, onLeft: bool)
    requires 0 <= u < |m|
  {
    if onLeft then m[u].left == -1 else m[u].right == -1
  }

  function LeafIndex(u: int, onLeft: bool): int {
    if onLeft then u else u + 1
  }

  // What the new records say.
  lemma AddLeafRec(m: seq<Rec>, u: int, onLeft: bool, j: int)
    requires 0 <= u < |m| && 0 <= j < |m|
    ensures var p := LeafIndex(u, onLeft); var n := AddLeaf(m, u, onLeft)[Up(j, p)];
            && n.parent == Up(m[j].parent, p) && n.lo == Up(m[j].lo, u + 1) && n.hi == Up(m[j].hi, u + 1)
            && n.left == (if j == u && onLeft then p else Up(m[j].left, p))
            && n.right == (if j == u && !onLeft then p else Up(m[j].right, p))
            && n.red == m[j].red && n.bh == m[j].bh
  {
  }

  lemma AddLeafChild(m: seq<Rec>, u: int, onLeft: bool, c: int, j: int, lo: int, hi: int)
    requires 0 <= u < |m| && Child(m, c, j, lo, hi) && lo < hi
    ensures var p := LeafIndex(u, onLeft);
            Child(AddLeaf(m, u, onLeft), Up(c, p), Up(j, p), Up(lo, u + 1), Up(hi, u + 1))
  {
    AddLeafRec(m, u, onLeft, c);
  }

  lemma AddLeafHangs(m: seq<Rec>, root: int, u: int, onLeft: bool, j: int)
    requires 0 <= u < |m| && Free(m, u, onLeft) && 0 <= j < |m| && Hangs(m, root, j)
    ensures var p := LeafIndex(u, onLeft); Hangs(AddLeaf(m, u, onLeft), Up(root, p), Up(j, p))
  {
    AddLeafRec(m, u, onLeft, j);
    if m[j].parent != -1 {
      AddLeafRec(m, u, onLeft, m[j].parent);
    }
  }

  // Node u keeps its child on the other side and gets the leaf.
  lemma AddLeafOwn(m: seq<Rec>, root: int, u: int, onLeft: bool)
    requires 0 <= u < |m| && Free(m, u, onLeft) && Shape(m, root, u)
    ensures var p := LeafIndex(u, onLeft); Shape(AddLeaf(m, u, onLeft), Up(root, p), Up(u, p)) && Shape(AddLeaf(m, u, onLeft), Up(root, p), p)
  {
    AddLeafRec(m, u, onLeft, u);
    AddLeafHangs(m, root, u, onLeft, u);
    if m[u].lo < u {
      AddLeafChild(m, u, onLeft, m[u].left, u, m[u].lo, u);
    }
    if u + 1 < m[u].hi {
      AddLeafChild(m, u, onLeft, m[u].right, u, u + 1, m[u].hi);
    }
  }

  lemma AddLeafAt(m: seq<Rec>, root: int, u: int, onLeft: bool, j: int)
    requires 0 <= u < |m| && Free(m, u, onLeft) && Shape(m, root, u) && 0 <= j < |m| && Shape(m, root, j)
    ensures var p := LeafIndex(u, onLeft); Shape(AddLeaf(m, u, onLeft), Up(root, p), Up(j, p))
  {
    AddLeafRec(m, u, onLeft, j);
    AddLeafHangs(m, root, u, onLeft, j);
    if j == u {
      AddLeafOwn(m, root, u, onLeft);
    } else {
      if m[j].lo < j {
        AddLeafChild(m, u, onLeft, m[j].left, j, m[j].lo, j);
      }
      if j + 1 < m[j].hi {
        AddLeafChild(m, u, onLeft, m[j].right, j, j + 1, m[j].hi);
      }
    }
  }

  lemma AddLeafIndex(m: seq<Rec>, root: int, u: int, onLeft: bool, i: int)
    requires 0 <= u < |m| && Free(m, u, onLeft) && Shape(m, root, u) && 0 <= i <= |m|
    requires var p := LeafIndex(u, onLeft); i != p ==> Shape(m, root, if i < p then i else i - 1)
    ensures Shape(AddLeaf(m, u, onLeft), Up(root, LeafIndex(u, onLeft)), i)
  {
    var p := LeafIndex(u, onLeft);
    if i == p {
      AddLeafOwn(m, root, u, onLeft);
    } else {
      AddLeafAt(m, root, u, onLeft, if i < p then i else i - 1);
    }
  }

  lemma AddLeafLinked(m: seq<Rec>, root: int, u: int, onLeft: bool)
    requires Linked(m, root) && 0 <= u < |m| && Free(m, u, onLeft)
    ensures Linked(AddLeaf(m, u, onLeft), Up(root, LeafIndex(u, onLeft)))
  {
    var p := LeafIndex(u, onLeft);
    var r := AddLeaf(m, u, onLeft);
    assert Shape(m, root, u);
    forall i | 0 <= i <= |m| ensures Shape(r, Up(root, p), i) {
      if i != p {
        assert Shape(m, root, if i < p then i else i - 1);
      }
      AddLeafIndex(m, root, u, onLeft, i);
    }
    AddLeafChild(m, u, onLeft, root, -1, 0, |m|);
  }

  // A leaf in a valid tree leaves nothing to mend but its own red colour.
  lemma AddLeafColours(m: seq<Rec>, root: int, u: int, onLeft: bool)
    requires Valid(m, root) && 0 <= u < |m| && Free(m, u, onLeft)
    ensures var p := LeafIndex(u, onLeft); InsertInv(AddLeaf(m, u, onLeft), Up(root, p), p)
  {
    var p := LeafIndex(u, onLeft);
    var r := AddLeaf(m, u, onLeft);
    AddLeafLinked(m, root, u, onLeft);
    forall i | 0 <= i <= |m| ensures Even(r, i) && Calm(r, i, p) {
      if i != p {
        AddLeafColour(m, root, u, onLeft, if i < p then i else i - 1);
      }
    }
    AddLeafRec(m, u, onLeft, root);
  }

  lemma AddLeafColour(m: seq<Rec>, root: int, u: int, onLeft: bool, j: int)
    requires Valid(m, root) && 0 <= u < |m| && Free(m, u, onLeft) && 0 <= j < |m|
    ensures var p := LeafIndex(u, onLeft); Even(AddLeaf(m, u, onLeft), Up(j, p)) && Calm(AddLeaf(m, u, onLeft), Up(j, p), p)
  {
    assert Shape(m, root, j) && Even(m, j) && Calm(m, j, -1);
    AddLeafRec(m, u, onLeft, j);
    AddLeafKid(m, u, onLeft, m[j].left);
    AddLeafKid(m, u, onLeft, m[j].right);
  }

  lemma AddLeafKid(m: seq<Rec>, u: int, onLeft: bool, c: int)
    requires 0 <= u < |m| && -1 <= c < |m|
    ensures var p, r := LeafIndex(u, onLeft), AddLeaf(m, u, onLeft);
            Bh(r, Up(c, p)) == Bh(m, c) && Red(r, Up(c, p)) == Red(m, c) && Bh(r, p) == 0
  {
    if c != -1 {
      AddLeafRec(m, u, onLeft, c);
    }
  }

  // ---------------------------------------------------------------------------------------
  // A node with at most one child is taken out
  // ---------------------------------------------------------------------------------------

  function Down(i: int, q: int): int {
    if i > q then i - 1 else i
  }

  // The only child of node q, if it has one.
  function OnlyChild(m: seq<Rec>, q: int): int
    requires 0 <= q < |m|
  {
    if m[q].left == -1 then m[q].right else m[q].left
  }

  predicate Single(m: seq<Rec>, q: int)
    requires 0 <= q < |m|
  {
    m[q].left == -1 || m[q].right == -1
  }

  function DropLink(m: seq<Rec>, q: int, c: int): int
    requires 0 <= q < |m|
  {
    Down(if c == q then OnlyChild(m, q) else c, q)
  }

  function DropRec(m: seq<Rec>, q: int, j: int): Rec
    requires 0 <= q < |m| && 0 <= j < |m|
  {
    var r := m[j];
    Rec(DropLink(m, q, r.left), DropLink(m, q, r.right), Down(if r.parent == q then m[q].parent else r.parent, q),
        r.red, Down(r.lo, q), Down(r.hi, q), r.bh)
  }

  function Drop(m: seq<Rec>, q: int): (r: seq<Rec>)
    requires 0 <= q < |m|
    ensures |r| == |m| - 1
  {
    seq(|m| - 1, i requires 0 <= i < |m| - 1 => DropRec(m, q, if i < q then i else i + 1))
  }

  lemma DropAtIndex(m: seq<Rec>, q: int, j: int)
    requires 0 <= q < |m| && 0 <= j < |m| && j != q
    ensures Drop(m, q)[Down(j, q)] == DropRec(m, q, j)
  {
  }

  lemma DropChild(m: seq<Rec>, root: int, q: int, c: int, j: int, lo: int, hi: int)
    requires 0 <= q < |m| && Single(m, q) && Shape(m, root, q) && Child(m, c, j, lo, hi) && lo < hi && j != q && j >= -1
    ensures Child(Drop(m, q), DropLink(m, q, c), Down(j, q), Down(lo, q), Down(hi, q))
  {
    if c != q {
      DropAtIndex(m, q, c);
    } else if OnlyChild(m, q) != -1 {
      DropAtIndex(m, q, OnlyChild(m, q));
    }
  }

  lemma DropHangs(m: seq<Rec>, root: int, q: int, j: int)
    requires 0 <= q < |m| && Single(m, q) && Shape(m, root, q) && 0 <= j < |m| && j != q && Shape(m, root, j) && -1 <= root < |m|
    ensures Hangs(Drop(m, q), DropLink(m, q, root), Down(j, q))
  {
    DropAtIndex(m, q, j);
    var p := if m[j].parent == q then m[q].parent else m[j].parent;
    if p != -1 {
      DropAtIndex(m, q, p);
    }
  }

  lemma DropAt(m: seq<Rec>, root: int, q: int, j: int)
    requires 0 <= q < |m| && Single(m, q) && Shape(m, root, q) && 0 <= j < |m| && j != q && Shape(m, root, j) && -1 <= root < |m|
    ensures Shape(Drop(m, q), DropLink(m, q, root), Down(j, q))
  {
    DropAtIndex(m, q, j);
    DropHangs(m, root, q, j);
    if m[j].lo < j {
      DropChild(m, root, q, m[j].left, j, m[j].lo, j);
    }
    if j + 1 < m[j].hi {
      DropChild(m, root, q, m[j].right, j, j + 1, m[j].hi);
    }
  }

  lemma DropLinked(m: seq<Rec>, root: int, q: int)
    requires Linked(m, root) && 0 <= q < |m| && Single(m, q)
    ensures Linked(Drop(m, q), DropLink(m, q, root))
  {
    assert Shape(m, root, q);
    forall i | 0 <= i < |m| - 1 ensures Shape(Drop(m, q), DropLink(m, q, root), i) {
      var j := if i < q then i else i + 1;
      assert Shape(m, root, j);
      DropAt(m, root, q, j);
    }
    DropChild(m, root, q, root, -1, 0, |m|);
  }

  lemma {:induction false} BhCounts(m: seq<Rec>, root: int, c: int)
    requires Linked(m, root) && AllEven(m) && -1 <= c < |m|
    ensures Bh(m, c) >= (if c != -1 && !m[c].red then 1 else 0)
    decreases if c == -1 then 0 else m[c].hi - m[c].lo
  {
    if c != -1 {
      assert Shape(m, root, c) && Even(m, c);
      BhCounts(m, root, m[c].left);
    }
  }

  // A red node with at most one child has none, and the only child of a black one is red.
  lemma OnlyChildColour(m: seq<Rec>, root: int, q: int)
    requires Valid(m, root) && 0 <= q < |m| && Single(m, q)
    ensures m[q].red ==> OnlyChild(m, q) == -1
    ensures OnlyChild(m, q) != -1 ==> 0 <= OnlyChild(m, q) < |m| && m[OnlyChild(m, q)].red
    ensures Bh(m, OnlyChild(m, q)) == 0 && m[q].bh == if m[q].red then 0 else 1
  {
    assert Shape(m, root, q) && Even(m, q) && Calm(m, q, -1);
    if OnlyChild(m, q) != -1 {
      BhCounts(m, root, OnlyChild(m, q));
    }
  }

  // The colour and black height of what a pointer leads to are those of what it led to before.
  lemma DropKid(m: seq<Rec>, root: int, q: int, c: int)
    requires Valid(m, root) && 0 <= q < |m| && Single(m, q) && -1 <= c < |m|
    ensures var r, d := Drop(m, q), DropLink(m, q, c);
            && Bh(r, d) == (if c == q then 0 else Bh(m, c))
            && (c != q ==> Red(r, d) == Red(m, c))
            && (c == q ==> d == Down(OnlyChild(m, q), q) && (m[q].red ==> !Red(r, d)))
  {
    assert Shape(m, root, q);
    OnlyChildColour(m, root, q);
    var e := if c == q then OnlyChild(m, q) else c;
    if e != -1 {
      DropAtIndex(m, q, e);
    }
  }

  lemma DropEven(m: seq<Rec>, root: int, q: int, j: int)
    requires Valid(m, root) && 0 <= q < |m| && Single(m, q) && 0 <= j < |m| && j != q && (m[q].red || j != m[q].parent)
    ensures Even(Drop(m, q), Down(j, q))
  {
    assert Shape(m, root, j) && Shape(m, root, q) && Even(m, j);
    DropAtIndex(m, q, j);
    DropKid(m, root, q, m[j].left);
    DropKid(m, root, q, m[j].right);
    OnlyChildColour(m, root, q);
  }

  lemma DropCalm(m: seq<Rec>, root: int, q: int, j: int)
    requires Valid(m, root) && 0 <= q < |m| && Single(m, q) && 0 <= j < |m| && j != q
    ensures Calm(Drop(m, q), Down(j, q), if m[q].red then -1 else Down(OnlyChild(m, q), q))
  {
    assert Shape(m, root, j) && Shape(m, root, q) && Calm(m, j, -1);
    DropAtIndex(m, q, j);
    DropKid(m, root, q, m[j].left);
    DropKid(m, root, q, m[j].right);
  }

  lemma DropShort(m: seq<Rec>, root: int, q: int)
    requires Valid(m, root) && 0 <= q < |m| && Single(m, q) && !m[q].red && m[q].parent != -1
    ensures 0 <= m[q].parent < |m| && m[q].parent != q
    ensures Short(Drop(m, q), Down(m[q].parent, q), Down(OnlyChild(m, q), q), m[m[q].parent].left == q)
  {
    var p := m[q].parent;
    assert Shape(m, root, q);
    assert Shape(m, root, p) && Even(m, p);
    DropAtIndex(m, q, p);
    DropKid(m, root, q, m[p].left);
    DropKid(m, root, q, m[p].right);
    OnlyChildColour(m, root, q);
  }

  // Without a red node the tree is still valid.
  lemma DropRed(m: seq<Rec>, root: int, q: int)
    requires Valid(m, root) && 0 <= q < |m| && Single(m, q) && m[q].red
    ensures Valid(Drop(m, q), DropLink(m, q, root))
  {
    var r := Drop(m, q);
    DropLinked(m, root, q);
    forall i | 0 <= i < |r| ensures Even(r, i) && Calm(r, i, -1) {
      DropEven(m, root, q, if i < q then i else i + 1);
      DropCalm(m, root, q, if i < q then i else i + 1);
    }
    DropKid(m, root, q, root);
  }

  // Without a black node its parent is short on the side of the child that took its place.
  lemma DropBlack(m: seq<Rec>, root: int, q: int)
    requires Valid(m, root) && 0 <= q < |m| && Single(m, q) && !m[q].red
    ensures -1 <= m[q].parent < |m|
    ensures var p := m[q].parent;
            RemoveInv(Drop(m, q), DropLink(m, q, root), Down(p, q), Down(OnlyChild(m, q), q), p != -1 && m[p].left == q)
  {
    var r, p, x := Drop(m, q), m[q].parent, Down(OnlyChild(m, q), q);
    assert Shape(m, root, q);
    DropLinked(m, root, q);
    if p != -1 {
      DropShort(m, root, q);
    }
    forall i | 0 <= i < |r| ensures (i != Down(p, q) ==> Even(r, i)) && Calm(r, i, x) {
      var j := if i < q then i else i + 1;
      if j != p {
        DropEven(m, root, q, j);
      }
      DropCalm(m, root, q, j);
    }
    DropKid(m, root, q, root);
  }

  // ---------------------------------------------------------------------------------------
  // Height
  // ---------------------------------------------------------------------------------------

  function Size(m: seq<Rec>, c: int): int {
    if 0 <= c < |m| then m[c].hi - m[c].lo else 0
  }

  // The number of nodes on the longest path from c down.
  ghost function Height(m: seq<Rec>, root: int, c: int): (h: nat)
    requires Linked(m, root) && -1 <= c < |m|
    decreases Size(m, c)
  {
    if c == -1 then 0
    else
      assert Shape(m, root, c);
      var l, r := Height(m, root, m[c].left), Height(m, root, m[c].right);
      1 + if l < r then r else l
  }

  function Pow2(n: nat): (p: nat)
    ensures p >= 1
  {
    if n == 0 then 1 else 2 * Pow2(n - 1)
  }

  lemma {:induction false} Pow2Monotone(a: nat, b: nat)
    requires a <= b
    ensures Pow2(a) <= Pow2(b)
  {
    if a < b {
      Pow2Monotone(a, b - 1);
    }
  }

  lemma {:induction false} Pow2Double(n: nat)
    ensures Pow2(2 * n) == Pow2(n) * Pow2(n)
  {
    if n > 0 {
      Pow2Double(n - 1);
      assert Pow2(2 * n) == 2 * Pow2(2 * n - 1) && Pow2(2 * n - 1) == 2 * Pow2(2 * n - 2);
      FourFold(Pow2(n - 1));
    }
  }

  lemma FourFold(p: nat)
    ensures (2 * p) * (2 * p) == 2 * (2 * (p * p))
  {
  }

  // At most every second node of a path is red, and all below the black height is full.
  lemma {:induction false} HeightByBlack(m: seq<Rec>, root: int, c: int)
    requires Valid(m, root) && -1 <= c < |m|
    ensures Bh(m, c) >= 0 && Height(m, root, c) <= 2 * Bh(m, c) + (if Red(m, c) then 1 else 0)
    ensures Pow2(Bh(m, c)) <= Size(m, c) + 1
    decreases Size(m, c)
  {
    if c != -1 {
      assert Shape(m, root, c) && Even(m, c) && Calm(m, c, -1);
      HeightByBlack(m, root, m[c].left);
      HeightByBlack(m, root, m[c].right);
    }
  }

  // The height is at most 2 * log2(n + 1).
  lemma HeightBound(m: seq<Rec>, root: int)
    requires Valid(m, root)
    ensures Pow2(Height(m, root, root)) <= (|m| + 1) * (|m| + 1)
  {
    HeightByBlack(m, root, root);
    var b := Bh(m, root);
    Pow2Monotone(Height(m, root, root), 2 * b);
    Pow2Double(b);
    Squares(Pow2(b), |m| + 1);
  }

  lemma Squares(a: nat, b: nat)
    requires a <= b
    ensures a * a <= b * b
  {
    assert b * b == a * a + (b - a) * (b + a);
    assert (b - a) * (b + a) >= 0;
  }
}
