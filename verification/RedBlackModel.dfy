// The red-black tree of libuv's tree.h as a value: one record for each node, in key order, with
// indices for pointers. Every record also knows the stretch of nodes below it and its black height.
module RedBlackModel {

  // -1 stands for a null pointer.
  datatype Rec = Rec(left: int, right: int, parent: int, red: bool, lo: int, hi: int, bh: int)

  // ---------------------------------------------------------------------------------------
  // The shape
  // ---------------------------------------------------------------------------------------

  // c is the child of p with the nodes lo to hi below it, or null if there are none.
  predicate Child(m: seq<Rec>, c: int, p: int, lo: int, hi: int) {
    if lo == hi then c == -1 else 0 <= lo <= c < hi <= |m| && m[c].parent == p && m[c].lo == lo && m[c].hi == hi
  }

  // i is the root or a child of its parent.
  predicate Hangs(m: seq<Rec>, root: int, i: int)
    requires 0 <= i < |m|
  {
    var p := m[i].parent;
    if p == -1 then i == root else 0 <= p < |m| && (m[p].left == i || m[p].right == i)
  }

  predicate Shape(m: seq<Rec>, root: int, i: int)
    requires 0 <= i < |m|
  {
    var r := m[i];
    && 0 <= r.lo <= i < r.hi <= |m|
    && Child(m, r.left, i, r.lo, i) && Child(m, r.right, i, i + 1, r.hi) && Hangs(m, root, i)
  }

  // A search tree over the order of the records, linked both ways.
  predicate Linked(m: seq<Rec>, root: int) {
    Child(m, root, -1, 0, |m|) && forall i :: 0 <= i < |m| ==> Shape(m, root, i)
  }

  // ---------------------------------------------------------------------------------------
  // Rotations
  // ---------------------------------------------------------------------------------------

  // The child pointer of p that led to a leads to b.
  function Redirect(p: Rec, a: int, b: int): Rec {
    if p.left == a then p.(left := b) else p.(right := b)
  }

  function LeftRec(m: seq<Rec>, e: int, i: int): Rec
    requires 0 <= e < |m| && 0 <= i < |m| && 0 <= m[e].right < |m|
  {
    var t := m[e].right;
    if i == e then m[e].(right := m[t].left, parent := t, hi := t)
    else if i == t then m[t].(left := e, parent := m[e].parent, lo := m[e].lo, hi := m[e].hi)
    else if i == m[t].left then m[i].(parent := e)
    else if i == m[e].parent then Redirect(m[i], e, t)
    else m[i]
  }

  // RB_ROTATE_LEFT of node e around its right child.
  function TurnLeft(m: seq<Rec>, e: int): (r: seq<Rec>)
    requires 0 <= e < |m| && 0 <= m[e].right < |m|
    ensures |r| == |m|
  {
    seq(|m|, i requires 0 <= i < |m| => LeftRec(m, e, i))
  }

  function RightRec(m: seq<Rec>, e: int, i: int): Rec
    requires 0 <= e < |m| && 0 <= i < |m| && 0 <= m[e].left < |m|
  {
    var t := m[e].left;
    if i == e then m[e].(left := m[t].right, parent := t, lo := t + 1)
    else if i == t then m[t].(right := e, parent := m[e].parent, lo := m[e].lo, hi := m[e].hi)
    else if i == m[t].right then m[i].(parent := e)
    else if i == m[e].parent then Redirect(m[i], e, t)
    else m[i]
  }

  // RB_ROTATE_RIGHT of node e around its left child.
  function TurnRight(m: seq<Rec>, e: int): (r: seq<Rec>)
    requires 0 <= e < |m| && 0 <= m[e].left < |m|
    ensures |r| == |m|
  {
    seq(|m|, i requires 0 <= i < |m| => RightRec(m, e, i))
  }

  // The root where t has taken the place of e.
  function NewRoot(m: seq<Rec>, root: int, e: int, t: int): int
    requires 0 <= e < |m|
  {
    if m[e].parent == -1 then t else root
  }

  predicate NearLeft(m: seq<Rec>, root: int, e: int) {
    && 0 <= e < |m| && 0 <= m[e].right < |m| && Shape(m, root, e) && Shape(m, root, m[e].right)
    && (m[e].parent != -1 ==> 0 <= m[e].parent < |m| && Shape(m, root, m[e].parent))
  }

  lemma TurnLeftChild(m: seq<Rec>, root: int, e: int, c: int, p: int, lo: int, hi: int)
    requires NearLeft(m, root, e) && Child(m, c, p, lo, hi)
    requires 0 <= p < |m| && p != e && p != m[e].right && c != e
    ensures Child(TurnLeft(m, e), c, p, lo, hi)
  {
  }

  lemma TurnLeftHangs(m: seq<Rec>, root: int, e: int, i: int)
    requires NearLeft(m, root, e) && 0 <= i < |m| && Shape(m, root, i)
    ensures Hangs(TurnLeft(m, e), NewRoot(m, root, e, m[e].right), i)
  {
  }

  lemma TurnLeftPair(m: seq<Rec>, root: int, e: int)
    requires NearLeft(m, root, e)
    ensures var r := TurnLeft(m, e);
            && Child(r, r[e].left, e, r[e].lo, e) && Child(r, r[e].right, e, e + 1, r[e].hi)
            && (var t := m[e].right; Child(r, r[t].left, t, r[t].lo, t) && Child(r, r[t].right, t, t + 1, r[t].hi))
  {
  }

  lemma TurnLeftBelow(m: seq<Rec>, root: int, e: int)
    requires NearLeft(m, root, e) && m[e].parent != -1
    ensures var r, p, t := TurnLeft(m, e), m[e].parent, m[e].right;
            && p != e && p != t && r[p].lo == m[p].lo && r[p].hi == m[p].hi
            && (if m[p].left == e then r[p].left == t && r[p].right == m[p].right && Child(r, t, p, m[p].lo, p)
                else m[p].right == e && r[p].left == m[p].left && r[p].right == t && Child(r, t, p, p + 1, m[p].hi))
  {
  }

  lemma TurnLeftParent(m: seq<Rec>, root: int, e: int)
    requires NearLeft(m, root, e) && m[e].parent != -1
    ensures var r, p := TurnLeft(m, e), m[e].parent; Child(r, r[p].left, p, r[p].lo, p) && Child(r, r[p].right, p, p + 1, r[p].hi)
  {
    var p := m[e].parent;
    TurnLeftBelow(m, root, e);
    if m[p].left == e {
      TurnLeftChild(m, root, e, m[p].right, p, p + 1, m[p].hi);
    } else {
      TurnLeftChild(m, root, e, m[p].left, p, m[p].lo, p);
    }
  }

  lemma TurnLeftAt(m: seq<Rec>, root: int, e: int, i: int)
    requires NearLeft(m, root, e) && 0 <= i < |m| && Shape(m, root, i)
    ensures Shape(TurnLeft(m, e), NewRoot(m, root, e, m[e].right), i)
  {
    TurnLeftHangs(m, root, e, i);
    if i == e || i == m[e].right {
      TurnLeftPair(m, root, e);
    } else if i == m[e].parent {
      TurnLeftParent(m, root, e);
    } else {
      TurnLeftChild(m, root, e, m[i].left, i, m[i].lo, i);
      TurnLeftChild(m, root, e, m[i].right, i, i + 1, m[i].hi);
    }
  }

  lemma TurnLeftLinked(m: seq<Rec>, root: int, e: int)
    requires Linked(m, root) && 0 <= e < |m| && 0 <= m[e].right < |m|
    ensures Linked(TurnLeft(m, e), NewRoot(m, root, e, m[e].right))
  {
    var r, root' := TurnLeft(m, e), NewRoot(m, root, e, m[e].right);
    forall i | 0 <= i < |m| ensures Shape(r, root', i) {
      TurnLeftAt(m, root, e, i);
    }
    assert Shape(m, root, e) && Shape(m, root, m[e].right);
  }

  predicate NearRight(m: seq<Rec>, root: int, e: int) {
    && 0 <= e < |m| && 0 <= m[e].left < |m| && Shape(m, root, e) && Shape(m, root, m[e].left)
    && (m[e].parent != -1 ==> 0 <= m[e].parent < |m| && Shape(m, root, m[e].parent))
  }

  lemma TurnRightChild(m: seq<Rec>, root: int, e: int, c: int, p: int, lo: int, hi: int)
    requires NearRight(m, root, e) && Child(m, c, p, lo, hi)
    requires 0 <= p < |m| && p != e && p != m[e].left && c != e
    ensures Child(TurnRight(m, e), c, p, lo, hi)
  {
  }

  lemma TurnRightHangs(m: seq<Rec>, root: int, e: int, i: int)
    requires NearRight(m, root, e) && 0 <= i < |m| && Shape(m, root, i)
    ensures Hangs(TurnRight(m, e), NewRoot(m, root, e, m[e].left), i)
  {
  }

  lemma TurnRightPair(m: seq<Rec>, root: int, e: int)
    requires NearRight(m, root, e)
    ensures var r := TurnRight(m, e);
            && Child(r, r[e].left, e, r[e].lo, e) && Child(r, r[e].right, e, e + 1, r[e].hi)
            && (var t := m[e].left; Child(r, r[t].left, t, r[t].lo, t) && Child(r, r[t].right, t, t + 1, r[t].hi))
  {
  }

  lemma TurnRightBelow(m: seq<Rec>, root: int, e: int)
    requires NearRight(m, root, e) && m[e].parent != -1
    ensures var r, p, t := TurnRight(m, e), m[e].parent, m[e].left;
            && p != e && p != t && r[p].lo == m[p].lo && r[p].hi == m[p].hi
            && (if m[p].left == e then r[p].left == t && r[p].right == m[p].right && Child(r, t, p, m[p].lo, p)
                else m[p].right == e && r[p].left == m[p].left && r[p].right == t && Child(r, t, p, p + 1, m[p].hi))
  {
  }

  lemma TurnRightParent(m: seq<Rec>, root: int, e: int)
    requires NearRight(m, root, e) && m[e].parent != -1
    ensures var r, p := TurnRight(m, e), m[e].parent; Child(r, r[p].left, p, r[p].lo, p) && Child(r, r[p].right, p, p + 1, r[p].hi)
  {
    var p := m[e].parent;
    TurnRightBelow(m, root, e);
    if m[p].left == e {
      TurnRightChild(m, root, e, m[p].right, p, p + 1, m[p].hi);
    } else {
      TurnRightChild(m, root, e, m[p].left, p, m[p].lo, p);
    }
  }

  lemma TurnRightAt(m: seq<Rec>, root: int, e: int, i: int)
    requires NearRight(m, root, e) && 0 <= i < |m| && Shape(m, root, i)
    ensures Shape(TurnRight(m, e), NewRoot(m, root, e, m[e].left), i)
  {
    TurnRightHangs(m, root, e, i);
    if i == e || i == m[e].left {
      TurnRightPair(m, root, e);
    } else if i == m[e].parent {
      TurnRightParent(m, root, e);
    } else {
      TurnRightChild(m, root, e, m[i].left, i, m[i].lo, i);
      TurnRightChild(m, root, e, m[i].right, i, i + 1, m[i].hi);
    }
  }

  lemma TurnRightLinked(m: seq<Rec>, root: int, e: int)
    requires Linked(m, root) && 0 <= e < |m| && 0 <= m[e].left < |m|
    ensures Linked(TurnRight(m, e), NewRoot(m, root, e, m[e].left))
  {
    var r, root' := TurnRight(m, e), NewRoot(m, root, e, m[e].left);
    forall i | 0 <= i < |m| ensures Shape(r, root', i) {
      TurnRightAt(m, root, e, i);
    }
    assert Shape(m, root, e) && Shape(m, root, m[e].left);
  }

  // ---------------------------------------------------------------------------------------
  // The colours
  // ---------------------------------------------------------------------------------------

  function Bh(m: seq<Rec>, c: int): int {
    if 0 <= c < |m| then m[c].bh else 0
  }

  predicate Red(m: seq<Rec>, c: int) {
    0 <= c < |m| && m[c].red
  }

  // As many black nodes on the paths to the left as on those to the right.
  predicate Even(m: seq<Rec>, i: int)
    requires 0 <= i < |m|
  {
    Bh(m, m[i].left) == Bh(m, m[i].right) && m[i].bh == Bh(m, m[i].left) + (if m[i].red then 0 else 1)
  }

  // No red child below a red node, but for the child x.
  predicate Calm(m: seq<Rec>, i: int, x: int)
    requires 0 <= i < |m|
  {
    m[i].red ==> (m[i].left == x || !Red(m, m[i].left)) && (m[i].right == x || !Red(m, m[i].right))
  }

  ghost predicate AllEven(m: seq<Rec>) {
    forall i :: 0 <= i < |m| ==> Even(m, i)
  }

  ghost predicate AllCalm(m: seq<Rec>, x: int) {
    forall i :: 0 <= i < |m| ==> Calm(m, i, x)
  }

  // A red-black tree.
  ghost predicate Valid(m: seq<Rec>, root: int) {
    Linked(m, root) && AllEven(m) && AllCalm(m, -1) && !Red(m, root)
  }

  function Paint(m: seq<Rec>, i: int, red: bool, bh: int): (r: seq<Rec>)
    requires 0 <= i < |m|
    ensures |r| == |m|
  {
    m[i := m[i].(red := red, bh := bh)]
  }

  predicate SameLinks(a: Rec, b: Rec) {
    a.left == b.left && a.right == b.right && a.parent == b.parent && a.lo == b.lo && a.hi == b.hi
  }

  lemma PaintLinked(m: seq<Rec>, root: int, i: int, red: bool, bh: int)
    requires Linked(m, root) && 0 <= i < |m|
    ensures Linked(Paint(m, i, red, bh), root)
  {
    var r := Paint(m, i, red, bh);
    forall j | 0 <= j < |m| ensures Shape(r, root, j) {
      assert Shape(m, root, j);
    }
  }

  // ---------------------------------------------------------------------------------------
  // RB_INSERT_COLOR
  // ---------------------------------------------------------------------------------------

  // x is red, and so may be its parent; nothing else is wrong but perhaps the colour of the root x.
  ghost predicate InsertInv(m: seq<Rec>, root: int, x: int) {
    && Linked(m, root) && 0 <= x < |m| && m[x].red && AllEven(m) && AllCalm(m, x)
    && (!Red(m, root) || root == x)
  }

  function Other(r: Rec, c: int): int {
    if r.left == c then r.right else r.left
  }

  // x, its red parent, its grandparent and its uncle.
  lemma Family(m: seq<Rec>, root: int, x: int)
    requires InsertInv(m, root, x) && Red(m, m[x].parent)
    ensures var p := m[x].parent; var g := m[p].parent;
            && 0 <= p < |m| && p != root && (m[p].left == x || m[p].right == x)
            && 0 <= g < |m| && !m[g].red && (m[g].left == p || m[g].right == p)
            && (var u := Other(m[g], p); u == -1 || (0 <= u < |m| && m[u].parent == g && u != p && u != x && u != g))
            && p != x && g != p && g != x && !Red(m, Other(m[p], x))
  {
    var p := m[x].parent;
    assert Shape(m, root, x) && Shape(m, root, p);
    var g := m[p].parent;
    assert g != -1;
    assert Shape(m, root, g) && Calm(m, g, x) && Calm(m, p, x);
  }

  // The parent and the uncle become black and the grandparent red.
  function RecolorRec(m: seq<Rec>, p: int, g: int, u: int, i: int): Rec
    requires 0 <= i < |m|
  {
    if i == p || i == u then m[i].(red := false, bh := m[i].bh + 1) else if i == g then m[i].(red := true) else m[i]
  }

  function Recolor(m: seq<Rec>, p: int, g: int, u: int): (r: seq<Rec>)
    ensures |r| == |m|
  {
    seq(|m|, i requires 0 <= i < |m| => RecolorRec(m, p, g, u, i))
  }

  // The two children of a node have it as their parent.
  predicate Parents(m: seq<Rec>, i: int)
    requires 0 <= i < |m|
  {
    && (m[i].left == -1 || (0 <= m[i].left < i && m[m[i].left].parent == i))
    && (m[i].right == -1 || (i < m[i].right < |m| && m[m[i].right].parent == i))
  }

  predicate FamilyAt(m: seq<Rec>, p: int, g: int, u: int) {
    && 0 <= p < |m| && 0 <= g < |m| && 0 <= u < |m| && p != g && u != g && p != u
    && m[p].parent == g && m[u].parent == g && m[p].red && m[u].red && !m[g].red
    && ((m[g].left == p && m[g].right == u) || (m[g].left == u && m[g].right == p))
  }

  lemma RecolorAt(m: seq<Rec>, p: int, g: int, u: int, x: int, i: int)
    requires FamilyAt(m, p, g, u) && 0 <= i < |m| && Parents(m, i) && Even(m, i) && Calm(m, i, x)
    requires 0 <= x < |m| && m[x].parent == p
    ensures Even(Recolor(m, p, g, u), i) && Calm(Recolor(m, p, g, u), i, g)
  {
  }

  lemma RelinkLinked(m: seq<Rec>, r: seq<Rec>, root: int)
    requires Linked(m, root) && |r| == |m| && forall i :: 0 <= i < |m| ==> SameLinks(m[i], r[i])
    ensures Linked(r, root)
  {
    forall j | 0 <= j < |m| ensures Shape(r, root, j) {
      assert Shape(m, root, j);
    }
  }

  lemma RecolorKeeps(m: seq<Rec>, root: int, x: int, p: int, g: int, u: int)
    requires InsertInv(m, root, x) && m[x].parent == p && FamilyAt(m, p, g, u)
    ensures InsertInv(Recolor(m, p, g, u), root, g)
  {
    var r := Recolor(m, p, g, u);
    forall i | 0 <= i < |m| ensures Even(r, i) && Calm(r, i, g) {
      assert Shape(m, root, i) && Even(m, i) && Calm(m, i, x);
      RecolorAt(m, p, g, u, x, i);
    }
    RelinkLinked(m, r, root);
    assert Shape(m, root, p);
  }
  predicate SameColours(m: seq<Rec>, r: seq<Rec>) {
    |r| == |m| && forall i :: 0 <= i < |m| ==> r[i].red == m[i].red && r[i].bh == m[i].bh
  }

  lemma SameKid(m: seq<Rec>, r: seq<Rec>, c: int)
    requires SameColours(m, r)
    ensures Bh(r, c) == Bh(m, c) && Red(r, c) == Red(m, c)
  {
  }

  // The children that a turn leaves below node i.
  lemma TurnLeftKids(m: seq<Rec>, root: int, e: int, i: int)
    requires NearLeft(m, root, e) && 0 <= i < |m| && Parents(m, i)
    ensures var r, t := TurnLeft(m, e), m[e].right;
            && SameColours(m, r)
            && (i == e ==> r[i].left == m[e].left && r[i].right == m[t].left)
            && (i == t ==> r[i].left == e && r[i].right == m[t].right)
            && (i != e && i != t ==>
                  r[i].left == (if m[i].left == e then t else m[i].left) && r[i].right == (if m[i].right == e then t else m[i].right))
  {
  }

  // The children that a turn leaves below node i.
  lemma TurnRightKids(m: seq<Rec>, root: int, e: int, i: int)
    requires NearRight(m, root, e) && 0 <= i < |m| && Parents(m, i)
    ensures var r, t := TurnRight(m, e), m[e].left;
            && SameColours(m, r)
            && (i == e ==> r[i].right == m[e].right && r[i].left == m[t].right)
            && (i == t ==> r[i].right == e && r[i].left == m[t].left)
            && (i != e && i != t ==>
                  r[i].left == (if m[i].left == e then t else m[i].left) && r[i].right == (if m[i].right == e then t else m[i].right))
  {
  }

  // x is the right child of p, the left child of g: p is turned left around it.
  lemma InnerLeftAt(m: seq<Rec>, root: int, x: int, p: int, i: int)
    requires NearLeft(m, root, p) && m[p].right == x && m[p].red && m[x].red && Even(m, p) && Even(m, x)
    requires Calm(m, p, x) && Calm(m, x, x) && 0 <= i < |m| && Parents(m, i) && Even(m, i) && Calm(m, i, x)
    requires m[p].parent != -1 && !m[m[p].parent].red
    ensures Even(TurnLeft(m, p), i) && Calm(TurnLeft(m, p), i, p)
  {
    var r := TurnLeft(m, p);
    TurnLeftKids(m, root, p, i);
    SameKid(m, r, r[i].left);
    SameKid(m, r, r[i].right);
    SameKid(m, r, i);
  }

  lemma InnerLeft(m: seq<Rec>, root: int, x: int, p: int, g: int)
    requires InsertInv(m, root, x) && m[x].parent == p && Red(m, p) && m[p].parent == g && 0 <= g < |m|
    requires m[g].left == p && m[p].right == x
    ensures var r := TurnLeft(m, p);
            InsertInv(r, root, p) && r[p].parent == x && r[x].parent == g && r[g].left == x && r[x].left == p && r[x].red
            && r[g].right == m[g].right && Red(r, r[g].right) == Red(m, m[g].right)
  {
    Family(m, root, x);
    TurnLeftLinked(m, root, p);
    assert Shape(m, root, p) && Shape(m, root, x) && Shape(m, root, g) && Even(m, p) && Even(m, x) && Calm(m, p, x) && Calm(m, x, x);
    TurnLeftBelow(m, root, p);
    forall i | 0 <= i < |m| ensures Even(TurnLeft(m, p), i) && Calm(TurnLeft(m, p), i, p) {
      assert Shape(m, root, i) && Even(m, i) && Calm(m, i, x);
      InnerLeftAt(m, root, x, p, i);
    }
  }

  // x is the left child of p, the right child of g: p is turned right around it.
  lemma InnerRightAt(m: seq<Rec>, root: int, x: int, p: int, i: int)
    requires NearRight(m, root, p) && m[p].left == x && m[p].red && m[x].red && Even(m, p) && Even(m, x)
    requires Calm(m, p, x) && Calm(m, x, x) && 0 <= i < |m| && Parents(m, i) && Even(m, i) && Calm(m, i, x)
    requires m[p].parent != -1 && !m[m[p].parent].red
    ensures Even(TurnRight(m, p), i) && Calm(TurnRight(m, p), i, p)
  {
    var r := TurnRight(m, p);
    TurnRightKids(m, root, p, i);
    SameKid(m, r, r[i].left);
    SameKid(m, r, r[i].right);
    SameKid(m, r, i);
  }

  lemma InnerRight(m: seq<Rec>, root: int, x: int, p: int, g: int)
    requires InsertInv(m, root, x) && m[x].parent == p && Red(m, p) && m[p].parent == g && 0 <= g < |m|
    requires m[g].right == p && m[p].left == x
    ensures var r := TurnRight(m, p);
            InsertInv(r, root, p) && r[p].parent == x && r[x].parent == g && r[g].right == x && r[x].right == p && r[x].red
            && r[g].left == m[g].left && Red(r, r[g].left) == Red(m, m[g].left)
  {
    Family(m, root, x);
    TurnRightLinked(m, root, p);
    assert Shape(m, root, p) && Shape(m, root, x) && Shape(m, root, g) && Even(m, p) && Even(m, x) && Calm(m, p, x) && Calm(m, x, x);
    TurnRightBelow(m, root, p);
    forall i | 0 <= i < |m| ensures Even(TurnRight(m, p), i) && Calm(TurnRight(m, p), i, p) {
      assert Shape(m, root, i) && Even(m, i) && Calm(m, i, x);
      InnerRightAt(m, root, x, p, i);
    }
  }

  // p becomes black and g red.
  function SwapRec(m: seq<Rec>, p: int, g: int, i: int): Rec
    requires 0 <= i < |m|
  {
    if i == p then m[i].(red := false, bh := m[i].bh + 1) else if i == g then m[i].(red := true, bh := m[i].bh - 1) else m[i]
  }

  function Swap(m: seq<Rec>, p: int, g: int): (r: seq<Rec>)
    ensures |r| == |m|
  {
    seq(|m|, i requires 0 <= i < |m| => SwapRec(m, p, g, i))
  }

  // x is the left child of p, the left child of g: g is turned right around p, and the two exchange colours.
  function OuterRight(m: seq<Rec>, p: int, g: int): (r: seq<Rec>)
    requires 0 <= p < |m| && 0 <= g < |m| && p != g && m[g].left == p
    ensures |r| == |m|
  {
    TurnRight(Swap(m, p, g), g)
  }

  lemma OuterRightAt(m: seq<Rec>, root: int, x: int, p: int, g: int, i: int)
    requires 0 <= p < |m| && 0 <= g < |m| && p != g && m[g].left == p && NearRight(Swap(m, p, g), root, g) && m[p].left == x && m[p].red && !m[g].red && Even(m, p) && Even(m, g)
    requires p != g && x != g && x != p && !Red(m, m[g].right) && Calm(m, p, x) && m[p].right != x
    requires 0 <= i < |m| && Parents(m, i) && Even(m, i) && Calm(m, i, x)
    ensures Even(OuterRight(m, p, g), i) && Calm(OuterRight(m, p, g), i, x)
  {
    var m1 := Swap(m, p, g);
    var r := TurnRight(m1, g);
    TurnRightKids(m1, root, g, i);
    SameKid(m1, r, r[i].left);
    SameKid(m1, r, r[i].right);
    SameKid(m1, r, i);
  }

  lemma OuterRightKeeps(m: seq<Rec>, root: int, x: int, p: int, g: int)
    requires InsertInv(m, root, x) && m[x].parent == p && Red(m, p) && m[p].parent == g && 0 <= g < |m|
    requires p != g && m[g].left == p && m[p].left == x && !Red(m, m[g].right)
    ensures var r := OuterRight(m, p, g);
            InsertInv(r, NewRoot(m, root, g, p), x) && r[x].parent == p && !r[p].red
  {
    Family(m, root, x);
    var m1 := Swap(m, p, g);
    RelinkLinked(m, m1, root);
    TurnRightLinked(m1, root, g);
    assert Shape(m, root, p) && Shape(m, root, x) && Shape(m, root, g) && Even(m, p) && Even(m, g) && Calm(m, p, x);
    assert Shape(m1, root, g) && Shape(m1, root, p) && (m1[g].parent != -1 ==> Shape(m1, root, m1[g].parent));
    forall i | 0 <= i < |m| ensures Even(OuterRight(m, p, g), i) && Calm(OuterRight(m, p, g), i, x) {
      assert Shape(m, root, i) && Even(m, i) && Calm(m, i, x);
      OuterRightAt(m, root, x, p, g, i);
    }
  }

  // x is the right child of p, the right child of g: g is turned left around p, and the two exchange colours.
  function OuterLeft(m: seq<Rec>, p: int, g: int): (r: seq<Rec>)
    requires 0 <= p < |m| && 0 <= g < |m| && p != g && m[g].right == p
    ensures |r| == |m|
  {
    TurnLeft(Swap(m, p, g), g)
  }

  lemma OuterLeftAt(m: seq<Rec>, root: int, x: int, p: int, g: int, i: int)
    requires 0 <= p < |m| && 0 <= g < |m| && p != g && m[g].right == p && NearLeft(Swap(m, p, g), root, g) && m[p].right == x && m[p].red && !m[g].red && Even(m, p) && Even(m, g)
    requires p != g && x != g && x != p && !Red(m, m[g].left) && Calm(m, p, x) && m[p].left != x
    requires 0 <= i < |m| && Parents(m, i) && Even(m, i) && Calm(m, i, x)
    ensures Even(OuterLeft(m, p, g), i) && Calm(OuterLeft(m, p, g), i, x)
  {
    var m1 := Swap(m, p, g);
    var r := TurnLeft(m1, g);
    TurnLeftKids(m1, root, g, i);
    SameKid(m1, r, r[i].left);
    SameKid(m1, r, r[i].right);
    SameKid(m1, r, i);
  }

  lemma OuterLeftKeeps(m: seq<Rec>, root: int, x: int, p: int, g: int)
    requires InsertInv(m, root, x) && m[x].parent == p && Red(m, p) && m[p].parent == g && 0 <= g < |m|
    requires p != g && m[g].right == p && m[p].right == x && !Red(m, m[g].left)
    ensures var r := OuterLeft(m, p, g);
            InsertInv(r, NewRoot(m, root, g, p), x) && r[x].parent == p && !r[p].red
  {
    Family(m, root, x);
    var m1 := Swap(m, p, g);
    RelinkLinked(m, m1, root);
    TurnLeftLinked(m1, root, g);
    assert Shape(m, root, p) && Shape(m, root, x) && Shape(m, root, g) && Even(m, p) && Even(m, g) && Calm(m, p, x);
    assert Shape(m1, root, g) && Shape(m1, root, p) && (m1[g].parent != -1 ==> Shape(m1, root, m1[g].parent));
    forall i | 0 <= i < |m| ensures Even(OuterLeft(m, p, g), i) && Calm(OuterLeft(m, p, g), i, x) {
      assert Shape(m, root, i) && Even(m, i) && Calm(m, i, x);
      OuterLeftAt(m, root, x, p, g, i);
    }
  }

  // When the loop is over the root is made black.
  lemma InsertDone(m: seq<Rec>, root: int, x: int)
    requires InsertInv(m, root, x) && !Red(m, m[x].parent)
    ensures 0 <= root < |m| && Valid(Paint(m, root, false, m[root].bh + (if m[root].red then 1 else 0)), root)
  {
    assert Shape(m, root, x);
    var bh := m[root].bh + (if m[root].red then 1 else 0);
    PaintLinked(m, root, root, false, bh);
    forall i | 0 <= i < |m| ensures Even(Paint(m, root, false, bh), i) && Calm(Paint(m, root, false, bh), i, -1) {
      assert Shape(m, root, i) && Even(m, i) && Calm(m, i, x);
    }
  }

  // ---------------------------------------------------------------------------------------
  // RB_REMOVE_COLOR
  // ---------------------------------------------------------------------------------------

  // par is short of one black node on the side of its child x.
  predicate Short(m: seq<Rec>, par: int, x: int, onLeft: bool)
    requires 0 <= par < |m|
  {
    var w := if onLeft then m[par].right else m[par].left;
    x == (if onLeft then m[par].left else m[par].right) && Bh(m, x) + 1 == Bh(m, w) && m[par].bh == Bh(m, w) + (if m[par].red then 0 else 1)
  }

  // But for that, and for the colour of x, all is well; without par, x is the root.
  ghost predicate RemoveInv(m: seq<Rec>, root: int, par: int, x: int, onLeft: bool) {
    && Linked(m, root) && -1 <= par < |m| && (!Red(m, root) || root == x)
    && (if par == -1 then x == root else Short(m, par, x, onLeft))
    && (forall i :: 0 <= i < |m| && i != par ==> Even(m, i))
    && (forall i :: 0 <= i < |m| && i != x ==> Calm(m, i, x))
  }

  // The sibling of x is there, and x is not where the sibling is.
  lemma Sibling(m: seq<Rec>, root: int, par: int, x: int, onLeft: bool)
    requires RemoveInv(m, root, par, x, onLeft) && x != root
    ensures 0 <= par < |m| && par != x
    ensures var w := if onLeft then m[par].right else m[par].left;
            0 <= w < |m| && w != x && w != par && m[w].parent == par && m[w].bh == Bh(m, x) + 1 && m[w].parent != -1
    ensures m[par].left == x <==> onLeft
    ensures x == -1 || (0 <= x < |m| && m[x].parent == par)
  {
    assert Shape(m, root, par);
    var w := if onLeft then m[par].right else m[par].left;
    BhNonNegative(m, root, par, x);
    assert w != -1;
  }

  lemma {:induction false} BhNonNegative(m: seq<Rec>, root: int, par: int, c: int)
    requires Linked(m, root) && (forall i :: 0 <= i < |m| && i != par ==> Even(m, i)) && 0 <= par < |m|
    requires c == -1 || (0 <= c < |m| && !(m[c].lo <= par < m[c].hi))
    ensures Bh(m, c) >= 0
    decreases if c == -1 then 0 else m[c].hi - m[c].lo
  {
    if c != -1 {
      assert Shape(m, root, c) && Even(m, c);
      BhNonNegative(m, root, par, m[c].left);
    }
  }

  // The black sibling w with black children becomes red: now the parent is short.
  function ShrinkRec(m: seq<Rec>, w: int, par: int, i: int): Rec
    requires 0 <= i < |m|
  {
    if i == w then m[i].(red := true, bh := m[i].bh - 1) else if i == par then m[i].(bh := m[i].bh - 1) else m[i]
  }

  function Shrink(m: seq<Rec>, w: int, par: int): (r: seq<Rec>)
    ensures |r| == |m|
  {
    seq(|m|, i requires 0 <= i < |m| => ShrinkRec(m, w, par, i))
  }

  lemma ShrinkKeeps(m: seq<Rec>, root: int, par: int, x: int, onLeft: bool, w: int)
    requires RemoveInv(m, root, par, x, onLeft) && x != root && 0 <= par < |m| && !Red(m, x)
    requires w == (if onLeft then m[par].right else m[par].left) && 0 <= w < |m|
    requires !m[w].red && !Red(m, m[w].left) && !Red(m, m[w].right)
    ensures var up := m[par].parent;
            RemoveInv(Shrink(m, w, par), root, up, par, up != -1 && 0 <= up < |m| && m[up].left == par)
  {
    Sibling(m, root, par, x, onLeft);
    var r, up := Shrink(m, w, par), m[par].parent;
    assert Shape(m, root, par);
    if up != -1 {
      assert Shape(m, root, up) && Even(m, up);
      ShrinkUp(m, par, w, up);
    }
    ShrinkRest(m, root, par, x, onLeft, w);
  }

  lemma ShrinkRest(m: seq<Rec>, root: int, par: int, x: int, onLeft: bool, w: int)
    requires RemoveInv(m, root, par, x, onLeft) && x != root && 0 <= par < |m| && !Red(m, x)
    requires w == (if onLeft then m[par].right else m[par].left) && 0 <= w < |m| && w != par && m[w].parent == par
    requires !m[w].red && !Red(m, m[w].left) && !Red(m, m[w].right) && (x == -1 || (0 <= x < |m| && m[x].parent == par))
    ensures var r := Shrink(m, w, par);
      && Linked(r, root) && (Red(r, root) ==> root == par)
      && (forall i :: 0 <= i < |m| && i != m[par].parent ==> Even(r, i))
      && (forall i :: 0 <= i < |m| && i != par ==> Calm(r, i, par))
  {
    var r, up := Shrink(m, w, par), m[par].parent;
    RelinkLinked(m, r, root);
    assert Shape(m, root, par) && Shape(m, root, w) && Even(m, w);
    forall i | 0 <= i < |m| ensures (i != up ==> Even(r, i)) && (i != par ==> Calm(r, i, par)) {
      assert Shape(m, root, i) && (i != par ==> Even(m, i)) && (i != x ==> Calm(m, i, x));
      ShrinkAt(m, par, x, onLeft, w, i);
    }
  }

  lemma ShrinkUp(m: seq<Rec>, par: int, w: int, up: int)
    requires 0 <= par < |m| && 0 <= w < |m| && 0 <= up < |m| && w != par && m[w].parent == par && m[par].parent == up && up != par && up != w
    requires (m[up].left == par || m[up].right == par) && Parents(m, up) && Even(m, up)
    ensures Short(Shrink(m, w, par), up, par, m[up].left == par)
  {
  }

  lemma ShrinkAt(m: seq<Rec>, par: int, x: int, onLeft: bool, w: int, i: int)
    requires 0 <= par < |m| && 0 <= w < |m| && w != par && Parents(m, par) && Parents(m, w) && m[w].parent == par
    requires Short(m, par, x, onLeft) && w == (if onLeft then m[par].right else m[par].left) && Even(m, w) && !Red(m, x)
    requires !m[w].red && !Red(m, m[w].left) && !Red(m, m[w].right) && (x == -1 || (0 <= x < |m| && m[x].parent == par))
    requires 0 <= i < |m| && Parents(m, i) && (i != par ==> Even(m, i)) && (i != x ==> Calm(m, i, x))
    ensures var r := Shrink(m, w, par); (i != m[par].parent ==> Even(r, i)) && (i != par ==> Calm(r, i, par))
  {
  }

  // w takes the colour of the parent, which becomes black like the far nephew z.
  function SettledRec(m: seq<Rec>, par: int, w: int, z: int, i: int): Rec
    requires 0 <= i < |m| && 0 <= par < |m| && 0 <= w < |m|
  {
    if i == w then m[i].(red := m[par].red, bh := m[par].bh)
    else if i == par then m[i].(red := false, bh := m[w].bh)
    else if i == z then m[i].(red := false, bh := m[i].bh + 1)
    else m[i]
  }

  function Settled(m: seq<Rec>, par: int, w: int, z: int): (r: seq<Rec>)
    requires 0 <= par < |m| && 0 <= w < |m|
    ensures |r| == |m|
  {
    seq(|m|, i requires 0 <= i < |m| => SettledRec(m, par, w, z, i))
  }

  lemma SwapLinkedLeft(m: seq<Rec>, root: int, p: int, g: int)
    requires Linked(m, root) && 0 <= g < |m| && 0 <= p < |m| && m[g].right == p
    ensures Linked(TurnLeft(Swap(m, p, g), g), NewRoot(m, root, g, p)) && Linked(Swap(m, p, g), root) && NearLeft(Swap(m, p, g), root, g)
  {
    var m1 := Swap(m, p, g);
    RelinkLinked(m, m1, root);
    TurnLeftLinked(m1, root, g);
    assert Shape(m1, root, g) && Shape(m1, root, p) && (m1[g].parent != -1 ==> Shape(m1, root, m1[g].parent));
  }

  lemma SettledLinkedLeft(m: seq<Rec>, root: int, par: int, w: int, z: int)
    requires Linked(m, root) && 0 <= par < |m| && 0 <= w < |m| && m[par].right == w
    ensures Linked(TurnLeft(Settled(m, par, w, z), par), NewRoot(m, root, par, w)) && NearLeft(Settled(m, par, w, z), root, par)
  {
    var m1 := Settled(m, par, w, z);
    RelinkLinked(m, m1, root);
    TurnLeftLinked(m1, root, par);
    assert Shape(m1, root, par) && Shape(m1, root, w) && (m1[par].parent != -1 ==> Shape(m1, root, m1[par].parent));
  }

  lemma SwapLinkedRight(m: seq<Rec>, root: int, p: int, g: int)
    requires Linked(m, root) && 0 <= g < |m| && 0 <= p < |m| && m[g].left == p
    ensures Linked(TurnRight(Swap(m, p, g), g), NewRoot(m, root, g, p)) && Linked(Swap(m, p, g), root) && NearRight(Swap(m, p, g), root, g)
  {
    var m1 := Swap(m, p, g);
    RelinkLinked(m, m1, root);
    TurnRightLinked(m1, root, g);
    assert Shape(m1, root, g) && Shape(m1, root, p) && (m1[g].parent != -1 ==> Shape(m1, root, m1[g].parent));
  }

  lemma SettledLinkedRight(m: seq<Rec>, root: int, par: int, w: int, z: int)
    requires Linked(m, root) && 0 <= par < |m| && 0 <= w < |m| && m[par].left == w
    ensures Linked(TurnRight(Settled(m, par, w, z), par), NewRoot(m, root, par, w)) && NearRight(Settled(m, par, w, z), root, par)
  {
    var m1 := Settled(m, par, w, z);
    RelinkLinked(m, m1, root);
    TurnRightLinked(m1, root, par);
    assert Shape(m1, root, par) && Shape(m1, root, w) && (m1[par].parent != -1 ==> Shape(m1, root, m1[par].parent));
  }

  // A node whose child e has made way for t, which looks the same from above, is as it was.
  lemma RestKeeps(m: seq<Rec>, r: seq<Rec>, e: int, t: int, i: int, x: int)
    requires |r| == |m| && 0 <= i < |m| && r[i].red == m[i].red && r[i].bh == m[i].bh
    requires r[i].left == (if m[i].left == e then t else m[i].left) && r[i].right == (if m[i].right == e then t else m[i].right)
    requires Bh(r, t) == Bh(m, e) && (Red(r, t) ==> Red(m, e)) && e != x
    requires m[i].left != e ==> Bh(r, m[i].left) == Bh(m, m[i].left) && Red(r, m[i].left) == Red(m, m[i].left)
    requires m[i].right != e ==> Bh(r, m[i].right) == Bh(m, m[i].right) && Red(r, m[i].right) == Red(m, m[i].right)
    ensures Even(m, i) ==> Even(r, i)
    ensures Calm(m, i, x) ==> Calm(r, i, x)
    ensures Calm(m, i, x) && !Red(m, x) ==> Calm(r, i, -1)
  {
  }

  // The red sibling w comes up over the parent, which gets a black sibling for x.
  lemma RaiseLeftOwn(m: seq<Rec>, root: int, par: int, x: int, w: int, i: int)
    requires 0 <= par < |m| && 0 <= w < |m| && par != w && m[par].right == w && NearLeft(Swap(m, w, par), root, par) && m[w].red && !m[par].red
    requires Short(m, par, x, true) && Even(m, w) && x != w && x != par && Parents(m, par) && Parents(m, w)
    requires Calm(m, w, x) && 0 <= i < |m| && Parents(m, i) && (i != par ==> Even(m, i)) && (i != x ==> Calm(m, i, x))
    requires i == par || i == w
    ensures var r := TurnLeft(Swap(m, w, par), par);
            (i != par ==> Even(r, i)) && (i == par ==> Short(r, i, x, true)) && (i != x ==> Calm(r, i, x))
  {
    var m1 := Swap(m, w, par);
    var r := TurnLeft(m1, par);
    TurnLeftKids(m1, root, par, i);
    SameKid(m1, r, r[i].left);
    SameKid(m1, r, r[i].right);
    SameKid(m1, r, i);
  }

  lemma RaiseLeftRest(m: seq<Rec>, root: int, par: int, x: int, w: int, i: int)
    requires 0 <= par < |m| && 0 <= w < |m| && par != w && m[par].right == w && NearLeft(Swap(m, w, par), root, par)
    requires m[w].parent == par && x != par && m[w].bh + 1 == m[par].bh && i != par && i != w
    requires 0 <= i < |m| && Parents(m, i) && Even(m, i) && (i != x ==> Calm(m, i, x))
    ensures var r := TurnLeft(Swap(m, w, par), par); Even(r, i) && (i != x ==> Calm(r, i, x))
  {
    var m1 := Swap(m, w, par);
    var r := TurnLeft(m1, par);
    TurnLeftKids(m1, root, par, i);
    SameKid(m1, r, m[i].left);
    SameKid(m1, r, m[i].right);
    SameKid(m1, r, w);
    RestKeeps(m, r, par, w, i, x);
  }

  lemma RaiseLeft(m: seq<Rec>, root: int, par: int, x: int, w: int)
    requires RemoveInv(m, root, par, x, true) && x != root && 0 <= par < |m| && m[par].right == w && Red(m, w) && par != w && !Red(m, x)
    ensures var r := TurnLeft(Swap(m, w, par), par);
            RemoveInv(r, NewRoot(m, root, par, w), par, x, true) && x != NewRoot(m, root, par, w) && !Red(r, r[par].right) && r[par].red
  {
    Sibling(m, root, par, x, true);
    var m1 := Swap(m, w, par);
    var r := TurnLeft(m1, par);
    assert Calm(m, par, x) && Calm(m, w, x) && Even(m, w);
    SwapLinkedLeft(m, root, w, par);
    assert Shape(m, root, par) && Shape(m, root, w);
    forall i | 0 <= i < |m|
      ensures (i != par ==> Even(r, i)) && (i == par ==> Short(r, i, x, true)) && (i != x ==> Calm(r, i, x))
    {
      assert Shape(m, root, i) && (i != par ==> Even(m, i)) && (i != x ==> Calm(m, i, x));
      if i == par || i == w {
        RaiseLeftOwn(m, root, par, x, w, i);
      } else {
        RaiseLeftRest(m, root, par, x, w, i);
      }
    }
  }

  // The nephew v on the near side is red and comes up over the sibling w, which becomes red.
  lemma NephewLeftOwn(m: seq<Rec>, root: int, par: int, x: int, w: int, v: int, i: int)
    requires 0 <= w < |m| && 0 <= v < |m| && v != w && m[w].left == v && NearRight(Swap(m, v, w), root, w) && m[v].red && !m[w].red
    requires Even(m, w) && Even(m, v) && x != w && x != v && Parents(m, w) && Parents(m, v) && m[w].parent == par && par != w && par != v
    requires !Red(m, m[w].right) && Calm(m, v, x) && 0 <= par < |m| && Short(m, par, x, true) && m[par].right == w && Parents(m, par)
    requires Parents(m, v) && (x == -1 || (0 <= x < |m| && m[x].parent == par))
    requires 0 <= i < |m| && Parents(m, i) && (i != par ==> Even(m, i)) && (i != x ==> Calm(m, i, x))
    requires i == w || i == v || i == par
    ensures var r := TurnRight(Swap(m, v, w), w);
            (i != par ==> Even(r, i)) && (i == par ==> Short(r, i, x, true)) && (i != x ==> Calm(r, i, x))
  {
    var m1 := Swap(m, v, w);
    var r := TurnRight(m1, w);
    TurnRightKids(m1, root, w, i);
    SameKid(m1, r, r[i].left);
    SameKid(m1, r, r[i].right);
    SameKid(m1, r, i);
  }

  lemma NephewLeftRest(m: seq<Rec>, root: int, par: int, x: int, w: int, v: int, i: int)
    requires 0 <= w < |m| && 0 <= v < |m| && v != w && m[w].left == v && NearRight(Swap(m, v, w), root, w)
    requires m[v].parent == w && x != w && m[v].bh + 1 == m[w].bh && i != w && i != v
    requires 0 <= i < |m| && Parents(m, i) && Even(m, i) && (i != x ==> Calm(m, i, x))
    ensures var r := TurnRight(Swap(m, v, w), w); Even(r, i) && (i != x ==> Calm(r, i, x))
  {
    var m1 := Swap(m, v, w);
    var r := TurnRight(m1, w);
    TurnRightKids(m1, root, w, i);
    SameKid(m1, r, m[i].left);
    SameKid(m1, r, m[i].right);
    SameKid(m1, r, v);
    RestKeeps(m, r, w, v, i, x);
  }

  lemma NephewLeftColours(m: seq<Rec>, root: int, par: int, x: int, w: int, v: int)
    requires RemoveInv(m, root, par, x, true) && x != root && 0 <= par < |m| && m[par].right == w && 0 <= w < |m| && !m[w].red
    requires m[w].left == v && Red(m, v) && v != w && !Red(m, m[w].right) && !Red(m, x)
    ensures var r := TurnRight(Swap(m, v, w), w);
            forall i :: 0 <= i < |m| ==>
              (i != par ==> Even(r, i)) && (i == par ==> Short(r, i, x, true)) && (i != x ==> Calm(r, i, x))
  {
    Sibling(m, root, par, x, true);
    var r := TurnRight(Swap(m, v, w), w);
    assert Shape(m, root, par) && Shape(m, root, w) && Shape(m, root, v) && Calm(m, v, x) && Even(m, w) && Even(m, v);
    SwapLinkedRight(m, root, v, w);
    forall i | 0 <= i < |m|
      ensures (i != par ==> Even(r, i)) && (i == par ==> Short(r, i, x, true)) && (i != x ==> Calm(r, i, x))
    {
      assert Shape(m, root, i) && (i != par ==> Even(m, i)) && (i != x ==> Calm(m, i, x));
      if i == w || i == v || i == par {
        NephewLeftOwn(m, root, par, x, w, v, i);
      } else {
        NephewLeftRest(m, root, par, x, w, v, i);
      }
    }
  }

  lemma NephewLeft(m: seq<Rec>, root: int, par: int, x: int, w: int, v: int)
    requires RemoveInv(m, root, par, x, true) && x != root && 0 <= par < |m| && m[par].right == w && 0 <= w < |m| && !m[w].red
    requires m[w].left == v && Red(m, v) && v != w && !Red(m, m[w].right) && !Red(m, x)
    ensures var r := TurnRight(Swap(m, v, w), w);
            RemoveInv(r, root, par, x, true) && r[par].right == v && !r[v].red && r[v].right == w && r[w].red && NewRoot(m, root, w, v) == root
  {
    Sibling(m, root, par, x, true);
    var m1 := Swap(m, v, w);
    var r := TurnRight(m1, w);
    assert Shape(m, root, par) && Shape(m, root, w) && Shape(m, root, v);
    SwapLinkedRight(m, root, v, w);
    assert NearRight(m1, root, w);
    TurnRightBelow(m1, root, w);
    NephewLeftColours(m, root, par, x, w, v);
  }

  // The nephew z on the far side is red: the sibling w comes up over the parent with its colour.
  lemma SettleLeftOwn(m: seq<Rec>, root: int, par: int, x: int, w: int, z: int, i: int)
    requires 0 <= par < |m| && 0 <= w < |m| && 0 <= z < |m| && par != w && z != w && z != par && m[par].right == w && m[w].right == z
    requires NearLeft(Settled(m, par, w, z), root, par) && !m[w].red && m[z].red && m[z].parent == w && m[w].parent == par
    requires Short(m, par, x, true) && Even(m, w) && x != w && x != par && !Red(m, x) && Parents(m, par) && Parents(m, w)
    requires Even(m, z) && Calm(m, par, x) && 0 <= i < |m| && Parents(m, i) && (i != par ==> Even(m, i)) && (i != x ==> Calm(m, i, x))
    requires i == par || i == w || i == z
    ensures var r := TurnLeft(Settled(m, par, w, z), par); Even(r, i) && Calm(r, i, -1)
  {
    var m1 := Settled(m, par, w, z);
    var r := TurnLeft(m1, par);
    TurnLeftKids(m1, root, par, i);
    SameKid(m1, r, r[i].left);
    SameKid(m1, r, r[i].right);
    SameKid(m1, r, i);
  }

  lemma SettleLeftRest(m: seq<Rec>, root: int, par: int, x: int, w: int, z: int, i: int)
    requires 0 <= par < |m| && 0 <= w < |m| && par != w && m[par].right == w && NearLeft(Settled(m, par, w, z), root, par)
    requires m[w].parent == par && x != par && 0 <= z < |m| && z != w && z != par && m[z].parent == w && m[z].red && i != par && i != w
    requires 0 <= i < |m| && Parents(m, i) && Even(m, i) && (i != x ==> Calm(m, i, x)) && !Red(m, x)
    requires i != z
    ensures var r := TurnLeft(Settled(m, par, w, z), par); Even(r, i) && Calm(r, i, -1)
  {
    var m1 := Settled(m, par, w, z);
    var r := TurnLeft(m1, par);
    TurnLeftKids(m1, root, par, i);
    SameKid(m1, r, m[i].left);
    SameKid(m1, r, m[i].right);
    SameKid(m1, r, w);
    RestKeeps(m, r, par, w, i, x);
  }

  lemma SettleLeft(m: seq<Rec>, root: int, par: int, x: int, w: int, z: int)
    requires RemoveInv(m, root, par, x, true) && x != root && 0 <= par < |m| && m[par].right == w && 0 <= w < |m| && !m[w].red
    requires m[w].right == z && Red(m, z) && par != w && !Red(m, x)
    ensures Valid(TurnLeft(Settled(m, par, w, z), par), NewRoot(m, root, par, w))
  {
    Sibling(m, root, par, x, true);
    var m1 := Settled(m, par, w, z);
    var r := TurnLeft(m1, par);
    assert Shape(m, root, par) && Shape(m, root, w) && Shape(m, root, z) && Even(m, w) && Even(m, z) && Calm(m, par, x);
    SettledLinkedLeft(m, root, par, w, z);
    forall i | 0 <= i < |m| ensures Even(r, i) && Calm(r, i, -1) {
      assert Shape(m, root, i) && (i != par ==> Even(m, i)) && (i != x ==> Calm(m, i, x));
      if i == par || i == w || i == z {
        SettleLeftOwn(m, root, par, x, w, z, i);
      } else {
        SettleLeftRest(m, root, par, x, w, z, i);
      }
    }
  }

  // The red sibling w comes up over the parent, which gets a black sibling for x.
  lemma RaiseRightOwn(m: seq<Rec>, root: int, par: int, x: int, w: int, i: int)
    requires 0 <= par < |m| && 0 <= w < |m| && par != w && m[par].left == w && NearRight(Swap(m, w, par), root, par) && m[w].red && !m[par].red
    requires Short(m, par, x, false) && Even(m, w) && x != w && x != par && Parents(m, par) && Parents(m, w)
    requires Calm(m, w, x) && 0 <= i < |m| && Parents(m, i) && (i != par ==> Even(m, i)) && (i != x ==> Calm(m, i, x))
    requires i == par || i == w
    ensures var r := TurnRight(Swap(m, w, par), par);
            (i != par ==> Even(r, i)) && (i == par ==> Short(r, i, x, false)) && (i != x ==> Calm(r, i, x))
  {
    var m1 := Swap(m, w, par);
    var r := TurnRight(m1, par);
    TurnRightKids(m1, root, par, i);
    SameKid(m1, r, r[i].left);
    SameKid(m1, r, r[i].right);
    SameKid(m1, r, i);
  }

  lemma RaiseRightRest(m: seq<Rec>, root: int, par: int, x: int, w: int, i: int)
    requires 0 <= par < |m| && 0 <= w < |m| && par != w && m[par].left == w && NearRight(Swap(m, w, par), root, par)
    requires m[w].parent == par && x != par && m[w].bh + 1 == m[par].bh && i != par && i != w
    requires 0 <= i < |m| && Parents(m, i) && Even(m, i) && (i != x ==> Calm(m, i, x))
    ensures var r := TurnRight(Swap(m, w, par), par); Even(r, i) && (i != x ==> Calm(r, i, x))
  {
    var m1 := Swap(m, w, par);
    var r := TurnRight(m1, par);
    TurnRightKids(m1, root, par, i);
    SameKid(m1, r, m[i].left);
    SameKid(m1, r, m[i].right);
    SameKid(m1, r, w);
    RestKeeps(m, r, par, w, i, x);
  }

  lemma RaiseRight(m: seq<Rec>, root: int, par: int, x: int, w: int)
    requires RemoveInv(m, root, par, x, false) && x != root && 0 <= par < |m| && m[par].left == w && Red(m, w) && par != w && !Red(m, x)
    ensures var r := TurnRight(Swap(m, w, par), par);
            RemoveInv(r, NewRoot(m, root, par, w), par, x, false) && x != NewRoot(m, root, par, w) && !Red(r, r[par].left) && r[par].red
  {
    Sibling(m, root, par, x, false);
    var m1 := Swap(m, w, par);
    var r := TurnRight(m1, par);
    assert Calm(m, par, x) && Calm(m, w, x) && Even(m, w);
    SwapLinkedRight(m, root, w, par);
    assert Shape(m, root, par) && Shape(m, root, w);
    forall i | 0 <= i < |m|
      ensures (i != par ==> Even(r, i)) && (i == par ==> Short(r, i, x, false)) && (i != x ==> Calm(r, i, x))
    {
      assert Shape(m, root, i) && (i != par ==> Even(m, i)) && (i != x ==> Calm(m, i, x));
      if i == par || i == w {
        RaiseRightOwn(m, root, par, x, w, i);
      } else {
        RaiseRightRest(m, root, par, x, w, i);
      }
    }
  }

  // The nephew v on the near side is red and comes up over the sibling w, which becomes red.
  lemma NephewRightOwn(m: seq<Rec>, root: int, par: int, x: int, w: int, v: int, i: int)
    requires 0 <= w < |m| && 0 <= v < |m| && v != w && m[w].right == v && NearLeft(Swap(m, v, w), root, w) && m[v].red && !m[w].red
    requires Even(m, w) && Even(m, v) && x != w && x != v && Parents(m, w) && Parents(m, v) && m[w].parent == par && par != w && par != v
    requires !Red(m, m[w].left) && Calm(m, v, x) && 0 <= par < |m| && Short(m, par, x, false) && m[par].left == w && Parents(m, par)
    requires Parents(m, v) && (x == -1 || (0 <= x < |m| && m[x].parent == par))
    requires 0 <= i < |m| && Parents(m, i) && (i != par ==> Even(m, i)) && (i != x ==> Calm(m, i, x))
    requires i == w || i == v || i == par
    ensures var r := TurnLeft(Swap(m, v, w), w);
            (i != par ==> Even(r, i)) && (i == par ==> Short(r, i, x, false)) && (i != x ==> Calm(r, i, x))
  {
    var m1 := Swap(m, v, w);
    var r := TurnLeft(m1, w);
    TurnLeftKids(m1, root, w, i);
    SameKid(m1, r, r[i].left);
    SameKid(m1, r, r[i].right);
    SameKid(m1, r, i);
  }

  lemma NephewRightRest(m: seq<Rec>, root: int, par: int, x: int, w: int, v: int, i: int)
    requires 0 <= w < |m| && 0 <= v < |m| && v != w && m[w].right == v && NearLeft(Swap(m, v, w), root, w)
    requires m[v].parent == w && x != w && m[v].bh + 1 == m[w].bh && i != w && i != v
    requires 0 <= i < |m| && Parents(m, i) && Even(m, i) && (i != x ==> Calm(m, i, x))
    ensures var r := TurnLeft(Swap(m, v, w), w); Even(r, i) && (i != x ==> Calm(r, i, x))
  {
    var m1 := Swap(m, v, w);
    var r := TurnLeft(m1, w);
    TurnLeftKids(m1, root, w, i);
    SameKid(m1, r, m[i].left);
    SameKid(m1, r, m[i].right);
    SameKid(m1, r, v);
    RestKeeps(m, r, w, v, i, x);
  }

  lemma NephewRightColours(m: seq<Rec>, root: int, par: int, x: int, w: int, v: int)
    requires RemoveInv(m, root, par, x, false) && x != root && 0 <= par < |m| && m[par].left == w && 0 <= w < |m| && !m[w].red
    requires m[w].right == v && Red(m, v) && v != w && !Red(m, m[w].left) && !Red(m, x)
    ensures var r := TurnLeft(Swap(m, v, w), w);
            forall i :: 0 <= i < |m| ==>
              (i != par ==> Even(r, i)) && (i == par ==> Short(r, i, x, false)) && (i != x ==> Calm(r, i, x))
  {
    Sibling(m, root, par, x, false);
    var r := TurnLeft(Swap(m, v, w), w);
    assert Shape(m, root, par) && Shape(m, root, w) && Shape(m, root, v) && Calm(m, v, x) && Even(m, w) && Even(m, v);
    SwapLinkedLeft(m, root, v, w);
    forall i | 0 <= i < |m|
      ensures (i != par ==> Even(r, i)) && (i == par ==> Short(r, i, x, false)) && (i != x ==> Calm(r, i, x))
    {
      assert Shape(m, root, i) && (i != par ==> Even(m, i)) && (i != x ==> Calm(m, i, x));
      if i == w || i == v || i == par {
        NephewRightOwn(m, root, par, x, w, v, i);
      } else {
        NephewRightRest(m, root, par, x, w, v, i);
      }
    }
  }

  lemma NephewRight(m: seq<Rec>, root: int, par: int, x: int, w: int, v: int)
    requires RemoveInv(m, root, par, x, false) && x != root && 0 <= par < |m| && m[par].left == w && 0 <= w < |m| && !m[w].red
    requires m[w].right == v && Red(m, v) && v != w && !Red(m, m[w].left) && !Red(m, x)
    ensures var r := TurnLeft(Swap(m, v, w), w);
            RemoveInv(r, root, par, x, false) && r[par].left == v && !r[v].red && r[v].left == w && r[w].red && NewRoot(m, root, w, v) == root
  {
    Sibling(m, root, par, x, false);
    var m1 := Swap(m, v, w);
    var r := TurnLeft(m1, w);
    assert Shape(m, root, par) && Shape(m, root, w) && Shape(m, root, v);
    SwapLinkedLeft(m, root, v, w);
    assert NearLeft(m1, root, w);
    TurnLeftBelow(m1, root, w);
    NephewRightColours(m, root, par, x, w, v);
  }

  // The nephew z on the far side is red: the sibling w comes up over the parent with its colour.
  lemma SettleRightOwn(m: seq<Rec>, root: int, par: int, x: int, w: int, z: int, i: int)
    requires 0 <= par < |m| && 0 <= w < |m| && 0 <= z < |m| && par != w && z != w && z != par && m[par].left == w && m[w].left == z
    requires NearRight(Settled(m, par, w, z), root, par) && !m[w].red && m[z].red && m[z].parent == w && m[w].parent == par
    requires Short(m, par, x, false) && Even(m, w) && x != w && x != par && !Red(m, x) && Parents(m, par) && Parents(m, w)
    requires Even(m, z) && Calm(m, par, x) && 0 <= i < |m| && Parents(m, i) && (i != par ==> Even(m, i)) && (i != x ==> Calm(m, i, x))
    requires i == par || i == w || i == z
    ensures var r := TurnRight(Settled(m, par, w, z), par); Even(r, i) && Calm(r, i, -1)
  {
    var m1 := Settled(m, par, w, z);
    var r := TurnRight(m1, par);
    TurnRightKids(m1, root, par, i);
    SameKid(m1, r, r[i].left);
    SameKid(m1, r, r[i].right);
    SameKid(m1, r, i);
  }

  lemma SettleRightRest(m: seq<Rec>, root: int, par: int, x: int, w: int, z: int, i: int)
    requires 0 <= par < |m| && 0 <= w < |m| && par != w && m[par].left == w && NearRight(Settled(m, par, w, z), root, par)
    requires m[w].parent == par && x != par && 0 <= z < |m| && z != w && z != par && m[z].parent == w && m[z].red && i != par && i != w
    requires 0 <= i < |m| && Parents(m, i) && Even(m, i) && (i != x ==> Calm(m, i, x)) && !Red(m, x)
    requires i != z
    ensures var r := TurnRight(Settled(m, par, w, z), par); Even(r, i) && Calm(r, i, -1)
  {
    var m1 := Settled(m, par, w, z);
    var r := TurnRight(m1, par);
    TurnRightKids(m1, root, par, i);
    SameKid(m1, r, m[i].left);
    SameKid(m1, r, m[i].right);
    SameKid(m1, r, w);
    RestKeeps(m, r, par, w, i, x);
  }

  lemma SettleRight(m: seq<Rec>, root: int, par: int, x: int, w: int, z: int)
    requires RemoveInv(m, root, par, x, false) && x != root && 0 <= par < |m| && m[par].left == w && 0 <= w < |m| && !m[w].red
    requires m[w].left == z && Red(m, z) && par != w && !Red(m, x)
    ensures Valid(TurnRight(Settled(m, par, w, z), par), NewRoot(m, root, par, w))
  {
    Sibling(m, root, par, x, false);
    var m1 := Settled(m, par, w, z);
    var r := TurnRight(m1, par);
    assert Shape(m, root, par) && Shape(m, root, w) && Shape(m, root, z) && Even(m, w) && Even(m, z) && Calm(m, par, x);
    SettledLinkedRight(m, root, par, w, z);
    forall i | 0 <= i < |m| ensures Even(r, i) && Calm(r, i, -1) {
      assert Shape(m, root, i) && (i != par ==> Even(m, i)) && (i != x ==> Calm(m, i, x));
      if i == par || i == w || i == z {
        SettleRightOwn(m, root, par, x, w, z, i);
      } else {
        SettleRightRest(m, root, par, x, w, z, i);
      }
    }
  }

  // When the loop is over x is made black.
  lemma RemoveDone(m: seq<Rec>, root: int, par: int, x: int, onLeft: bool)
    requires RemoveInv(m, root, par, x, onLeft) && (Red(m, x) || x == root)
    ensures x == -1 ==> root == -1 && |m| == 0 && Valid(m, root)
    ensures x != -1 ==> 0 <= x < |m| && Valid(Paint(m, x, false, m[x].bh + (if m[x].red then 1 else 0)), root)
  {
    if x != -1 {
      var bh := m[x].bh + (if m[x].red then 1 else 0);
      var r := Paint(m, x, false, bh);
      PaintLinked(m, root, x, false, bh);
      assert Shape(m, root, x) && (par != -1 ==> Shape(m, root, par));
      forall i | 0 <= i < |m| ensures Even(r, i) && Calm(r, i, -1) {
        assert Shape(m, root, i) && (i != par ==> Even(m, i)) && (i != x ==> Calm(m, i, x));
      }
    }
  }
}
