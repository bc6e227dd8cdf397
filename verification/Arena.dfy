/** Linked nodes with parent links, stored in one sequence of cells.

A node is an index, and index 0 stands for the null node (for `kvstore_rbtree.c` it is the
sentinel `T->nil`, whose cell is read and written like any other). `Zip` says that the cells
linked from `root` are exactly the tree made of path `q` around the subtree `t` at node `x`. */
module Arena {
  import opened RbTrees

  datatype Cell = Cell(color: Color, left: nat, right: nat, parent: nat)

  ghost predicate Rep(m: seq<Cell>, x: nat, p: nat, t: Tree)
    decreases t
  {
    match t
    case Leaf => x == 0
    case Node(l, id, c, r) =>
      && x == id && 0 < x < |m|
      && m[x].color == c && m[x].parent == p
      && Rep(m, m[x].left, x, l) && Rep(m, m[x].right, x, r)
  }

  ghost predicate RepPath(m: seq<Cell>, root: nat, x: nat, q: Path)
    decreases q
  {
    match q
    case Top => root == x
    case Frame(up, side, id, c, sib) =>
      && 0 < id < |m|
      && m[id].color == c && m[id].parent == Head(up)
      && (if side.OnLeft? then m[id].left == x && Rep(m, m[id].right, id, sib)
          else m[id].right == x && Rep(m, m[id].left, id, sib))
      && RepPath(m, root, id, up)
  }

  ghost predicate Zip(m: seq<Cell>, root: nat, x: nat, q: Path, t: Tree) {
    Rep(m, x, Head(q), t) && RepPath(m, root, x, q) && DistinctZip(q, t)
  }

  /** The two memories hold the same cells at the nodes of `s`. */
  ghost predicate Same(m: seq<Cell>, n: seq<Cell>, s: set<nat>) {
    |m| <= |n| && forall i :: i in s && i < |m| ==> n[i] == m[i]
  }

  // ---------------------------------------------------------------- framing

  lemma {:induction false} RepFrame(m: seq<Cell>, n: seq<Cell>, x: nat, p: nat, t: Tree)
    requires Rep(m, x, p, t) && Same(m, n, Ids(t))
    ensures Rep(n, x, p, t)
    decreases t
  {
    if t.Node? {
      RepFrame(m, n, m[x].left, x, t.left);
      RepFrame(m, n, m[x].right, x, t.right);
    }
  }

  lemma {:induction false} RepPathFrame(m: seq<Cell>, n: seq<Cell>, root: nat, x: nat, q: Path)
    requires RepPath(m, root, x, q) && Same(m, n, PathIds(q))
    ensures RepPath(n, root, x, q)
    decreases q
  {
    if q.Frame? {
      RepFrame(m, n, if q.side.OnLeft? then m[q.id].right else m[q.id].left, q.id, q.sib);
      RepPathFrame(m, n, root, q.id, q.up);
    }
  }

  /** The subtree hangs from another node after its own parent link is set. */
  lemma RepReparent(m: seq<Cell>, n: seq<Cell>, x: nat, p: nat, p': nat, t: Tree)
    requires Rep(m, x, p, t) && Distinct(t)
    requires Same(m, n, Ids(t) - {x})
    requires t.Node? ==> x < |n| && n[x] == m[x].(parent := p')
    ensures Rep(n, x, p', t)
  {
    if t.Node? {
      RepFrame(m, n, m[x].left, x, t.left);
      RepFrame(m, n, m[x].right, x, t.right);
    }
  }

  /** The node above the hole points at another node after one child link, or the root, is set. */
  lemma RepPathRelink(m: seq<Cell>, n: seq<Cell>, root: nat, root': nat, x: nat, y: nat, q: Path)
    requires RepPath(m, root, x, q) && DistinctPath(q)
    requires Same(m, n, PathIds(q) - {Head(q)})
    requires q.Top? ==> root' == y
    requires q.Frame? ==> root' == root && q.id < |n|
    requires q.Frame? ==>
      n[q.id] == if q.side.OnLeft? then m[q.id].(left := y) else m[q.id].(right := y)
    ensures RepPath(n, root', y, q)
  {
    if q.Frame? {
      RepFrame(m, n, if q.side.OnLeft? then m[q.id].right else m[q.id].left, q.id, q.sib);
      RepPathFrame(m, n, root, q.id, q.up);
    }
  }

  lemma {:induction false} RepPositive(m: seq<Cell>, x: nat, p: nat, t: Tree)
    requires Rep(m, x, p, t)
    ensures forall i :: i in Ids(t) ==> 0 < i < |m|
    decreases t
  {
    if t.Node? {
      RepPositive(m, m[x].left, x, t.left);
      RepPositive(m, m[x].right, x, t.right);
    }
  }

  lemma {:induction false} RepPathPositive(m: seq<Cell>, root: nat, x: nat, q: Path)
    requires RepPath(m, root, x, q)
    ensures forall i :: i in PathIds(q) ==> 0 < i < |m|
    decreases q
  {
    if q.Frame? {
      RepPathPositive(m, root, q.id, q.up);
      RepPositive(m, if q.side.OnLeft? then m[q.id].right else m[q.id].left, q.id, q.sib);
    }
  }

  /** The root pointer does not enter the null node unless the tree is empty. */
  lemma {:induction false} ZipRoot(m: seq<Cell>, root: nat, x: nat, q: Path, t: Tree)
    requires Zip(m, root, x, q, t)
    ensures Zip(m, root, root, Top, Plug(q, t))
    ensures q.Frame? ==> root != x && root != 0
    ensures q.Frame? ==> root in PathIds(q)
    decreases q
  {
    if q.Frame? {
      ZipUp(m, root, x, q, t);
      ZipRoot(m, root, q.id, q.up, Fill(q, t));
      RepPathPositive(m, root, x, q);
      RepPositive(m, x, q.id, t);
    }
  }

  // ---------------------------------------------------------------- moving

  lemma ZipDown(m: seq<Cell>, root: nat, x: nat, q: Path, t: Tree)
    requires Zip(m, root, x, q, t) && t.Node?
    ensures Zip(m, root, m[x].left, Frame(q, OnLeft, x, t.color, t.right), t.left)
    ensures Zip(m, root, m[x].right, Frame(q, OnRight, x, t.color, t.left), t.right)
  {
  }

  lemma ZipUp(m: seq<Cell>, root: nat, x: nat, q: Path, t: Tree)
    requires Zip(m, root, x, q, t) && q.Frame?
    ensures Zip(m, root, q.id, q.up, Fill(q, t))
  {
  }

  /** The node reached by a link is in memory, and holds the colour of the subtree it heads. */
  lemma LinkColor(m: seq<Cell>, x: nat, p: nat, t: Tree)
    requires Rep(m, x, p, t) && 0 < |m| && m[0].color.Black?
    ensures x < |m| && m[x].color == ColorOf(t)
    ensures t.Node? <==> x != 0
  {
  }

  /** The sibling of the hole, as the node above the hole links to it. */
  function SiblingLink(m: seq<Cell>, q: Path): nat
    requires q.Frame? && q.id < |m|
  {
    if q.side.OnLeft? then m[q.id].right else m[q.id].left
  }

  lemma HeadLinks(m: seq<Cell>, root: nat, x: nat, q: Path, t: Tree)
    requires Zip(m, root, x, q, t) && q.Frame? && m[0].color.Black?
    ensures 0 < q.id < |m| && m[q.id].parent == Head(q.up) && m[q.id].color == q.color
    ensures Rep(m, SiblingLink(m, q), q.id, q.sib)
    ensures SiblingLink(m, q) < |m| && m[SiblingLink(m, q)].color == ColorOf(q.sib)
    ensures q.sib.Node? <==> SiblingLink(m, q) != 0
    ensures (if q.side.OnLeft? then m[q.id].left else m[q.id].right) == x
    ensures q.up.Frame? ==> 0 < q.up.id < |m|
  {
    LinkColor(m, SiblingLink(m, q), q.id, q.sib);
    assert RepPath(m, root, q.id, q.up);
  }

  /** The path to the sibling of the hole, when the hole holds `t`. */
  function Across(q: Path, t: Tree): Path
    requires q.Frame?
  {
    Frame(q.up, if q.side.OnLeft? then OnRight else OnLeft, q.id, q.color, t)
  }

  lemma ZipAcross(m: seq<Cell>, root: nat, x: nat, q: Path, t: Tree)
    requires Zip(m, root, x, q, t) && q.Frame?
    ensures Zip(m, root, SiblingLink(m, q), Across(q, t), q.sib)
    ensures SiblingLink(m, Across(q, t)) == x
    ensures Across(Across(q, t), q.sib) == q
  {
  }

  /** Every node of a tree has a place in it. */
  lemma {:induction false} PlaceOf(m: seq<Cell>, root: nat, x: nat, q: Path, t: Tree, id: nat) returns (q': Path, t': Tree)
    requires Zip(m, root, x, q, t) && id in Ids(t)
    ensures Zip(m, root, id, q', t') && t'.Node? && Plug(q', t') == Plug(q, t)
    decreases t
  {
    q', t' := q, t;
    if id != t.id {
      ZipDown(m, root, x, q, t);
      if id in Ids(t.left) {
        q', t' := PlaceOf(m, root, m[x].left, Frame(q, OnLeft, x, t.color, t.right), t.left, id);
      } else {
        q', t' := PlaceOf(m, root, m[x].right, Frame(q, OnRight, x, t.color, t.left), t.right, id);
      }
    }
  }

  /** A right child climbs: the nodes up to the end of its subtree stay the same. */
  lemma ClimbFromRight(m: seq<Cell>, root: nat, x: nat, q: Path, t: Tree)
    requires Zip(m, root, x, q, t) && q.Frame? && t.Node? && m[q.id].right == x
    ensures q.side.OnRight? && Zip(m, root, q.id, q.up, Fill(q, t))
    ensures Before(q.up) + InOrder(Fill(q, t)) == Before(q) + InOrder(t)
  {
    ZipUp(m, root, x, q, t);
    assert q.sib.Node? ==> q.sib.id in Ids(q.sib) && q.sib.id in PathIds(q);
    assert x in Ids(t);
    assert InOrder(Fill(q, t)) == InOrder(q.sib) + [q.id] + InOrder(t);
  }

  /** The mirror images: what comes after a left child's subtree stays, and a right child's parent
      is the node before its subtree. */
  lemma ClimbFromLeftBack(m: seq<Cell>, root: nat, x: nat, q: Path, t: Tree)
    requires Zip(m, root, x, q, t) && q.Frame? && t.Node? && m[q.id].left == x
    ensures q.side.OnLeft? && Zip(m, root, q.id, q.up, Fill(q, t))
    ensures InOrder(Fill(q, t)) + After(q.up) == InOrder(t) + After(q)
  {
    ZipUp(m, root, x, q, t);
    assert q.sib.Node? ==> q.sib.id in Ids(q.sib) && q.sib.id in PathIds(q);
    assert x in Ids(t);
    assert InOrder(Fill(q, t)) == InOrder(t) + [q.id] + InOrder(q.sib);
  }

  lemma ClimbFromRightBack(m: seq<Cell>, root: nat, x: nat, q: Path, t: Tree)
    requires Zip(m, root, x, q, t) && q.Frame? && m[q.id].left != x
    ensures q.side.OnRight? && Zip(m, root, q.id, q.up, Fill(q, t))
    ensures Following(q.up, Fill(q, t)) == InOrder(t) + After(q)
  {
    ZipUp(m, root, x, q, t);
  }

  /** A left child climbs: its parent is the next node after its subtree. */
  lemma ClimbFromLeft(m: seq<Cell>, root: nat, x: nat, q: Path, t: Tree)
    requires Zip(m, root, x, q, t) && q.Frame? && m[q.id].right != x
    ensures q.side.OnLeft? && Zip(m, root, q.id, q.up, Fill(q, t))
    ensures Preceding(q.up, Fill(q, t)) == Before(q) + InOrder(t)
  {
    ZipUp(m, root, x, q, t);
  }

  // ---------------------------------------------------------------- writing colours

  function SetColor(m: seq<Cell>, x: nat, c: Color): seq<Cell>
    requires x < |m|
  {
    m[x := m[x].(color := c)]
  }

  lemma PaintFocus(m: seq<Cell>, root: nat, x: nat, q: Path, t: Tree, c: Color)
    requires Zip(m, root, x, q, t) && t.Node?
    ensures Zip(SetColor(m, x, c), root, x, q, t.(color := c))
  {
    var n := SetColor(m, x, c);
    RepFrame(m, n, m[x].left, x, t.left);
    RepFrame(m, n, m[x].right, x, t.right);
    RepPathFrame(m, n, root, x, q);
  }

  lemma PaintHead(m: seq<Cell>, root: nat, x: nat, q: Path, t: Tree, c: Color)
    requires Zip(m, root, x, q, t) && q.Frame?
    ensures Zip(SetColor(m, q.id, c), root, x, q.(color := c), t)
  {
    var n := SetColor(m, q.id, c);
    RepFrame(m, n, x, q.id, t);
    RepFrame(m, n, if q.side.OnLeft? then m[q.id].right else m[q.id].left, q.id, q.sib);
    RepPathFrame(m, n, root, q.id, q.up);
  }

  lemma PaintSibling(m: seq<Cell>, root: nat, x: nat, q: Path, t: Tree, c: Color)
    requires Zip(m, root, x, q, t) && q.Frame? && q.sib.Node?
    ensures Zip(SetColor(m, q.sib.id, c), root, x, q.(sib := q.sib.(color := c)), t)
  {
    var n, w := SetColor(m, q.sib.id, c), q.sib.id;
    RepFrame(m, n, x, q.id, t);
    RepFrame(m, n, m[w].left, w, q.sib.left);
    RepFrame(m, n, m[w].right, w, q.sib.right);
    RepPathFrame(m, n, root, q.id, q.up);
  }

  lemma PaintLeftChild(m: seq<Cell>, root: nat, x: nat, q: Path, t: Tree, c: Color)
    requires Zip(m, root, x, q, t) && t.Node? && t.left.Node?
    ensures m[x].left == t.left.id < |m| && x != t.left.id && t.left.id != 0
    ensures Zip(SetColor(m, t.left.id, c), root, x, q, t.(left := t.left.(color := c)))
  {
    var f := Frame(q, OnLeft, x, t.color, t.right);
    ZipDown(m, root, x, q, t);
    PaintFocus(m, root, m[x].left, f, t.left, c);
    ZipUp(SetColor(m, t.left.id, c), root, m[x].left, f, t.left.(color := c));
  }

  lemma PaintRightChild(m: seq<Cell>, root: nat, x: nat, q: Path, t: Tree, c: Color)
    requires Zip(m, root, x, q, t) && t.Node? && t.right.Node?
    ensures m[x].right == t.right.id < |m| && x != t.right.id && t.right.id != 0
    ensures Zip(SetColor(m, t.right.id, c), root, x, q, t.(right := t.right.(color := c)))
  {
    var f := Frame(q, OnRight, x, t.color, t.left);
    ZipDown(m, root, x, q, t);
    PaintFocus(m, root, m[x].right, f, t.right, c);
    ZipUp(SetColor(m, t.right.id, c), root, m[x].right, f, t.right.(color := c));
  }

  lemma PaintChild(m: seq<Cell>, root: nat, x: nat, q: Path, t: Tree, s: Side, c: Color)
    requires Zip(m, root, x, q, t) && t.Node? && Child(t, s).Node?
    ensures (if s.OnLeft? then m[x].left else m[x].right) == Child(t, s).id < |m|
    ensures x != Child(t, s).id && Child(t, s).id != 0
    ensures Zip(SetColor(m, Child(t, s).id, c), root, x, q, WithChild(t, s, Child(t, s).(color := c)))
  {
    if s.OnLeft? {
      PaintLeftChild(m, root, x, q, t, c);
    } else {
      PaintRightChild(m, root, x, q, t, c);
    }
  }

  /** Parent and grandparent change colour, and the view moves up to the grandparent. */
  lemma PaintTwoUp(m: seq<Cell>, root: nat, x: nat, q: Path, t: Tree, c: Color, d: Color)
    requires Zip(m, root, x, q, t) && q.Frame? && q.up.Frame? && m[0].color.Black?
    ensures q.id < |m| && q.up.id < |m| && m[q.id].parent == q.up.id && q.id != q.up.id
    ensures x < |m| && t.Node? ==> m[x].parent == q.id && x != q.id && x != q.up.id
    ensures Zip(SetColor(SetColor(m, q.id, c), q.up.id, d), root, q.up.id, q.up.up,
                Fill(q.up.(color := d), Fill(q.(color := c), t)))
    ensures SetColor(SetColor(m, q.id, c), q.up.id, d)[0] == m[0]
  {
    PaintHead(m, root, x, q, t, c);
    var n := SetColor(m, q.id, c);
    ZipUp(n, root, x, q.(color := c), t);
    PaintHead(n, root, q.id, q.up, Fill(q.(color := c), t), d);
    ZipUp(SetColor(n, q.up.id, d), root, q.id, q.up.(color := d), Fill(q.(color := c), t));
  }

  /** The sibling takes the parent's colour, the parent and the outer nephew turn black. */
  lemma PaintRepay(m: seq<Cell>, root: nat, x: nat, q: Path, t: Tree)
    requires Zip(m, root, x, q, t) && q.Frame? && q.sib.Node? && Child(q.sib, Other(q.side)).Node? && m[0].color.Black?
    ensures var w, o := q.sib.id, Child(q.sib, Other(q.side)).id;
      && 0 < w < |m| && 0 < q.id < |m| && 0 < o < |m| && w != q.id && o != q.id && o != w
      && m[q.id].color == q.color
      && (if q.side.OnLeft? then m[w].right else m[w].left) == o
      && var n := SetColor(SetColor(SetColor(m, w, q.color), q.id, Black), o, Black);
      Zip(n, root, q.id, q.up,
          Fill(q.(color := Black, sib := WithChild(q.sib.(color := q.color), Other(q.side), Blacken(Child(q.sib, Other(q.side))))), t))
  {
    HeadLinks(m, root, x, q, t);
    var w, s := q.sib.id, Other(q.side);
    PaintSibling(m, root, x, q, t, q.color);
    var m1, q1 := SetColor(m, w, q.color), q.(sib := q.sib.(color := q.color));
    PaintHead(m1, root, x, q1, t, Black);
    var m2, q2 := SetColor(m1, q.id, Black), q1.(color := Black);
    ZipAcross(m2, root, x, q2, t);
    PaintChild(m2, root, w, Across(q2, t), q2.sib, s, Black);
    ZipUp(SetColor(m2, Child(q.sib, s).id, Black), root, w, Across(q2, t), WithChild(q2.sib, s, Blacken(Child(q.sib, s))));
  }

  // ---------------------------------------------------------------- rotations

  /** A node with a right child, its parent and its inner grandchild: all different, all linked back. */
  ghost predicate RotatesLeft(m: seq<Cell>, x: nat) {
    && 0 < x < |m| && 0 < m[x].right < |m| && m[x].right != x
    && var p, y := m[x].parent, m[x].right;
    && var b := m[y].left;
    && (b != 0 ==> b < |m| && b != x && b != y)
    && (p != 0 ==> p < |m| && p != x && p != y && p != b && (m[p].left == x <==> m[p].right != x))
  }

  ghost predicate RotatesRight(m: seq<Cell>, y: nat) {
    && 0 < y < |m| && 0 < m[y].left < |m| && m[y].left != y
    && var p, x := m[y].parent, m[y].left;
    && var b := m[x].right;
    && (b != 0 ==> b < |m| && b != x && b != y)
    && (p != 0 ==> p < |m| && p != x && p != y && p != b && (m[p].left == y <==> m[p].right != y))
  }

  lemma ZipRotatesLeft(m: seq<Cell>, root: nat, x: nat, q: Path, t: Tree)
    requires Zip(m, root, x, q, t) && t.Node? && t.right.Node?
    ensures RotatesLeft(m, x) && m[x].right == t.right.id
  {
    assert Rep(m, m[x].right, x, t.right) && Distinct(t.right);
    var y := t.right.id;
    assert Rep(m, m[y].left, y, t.right.left);
    assert Ids(t) == Ids(t.left) + {x} + (Ids(t.right.left) + {y} + Ids(t.right.right));
    assert t.right.left.Node? ==> m[y].left in Ids(t.right.left);
    if q.Frame? {
      assert q.id in PathIds(q);
      var w := SiblingLink(m, q);
      assert Rep(m, w, q.id, q.sib);
      assert q.sib.Node? ==> w in Ids(q.sib);
    }
  }

  lemma ZipRotatesRight(m: seq<Cell>, root: nat, y: nat, q: Path, t: Tree)
    requires Zip(m, root, y, q, t) && t.Node? && t.left.Node?
    ensures RotatesRight(m, y) && m[y].left == t.left.id
  {
    assert Rep(m, m[y].left, y, t.left) && Distinct(t.left);
    var x := t.left.id;
    assert Rep(m, m[x].right, x, t.left.right);
    assert Ids(t) == (Ids(t.left.left) + {x} + Ids(t.left.right)) + {y} + Ids(t.right);
    assert t.left.right.Node? ==> m[x].right in Ids(t.left.right);
    if q.Frame? {
      assert q.id in PathIds(q);
      var w := SiblingLink(m, q);
      assert Rep(m, w, q.id, q.sib);
      assert q.sib.Node? ==> w in Ids(q.sib);
    }
  }

  /** What a left rotation at `x` does to the cells and the root. */
  ghost predicate LeftRotated(m: seq<Cell>, n: seq<Cell>, root: nat, root': nat, x: nat)
    requires RotatesLeft(m, x)
  {
    var p, y := m[x].parent, m[x].right;
    var b := m[y].left;
    && |n| == |m|
    && n[x] == m[x].(right := b, parent := y)
    && n[y] == m[y].(left := x, parent := p)
    && (b != 0 ==> n[b] == m[b].(parent := x))
    && (p != 0 ==> n[p] == if m[p].left == x then m[p].(left := y) else m[p].(right := y))
    && root' == (if p == 0 then y else root)
    && (forall i :: 0 <= i < |m| && (i == 0 || (i != x && i != y && i != b && i != p)) ==> n[i] == m[i])
  }

  ghost predicate RightRotated(m: seq<Cell>, n: seq<Cell>, root: nat, root': nat, y: nat)
    requires RotatesRight(m, y)
  {
    var p, x := m[y].parent, m[y].left;
    var b := m[x].right;
    && |n| == |m|
    && n[y] == m[y].(left := b, parent := x)
    && n[x] == m[x].(right := y, parent := p)
    && (b != 0 ==> n[b] == m[b].(parent := y))
    && (p != 0 ==> n[p] == if m[p].left == y then m[p].(left := x) else m[p].(right := x))
    && root' == (if p == 0 then x else root)
    && (forall i :: 0 <= i < |m| && (i == 0 || (i != x && i != y && i != b && i != p)) ==> n[i] == m[i])
  }

  lemma LeftRotatedZip(m: seq<Cell>, n: seq<Cell>, root: nat, root': nat, x: nat, q: Path, t: Tree)
    requires Zip(m, root, x, q, t) && t.Node? && t.right.Node?
    requires RotatesLeft(m, x) && LeftRotated(m, n, root, root', x)
    ensures Zip(n, root', t.right.id, q, RotateLeft(t))
  {
    var y := t.right.id;
    assert Rep(m, m[x].right, x, t.right) && Distinct(t.right);
    assert Ids(t) == Ids(t.left) + {x} + (Ids(t.right.left) + {y} + Ids(t.right.right));
    assert Rep(m, m[y].left, y, t.right.left);
    assert t.right.left.Node? ==> m[y].left in Ids(t.right.left);
    RotateLeftKeeps(t);
    assert q.Frame? ==> q.id in PathIds(q);
    RepPositive(m, x, Head(q), t);
    RepPathPositive(m, root, x, q);
    RepFrame(m, n, m[x].left, x, t.left);
    RepFrame(m, n, m[y].right, y, t.right.right);
    RepReparent(m, n, m[y].left, y, x, t.right.left);
    RepPathRelink(m, n, root, root', x, y, q);
  }

  lemma RightRotatedZip(m: seq<Cell>, n: seq<Cell>, root: nat, root': nat, y: nat, q: Path, t: Tree)
    requires Zip(m, root, y, q, t) && t.Node? && t.left.Node?
    requires RotatesRight(m, y) && RightRotated(m, n, root, root', y)
    ensures Zip(n, root', t.left.id, q, RotateRight(t))
  {
    var x := t.left.id;
    assert Rep(m, m[y].left, y, t.left) && Distinct(t.left);
    assert Ids(t) == (Ids(t.left.left) + {x} + Ids(t.left.right)) + {y} + Ids(t.right);
    assert Rep(m, m[x].right, x, t.left.right);
    assert t.left.right.Node? ==> m[x].right in Ids(t.left.right);
    RotateRightKeeps(t);
    assert q.Frame? ==> q.id in PathIds(q);
    RepPositive(m, y, Head(q), t);
    RepPathPositive(m, root, y, q);
    RepFrame(m, n, m[y].right, y, t.right);
    RepFrame(m, n, m[x].left, x, t.left.left);
    RepReparent(m, n, m[x].right, x, y, t.left.right);
    RepPathRelink(m, n, root, root', y, x, q);
  }

  // ---------------------------------------------------------------- linking a new node

  /** The cells after node `z` is hung into the hole below `y` as a red leaf. */
  ghost predicate LeafLinked(m: seq<Cell>, n: seq<Cell>, root: nat, root': nat, z: nat, q: Path)
    requires q.Frame? ==> q.id < |m|
  {
    && |n| == |m| && 0 < z < |m|
    && n[z] == Cell(Red, 0, 0, Head(q))
    && (q.Top? ==> root' == z)
    && (q.Frame? ==> root' == root && n[q.id] == if q.side.OnLeft? then m[q.id].(left := z) else m[q.id].(right := z))
    && (forall i :: 0 <= i < |m| && i != z && (q.Frame? ==> i != q.id) ==> n[i] == m[i])
  }

  lemma LeafLinkedZip(m: seq<Cell>, n: seq<Cell>, root: nat, root': nat, z: nat, q: Path)
    requires Zip(m, root, 0, q, Leaf) && z !in PathIds(q)
    requires LeafLinked(m, n, root, root', z, q)
    ensures Zip(n, root', z, q, Node(Leaf, z, Red, Leaf))
  {
    RepPathPositive(m, root, 0, q);
    RepPathRelink(m, n, root, root', 0, z, q);
  }

  // ---------------------------------------------------------------- unlinking a node

  /** The cells after a node with at most one child gives way to that child `x`. */
  ghost predicate Bypassed(m: seq<Cell>, n: seq<Cell>, root: nat, root': nat, x: nat, q: Path)
    requires q.Frame? ==> q.id < |m|
  {
    && |n| == |m| && x < |m|
    && (n[x] == m[x].(parent := Head(q)) || (x == 0 && n[x] == m[x]))
    && (q.Top? ==> root' == x)
    && (q.Frame? ==> root' == root && n[q.id] == if q.side.OnLeft? then m[q.id].(left := x) else m[q.id].(right := x))
    && (forall i :: 0 <= i < |m| && i != x && (q.Frame? ==> i != q.id) ==> n[i] == m[i])
  }

  lemma BypassedZip(m: seq<Cell>, n: seq<Cell>, root: nat, root': nat, y: nat, q: Path, t: Tree, x: nat, child: Tree)
    requires Zip(m, root, y, q, t) && t.Node? && (t.left.Leaf? || t.right.Leaf?)
    requires child == if t.left.Leaf? then t.right else t.left
    requires x == if t.left.Leaf? then m[y].right else m[y].left
    requires Bypassed(m, n, root, root', x, q)
    ensures Zip(n, root', x, q, child)
  {
    RepPathPositive(m, root, y, q);
    assert Rep(m, x, y, child);
    assert child.Node? ==> x in Ids(child);
    RepReparent(m, n, x, y, Head(q), child);
    RepPathRelink(m, n, root, root', y, x, q);
  }

  // ---------------------------------------------------------------- one node takes another's place

  /** The cells after node `y`, not in the tree, takes the place of `z`. */
  ghost predicate Replaced(m: seq<Cell>, n: seq<Cell>, root: nat, root': nat, z: nat, y: nat) {
    && 0 < z < |m| && 0 < y < |m| && |n| == |m|
    && n[y] == m[z]
    && var p, l, r := m[z].parent, m[z].left, m[z].right;
    && root' == (if p == 0 then y else root)
    && (0 < p < |m| ==> n[p] == if m[p].left == z then m[p].(left := y) else m[p].(right := y))
    && (0 < l < |m| ==> n[l] == m[l].(parent := y))
    && (0 < r < |m| ==> n[r] == m[r].(parent := y))
    && (forall i :: 0 <= i < |m| && i != z && i != y && i != p && i != l && i != r ==> n[i] == m[i])
  }

  /** The nodes linked with `z` are all different, and different from `y`. */
  ghost predicate Separate(m: seq<Cell>, z: nat, y: nat) {
    && 0 < z < |m| && 0 < y < |m| && z != y
    && var p, l, r := m[z].parent, m[z].left, m[z].right;
    && p < |m| && l < |m| && r < |m|
    && p != z && p != y && l != z && l != y && r != z && r != y
    && (l != 0 ==> l != p && l != r)
    && (r != 0 ==> r != p)
    && (p != 0 ==> (m[p].left == z <==> m[p].right != z))
  }

  /** The right child of the base lies on any path that goes on from it. */
  lemma {:induction false} SpineStart(m: seq<Cell>, root: nat, x: nat, q: Path, base: Path)
    requires RepPath(m, root, x, q) && LeftSpine(q, base) && base.Frame? && base.side.OnRight?
    ensures 0 < base.id < |m| && m[base.id].parent == Head(base.up) && Rep(m, m[base.id].left, base.id, base.sib)
    ensures RepPath(m, root, m[base.id].right, base)
    ensures q == base ==> m[base.id].right == x
    ensures q != base ==> m[base.id].right in PathIds(q)
    decreases q
  {
    if q != base {
      SpineStart(m, root, q.id, q.up, base);
    }
  }

  lemma ReplacedBase(m: seq<Cell>, n: seq<Cell>, root: nat, root': nat, x: nat, base: Path, base': Path)
    requires RepPath(m, root, x, base) && DistinctPath(base) && SameFrame(base, base') && base'.id !in PathIds(base)
    requires Replaced(m, n, root, root', base.id, base'.id) && x !in PathIds(base) && x != base'.id
    ensures RepPath(n, root', x, base')
  {
    var z, u := base.id, base.up;
    RepPathPositive(m, root, x, base);
    assert base.sib.Node? ==> m[z].left in Ids(base.sib);
    assert u.Frame? ==> u.id in PathIds(u);
    RepReparent(m, n, m[z].left, z, base'.id, base.sib);
    assert RepPath(m, root, z, u);
    if u.Frame? {
      assert u.sib.Node? ==> u.sib.id in Ids(u.sib) && u.sib.id in PathIds(u);
    }
    RepPathRelink(m, n, root, root', z, base'.id, u);
  }

  /** The innermost frame of a longer path changes in its parent link only. */
  lemma {:induction false} ReplacedFrame(m: seq<Cell>, n: seq<Cell>, root: nat, root': nat, x: nat, q: Path, base: Path, base': Path)
    requires RepPath(m, root, x, q) && DistinctPath(q) && q != base
    requires LeftSpine(q, base) && SameFrame(base, base') && base'.id !in PathIds(q)
    requires Replaced(m, n, root, root', base.id, base'.id)
    ensures n[q.id] == m[q.id].(parent := Head(Rebase(q.up, base, base')))
    ensures Rep(n, n[q.id].right, q.id, q.sib)
  {
    SpineStart(m, root, q.id, q.up, base);
    RepPathPositive(m, root, x, q);
    RebaseIds(q.up, base, base');
    assert base.sib.Node? ==> m[base.id].left in Ids(base.sib);
    assert base.up.Frame? ==> base.up.id in PathIds(base.up);
    RepFrame(m, n, m[q.id].right, q.id, q.sib);
  }

  lemma {:induction false} ReplacedPath(m: seq<Cell>, n: seq<Cell>, root: nat, root': nat, x: nat, q: Path, base: Path, base': Path)
    requires RepPath(m, root, x, q) && DistinctPath(q)
    requires LeftSpine(q, base) && SameFrame(base, base') && base'.id !in PathIds(q)
    requires Replaced(m, n, root, root', base.id, base'.id) && x !in PathIds(q) && x != base'.id
    ensures RepPath(n, root', x, Rebase(q, base, base'))
    decreases q
  {
    if q == base {
      ReplacedBase(m, n, root, root', x, base, base');
    } else {
      ReplacedPath(m, n, root, root', q.id, q.up, base, base');
      ReplacedFrame(m, n, root, root', x, q, base, base');
    }
  }

  lemma ReplacedZip(m: seq<Cell>, n: seq<Cell>, root: nat, root': nat, x: nat, q: Path, t: Tree, base: Path, base': Path)
    requires Zip(m, root, x, q, t) && LeftSpine(q, base) && SameFrame(base, base')
    requires base'.id !in PathIds(q) && base'.id !in Ids(t)
    requires Replaced(m, n, root, root', base.id, base'.id)
    ensures Zip(n, root', x, Rebase(q, base, base'), t)
  {
    SpineStart(m, root, x, q, base);
    RepPathPositive(m, root, x, q);
    RepPositive(m, x, Head(q), t);
    RebaseIds(q, base, base');
    var z, u := base.id, base.up;
    assert base.sib.Node? ==> m[z].left in Ids(base.sib);
    assert u.Frame? ==> u.id in PathIds(u);
    assert t.Node? ==> x in Ids(t);
    ReplacedPath(m, n, root, root', x, q, base, base');
    if q == base {
      RepReparent(m, n, x, z, base'.id, t);
    } else {
      RepFrame(m, n, x, Head(q), t);
    }
  }

  /** The node of a base of the path has separate neighbours. */
  lemma {:induction false} BaseSeparate(m: seq<Cell>, root: nat, x: nat, q: Path, t: Tree, base: Path, y: nat)
    requires Zip(m, root, x, q, t) && LeftSpine(q, base) && base.Frame? && base.side.OnRight?
    requires 0 < y < |m| && y !in PathIds(q) && y !in Ids(t)
    ensures Separate(m, base.id, y) && m[base.id].parent == Head(base.up)
    ensures Rep(m, m[base.id].left, base.id, base.sib)
  {
    var z, u := base.id, base.up;
    SpineStart(m, root, x, q, base);
    RepPathPositive(m, root, x, q);
    RebaseIds(q, base, base.(id := y));
    SpineDistinct(q, base);
    assert base.sib.Node? ==> m[z].left in Ids(base.sib);
    assert t.Node? ==> x in Ids(t);
    if q != base {
      SpineStart(m, root, q.id, q.up, base);
      SpineBelow(m, root, x, q, base);
    }
    assert RepPath(m, root, z, u);
    if u.Frame? {
      assert u.id in PathIds(u);
      assert u.sib.Node? ==> u.sib.id in Ids(u.sib) && u.sib.id in PathIds(u);
    }
  }

  lemma {:induction false} SpineDistinct(q: Path, base: Path)
    requires DistinctPath(q) && LeftSpine(q, base)
    ensures DistinctPath(base)
  {
    if q != base {
      SpineDistinct(q.up, base);
    }
  }

  /** The node entered from the base is none of the base's own nodes. */
  lemma {:induction false} SpineBelow(m: seq<Cell>, root: nat, x: nat, q: Path, base: Path)
    requires RepPath(m, root, x, q) && DistinctPath(q) && LeftSpine(q, base) && q != base
    requires base.Frame? && base.side.OnRight?
    ensures 0 < base.id < |m| && m[base.id].right !in PathIds(base)
    decreases q
  {
    if q.up == base {
      assert q.id !in PathIds(base);
    } else {
      SpineBelow(m, root, q.id, q.up, base);
    }
  }
}
