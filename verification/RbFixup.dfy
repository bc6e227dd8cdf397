/** The rebalancing steps of both red-black implementations, on path and subtree.

Each lemma is one branch of an insertion or deletion fix-up loop: what the branch turns the
pair of path and subtree into, and why the loop's invariant survives. */
module RbFixup {
  import opened RbTrees

  lemma BlackenKeeps(t: Tree)
    ensures InOrder(Blacken(t)) == InOrder(t)
    ensures NoRedRed(t) ==> NoRedRed(Blacken(t))
    ensures Balanced(Blacken(t)) <==> Balanced(t)
    ensures BlackHeight(Blacken(t)) == BlackHeight(t) + (if ColorOf(t).Red? then 1 else 0)
  {
  }

  // ---------------------------------------------------------------- insertion

  /** A red node under a red node has a black grandparent. */
  lemma RedParentHasGrandparent(q: Path, t: Tree)
    requires AlmostRedBlack(q, t) && HeadColor(q).Red?
    ensures q.Frame? && q.up.Frame? && q.up.color.Black? && ColorOf(q.sib).Black?
  {
  }

  /** Path and subtree after the red uncle and the parent turn black and the grandparent red. */
  function Recoloured(q: Path, t: Tree): Tree
    requires q.Frame? && q.up.Frame?
  {
    Fill(q.up.(color := Red, sib := Blacken(q.up.sib)), Fill(q.(color := Black), t))
  }

  lemma RecolourStep(q: Path, t: Tree)
    requires AlmostRedBlack(q, t) && HeadColor(q).Red?
    requires q.Frame? && q.up.Frame? && ColorOf(q.up.sib).Red?
    ensures AlmostRedBlack(q.up.up, Recoloured(q, t)) && Recoloured(q, t).color.Red?
    ensures InOrder(Plug(q.up.up, Recoloured(q, t))) == InOrder(Plug(q, t))
  {
    var u := Fill(q.up, Fill(q, t));
    BlackenKeeps(q.up.sib);
    assert NoRedRedAround(q.up) && BalancedAround(q.up, BlackHeight(t));
    assert NoRedRedAround(q.up.up) && BalancedAround(q.up.up, BlackHeight(t) + 1);
    var p := Fill(q.(color := Black), t);
    assert NoRedRed(p) && Balanced(p) && BlackHeight(p) == BlackHeight(t) + 1;
    assert InOrder(Fill(q.(color := Black), t)) == InOrder(Fill(q, t));
    PlugOrder(q.up.up, u, Recoloured(q, t));
  }

  /** The zig-zag case becomes the zig-zig case: the node changes places with its parent. */
  lemma InnerStep(q: Path, t: Tree, q': Path, t': Tree)
    requires AlmostRedBlack(q, t) && HeadColor(q).Red? && ColorOf(t).Red?
    requires q.Frame? && q.up.Frame? && q.side != q.up.side
    requires q' == Frame(q.up, q.up.side, t.id, Red, if q.side.OnLeft? then t.left else t.right)
    requires t' == if q.side.OnLeft? then Node(t.right, q.id, Red, q.sib) else Node(q.sib, q.id, Red, t.left)
    ensures AlmostRedBlack(q', t') && t'.color.Red? && q'.side == q'.up.side
    ensures Fill(q', t') == if q.side.OnLeft? then RotateRight(Fill(q, t)) else RotateLeft(Fill(q, t))
    ensures InOrder(Plug(q', t')) == InOrder(Plug(q, t))
  {
    assert NoRedRedAround(q.up) && BalancedAround(q.up, BlackHeight(t));
    if q.side.OnLeft? {
      RotateRightKeeps(Fill(q, t));
    } else {
      RotateLeftKeeps(Fill(q, t));
    }
    PlugOrder(q.up, Fill(q, t), Fill(q', t'));
  }

  /** The last step of insertion: parent black, grandparent red, one rotation at the grandparent. */
  function Rotated(q: Path, t: Tree): Tree
    requires q.Frame? && q.up.Frame? && q.side == q.up.side
  {
    var g := Fill(q.up.(color := Red), Fill(q.(color := Black), t));
    if q.side.OnLeft? then RotateRight(g) else RotateLeft(g)
  }

  /** The path above the node after that rotation. */
  function Lifted(q: Path): Path
    requires q.Frame? && q.up.Frame?
  {
    Frame(q.up.up, q.side, q.id, Black, Fill(q.up.(color := Red), q.sib))
  }

  lemma OuterStep(q: Path, t: Tree)
    requires AlmostRedBlack(q, t) && HeadColor(q).Red? && ColorOf(t).Red?
    requires q.Frame? && q.up.Frame? && q.side == q.up.side && ColorOf(q.up.sib).Black?
    ensures Fill(Lifted(q), t) == Rotated(q, t) && AlmostRedBlack(Lifted(q), t)
    ensures InOrder(Plug(Lifted(q), t)) == InOrder(Plug(q, t))
  {
    var g := Fill(q.up.(color := Red), Fill(q.(color := Black), t));
    assert NoRedRedAround(q.up) && BalancedAround(q.up, BlackHeight(t));
    assert NoRedRedAround(q.up.up) && BalancedAround(q.up.up, BlackHeight(t) + 1);
    var h := Fill(q.up.(color := Red), q.sib);
    assert NoRedRed(h) && Balanced(h) && BlackHeight(h) == BlackHeight(t);
    assert Rotated(q, t) == Fill(Lifted(q), t);
    assert InOrder(Fill(q.(color := Black), t)) == InOrder(Fill(q, t));
    assert InOrder(g) == InOrder(Fill(q.up, Fill(q, t)));
    if q.side.OnLeft? {
      RotateRightKeeps(g);
    } else {
      RotateLeftKeeps(g);
    }
    PlugOrder(q.up.up, Fill(q.up, Fill(q, t)), Rotated(q, t));
  }

  /** Painting the root black ends an insertion. */
  lemma InsertDone(q: Path, t: Tree)
    requires AlmostRedBlack(q, t) && HeadColor(q).Black?
    ensures RedBlack(Blacken(Plug(q, t)))
    ensures q.Frame? ==> RedBlack(Plug(q, t))
  {
    if q.Frame? {
      ClimbRedBlack(q, t);
    }
  }

  // ---------------------------------------------------------------- deletion

  /** The subtree that takes the place of a node with at most one child. */
  function OnlyChild(t: Tree): Tree
    requires t.Node? && (t.left.Leaf? || t.right.Leaf?)
  {
    if t.left.Leaf? then t.right else t.left
  }

  /** Unlinking a node with at most one child costs a black node at most. */
  lemma UnlinkStep(q: Path, t: Tree)
    requires RedBlack(Plug(q, t)) && t.Node? && (t.left.Leaf? || t.right.Leaf?)
    ensures t.color.Black? ==> Deficient(q, OnlyChild(t))
    ensures t.color.Red? ==> RedBlack(Plug(q, OnlyChild(t)))
    ensures InOrder(Plug(q, OnlyChild(t))) == Preceding(q, t) + Following(q, t)
  {
    DescendRedBlack(q, t);
    BlackenKeeps(OnlyChild(t));
    UnlinkedOrder(q, t);
    if t.color.Red? {
      ClimbRedBlack(q, OnlyChild(t));
    }
  }

  /** A subtree that lacks a black node has a sibling with a node in it. */
  lemma SiblingExists(q: Path, t: Tree)
    requires Deficient(q, t) && q.Frame?
    ensures q.sib.Node?
  {
  }

  /** A red sibling is rotated above the parent; the new sibling is black. */
  lemma RedSiblingStep(q: Path, t: Tree, q': Path)
    requires Deficient(q, t) && q.Frame? && ColorOf(q.sib).Red?
    requires q' == Frame(Frame(q.up, q.side, q.sib.id, Black, if q.side.OnLeft? then q.sib.right else q.sib.left),
                         q.side, q.id, Red, if q.side.OnLeft? then q.sib.left else q.sib.right)
    ensures Deficient(q', t) && ColorOf(q'.sib).Black?
    ensures var g := Fill(q.(color := Red, sib := Blacken(q.sib)), t);
      Fill(q'.up, Fill(q', t)) == if q.side.OnLeft? then RotateLeft(g) else RotateRight(g)
    ensures InOrder(Plug(q', t)) == InOrder(Plug(q, t))
  {
    var g := Fill(q.(color := Red, sib := Blacken(q.sib)), t);
    BlackenKeeps(q.sib);
    assert NoRedRed(q.sib) && Balanced(q.sib) && BlackHeight(q.sib) == BlackHeight(t) + 1;
    assert NoRedRedAround(q.up) && BalancedAround(q.up, BlackHeight(t) + 2);
    assert InOrder(g) == InOrder(Fill(q, t));
    if q.side.OnLeft? {
      RotateLeftKeeps(g);
    } else {
      RotateRightKeeps(g);
    }
    PlugOrder(q.up, Fill(q, t), Fill(q'.up, Fill(q', t)));
  }

  /** A black sibling with black children turns red, and the deficit moves up. */
  lemma PushUpStep(q: Path, t: Tree)
    requires Deficient(q, t) && ColorOf(t).Black? && q.Frame? && q.sib.Node? && q.sib.color.Black?
    requires ColorOf(q.sib.left).Black? && ColorOf(q.sib.right).Black?
    ensures Deficient(q.up, Fill(q.(sib := q.sib.(color := Red)), t))
    ensures InOrder(Plug(q.up, Fill(q.(sib := q.sib.(color := Red)), t))) == InOrder(Plug(q, t))
  {
    PlugOrder(q.up, Fill(q, t), Fill(q.(sib := q.sib.(color := Red)), t));
  }

  /** The sibling after its inner red child is rotated above it. */
  function Straightened(side: Side, w: Tree): Tree
    requires w.Node? && if side.OnLeft? then w.left.Node? else w.right.Node?
  {
    if side.OnLeft? then RotateRight(Node(Blacken(w.left), w.id, Red, w.right))
    else RotateLeft(Node(w.left, w.id, Red, Blacken(w.right)))
  }

  lemma InnerNephewStep(q: Path, t: Tree)
    requires Deficient(q, t) && q.Frame? && q.sib.Node? && q.sib.color.Black?
    requires var w := q.sib;
      if q.side.OnLeft? then ColorOf(w.left).Red? && ColorOf(w.right).Black?
      else ColorOf(w.right).Red? && ColorOf(w.left).Black?
    ensures var w := Straightened(q.side, q.sib);
      && Deficient(q.(sib := w), t) && w.color.Black?
      && (if q.side.OnLeft? then ColorOf(w.right).Red? else ColorOf(w.left).Red?)
      && InOrder(Plug(q.(sib := w), t)) == InOrder(Plug(q, t))
  {
    assert NoRedRed(q.sib) && Balanced(q.sib);
    if q.side.OnLeft? {
      BlackenKeeps(q.sib.left);
      assert NoRedRed(q.sib.left) && Balanced(q.sib.left);
      RotateRightKeeps(Node(Blacken(q.sib.left), q.sib.id, Red, q.sib.right));
    } else {
      BlackenKeeps(q.sib.right);
      assert NoRedRed(q.sib.right) && Balanced(q.sib.right);
      RotateLeftKeeps(Node(q.sib.left, q.sib.id, Red, Blacken(q.sib.right)));
    }
    PlugOrder(q.up, Fill(q, t), Fill(q.(sib := Straightened(q.side, q.sib)), t));
  }

  /** The last step of deletion: the sibling takes the parent's colour and place. */
  function Repaid(q: Path, t: Tree): Tree
    requires q.Frame? && q.sib.Node?
  {
    var w := q.sib;
    if q.side.OnLeft? then RotateLeft(Node(t, q.id, Black, Node(w.left, w.id, q.color, Blacken(w.right))))
    else RotateRight(Node(Node(Blacken(w.left), w.id, q.color, w.right), q.id, Black, t))
  }

  lemma OuterNephewStep(q: Path, t: Tree)
    requires Deficient(q, t) && ColorOf(t).Black? && q.Frame? && q.sib.Node? && q.sib.color.Black?
    requires if q.side.OnLeft? then ColorOf(q.sib.right).Red? else ColorOf(q.sib.left).Red?
    ensures RedBlackZip(q.up, Repaid(q, t))
    ensures InOrder(Plug(q.up, Repaid(q, t))) == InOrder(Plug(q, t))
  {
    var w := q.sib;
    var g := if q.side.OnLeft? then Node(t, q.id, Black, Node(w.left, w.id, q.color, Blacken(w.right)))
             else Node(Node(Blacken(w.left), w.id, q.color, w.right), q.id, Black, t);
    assert NoRedRed(q.sib) && Balanced(q.sib);
    if q.side.OnLeft? {
      BlackenKeeps(w.right);
      RotateLeftKeeps(g);
    } else {
      BlackenKeeps(w.left);
      RotateRightKeeps(g);
    }
    assert InOrder(g) == InOrder(Fill(q, t));
    PlugOrder(q.up, Fill(q, t), Repaid(q, t));
  }

  /** Painting the node where the loop stops repays the deficit. */
  lemma DeleteDone(q: Path, t: Tree)
    requires (Deficient(q, t) && (q.Top? || ColorOf(t).Red?)) || (q.Top? && RedBlack(t))
    ensures RedBlack(Plug(q, Blacken(t)))
    ensures InOrder(Plug(q, Blacken(t))) == InOrder(Plug(q, t))
  {
    BlackenKeeps(t);
    PlugOrder(q, t, Blacken(t));
    ClimbRedBlack(q, Blacken(t));
  }

  /** The path to a node's successor starts to its right and then keeps left. */
  function SuccessorBase(q: Path, t: Tree): Path
    requires t.Node?
  {
    Frame(q, OnRight, t.id, t.color, t.left)
  }

  /** The path to the hole the successor leaves, once the successor has taken the node's place. */
  function Relocated(q: Path, t: Tree, qy: Path, y: nat): Path
    requires t.Node?
  {
    Rebase(qy, SuccessorBase(q, t), SuccessorBase(q, t).(id := y))
  }

  /** The successor comes right after the node, so that what follows it follows the node. */
  lemma {:induction false} SuccessorOrder(q: Path, t: Tree, qy: Path, ty: Tree)
    requires t.Node? && ty.Node? && ty.left.Leaf? && Plug(qy, ty) == Plug(q, t)
    requires Before(qy) == Preceding(q, t) + [t.id]
    ensures Following(q, t) == [ty.id] + Following(qy, ty)
  {
    OrderAround(q, t);
    OrderAround(qy, ty);
    var a, b := Preceding(q, t), Following(qy, ty);
    assert Preceding(qy, ty) == a + [t.id] by { assert Before(qy) + [] == Before(qy); }
    SameTail(a + [t.id], [ty.id] + b, Following(q, t));
  }

  /** Moving the successor into the place of a node takes the node out of the order. */
  lemma {:induction false} RelocatedOrder(q: Path, t: Tree, qy: Path, ty: Tree)
    requires t.Node? && ty.Node? && ty.left.Leaf? && Plug(qy, ty) == Plug(q, t)
    requires LeftSpine(qy, SuccessorBase(q, t))
    ensures InOrder(Plug(Relocated(q, t, qy, ty.id), OnlyChild(ty))) == Preceding(q, t) + Following(q, t)
  {
    var y, base, r := ty.id, SuccessorBase(q, t), Relocated(q, t, qy, ty.id);
    RebaseKeeps(qy, base, base.(id := y), 0);
    BeforeRight(q, t);
    SuccessorOrder(q, t, qy, ty);
    PlugSplit(r, OnlyChild(ty));
    var a, b := Preceding(q, t), Following(qy, ty);
    assert Before(r) == a + [y];
    assert a + [y] + b == a + ([y] + b);
  }

  lemma SameTail(a: seq<nat>, b: seq<nat>, c: seq<nat>)
    requires a + b == a + c
    ensures b == c
  {
    assert b == (a + b)[|a|..] && c == (a + c)[|a|..];
  }

  lemma {:induction false} RelocateStep(q: Path, t: Tree, qy: Path, ty: Tree)
    requires t.Node? && ty.Node? && ty.left.Leaf? && Plug(qy, ty) == Plug(q, t)
    requires RedBlack(Plug(q, t)) && LeftSpine(qy, SuccessorBase(q, t))
    ensures ty.color.Black? ==> Deficient(Relocated(q, t, qy, ty.id), OnlyChild(ty))
    ensures ty.color.Red? ==> RedBlack(Plug(Relocated(q, t, qy, ty.id), OnlyChild(ty)))
  {
    var y, base, child, r := ty.id, SuccessorBase(q, t), OnlyChild(ty), Relocated(q, t, qy, ty.id);
    DescendRedBlack(qy, ty);
    BlackenKeeps(child);
    RebaseKeeps(qy, base, base.(id := y), BlackHeight(ty));
    if ty.color.Red? {
      ClimbRedBlack(r, child);
    }
  }
}
