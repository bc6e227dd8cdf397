/** The ordered storage engine of `kvstore_rbtree.c`.

Nodes live in parallel sequences indexed by node; index 0 is the sentinel `T->nil`, whose colour
is read by the loops and whose parent link is written by deletion. `tree` is the mathematical
tree the links form. */
module KvRbTree {
  import opened RbTrees
  import opened Arena
  import opened RbFixup
  import opened CStrings
  import opened KeyedTrees
  import Engines

  class RbTree {
    var cells: seq<Cell>
    var key: seq<string>
    var value: seq<string>
    var root: nat
    var count: int
    ghost var tree: Tree

    ghost predicate Linked()
      reads this
    {
      && 0 < |cells| == |key| == |value|
      && cells[0].color.Black?
      && Zip(cells, root, root, Top, tree)
    }

    ghost predicate Valid()
      reads this
    {
      Linked() && RedBlack(tree) && Sorted(EntriesOf(tree, key, value))
    }

    /** The bindings of the tree. */
    ghost function Contents(): map<string, string>
      reads this
    {
      MapOf(EntriesOf(tree, key, value))
    }

    constructor ()
      ensures Valid() && Contents() == map[] && count == 0
    {
      cells := [Cell(Black, 0, 0, 0)];
      key, value := [""], [""];
      root, count, tree := 0, 0, Leaf;
    }

    // -------------------------------------------------------------- rotations

    method LeftRotate(x: nat)
      requires RotatesLeft(cells, x)
      modifies this`cells, this`root
      ensures LeftRotated(old(cells), cells, old(root), root, x)
    {
      var y := cells[x].right;
      cells := cells[x := cells[x].(right := cells[y].left)];
      if cells[y].left != 0 {
        var b := cells[y].left;
        cells := cells[b := cells[b].(parent := x)];
      }
      cells := cells[y := cells[y].(parent := cells[x].parent)];
      var p := cells[x].parent;
      if p == 0 {
        root := y;
      } else if x == cells[p].left {
        cells := cells[p := cells[p].(left := y)];
      } else {
        cells := cells[p := cells[p].(right := y)];
      }
      cells := cells[y := cells[y].(left := x)];
      cells := cells[x := cells[x].(parent := y)];
    }

    method RightRotate(y: nat)
      requires RotatesRight(cells, y)
      modifies this`cells, this`root
      ensures RightRotated(old(cells), cells, old(root), root, y)
    {
      var x := cells[y].left;
      cells := cells[y := cells[y].(left := cells[x].right)];
      if cells[x].right != 0 {
        var b := cells[x].right;
        cells := cells[b := cells[b].(parent := y)];
      }
      cells := cells[x := cells[x].(parent := cells[y].parent)];
      var p := cells[y].parent;
      if p == 0 {
        root := x;
      } else if y == cells[p].right {
        cells := cells[p := cells[p].(right := x)];
      } else {
        cells := cells[p := cells[p].(left := x)];
      }
      cells := cells[x := cells[x].(right := y)];
      cells := cells[y := cells[y].(parent := x)];
    }

    /** A left rotation seen from the rotated node's place in the tree. */
    method LeftRotateAt(x: nat, ghost q: Path, ghost t: Tree)
      requires Zip(cells, root, x, q, t) && t.Node? && t.right.Node?
      modifies this`cells, this`root
      ensures Zip(cells, root, t.right.id, q, RotateLeft(t))
      ensures |cells| == old(|cells|) && cells[0] == old(cells[0])
    {
      ghost var m, r := cells, root;
      ZipRotatesLeft(m, r, x, q, t);
      LeftRotate(x);
      LeftRotatedZip(m, cells, r, root, x, q, t);
    }

    method RightRotateAt(y: nat, ghost q: Path, ghost t: Tree)
      requires Zip(cells, root, y, q, t) && t.Node? && t.left.Node?
      modifies this`cells, this`root
      ensures Zip(cells, root, t.left.id, q, RotateRight(t))
      ensures |cells| == old(|cells|) && cells[0] == old(cells[0])
    {
      ghost var m, r := cells, root;
      ZipRotatesRight(m, r, y, q, t);
      RightRotate(y);
      RightRotatedZip(m, cells, r, root, y, q, t);
    }

    // -------------------------------------------------------------- insertion

    /** What the insertion loop keeps: one red node, possibly under a red parent. */
    ghost predicate Inserting(z: nat, q: Path, t: Tree)
      reads this
    {
      && 0 < |cells| && cells[0].color.Black?
      && Zip(cells, root, z, q, t)
      && AlmostRedBlack(q, t) && t.Node? && t.color.Red?
    }

    /** The first rotation when the red node is the right child of a red left child. */
    method StraightenLeft(z0: nat, ghost q0: Path, ghost t0: Tree)
      returns (z: nat, ghost q: Path, ghost t: Tree)
      requires Inserting(z0, q0, t0) && HeadColor(q0).Red? && q0.Frame? && q0.up.Frame?
      requires q0.side.OnRight? && q0.up.side.OnLeft?
      modifies this`cells, this`root
      ensures Inserting(z, q, t) && HeadColor(q).Red? && q.Frame? && q.up == q0.up && q.side.OnLeft?
      ensures InOrder(Plug(q, t)) == InOrder(Plug(q0, t0))
      ensures |cells| == old(|cells|) && cells[0] == old(cells[0])
    {
      q, t := Frame(q0.up, OnLeft, t0.id, Red, t0.right), Node(q0.sib, q0.id, Red, t0.left);
      InnerStep(q0, t0, q, t);
      ZipUp(cells, root, z0, q0, t0);
      z := cells[z0].parent;
      LeftRotateAt(z, q0.up, Fill(q0, t0));
      ZipDown(cells, root, t0.id, q0.up, Fill(q, t));
    }

    /** The last rotation when the red node is the left child of a red left child. */
    method LiftLeft(z: nat, ghost q0: Path, ghost t: Tree) returns (ghost q: Path)
      requires Inserting(z, q0, t) && HeadColor(q0).Red? && q0.Frame? && q0.up.Frame?
      requires q0.side.OnLeft? && q0.up.side.OnLeft? && ColorOf(q0.up.sib).Black?
      modifies this`cells, this`root
      ensures Inserting(z, q, t) && HeadColor(q).Black? && Depth(q) < Depth(q0)
      ensures InOrder(Plug(q, t)) == InOrder(Plug(q0, t))
      ensures |cells| == old(|cells|) && cells[0] == old(cells[0])
    {
      OuterStep(q0, t);
      PaintTwoUp(cells, root, z, q0, t, Black, Red);
      cells := SetColor(cells, cells[z].parent, Black);
      cells := SetColor(cells, cells[cells[z].parent].parent, Red);
      ghost var tg := Fill(q0.up.(color := Red), Fill(q0.(color := Black), t));
      RightRotateAt(cells[cells[z].parent].parent, q0.up.up, tg);
      ZipDown(cells, root, q0.id, q0.up.up, RotateRight(tg));
      q := Lifted(q0);
    }

    /** One turn of the insertion loop when the red parent is a left child. */
    method InsertStepLeft(z0: nat, ghost q0: Path, ghost t0: Tree)
      returns (z: nat, ghost q: Path, ghost t: Tree)
      requires Inserting(z0, q0, t0) && HeadColor(q0).Red? && q0.Frame? && q0.up.Frame? && q0.up.side.OnLeft?
      modifies this`cells, this`root
      ensures Inserting(z, q, t) && Depth(q) < Depth(q0)
      ensures InOrder(Plug(q, t)) == InOrder(Plug(q0, t0))
      ensures |cells| == old(|cells|) && cells[0] == old(cells[0])
    {
      z, q, t := z0, q0, t0;
      RedParentHasGrandparent(q, t);
      HeadLinks(cells, root, z, q, t);
      ZipUp(cells, root, z, q, t);
      HeadLinks(cells, root, q.id, q.up, Fill(q, t));
      var p := cells[z].parent;
      var g := cells[p].parent;
      var y := cells[g].right;
      if cells[y].color.Red? {
        RecolourStep(q, t);
        ghost var u := q.up.up;
        PaintHead(cells, root, z, q, t, Black);
        cells := SetColor(cells, p, Black);
        ZipUp(cells, root, z, q.(color := Black), t);
        ghost var tp := Fill(q.(color := Black), t);
        PaintSibling(cells, root, p, q.up, tp, Black);
        cells := SetColor(cells, y, Black);
        ghost var qg := q.up.(sib := q.up.sib.(color := Black));
        PaintHead(cells, root, p, qg, tp, Red);
        cells := SetColor(cells, g, Red);
        ZipUp(cells, root, p, qg.(color := Red), tp);
        z, q, t := g, u, Recoloured(q, t);
      } else {
        if z == cells[cells[z].parent].right {
          z, q, t := StraightenLeft(z, q, t);
        }
        q := LiftLeft(z, q, t);
      }
    }

    /** The first rotation when the red node is the left child of a red right child. */
    method StraightenRight(z0: nat, ghost q0: Path, ghost t0: Tree)
      returns (z: nat, ghost q: Path, ghost t: Tree)
      requires Inserting(z0, q0, t0) && HeadColor(q0).Red? && q0.Frame? && q0.up.Frame?
      requires q0.side.OnLeft? && q0.up.side.OnRight?
      modifies this`cells, this`root
      ensures Inserting(z, q, t) && HeadColor(q).Red? && q.Frame? && q.up == q0.up && q.side.OnRight?
      ensures InOrder(Plug(q, t)) == InOrder(Plug(q0, t0))
      ensures |cells| == old(|cells|) && cells[0] == old(cells[0])
    {
      q, t := Frame(q0.up, OnRight, t0.id, Red, t0.left), Node(t0.right, q0.id, Red, q0.sib);
      InnerStep(q0, t0, q, t);
      ZipUp(cells, root, z0, q0, t0);
      z := cells[z0].parent;
      RightRotateAt(z, q0.up, Fill(q0, t0));
      ZipDown(cells, root, t0.id, q0.up, Fill(q, t));
    }

    /** The last rotation when the red node is the right child of a red right child. */
    method LiftRight(z: nat, ghost q0: Path, ghost t: Tree) returns (ghost q: Path)
      requires Inserting(z, q0, t) && HeadColor(q0).Red? && q0.Frame? && q0.up.Frame?
      requires q0.side.OnRight? && q0.up.side.OnRight? && ColorOf(q0.up.sib).Black?
      modifies this`cells, this`root
      ensures Inserting(z, q, t) && HeadColor(q).Black? && Depth(q) < Depth(q0)
      ensures InOrder(Plug(q, t)) == InOrder(Plug(q0, t))
      ensures |cells| == old(|cells|) && cells[0] == old(cells[0])
    {
      OuterStep(q0, t);
      PaintTwoUp(cells, root, z, q0, t, Black, Red);
      cells := SetColor(cells, cells[z].parent, Black);
      cells := SetColor(cells, cells[cells[z].parent].parent, Red);
      ghost var tg := Fill(q0.up.(color := Red), Fill(q0.(color := Black), t));
      LeftRotateAt(cells[cells[z].parent].parent, q0.up.up, tg);
      ZipDown(cells, root, q0.id, q0.up.up, RotateLeft(tg));
      q := Lifted(q0);
    }

    /** One turn of the insertion loop when the red parent is a right child. */
    method InsertStepRight(z0: nat, ghost q0: Path, ghost t0: Tree)
      returns (z: nat, ghost q: Path, ghost t: Tree)
      requires Inserting(z0, q0, t0) && HeadColor(q0).Red? && q0.Frame? && q0.up.Frame? && q0.up.side.OnRight?
      modifies this`cells, this`root
      ensures Inserting(z, q, t) && Depth(q) < Depth(q0)
      ensures InOrder(Plug(q, t)) == InOrder(Plug(q0, t0))
      ensures |cells| == old(|cells|) && cells[0] == old(cells[0])
    {
      z, q, t := z0, q0, t0;
      RedParentHasGrandparent(q, t);
      HeadLinks(cells, root, z, q, t);
      ZipUp(cells, root, z, q, t);
      HeadLinks(cells, root, q.id, q.up, Fill(q, t));
      var p := cells[z].parent;
      var g := cells[p].parent;
      var y := cells[g].left;
      if cells[y].color.Red? {
        RecolourStep(q, t);
        ghost var u := q.up.up;
        PaintHead(cells, root, z, q, t, Black);
        cells := SetColor(cells, p, Black);
        ZipUp(cells, root, z, q.(color := Black), t);
        ghost var tp := Fill(q.(color := Black), t);
        PaintSibling(cells, root, p, q.up, tp, Black);
        cells := SetColor(cells, y, Black);
        ghost var qg := q.up.(sib := q.up.sib.(color := Black));
        PaintHead(cells, root, p, qg, tp, Red);
        cells := SetColor(cells, g, Red);
        ZipUp(cells, root, p, qg.(color := Red), tp);
        z, q, t := g, u, Recoloured(q, t);
      } else {
        if z == cells[cells[z].parent].left {
          z, q, t := StraightenRight(z, q, t);
        }
        q := LiftRight(z, q, t);
      }
    }

    method InsertFixup(z0: nat, ghost q0: Path, ghost t0: Tree)
      requires Inserting(z0, q0, t0)
      modifies this`cells, this`root, this`tree
      ensures Zip(cells, root, root, Top, tree) && RedBlack(tree)
      ensures InOrder(tree) == InOrder(Plug(q0, t0))
      ensures |cells| == old(|cells|) && cells[0] == old(cells[0])
    {
      var z := z0;
      ghost var q, t := q0, t0;
      while cells[cells[z].parent].color.Red?
        invariant Inserting(z, q, t)
        invariant InOrder(Plug(q, t)) == InOrder(Plug(q0, t0))
        invariant |cells| == old(|cells|) && cells[0] == old(cells[0])
        invariant Head(q) < |cells| && cells[Head(q)].color == HeadColor(q)
        decreases Depth(q)
      {
        RedParentHasGrandparent(q, t);
        HeadLinks(cells, root, z, q, t);
        ZipUp(cells, root, z, q, t);
        HeadLinks(cells, root, q.id, q.up, Fill(q, t));
        if cells[z].parent == cells[cells[cells[z].parent].parent].left {
          z, q, t := InsertStepLeft(z, q, t);
        } else {
          z, q, t := InsertStepRight(z, q, t);
        }
        if q.Frame? {
          HeadLinks(cells, root, z, q, t);
        }
      }
      InsertDone(q, t);
      ZipRoot(cells, root, z, q, t);
      tree := Plug(q, t);
      PaintFocus(cells, root, root, Top, tree, Black);
      cells := SetColor(cells, root, Black);
      tree := Blacken(tree);
      BlackenKeeps(Plug(q, t));
    }

    // -------------------------------------------------------------- searching

    method Search(k: string) returns (node: nat, ghost q: Path, ghost t: Tree)
      requires Valid()
      ensures Zip(cells, root, node, q, t) && Plug(q, t) == tree
      ensures node != 0 <==> k in Contents()
      ensures node != 0 ==> node < |key| && t.Node? && key[node] == k && Contents()[k] == value[node]
      ensures node == 0 ==> t.Leaf? && Narrowed(k, q, key, value)
      ensures Depth(q) <= Height(tree)
    {
      node, q, t := root, Top, tree;
      while node != 0
        invariant Zip(cells, root, node, q, t) && Plug(q, t) == tree
        invariant Narrowed(k, q, key, value)
        decreases t
      {
        ZipDown(cells, root, node, q, t);
        if Less(k, key[node]) {
          NarrowLeft(k, q, t, key, value);
          node, q, t := cells[node].left, Frame(q, OnLeft, node, t.color, t.right), t.left;
        } else if Less(key[node], k) {
          NarrowRight(k, q, t, key, value);
          node, q, t := cells[node].right, Frame(q, OnRight, node, t.color, t.left), t.right;
        } else {
          break;
        }
      }
      DepthBound(q, t);
      SearchResult(k, q, t, key, value);
    }

    /** Every descent from the root, and so every search, takes at most `2 * log2(n + 1)` steps
        for `n` bindings. */
    lemma SearchIsLogarithmic()
      requires Valid()
      ensures Height(tree) <= 2 * Log2(|Contents()| + 1)
    {
      HeightIsLogarithmic(tree);
      InOrderSize(tree);
      MapOfSize(EntriesOf(tree, key, value));
    }

    method Insert(z: nat)
      requires Valid() && 0 < z < |cells| && z !in Ids(tree)
      modifies this`cells, this`root, this`tree
      ensures Valid() && |cells| == old(|cells|) && cells[0] == old(cells[0])
      ensures key[z] in old(Contents()) ==> cells == old(cells) && root == old(root) && tree == old(tree)
      ensures key[z] !in old(Contents()) ==> Contents() == old(Contents())[key[z] := value[z]]
    {
      var y, x := 0, root;
      ghost var q, t := Top, tree;
      while x != 0
        invariant Zip(cells, root, x, q, t) && Plug(q, t) == tree
        invariant Narrowed(key[z], q, key, value)
        invariant y == Head(q) && y < |cells|
        invariant q.Frame? ==> (q.side.OnLeft? <==> Less(key[z], key[y]))
        modifies {}
        decreases t
      {
        y := x;
        ZipDown(cells, root, x, q, t);
        if Less(key[z], key[x]) {
          NarrowLeft(key[z], q, t, key, value);
          x, q, t := cells[x].left, Frame(q, OnLeft, x, t.color, t.right), t.left;
        } else if Less(key[x], key[z]) {
          LessTotal(key[x], key[z]);
          NarrowRight(key[z], q, t, key, value);
          x, q, t := cells[x].right, Frame(q, OnRight, x, t.color, t.left), t.right;
        } else {
          SearchResult(key[z], q, t, key, value);
          return;
        }
      }
      SearchResult(key[z], q, t, key, value);
      LinkLeaf(z, y, q);
      DescendRedBlack(q, Leaf);
      InsertFixup(z, q, Node(Leaf, z, Red, Leaf));
      InsertedBinding(q, z, tree, key, value);
    }

    /** Hangs node `z` below `y`, on the side its key belongs to. */
    method LinkLeaf(z: nat, y: nat, ghost q: Path)
      requires Linked() && Plug(q, Leaf) == tree && Zip(cells, root, 0, q, Leaf) && y == Head(q)
      requires 0 < z < |cells| && z !in Ids(tree)
      requires q.Frame? ==> y < |cells| && (q.side.OnLeft? <==> Less(key[z], key[y]))
      modifies this`cells, this`root
      ensures Zip(cells, root, z, q, Node(Leaf, z, Red, Leaf))
      ensures |cells| == old(|cells|) && cells[0] == old(cells[0])
    {
      ghost var m, r := cells, root;
      RepPathPositive(m, r, 0, q);
      PlugIds(q, Leaf);
      assert q.Frame? ==> q.id in PathIds(q);
      cells := cells[z := cells[z].(parent := y)];
      if y == 0 {
        root := z;
      } else if Less(key[z], key[y]) {
        cells := cells[y := cells[y].(left := z)];
      } else {
        cells := cells[y := cells[y].(right := z)];
      }
      cells := cells[z := cells[z].(left := 0)];
      cells := cells[z := cells[z].(right := 0)];
      cells := cells[z := cells[z].(color := Red)];
      LeafLinkedZip(m, cells, r, root, z, q);
    }

    // -------------------------------------------------------------- neighbours

    /** The leftmost node of the subtree at `x`. */
    method Mini(x0: nat, ghost q0: Path, ghost t0: Tree) returns (x: nat, ghost q: Path, ghost t: Tree)
      requires Zip(cells, root, x0, q0, t0) && t0.Node?
      ensures Zip(cells, root, x, q, t) && t.Node? && t.left.Leaf?
      ensures Plug(q, t) == Plug(q0, t0) && Preceding(q, t) == Before(q0)
      ensures |InOrder(t0)| > 0 && x == InOrder(t0)[0]
    {
      x, q, t := x0, q0, t0;
      while cells[x].left != 0
        invariant Zip(cells, root, x, q, t) && t.Node?
        invariant Plug(q, t) == Plug(q0, t0) && Before(q) == Before(q0)
        decreases t
      {
        ZipDown(cells, root, x, q, t);
        x, q, t := cells[x].left, Frame(q, OnLeft, x, t.color, t.right), t.left;
      }
      assert Rep(cells, cells[x].left, x, t.left);
      assert Before(q) + [] == Before(q);
      FirstBelow(q0, t0, q, t);
    }

    /** The node that follows `x0` in key order, or the sentinel. */
    method Successor(x0: nat, ghost q0: Path, ghost t0: Tree) returns (y: nat, ghost q: Path, ghost t: Tree)
      requires Zip(cells, root, x0, q0, t0) && t0.Node?
      ensures Zip(cells, root, y, q, t) || y == 0
      ensures y == 0 ==> InOrder(Plug(q0, t0)) == Preceding(q0, t0) + [x0]
      ensures y != 0 ==> t.Node? && Plug(q, t) == Plug(q0, t0) && Preceding(q, t) == Preceding(q0, t0) + [x0]
      ensures t0.right.Node? ==> y != 0 && t.left.Leaf?
    {
      var x := x0;
      q, t := q0, t0;
      y := cells[x].parent;
      ZipDown(cells, root, x, q, t);
      if cells[x].right != 0 {
        y, q, t := Mini(cells[x].right, Frame(q, OnRight, x, t.color, t.left), t.right);
        return;
      }
      while y != 0 && x == cells[y].right
        invariant Zip(cells, root, x, q, t) && t.Node? && y == Head(q)
        invariant Plug(q, t) == Plug(q0, t0)
        invariant Before(q) + InOrder(t) == Preceding(q0, t0) + [x0]
        decreases Depth(q)
      {
        ClimbFromRight(cells, root, x, q, t);
        x := y;
        q, t := q.up, Fill(q, t);
        y := cells[y].parent;
      }
      if y == 0 {
        PlugSplit(q, t);
      } else {
        ClimbFromLeft(cells, root, x, q, t);
        q, t := q.up, Fill(q, t);
      }
    }

    // -------------------------------------------------------------- deletion

    /** What the deletion loop keeps: the subtree at `x` lacks one black node, or nothing is left
        to repair and `x` is the root. The sentinel's parent link counts when `x` is the sentinel. */
    ghost predicate Deleting(x: nat, q: Path, t: Tree)
      reads this
    {
      && 0 < |cells| && cells[0].color.Black?
      && Zip(cells, root, x, q, t)
      && x < |cells| && cells[x].parent == Head(q)
      && (Deficient(q, t) || (q.Top? && RedBlack(t)))
    }

    /** The depth alone does not decrease when a red sibling pushes `x` down, but the loop then
        ends, because the next `x` is red. */
    ghost function DeficitRank(q: Path, t: Tree): nat {
      if q.Top? || ColorOf(t).Red? then 0 else Depth(q)
    }

    /** A red sibling changes colour with the parent, which is rotated left. */
    method RedSiblingLeft(x: nat, ghost q0: Path, ghost t: Tree) returns (ghost q: Path)
      requires Deleting(x, q0, t) && Deficient(q0, t) && q0.Frame? && q0.side.OnLeft? && ColorOf(q0.sib).Red?
      modifies this`cells, this`root
      ensures Deleting(x, q, t) && Deficient(q, t)
      ensures q.Frame? && q.side == q0.side && q.color.Red? && q.id == q0.id && ColorOf(q.sib).Black?
      ensures InOrder(Plug(q, t)) == InOrder(Plug(q0, t))
      ensures |cells| == old(|cells|) && cells[0] == old(cells[0])
    {
      var p := cells[x].parent;
      HeadLinks(cells, root, x, q0, t);
      var w := cells[p].right;
      q := Frame(Frame(q0.up, OnLeft, w, Black, q0.sib.right), OnLeft, p, Red, q0.sib.left);
      RedSiblingStep(q0, t, q);
      PaintSibling(cells, root, x, q0, t, Black);
      cells := SetColor(cells, w, Black);
      ghost var q1 := q0.(sib := Blacken(q0.sib));
      PaintHead(cells, root, x, q1, t, Red);
      cells := SetColor(cells, p, Red);
      ZipUp(cells, root, x, q1.(color := Red), t);
      LeftRotateAt(p, q0.up, Fill(q1.(color := Red), t));
      ZipDown(cells, root, w, q0.up, Fill(q.up, Fill(q, t)));
      ZipDown(cells, root, p, q.up, Fill(q, t));
    }

    /** The inner red child of a black sibling is rotated above it. */
    method InnerNephewLeft(x: nat, ghost q0: Path, ghost t: Tree) returns (ghost q: Path)
      requires Deleting(x, q0, t) && Deficient(q0, t) && q0.Frame? && q0.side.OnLeft?
      requires q0.sib.Node? && q0.sib.color.Black? && ColorOf(q0.sib.left).Red? && ColorOf(q0.sib.right).Black?
      modifies this`cells, this`root
      ensures q == q0.(sib := Straightened(OnLeft, q0.sib))
      ensures Deleting(x, q, t) && Deficient(q, t) && q.sib.color.Black? && ColorOf(q.sib.right).Red?
      ensures InOrder(Plug(q, t)) == InOrder(Plug(q0, t))
      ensures |cells| == old(|cells|) && cells[0] == old(cells[0])
    {
      InnerNephewStep(q0, t);
      HeadLinks(cells, root, x, q0, t);
      var w := cells[cells[x].parent].right;
      ghost var r, s := Across(q0, t), q0.sib;
      ZipAcross(cells, root, x, q0, t);
      PaintLeftChild(cells, root, w, r, s, Black);
      cells := SetColor(cells, cells[w].left, Black);
      s := s.(left := Blacken(s.left));
      PaintFocus(cells, root, w, r, s, Red);
      cells := SetColor(cells, w, Red);
      s := s.(color := Red);
      RightRotateAt(w, r, s);
      q := q0.(sib := RotateRight(s));
      ZipAcross(cells, root, RotateRight(s).id, r, RotateRight(s));
    }

    /** The outer red child of a black sibling pays the deficit by one rotation at the parent. */
    method OuterNephewLeft(x0: nat, ghost q0: Path, ghost t0: Tree) returns (x: nat, ghost t: Tree)
      requires Deleting(x0, q0, t0) && Deficient(q0, t0) && ColorOf(t0).Black? && q0.Frame? && q0.side.OnLeft?
      requires q0.sib.Node? && q0.sib.color.Black? && ColorOf(q0.sib.right).Red?
      modifies this`cells, this`root
      ensures Deleting(x, Top, t) && RedBlack(t)
      ensures InOrder(t) == InOrder(Plug(q0, t0))
      ensures |cells| == old(|cells|) && cells[0] == old(cells[0])
    {
      OuterNephewStep(q0, t0);
      HeadLinks(cells, root, x0, q0, t0);
      var p := cells[x0].parent;
      var w := cells[p].right;
      ghost var q := q0;
      PaintSibling(cells, root, x0, q, t0, q0.color);
      cells := SetColor(cells, w, cells[p].color);
      q := q.(sib := q.sib.(color := q0.color));
      PaintHead(cells, root, x0, q, t0, Black);
      cells := SetColor(cells, p, Black);
      q := q.(color := Black);
      ZipAcross(cells, root, x0, q, t0);
      PaintRightChild(cells, root, w, Across(q, t0), q.sib, Black);
      cells := SetColor(cells, cells[w].right, Black);
      q := q.(sib := q.sib.(right := Blacken(q.sib.right)));
      ZipUp(cells, root, w, Across(q, t0), q.sib);
      LeftRotateAt(p, q.up, Fill(q, t0));
      ZipRoot(cells, root, w, q.up, Repaid(q0, t0));
      ClimbRedBlack(q.up, Repaid(q0, t0));
      x, t := root, Plug(q.up, Repaid(q0, t0));
    }

    /** The part of a turn after the sibling of a left child is known to be black. */
    method BlackSiblingLeft(x0: nat, ghost q0: Path, ghost t0: Tree)
      returns (x: nat, ghost q: Path, ghost t: Tree)
      requires Deleting(x0, q0, t0) && Deficient(q0, t0) && ColorOf(t0).Black? && q0.Frame? && q0.side.OnLeft?
      requires q0.sib.Node? && q0.sib.color.Black?
      modifies this`cells, this`root
      ensures Deleting(x, q, t)
      ensures q.Top? || (q == q0.up && ColorOf(t) == q0.color)
      ensures InOrder(Plug(q, t)) == InOrder(Plug(q0, t0))
      ensures |cells| == old(|cells|) && cells[0] == old(cells[0])
    {
      x, q, t := x0, q0, t0;
      HeadLinks(cells, root, x, q, t);
      var w := cells[cells[x].parent].right;
      LinkColor(cells, cells[w].left, w, q.sib.left);
      LinkColor(cells, cells[w].right, w, q.sib.right);
      if cells[cells[w].left].color.Black? && cells[cells[w].right].color.Black? {
        PushUpStep(q, t);
        PaintSibling(cells, root, x, q, t, Red);
        cells := SetColor(cells, w, Red);
        ZipUp(cells, root, x, q.(sib := q.sib.(color := Red)), t);
        x, q, t := cells[x].parent, q.up, Fill(q.(sib := q.sib.(color := Red)), t);
      } else {
        if cells[cells[w].right].color.Black? {
          q := InnerNephewLeft(x, q, t);
        }
        x, t := OuterNephewLeft(x, q, t);
        q := Top;
      }
    }

    /** One turn of the deletion loop when `x` is a left child. */
    method DeleteStepLeft(x0: nat, ghost q0: Path, ghost t0: Tree)
      returns (x: nat, ghost q: Path, ghost t: Tree)
      requires Deleting(x0, q0, t0) && Deficient(q0, t0) && ColorOf(t0).Black? && q0.Frame? && q0.side.OnLeft?
      modifies this`cells, this`root
      ensures Deleting(x, q, t) && DeficitRank(q, t) < DeficitRank(q0, t0)
      ensures InOrder(Plug(q, t)) == InOrder(Plug(q0, t0))
      ensures |cells| == old(|cells|) && cells[0] == old(cells[0])
    {
      x, q, t := x0, q0, t0;
      SiblingExists(q, t);
      HeadLinks(cells, root, x, q, t);
      if cells[cells[cells[x].parent].right].color.Red? {
        q := RedSiblingLeft(x, q, t);
        SiblingExists(q, t);
      }
      x, q, t := BlackSiblingLeft(x, q, t);
    }

    /** A red sibling changes colour with the parent, which is rotated right. */
    method RedSiblingRight(x: nat, ghost q0: Path, ghost t: Tree) returns (ghost q: Path)
      requires Deleting(x, q0, t) && Deficient(q0, t) && q0.Frame? && q0.side.OnRight? && ColorOf(q0.sib).Red?
      modifies this`cells, this`root
      ensures Deleting(x, q, t) && Deficient(q, t)
      ensures q.Frame? && q.side == q0.side && q.color.Red? && q.id == q0.id && ColorOf(q.sib).Black?
      ensures InOrder(Plug(q, t)) == InOrder(Plug(q0, t))
      ensures |cells| == old(|cells|) && cells[0] == old(cells[0])
    {
      var p := cells[x].parent;
      HeadLinks(cells, root, x, q0, t);
      var w := cells[p].left;
      q := Frame(Frame(q0.up, OnRight, w, Black, q0.sib.left), OnRight, p, Red, q0.sib.right);
      RedSiblingStep(q0, t, q);
      PaintSibling(cells, root, x, q0, t, Black);
      cells := SetColor(cells, w, Black);
      ghost var q1 := q0.(sib := Blacken(q0.sib));
      PaintHead(cells, root, x, q1, t, Red);
      cells := SetColor(cells, p, Red);
      ZipUp(cells, root, x, q1.(color := Red), t);
      RightRotateAt(p, q0.up, Fill(q1.(color := Red), t));
      ZipDown(cells, root, w, q0.up, Fill(q.up, Fill(q, t)));
      ZipDown(cells, root, p, q.up, Fill(q, t));
    }

    /** The inner red child of a black sibling is rotated above it. */
    method InnerNephewRight(x: nat, ghost q0: Path, ghost t: Tree) returns (ghost q: Path)
      requires Deleting(x, q0, t) && Deficient(q0, t) && q0.Frame? && q0.side.OnRight?
      requires q0.sib.Node? && q0.sib.color.Black? && ColorOf(q0.sib.right).Red? && ColorOf(q0.sib.left).Black?
      modifies this`cells, this`root
      ensures q == q0.(sib := Straightened(OnRight, q0.sib))
      ensures Deleting(x, q, t) && Deficient(q, t) && q.sib.color.Black? && ColorOf(q.sib.left).Red?
      ensures InOrder(Plug(q, t)) == InOrder(Plug(q0, t))
      ensures |cells| == old(|cells|) && cells[0] == old(cells[0])
    {
      InnerNephewStep(q0, t);
      HeadLinks(cells, root, x, q0, t);
      var w := cells[cells[x].parent].left;
      ghost var r, s := Across(q0, t), q0.sib;
      ZipAcross(cells, root, x, q0, t);
      PaintRightChild(cells, root, w, r, s, Black);
      cells := SetColor(cells, cells[w].right, Black);
      s := s.(right := Blacken(s.right));
      PaintFocus(cells, root, w, r, s, Red);
      cells := SetColor(cells, w, Red);
      s := s.(color := Red);
      LeftRotateAt(w, r, s);
      q := q0.(sib := RotateLeft(s));
      ZipAcross(cells, root, RotateLeft(s).id, r, RotateLeft(s));
    }

    /** The outer red child of a black sibling pays the deficit by one rotation at the parent. */
    method OuterNephewRight(x0: nat, ghost q0: Path, ghost t0: Tree) returns (x: nat, ghost t: Tree)
      requires Deleting(x0, q0, t0) && Deficient(q0, t0) && ColorOf(t0).Black? && q0.Frame? && q0.side.OnRight?
      requires q0.sib.Node? && q0.sib.color.Black? && ColorOf(q0.sib.left).Red?
      modifies this`cells, this`root
      ensures Deleting(x, Top, t) && RedBlack(t)
      ensures InOrder(t) == InOrder(Plug(q0, t0))
      ensures |cells| == old(|cells|) && cells[0] == old(cells[0])
    {
      OuterNephewStep(q0, t0);
      HeadLinks(cells, root, x0, q0, t0);
      var p := cells[x0].parent;
      var w := cells[p].left;
      ghost var q := q0;
      PaintSibling(cells, root, x0, q, t0, q0.color);
      cells := SetColor(cells, w, cells[p].color);
      q := q.(sib := q.sib.(color := q0.color));
      PaintHead(cells, root, x0, q, t0, Black);
      cells := SetColor(cells, p, Black);
      q := q.(color := Black);
      ZipAcross(cells, root, x0, q, t0);
      PaintLeftChild(cells, root, w, Across(q, t0), q.sib, Black);
      cells := SetColor(cells, cells[w].left, Black);
      q := q.(sib := q.sib.(left := Blacken(q.sib.left)));
      ZipUp(cells, root, w, Across(q, t0), q.sib);
      RightRotateAt(p, q.up, Fill(q, t0));
      ZipRoot(cells, root, w, q.up, Repaid(q0, t0));
      ClimbRedBlack(q.up, Repaid(q0, t0));
      x, t := root, Plug(q.up, Repaid(q0, t0));
    }

    /** The part of a turn after the sibling of a right child is known to be black. */
    method BlackSiblingRight(x0: nat, ghost q0: Path, ghost t0: Tree)
      returns (x: nat, ghost q: Path, ghost t: Tree)
      requires Deleting(x0, q0, t0) && Deficient(q0, t0) && ColorOf(t0).Black? && q0.Frame? && q0.side.OnRight?
      requires q0.sib.Node? && q0.sib.color.Black?
      modifies this`cells, this`root
      ensures Deleting(x, q, t)
      ensures q.Top? || (q == q0.up && ColorOf(t) == q0.color)
      ensures InOrder(Plug(q, t)) == InOrder(Plug(q0, t0))
      ensures |cells| == old(|cells|) && cells[0] == old(cells[0])
    {
      x, q, t := x0, q0, t0;
      HeadLinks(cells, root, x, q, t);
      var w := cells[cells[x].parent].left;
      LinkColor(cells, cells[w].left, w, q.sib.left);
      LinkColor(cells, cells[w].right, w, q.sib.right);
      if cells[cells[w].left].color.Black? && cells[cells[w].right].color.Black? {
        PushUpStep(q, t);
        PaintSibling(cells, root, x, q, t, Red);
        cells := SetColor(cells, w, Red);
        ZipUp(cells, root, x, q.(sib := q.sib.(color := Red)), t);
        x, q, t := cells[x].parent, q.up, Fill(q.(sib := q.sib.(color := Red)), t);
      } else {
        if cells[cells[w].left].color.Black? {
          q := InnerNephewRight(x, q, t);
        }
        x, t := OuterNephewRight(x, q, t);
        q := Top;
      }
    }

    /** One turn of the deletion loop when `x` is a right child. */
    method DeleteStepRight(x0: nat, ghost q0: Path, ghost t0: Tree)
      returns (x: nat, ghost q: Path, ghost t: Tree)
      requires Deleting(x0, q0, t0) && Deficient(q0, t0) && ColorOf(t0).Black? && q0.Frame? && q0.side.OnRight?
      modifies this`cells, this`root
      ensures Deleting(x, q, t) && DeficitRank(q, t) < DeficitRank(q0, t0)
      ensures InOrder(Plug(q, t)) == InOrder(Plug(q0, t0))
      ensures |cells| == old(|cells|) && cells[0] == old(cells[0])
    {
      x, q, t := x0, q0, t0;
      SiblingExists(q, t);
      HeadLinks(cells, root, x, q, t);
      if cells[cells[cells[x].parent].left].color.Red? {
        q := RedSiblingRight(x, q, t);
        SiblingExists(q, t);
      }
      x, q, t := BlackSiblingRight(x, q, t);
    }

    method DeleteFixup(x0: nat, ghost q0: Path, ghost t0: Tree)
      requires Deleting(x0, q0, t0)
      modifies this`cells, this`root, this`tree
      ensures Zip(cells, root, root, Top, tree) && RedBlack(tree)
      ensures InOrder(tree) == InOrder(Plug(q0, t0))
      ensures |cells| == old(|cells|) && cells[0].color.Black?
    {
      var x := x0;
      ghost var q, t := q0, t0;
      ZipRoot(cells, root, x, q, t);
      LinkColor(cells, x, Head(q), t);
      while x != root && cells[x].color.Black?
        invariant Deleting(x, q, t)
        invariant InOrder(Plug(q, t)) == InOrder(Plug(q0, t0))
        invariant |cells| == old(|cells|)
        invariant x != root <==> q.Frame?
        invariant cells[x].color == ColorOf(t)
        decreases DeficitRank(q, t)
      {
        HeadLinks(cells, root, x, q, t);
        SiblingExists(q, t);
        ZipAcross(cells, root, x, q, t);
        if x == cells[cells[x].parent].left {
          x, q, t := DeleteStepLeft(x, q, t);
        } else {
          x, q, t := DeleteStepRight(x, q, t);
        }
        ZipRoot(cells, root, x, q, t);
        LinkColor(cells, x, Head(q), t);
      }
      DeleteDone(q, t);
      if t.Node? {
        PaintFocus(cells, root, x, q, t, Black);
      }
      cells := SetColor(cells, x, Black);
      tree := Plug(q, Blacken(t));
      ZipRoot(cells, root, x, q, Blacken(t));
    }

    /** Unlinks `y`, which has at most one child, and returns the child that takes its place. */
    method Bypass(y: nat, ghost q: Path, ghost t: Tree) returns (x: nat)
      requires 0 < |cells| && Zip(cells, root, y, q, t) && t.Node? && (t.left.Leaf? || t.right.Leaf?)
      modifies this`cells, this`root
      ensures Zip(cells, root, x, q, OnlyChild(t)) && x < |cells| && cells[x].parent == Head(q)
      ensures |cells| == old(|cells|) && cells[y].color == t.color && cells[0].color == old(cells[0].color)
    {
      ghost var m, r := cells, root;
      RepPathPositive(m, r, y, q);
      RepPositive(m, y, Head(q), t);
      ZipDown(m, r, y, q, t);
      x := 0;
      if cells[y].left != 0 {
        x := cells[y].left;
      } else if cells[y].right != 0 {
        x := cells[y].right;
      }
      ghost var child := OnlyChild(t);
      assert Rep(m, x, y, child);
      assert child.Node? ==> x in Ids(child);
      assert q.Frame? ==> q.id in PathIds(q);
      cells := cells[x := cells[x].(parent := cells[y].parent)];
      if cells[y].parent == 0 {
        root := x;
      } else {
        var p := cells[y].parent;
        ZipAcross(m, r, y, q, t);
        if y == cells[p].left {
          cells := cells[p := cells[p].(left := x)];
        } else {
          cells := cells[p := cells[p].(right := x)];
        }
      }
      BypassedZip(m, cells, r, root, y, q, t, x, child);
    }

    /** Exchanges the contents of two nodes. */
    method Exchange(z: nat, y: nat)
      requires z < |key| == |value| && y < |key|
      modifies this`key, this`value
      ensures key == Swapped(old(key), z, y) && value == Swapped(old(value), z, y)
    {
      if y != z {
        var tmp := key[z];
        key := key[z := key[y]];
        key := key[y := tmp];
        tmp := value[z];
        value := value[z := value[y]];
        value := value[y := tmp];
      }
    }

    /** Unlinks `y`, exchanges its contents with those of `z`, and repairs the colours. */
    method Unlink(z: nat, y: nat, ghost q: Path, ghost t: Tree)
      requires Linked() && RedBlack(tree) && Plug(q, t) == tree && z < |key|
      requires Zip(cells, root, y, q, t) && t.Node? && (t.left.Leaf? || t.right.Leaf?)
      modifies this`cells, this`root, this`tree, this`key, this`value
      ensures Linked() && RedBlack(tree) && |cells| == old(|cells|)
      ensures InOrder(tree) == Preceding(q, t) + Following(q, t)
      ensures y < |key| && key == Swapped(old(key), z, y) && value == Swapped(old(value), z, y)
    {
      UnlinkStep(q, t);
      var x := Bypass(y, q, t);
      Exchange(z, y);
      if cells[y].color.Black? {
        DeleteFixup(x, q, OnlyChild(t));
      } else {
        tree := Plug(q, OnlyChild(t));
        ZipRoot(cells, root, x, q, OnlyChild(t));
      }
    }

    /** The node to unlink: `z` itself if it lacks a child, otherwise its successor. */
    method Victim(z: nat, ghost q: Path, ghost t: Tree) returns (y: nat, ghost qy: Path, ghost ty: Tree)
      requires Linked() && Zip(cells, root, z, q, t) && t.Node?
      ensures Zip(cells, root, y, qy, ty) && ty.Node? && (ty.left.Leaf? || ty.right.Leaf?)
      ensures Plug(qy, ty) == Plug(q, t)
      ensures t.left.Leaf? || t.right.Leaf? ==> y == z
      ensures t.left.Leaf? || t.right.Leaf? ==> qy == q && ty == t
      ensures t.left.Node? && t.right.Node? ==> Preceding(qy, ty) == Preceding(q, t) + [z]
    {
      LinkColor(cells, cells[z].left, z, t.left);
      LinkColor(cells, cells[z].right, z, t.right);
      if cells[z].left == 0 || cells[z].right == 0 {
        y, qy, ty := z, q, t;
      } else {
        y, qy, ty := Successor(z, q, t);
      }
    }

    /** Removes the node `z` from the tree; the node returned is the one unlinked, and it carries
        the removed key and value. */
    method Delete(z: nat, ghost q: Path, ghost t: Tree) returns (y: nat)
      requires Valid() && Zip(cells, root, z, q, t) && t.Node? && Plug(q, t) == tree
      modifies this`cells, this`root, this`tree, this`key, this`value
      ensures Valid() && |cells| == old(|cells|)
      ensures Contents() == old(Contents()) - {old(key[z])}
      ensures y < |key| && y in Ids(old(tree)) && y !in Ids(tree)
      ensures key[y] == old(key[z]) && value[y] == old(value[z])
    {
      ghost var qy, ty;
      y, qy, ty := Victim(z, q, t);
      RemovedContents(q, t, qy, ty, key, value);
      Unlink(z, y, qy, ty);
      InOrderIds(tree);
    }

    // -------------------------------------------------------------- the engine interface

    /** The bindings and the counter, as the server sees them. */
    ghost function State(): Engines.Store
      reads this
    {
      Engines.Store(Contents(), count)
    }

    /** Allocates a node; its links hold whatever the memory held. */
    method Allocate(k: string, v: string, garbage: Cell) returns (z: nat)
      requires Valid()
      modifies this`cells, this`key, this`value
      ensures Valid() && Contents() == old(Contents())
      ensures z == old(|cells|) && |cells| == z + 1 && key[z] == k && value[z] == v && z !in Ids(tree)
    {
      z := |cells|;
      RepPositive(cells, root, 0, tree);
      InOrderIds(tree);
      EntriesFrame(InOrder(tree), key, value, key + [k], value + [v]);
      RepFrame(cells, cells + [garbage], root, 0, tree);
      cells, key, value := cells + [garbage], key + [k], value + [v];
    }

    method Set(k: string, v: string, garbage: Cell) returns (code: int)
      requires Valid()
      modifies this
      ensures Valid() && (State(), Engines.Status(code)) == Engines.TreeStep(old(State()), Engines.Set(k, v))
    {
      var z := Allocate(k, v, garbage);
      Insert(z);
      count := count + 1;
      code := 0;
    }

    method Get(k: string) returns (v: Engines.Option<string>)
      requires Valid()
      ensures v == Engines.Lookup(Contents(), k)
    {
      var node, _, _ := Search(k);
      if node == 0 {
        return Engines.None;
      }
      return Engines.Some(value[node]);
    }

    method Remove(k: string) returns (code: int)
      requires Valid()
      modifies this
      ensures Valid() && (State(), Engines.Status(code)) == Engines.TreeStep(old(State()), Engines.Del(k))
    {
      var node;
      ghost var q, t;
      node, q, t := Search(k);
      if node == 0 {
        return -1;
      }
      var cur := Delete(node, q, t);
      count := count - 1;
      code := 0;
    }

    method Modify(k: string, v: string) returns (code: int)
      requires Valid()
      modifies this`value
      ensures Valid() && (State(), Engines.Status(code)) == Engines.TreeStep(old(State()), Engines.Mod(k, v))
    {
      var node;
      ghost var q, t;
      node, q, t := Search(k);
      if node == 0 {
        return -1;
      }
      ModifiedBinding(q, t, v, key, value);
      value := value[node := v];
      code := 0;
    }

    method Count() returns (n: int)
      ensures n == count
    {
      n := count;
    }
  }
}
