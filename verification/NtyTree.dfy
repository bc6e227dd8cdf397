/** The red-black tree of `NtyCo/core/nty_tree.h`, which holds the sleeping and waiting coroutines.

Leaves are null pointers, modelled by node 0. Every field access goes through `Deref` or a
`Store`, whose preconditions exclude node 0, so that a verified method never follows a null
pointer. The two mirror-image halves of each macro are written once, with the side as a
parameter. Nodes carry their own key, and no operation of this file writes a key. */
module NtyTree {
  import opened RbTrees
  import opened Arena
  import opened RbFixup
  import opened OrderedNodes

  function Deref(m: seq<Cell>, x: nat): Cell
    requires 0 < x < |m|
  {
    m[x]
  }

  function StoreParent(m: seq<Cell>, x: nat, p: nat): seq<Cell>
    requires 0 < x < |m|
  {
    m[x := m[x].(parent := p)]
  }

  function StoreColor(m: seq<Cell>, x: nat, c: Color): seq<Cell>
    requires 0 < x < |m|
  {
    SetColor(m, x, c)
  }

  function StoreChild(m: seq<Cell>, x: nat, s: Side, y: nat): seq<Cell>
    requires 0 < x < |m|
  {
    if s.OnLeft? then m[x := m[x].(left := y)] else m[x := m[x].(right := y)]
  }

  function DerefChild(m: seq<Cell>, x: nat, s: Side): nat
    requires 0 < x < |m|
  {
    if s.OnLeft? then m[x].left else m[x].right
  }

  class RbHead {
    var cells: seq<Cell>
    var key: seq<int>
    var root: nat
    ghost var tree: Tree

    ghost predicate Linked()
      reads this
    {
      && 0 < |cells| == |key|
      && cells[0].color.Black?
      && Zip(cells, root, root, Top, tree)
    }

    ghost predicate Valid()
      reads this
    {
      Linked() && RedBlack(tree) && Ascending(InOrder(tree), key)
    }

    /** The nodes of the tree in ascending key order. */
    ghost function Order(): seq<nat>
      reads this
    {
      InOrder(tree)
    }

    // -------------------------------------------------------------- rotations

    method RotateLeftLinks(elm: nat)
      requires RotatesLeft(cells, elm)
      modifies this`cells, this`root
      ensures LeftRotated(old(cells), cells, old(root), root, elm)
    {
      var tmp := Deref(cells, elm).right;
      cells := StoreChild(cells, elm, OnRight, Deref(cells, tmp).left);
      if Deref(cells, elm).right != 0 {
        cells := StoreParent(cells, Deref(cells, tmp).left, elm);
      }
      cells := StoreParent(cells, tmp, Deref(cells, elm).parent);
      var p := Deref(cells, elm).parent;
      if p != 0 {
        if elm == Deref(cells, p).left {
          cells := StoreChild(cells, p, OnLeft, tmp);
        } else {
          cells := StoreChild(cells, p, OnRight, tmp);
        }
      } else {
        root := tmp;
      }
      cells := StoreChild(cells, tmp, OnLeft, elm);
      cells := StoreParent(cells, elm, tmp);
    }

    method RotateRightLinks(elm: nat)
      requires RotatesRight(cells, elm)
      modifies this`cells, this`root
      ensures RightRotated(old(cells), cells, old(root), root, elm)
    {
      var tmp := Deref(cells, elm).left;
      cells := StoreChild(cells, elm, OnLeft, Deref(cells, tmp).right);
      if Deref(cells, elm).left != 0 {
        cells := StoreParent(cells, Deref(cells, tmp).right, elm);
      }
      cells := StoreParent(cells, tmp, Deref(cells, elm).parent);
      var p := Deref(cells, elm).parent;
      if p != 0 {
        if elm == Deref(cells, p).left {
          cells := StoreChild(cells, p, OnLeft, tmp);
        } else {
          cells := StoreChild(cells, p, OnRight, tmp);
        }
      } else {
        root := tmp;
      }
      cells := StoreChild(cells, tmp, OnRight, elm);
      cells := StoreParent(cells, elm, tmp);
    }

    /** The rotation that moves `elm` down to side `s`. */
    method Rotate(s: Side, elm: nat, ghost q: Path, ghost t: Tree)
      requires Zip(cells, root, elm, q, t) && t.Node? && Child(t, Other(s)).Node?
      modifies this`cells, this`root
      ensures Zip(cells, root, Turn(s, t).id, q, Turn(s, t))
      ensures |cells| == old(|cells|) && cells[0] == old(cells[0])
    {
      ghost var m, r := cells, root;
      if s.OnLeft? {
        ZipRotatesLeft(m, r, elm, q, t);
        RotateLeftLinks(elm);
        LeftRotatedZip(m, cells, r, root, elm, q, t);
      } else {
        ZipRotatesRight(m, r, elm, q, t);
        RotateRightLinks(elm);
        RightRotatedZip(m, cells, r, root, elm, q, t);
      }
    }

    // -------------------------------------------------------------- insertion

    ghost predicate Inserting(elm: nat, q: Path, t: Tree)
      reads this
    {
      && 0 < |cells| && cells[0].color.Black?
      && Zip(cells, root, elm, q, t)
      && AlmostRedBlack(q, t) && t.Node? && t.color.Red?
    }

    /** The first rotation, when `elm` is the inner grandchild: `elm` and `parent` change roles. */
    method InsertInner(s: Side, elm: nat, parent: nat, ghost q0: Path, ghost t0: Tree)
      returns (ghost q: Path, ghost t: Tree)
      requires Inserting(elm, q0, t0) && HeadColor(q0).Red? && q0.Frame? && q0.up.Frame? && parent == q0.id
      requires q0.side == Other(s) && q0.up.side == s
      modifies this`cells, this`root
      ensures Inserting(parent, q, t) && HeadColor(q).Red? && q.Frame? && q.up == q0.up && q.side == s && q.id == elm
      ensures InOrder(Plug(q, t)) == InOrder(Plug(q0, t0))
      ensures |cells| == old(|cells|) && cells[0] == old(cells[0])
    {
      q := Frame(q0.up, s, t0.id, Red, Child(t0, Other(s)));
      t := if s.OnLeft? then Node(q0.sib, q0.id, Red, t0.left) else Node(t0.right, q0.id, Red, q0.sib);
      InnerStep(q0, t0, q, t);
      ZipUp(cells, root, elm, q0, t0);
      Rotate(s, parent, q0.up, Fill(q0, t0));
      ZipDown(cells, root, t0.id, q0.up, Fill(q, t));
    }

    /** Parent black, grandparent red, and the rotation at the grandparent. */
    method InsertOuter(s: Side, elm: nat, parent: nat, gparent: nat, ghost q0: Path, ghost t: Tree)
      returns (ghost q: Path)
      requires Inserting(elm, q0, t) && HeadColor(q0).Red? && q0.Frame? && q0.up.Frame?
      requires parent == q0.id && gparent == q0.up.id
      requires q0.side == s && q0.up.side == s && ColorOf(q0.up.sib).Black?
      modifies this`cells, this`root
      ensures Inserting(elm, q, t) && HeadColor(q).Black? && Depth(q) < Depth(q0)
      ensures InOrder(Plug(q, t)) == InOrder(Plug(q0, t))
      ensures |cells| == old(|cells|) && cells[0] == old(cells[0])
    {
      OuterStep(q0, t);
      PaintTwoUp(cells, root, elm, q0, t, Black, Red);
      cells := StoreColor(cells, parent, Black);
      cells := StoreColor(cells, gparent, Red);
      ghost var g := Fill(q0.up.(color := Red), Fill(q0.(color := Black), t));
      Rotate(Other(s), gparent, q0.up.up, g);
      ZipDown(cells, root, parent, q0.up.up, Turn(Other(s), g));
      q := Lifted(q0);
    }

    /** A red uncle: parent and uncle turn black, the grandparent red. */
    method InsertRecolour(parent: nat, gparent: nat, tmp: nat, elm: nat, ghost q: Path, ghost t: Tree)
      requires Inserting(elm, q, t) && HeadColor(q).Red? && q.Frame? && q.up.Frame?
      requires parent == q.id && gparent == q.up.id && ColorOf(q.up.sib).Red? && tmp == q.up.sib.id
      modifies this`cells
      ensures Inserting(gparent, q.up.up, Recoloured(q, t))
      ensures InOrder(Plug(q.up.up, Recoloured(q, t))) == InOrder(Plug(q, t))
      ensures |cells| == old(|cells|) && cells[0] == old(cells[0])
    {
      RecolourStep(q, t);
      HeadLinks(cells, root, elm, q, t);
      ZipUp(cells, root, elm, q, t);
      HeadLinks(cells, root, q.id, q.up, Fill(q, t));
      PaintSibling(cells, root, parent, q.up, Fill(q, t), Black);
      cells := StoreColor(cells, tmp, Black);
      ghost var g := q.up.(sib := q.up.sib.(color := Black));
      PaintFocus(cells, root, parent, g, Fill(q, t), Black);
      cells := StoreColor(cells, parent, Black);
      PaintHead(cells, root, parent, g, Fill(q.(color := Black), t), Red);
      cells := StoreColor(cells, gparent, Red);
      ZipUp(cells, root, parent, g.(color := Red), Fill(q.(color := Black), t));
    }

    /** A black uncle: one or two rotations end the repair. */
    method InsertRotations(s: Side, elm0: nat, parent0: nat, gparent: nat, ghost q0: Path, ghost t0: Tree)
      returns (elm: nat, ghost q: Path, ghost t: Tree)
      requires Inserting(elm0, q0, t0) && HeadColor(q0).Red? && q0.Frame? && q0.up.Frame?
      requires parent0 == q0.id && gparent == q0.up.id && q0.up.side == s && ColorOf(q0.up.sib).Black?
      modifies this`cells, this`root
      ensures Inserting(elm, q, t) && HeadColor(q).Black? && Depth(q) < Depth(q0)
      ensures InOrder(Plug(q, t)) == InOrder(Plug(q0, t0))
      ensures |cells| == old(|cells|) && cells[0] == old(cells[0])
    {
      var parent := parent0;
      elm, q, t := elm0, q0, t0;
      HeadLinks(cells, root, elm, q, t);
      ZipAcross(cells, root, elm, q, t);
      if DerefChild(cells, parent, Other(s)) == elm {
        q, t := InsertInner(s, elm, parent, q, t);
        parent, elm := elm, parent;
      }
      q := InsertOuter(s, elm, parent, gparent, q, t);
    }

    method InsertColor(elm0: nat, ghost q0: Path, ghost t0: Tree)
      requires Inserting(elm0, q0, t0)
      modifies this`cells, this`root, this`tree
      ensures Zip(cells, root, root, Top, tree) && RedBlack(tree)
      ensures InOrder(tree) == InOrder(Plug(q0, t0))
      ensures |cells| == old(|cells|) && cells[0] == old(cells[0])
    {
      var elm := elm0;
      ghost var q, t := q0, t0;
      var parent := Deref(cells, elm).parent;
      while parent != 0 && Deref(cells, parent).color.Red?
        invariant Inserting(elm, q, t) && parent == Head(q) && parent < |cells|
        invariant InOrder(Plug(q, t)) == InOrder(Plug(q0, t0))
        invariant |cells| == old(|cells|) && cells[0] == old(cells[0])
        invariant parent != 0 ==> cells[parent].color == HeadColor(q)
        decreases Depth(q)
      {
        RedParentHasGrandparent(q, t);
        HeadLinks(cells, root, elm, q, t);
        ZipUp(cells, root, elm, q, t);
        HeadLinks(cells, root, q.id, q.up, Fill(q, t));
        var gparent := Deref(cells, parent).parent;
        var s := if parent == Deref(cells, gparent).left then OnLeft else OnRight;
        var tmp := DerefChild(cells, gparent, Other(s));
        if tmp != 0 && Deref(cells, tmp).color.Red? {
          InsertRecolour(parent, gparent, tmp, elm, q, t);
          elm, q, t := gparent, q.up.up, Recoloured(q, t);
        } else {
          elm, q, t := InsertRotations(s, elm, parent, gparent, q, t);
        }
        parent := Deref(cells, elm).parent;
        if q.Frame? {
          HeadLinks(cells, root, elm, q, t);
        }
      }
      InsertDone(q, t);
      ZipRoot(cells, root, elm, q, t);
      tree := Plug(q, t);
      PaintFocus(cells, root, root, Top, tree, Black);
      cells := StoreColor(cells, root, Black);
      tree := Blacken(tree);
      BlackenKeeps(Plug(q, t));
    }

    /** Hangs `elm` as a red leaf below `parent`, on the side the last comparison chose. */
    method LinkLeaf(elm: nat, parent: nat, comp: int, ghost q: Path)
      requires Linked() && Plug(q, Leaf) == tree && Zip(cells, root, 0, q, Leaf) && parent == Head(q)
      requires 0 < elm < |cells| && elm !in Ids(tree)
      requires q.Frame? ==> parent < |cells| && (q.side.OnLeft? <==> comp < 0)
      modifies this`cells, this`root
      ensures Zip(cells, root, elm, q, Node(Leaf, elm, Red, Leaf))
      ensures |cells| == old(|cells|) && cells[0] == old(cells[0])
    {
      ghost var m, r := cells, root;
      RepPathPositive(m, r, 0, q);
      PlugIds(q, Leaf);
      assert q.Frame? ==> q.id in PathIds(q);
      cells := StoreParent(cells, elm, parent);
      cells := StoreChild(StoreChild(cells, elm, OnLeft, 0), elm, OnRight, 0);
      cells := StoreColor(cells, elm, Red);
      if parent != 0 {
        if comp < 0 {
          cells := StoreChild(cells, parent, OnLeft, elm);
        } else {
          cells := StoreChild(cells, parent, OnRight, elm);
        }
      } else {
        root := elm;
      }
      LeafLinkedZip(m, cells, r, root, elm, q);
    }

    /** Hangs `elm` into the hole its key belongs to, and repairs the colours. */
    method InsertAt(elm: nat, parent: nat, comp: int, ghost q: Path)
      requires Valid() && Plug(q, Leaf) == tree && Zip(cells, root, 0, q, Leaf) && parent == Head(q)
      requires 0 < elm < |cells| && elm !in Ids(tree) && Narrowed(key[elm], q, key)
      requires q.Frame? ==> parent < |cells| && (q.side.OnLeft? <==> comp < 0)
      modifies this`cells, this`root, this`tree
      ensures Valid() && |cells| == old(|cells|)
      ensures Ids(tree) == old(Ids(tree)) + {elm} && Without(Order(), elm) == old(Order())
    {
      ghost var leaf := Node(Leaf, elm, Red, Leaf);
      InsertedOrder(elm, q, key);
      InsertedWithout(elm, q);
      LinkLeaf(elm, parent, comp, q);
      DescendRedBlack(q, Leaf);
      InsertColor(elm, q, leaf);
      SameOrderSameIds(tree, Plug(q, leaf));
      PlugIds(q, leaf);
      PlugIds(q, Leaf);
    }

    /** The comparator: the sign of the difference of two keys. */
    static function Compare(a: int, b: int): int {
      if a < b then -1 else if a == b then 0 else 1
    }

    /** Adds `elm`, or returns the node that already has its key and changes nothing. */
    method Insert(elm: nat) returns (found: nat)
      requires Valid() && 0 < elm < |cells|
      modifies this`cells, this`root, this`tree
      ensures Valid() && |cells| == old(|cells|)
      ensures found != 0 ==> found in old(Order()) && KeyAt(key, found) == key[elm] && cells == old(cells) && root == old(root) && tree == old(tree)
      ensures found == 0 ==> Unused(old(Order()), key, key[elm]) && elm !in old(Order())
      ensures found == 0 ==> Ids(tree) == old(Ids(tree)) + {elm} && Without(Order(), elm) == old(Order())
    {
      var parent, comp, tmp := 0, 0, root;
      ghost var q, t := Top, tree;
      while tmp != 0
        invariant Zip(cells, root, tmp, q, t) && Plug(q, t) == tree
        invariant Narrowed(key[elm], q, key)
        invariant parent == Head(q) && parent < |cells|
        invariant q.Frame? ==> (q.side.OnLeft? <==> comp < 0)
        modifies {}
        decreases t
      {
        parent := tmp;
        comp := Compare(key[elm], key[parent]);
        ZipDown(cells, root, tmp, q, t);
        if comp < 0 {
          NarrowLeft(key[elm], q, t, key);
          tmp, q, t := Deref(cells, tmp).left, Frame(q, OnLeft, tmp, t.color, t.right), t.left;
        } else if comp > 0 {
          NarrowRight(key[elm], q, t, key);
          tmp, q, t := Deref(cells, tmp).right, Frame(q, OnRight, tmp, t.color, t.left), t.right;
        } else {
          OrderAround(q, t);
          return tmp;
        }
      }
      HoleMeansUnused(key[elm], q, key);
      InOrderIds(tree);
      InsertAt(elm, parent, comp, q);
      return 0;
    }

    // -------------------------------------------------------------- searching

    method Find(k: int) returns (tmp: nat)
      requires Valid()
      ensures tmp != 0 ==> tmp in Order() && tmp < |key| && key[tmp] == k
      ensures tmp == 0 ==> Unused(Order(), key, k)
    {
      tmp := root;
      ghost var q, t := Top, tree;
      while tmp != 0
        invariant Zip(cells, root, tmp, q, t) && Plug(q, t) == tree
        invariant Narrowed(k, q, key)
        decreases t
      {
        var comp := Compare(k, key[tmp]);
        ZipDown(cells, root, tmp, q, t);
        if comp < 0 {
          NarrowLeft(k, q, t, key);
          tmp, q, t := Deref(cells, tmp).left, Frame(q, OnLeft, tmp, t.color, t.right), t.left;
        } else if comp > 0 {
          NarrowRight(k, q, t, key);
          tmp, q, t := Deref(cells, tmp).right, Frame(q, OnRight, tmp, t.color, t.left), t.right;
        } else {
          OrderAround(q, t);
          return;
        }
      }
      HoleMeansUnused(k, q, key);
    }

    /** The first node whose key is at least `k`, or null. */
    method NFind(k: int) returns (res: nat)
      requires Valid()
      ensures exists a, b :: Order() == a + b && AllBelow(a, key, k) && res == First(b) && AllAbove(b, key, k - 1)
    {
      var tmp := root;
      res := 0;
      ghost var q, t := Top, tree;
      while tmp != 0
        invariant Zip(cells, root, tmp, q, t) && Plug(q, t) == tree
        invariant Narrowed(k, q, key) && res == First(After(q))
        decreases t
      {
        var comp := Compare(k, key[tmp]);
        ZipDown(cells, root, tmp, q, t);
        if comp < 0 {
          NarrowLeft(k, q, t, key);
          AfterLeft(q, t);
          res := tmp;
          tmp, q, t := Deref(cells, tmp).left, Frame(q, OnLeft, tmp, t.color, t.right), t.left;
        } else if comp > 0 {
          NarrowRight(k, q, t, key);
          BeforeRight(q, t);
          tmp, q, t := Deref(cells, tmp).right, Frame(q, OnRight, tmp, t.color, t.left), t.right;
        } else {
          FoundSplit(q, t, key);
          return tmp;
        }
      }
      HoleMeansUnused(k, q, key);
      assert Order() == Before(q) + After(q);
    }

    // -------------------------------------------------------------- walking

    method MinMax(val: int) returns (parent: nat)
      requires Valid()
      ensures parent == if val < 0 then First(Order()) else Last(Order())
    {
      var tmp := root;
      parent := 0;
      ghost var q, t := Top, tree;
      while tmp != 0
        invariant Zip(cells, root, tmp, q, t) && Plug(q, t) == tree && parent == Head(q)
        invariant val < 0 ==> Before(q) == [] && parent == First(After(q))
        invariant val >= 0 ==> After(q) == [] && parent == Last(Before(q))
        decreases t
      {
        parent := tmp;
        ZipDown(cells, root, tmp, q, t);
        AfterLeft(q, t);
        BeforeRight(q, t);
        if val < 0 {
          tmp, q, t := Deref(cells, tmp).left, Frame(q, OnLeft, tmp, t.color, t.right), t.left;
        } else {
          tmp, q, t := Deref(cells, tmp).right, Frame(q, OnRight, tmp, t.color, t.left), t.right;
        }
      }
      PlugSplit(q, t);
    }

    /** The leftmost node below `elm0`. */
    method Leftmost(elm0: nat, ghost q0: Path, ghost t0: Tree) returns (elm: nat, ghost q: Path, ghost t: Tree)
      requires Zip(cells, root, elm0, q0, t0) && t0.Node?
      ensures Zip(cells, root, elm, q, t) && t.Node? && t.left.Leaf?
      ensures Plug(q, t) == Plug(q0, t0) && Preceding(q, t) == Before(q0)
      ensures LeftSpine(q, q0)
      ensures |InOrder(t0)| > 0 && elm == InOrder(t0)[0]
    {
      elm, q, t := elm0, q0, t0;
      while Deref(cells, elm).left != 0
        invariant Zip(cells, root, elm, q, t) && t.Node?
        invariant Plug(q, t) == Plug(q0, t0) && Before(q) == Before(q0)
        invariant LeftSpine(q, q0)
        decreases t
      {
        ZipDown(cells, root, elm, q, t);
        elm, q, t := Deref(cells, elm).left, Frame(q, OnLeft, elm, t.color, t.right), t.left;
      }
      assert Rep(cells, cells[elm].left, elm, t.left);
      assert Before(q) + [] == Before(q);
      FirstBelow(q0, t0, q, t);
    }

    /** The rightmost node below `elm0`. */
    method Rightmost(elm0: nat, ghost q0: Path, ghost t0: Tree) returns (elm: nat, ghost q: Path, ghost t: Tree)
      requires Zip(cells, root, elm0, q0, t0) && t0.Node?
      ensures Zip(cells, root, elm, q, t) && t.Node?
      ensures Plug(q, t) == Plug(q0, t0) && Following(q, t) == After(q0)
      ensures |InOrder(t0)| > 0 && elm == InOrder(t0)[|InOrder(t0)| - 1]
    {
      elm, q, t := elm0, q0, t0;
      while Deref(cells, elm).right != 0
        invariant Zip(cells, root, elm, q, t) && t.Node?
        invariant Plug(q, t) == Plug(q0, t0) && After(q) == After(q0)
        decreases t
      {
        ZipDown(cells, root, elm, q, t);
        elm, q, t := Deref(cells, elm).right, Frame(q, OnRight, elm, t.color, t.left), t.right;
      }
      assert Rep(cells, cells[elm].right, elm, t.right);
      assert [] + After(q) == After(q);
      LastBelow(q0, t0, q, t);
    }

    /** Climbs out of the subtree that ends with `elm0`. */
    method ClimbForward(elm0: nat, ghost q0: Path, ghost t0: Tree) returns (elm: nat, ghost q: Path, ghost t: Tree)
      requires Zip(cells, root, elm0, q0, t0) && t0.Node? && t0.right.Leaf?
      ensures elm == 0 ==> InOrder(Plug(q0, t0)) == Preceding(q0, t0) + [elm0]
      ensures elm != 0 ==> t.Node? && t.id == elm && Plug(q, t) == Plug(q0, t0) && Preceding(q, t) == Preceding(q0, t0) + [elm0]
    {
      elm, q, t := elm0, q0, t0;
      while Deref(cells, elm).parent != 0 && elm == Deref(cells, Deref(cells, elm).parent).right
        invariant Zip(cells, root, elm, q, t) && t.Node? && Head(q) < |cells|
        invariant Plug(q, t) == Plug(q0, t0)
        invariant Before(q) + InOrder(t) == Preceding(q0, t0) + [elm0]
        decreases Depth(q)
      {
        ClimbFromRight(cells, root, elm, q, t);
        elm, q, t := Deref(cells, elm).parent, q.up, Fill(q, t);
        assert RepPath(cells, root, elm, q);
      }
      if Deref(cells, elm).parent == 0 {
        PlugSplit(q, t);
      } else {
        ClimbFromLeft(cells, root, elm, q, t);
        q, t := q.up, Fill(q, t);
      }
      elm := Deref(cells, elm).parent;
    }

    method ClimbBack(elm0: nat, ghost q0: Path, ghost t0: Tree) returns (elm: nat, ghost q: Path, ghost t: Tree)
      requires Zip(cells, root, elm0, q0, t0) && t0.Node? && t0.left.Leaf?
      ensures elm == 0 ==> InOrder(Plug(q0, t0)) == [elm0] + Following(q0, t0)
      ensures elm != 0 ==> t.Node? && t.id == elm && Plug(q, t) == Plug(q0, t0) && Following(q, t) == [elm0] + Following(q0, t0)
    {
      elm, q, t := elm0, q0, t0;
      while Deref(cells, elm).parent != 0 && elm == Deref(cells, Deref(cells, elm).parent).left
        invariant Zip(cells, root, elm, q, t) && t.Node? && Head(q) < |cells|
        invariant Plug(q, t) == Plug(q0, t0)
        invariant InOrder(t) + After(q) == [elm0] + Following(q0, t0)
        decreases Depth(q)
      {
        ClimbFromLeftBack(cells, root, elm, q, t);
        elm, q, t := Deref(cells, elm).parent, q.up, Fill(q, t);
        assert RepPath(cells, root, elm, q);
      }
      if Deref(cells, elm).parent == 0 {
        PlugSplit(q, t);
      } else {
        ClimbFromRightBack(cells, root, elm, q, t);
        q, t := q.up, Fill(q, t);
      }
      elm := Deref(cells, elm).parent;
    }

    /** The node after `elm0` in key order, or null. */
    method Next(elm0: nat) returns (elm: nat)
      requires Valid() && elm0 in Ids(tree)
      ensures elm == NextOf(Order(), elm0)
    {
      ghost var q0, t0 := PlaceOf(cells, root, root, Top, tree, elm0);
      ghost var q, t;
      ZipDown(cells, root, elm0, q0, t0);
      OrderAround(q0, t0);
      AscendingSplit(Preceding(q0, t0), elm0, Following(q0, t0), key);
      NextOfSplit(Preceding(q0, t0), elm0, Following(q0, t0));
      if Deref(cells, elm0).right != 0 {
        BeforeRight(q0, t0);
        elm, q, t := Leftmost(Deref(cells, elm0).right, Frame(q0, OnRight, elm0, t0.color, t0.left), t0.right);
      } else {
        elm, q, t := ClimbForward(elm0, q0, t0);
      }
      if elm != 0 {
        OrderAround(q, t);
        FollowingHead(Preceding(q0, t0) + [elm0], Following(q0, t0), elm, Following(q, t));
      } else {
        FollowingNone(Preceding(q0, t0) + [elm0], Following(q0, t0));
      }
    }

    /** The node before `elm0` in key order, or null. */
    method Prev(elm0: nat) returns (elm: nat)
      requires Valid() && elm0 in Ids(tree)
      ensures elm == PrevOf(Order(), elm0)
    {
      ghost var q0, t0 := PlaceOf(cells, root, root, Top, tree, elm0);
      ghost var q, t;
      ZipDown(cells, root, elm0, q0, t0);
      OrderAround(q0, t0);
      AscendingSplit(Preceding(q0, t0), elm0, Following(q0, t0), key);
      PrevOfSplit(Preceding(q0, t0), elm0, Following(q0, t0));
      assert Preceding(q0, t0) + [elm0] + Following(q0, t0) == Preceding(q0, t0) + ([elm0] + Following(q0, t0));
      if Deref(cells, elm0).left != 0 {
        AfterLeft(q0, t0);
        elm, q, t := Rightmost(Deref(cells, elm0).left, Frame(q0, OnLeft, elm0, t0.color, t0.right), t0.left);
      } else {
        elm, q, t := ClimbBack(elm0, q0, t0);
      }
      if elm != 0 {
        OrderAround(q, t);
        PrecedingLast(Preceding(q0, t0), [elm0] + Following(q0, t0), Preceding(q, t), elm);
      } else {
        PrecedingNone(Preceding(q0, t0), [elm0] + Following(q0, t0));
      }
    }

    /** RB_FOREACH: the minimum, then the next node until there is none. */
    method Foreach() returns (visited: seq<nat>)
      requires Valid()
      ensures visited == Order()
    {
      visited := [];
      OrderPositive();
      var x := MinMax(-1);
      ghost var i := 0;
      while x != 0
        invariant 0 <= i <= |Order()| && visited == Order()[..i]
        invariant x == if i < |Order()| then Order()[i] else 0
        decreases |Order()| - i
      {
        NextAt(Order(), key, i);
        visited := visited + [x];
        x := Next(x);
        i := i + 1;
      }
    }

    lemma OrderPositive()
      requires Valid()
      ensures forall i :: 0 <= i < |Order()| ==> 0 < Order()[i] < |key| && Order()[i] in Ids(tree)
    {
      RepPositive(cells, root, 0, tree);
      InOrderIds(tree);
      assert forall i :: 0 <= i < |Order()| ==> Order()[i] in Order();
    }

    // -------------------------------------------------------------- removal

    /** What the colour repair after a removal keeps: the subtree at `elm`, possibly empty, lacks
        one black node, or nothing is left to repair and `elm` is the root. */
    ghost predicate Removing(parent: nat, elm: nat, q: Path, t: Tree)
      reads this
    {
      && 0 < |cells| && cells[0].color.Black?
      && Zip(cells, root, elm, q, t) && parent == Head(q)
      && (Deficient(q, t) || (q.Top? && RedBlack(t)))
    }

    ghost function DeficitRank(q: Path, t: Tree): nat {
      if q.Top? || ColorOf(t).Red? then 0 else Depth(q)
    }

    method RedSibling(s: Side, parent: nat, tmp: nat, elm: nat, ghost q0: Path, ghost t: Tree) returns (ghost q: Path)
      requires Removing(parent, elm, q0, t) && Deficient(q0, t) && q0.Frame? && q0.side == s
      requires ColorOf(q0.sib).Red? && tmp == q0.sib.id
      modifies this`cells, this`root
      ensures Removing(parent, elm, q, t) && Deficient(q, t)
      ensures q.Frame? && q.side == s && q.color.Red? && ColorOf(q.sib).Black?
      ensures InOrder(Plug(q, t)) == InOrder(Plug(q0, t))
      ensures |cells| == old(|cells|) && cells[0] == old(cells[0])
    {
      HeadLinks(cells, root, elm, q0, t);
      q := Frame(Frame(q0.up, s, tmp, Black, Child(q0.sib, Other(s))), s, parent, Red, Child(q0.sib, s));
      RedSiblingStep(q0, t, q);
      PaintSibling(cells, root, elm, q0, t, Black);
      cells := StoreColor(cells, tmp, Black);
      ghost var q1 := q0.(sib := Blacken(q0.sib));
      PaintHead(cells, root, elm, q1, t, Red);
      cells := StoreColor(cells, parent, Red);
      ZipUp(cells, root, elm, q1.(color := Red), t);
      Rotate(s, parent, q0.up, Fill(q1.(color := Red), t));
      ZipDown(cells, root, tmp, q0.up, Fill(q.up, Fill(q, t)));
      ZipDown(cells, root, parent, q.up, Fill(q, t));
    }

    method InnerNephew(s: Side, parent: nat, tmp: nat, elm: nat, ghost q0: Path, ghost t: Tree) returns (ghost q: Path)
      requires Removing(parent, elm, q0, t) && Deficient(q0, t) && q0.Frame? && q0.side == s
      requires q0.sib.Node? && q0.sib.color.Black? && tmp == q0.sib.id
      requires ColorOf(Child(q0.sib, s)).Red? && ColorOf(Child(q0.sib, Other(s))).Black?
      modifies this`cells, this`root
      ensures q == q0.(sib := Straightened(s, q0.sib))
      ensures Removing(parent, elm, q, t) && Deficient(q, t) && q.sib.color.Black? && ColorOf(Child(q.sib, Other(s))).Red?
      ensures InOrder(Plug(q, t)) == InOrder(Plug(q0, t))
      ensures |cells| == old(|cells|) && cells[0] == old(cells[0])
    {
      InnerNephewStep(q0, t);
      HeadLinks(cells, root, elm, q0, t);
      ghost var r, w := Across(q0, t), q0.sib;
      ZipAcross(cells, root, elm, q0, t);
      var inner := DerefChild(cells, tmp, s);
      PaintChild(cells, root, tmp, r, w, s, Black);
      if inner != 0 {
        cells := StoreColor(cells, inner, Black);
      }
      w := WithChild(w, s, Blacken(Child(w, s)));
      PaintFocus(cells, root, tmp, r, w, Red);
      cells := StoreColor(cells, tmp, Red);
      w := w.(color := Red);
      Rotate(Other(s), tmp, r, w);
      q := q0.(sib := Turn(Other(s), w));
      ZipAcross(cells, root, q.sib.id, r, q.sib);
    }

    method OuterNephew(s: Side, parent: nat, tmp: nat, elm0: nat, ghost q0: Path, ghost t0: Tree)
      returns (elm: nat, ghost t: Tree)
      requires Removing(parent, elm0, q0, t0) && Deficient(q0, t0) && ColorOf(t0).Black? && q0.Frame? && q0.side == s
      requires q0.sib.Node? && q0.sib.color.Black? && tmp == q0.sib.id && ColorOf(Child(q0.sib, Other(s))).Red?
      modifies this`cells, this`root
      ensures Removing(0, elm, Top, t) && RedBlack(t)
      ensures InOrder(t) == InOrder(Plug(q0, t0))
      ensures |cells| == old(|cells|) && cells[0] == old(cells[0])
    {
      OuterNephewStep(q0, t0);
      PaintRepay(cells, root, elm0, q0, t0);
      cells := StoreColor(cells, tmp, Deref(cells, parent).color);
      cells := StoreColor(cells, parent, Black);
      var outer := DerefChild(cells, tmp, Other(s));
      if outer != 0 {
        cells := StoreColor(cells, outer, Black);
      }
      ghost var w := WithChild(q0.sib.(color := q0.color), Other(s), Blacken(Child(q0.sib, Other(s))));
      Rotate(s, parent, q0.up, Fill(q0.(color := Black, sib := w), t0));
      ZipRoot(cells, root, tmp, q0.up, Repaid(q0, t0));
      ClimbRedBlack(q0.up, Repaid(q0, t0));
      elm, t := root, Plug(q0.up, Repaid(q0, t0));
    }

    /** One turn of the loop on side `s`, after the sibling is known to be black. */
    method BlackSibling(s: Side, parent0: nat, tmp0: nat, elm0: nat, ghost q0: Path, ghost t0: Tree)
      returns (parent: nat, elm: nat, ghost q: Path, ghost t: Tree)
      requires Removing(parent0, elm0, q0, t0) && Deficient(q0, t0) && ColorOf(t0).Black? && q0.Frame? && q0.side == s
      requires q0.sib.Node? && q0.sib.color.Black? && tmp0 == q0.sib.id
      modifies this`cells, this`root
      ensures Removing(parent, elm, q, t)
      ensures q.Top? || (q == q0.up && ColorOf(t) == q0.color)
      ensures InOrder(Plug(q, t)) == InOrder(Plug(q0, t0))
      ensures |cells| == old(|cells|) && cells[0] == old(cells[0])
    {
      var tmp := tmp0;
      parent, elm, q, t := parent0, elm0, q0, t0;
      HeadLinks(cells, root, elm, q, t);
      LinkColor(cells, cells[tmp].left, tmp, q.sib.left);
      LinkColor(cells, cells[tmp].right, tmp, q.sib.right);
      var inner, outer := DerefChild(cells, tmp, s), DerefChild(cells, tmp, Other(s));
      if (inner == 0 || Deref(cells, inner).color.Black?) && (outer == 0 || Deref(cells, outer).color.Black?) {
        PushUpStep(q, t);
        PaintSibling(cells, root, elm, q, t, Red);
        cells := StoreColor(cells, tmp, Red);
        ZipUp(cells, root, elm, q.(sib := q.sib.(color := Red)), t);
        elm := parent;
        parent := Deref(cells, elm).parent;
        q, t := q.up, Fill(q.(sib := q.sib.(color := Red)), t);
      } else {
        if outer == 0 || Deref(cells, outer).color.Black? {
          q := InnerNephew(s, parent, tmp, elm, q, t);
          HeadLinks(cells, root, elm, q, t);
          tmp := DerefChild(cells, parent, Other(s));
        }
        elm, t := OuterNephew(s, parent, tmp, elm, q, t);
        parent, q := 0, Top;
      }
    }

    method RemoveTurn(s: Side, parent0: nat, elm0: nat, ghost q0: Path, ghost t0: Tree)
      returns (parent: nat, elm: nat, ghost q: Path, ghost t: Tree)
      requires Removing(parent0, elm0, q0, t0) && Deficient(q0, t0) && ColorOf(t0).Black? && q0.Frame? && q0.side == s
      modifies this`cells, this`root
      ensures Removing(parent, elm, q, t) && DeficitRank(q, t) < DeficitRank(q0, t0)
      ensures InOrder(Plug(q, t)) == InOrder(Plug(q0, t0))
      ensures |cells| == old(|cells|) && cells[0] == old(cells[0])
    {
      parent, elm, q, t := parent0, elm0, q0, t0;
      SiblingExists(q, t);
      HeadLinks(cells, root, elm, q, t);
      var tmp := DerefChild(cells, parent, Other(s));
      if Deref(cells, tmp).color.Red? {
        q := RedSibling(s, parent, tmp, elm, q, t);
        SiblingExists(q, t);
        HeadLinks(cells, root, elm, q, t);
        tmp := DerefChild(cells, parent, Other(s));
      }
      parent, elm, q, t := BlackSibling(s, parent, tmp, elm, q, t);
    }

    method RemoveColor(parent0: nat, elm0: nat, ghost q0: Path, ghost t0: Tree)
      requires Removing(parent0, elm0, q0, t0)
      modifies this`cells, this`root, this`tree
      ensures Zip(cells, root, root, Top, tree) && RedBlack(tree)
      ensures InOrder(tree) == InOrder(Plug(q0, t0))
      ensures |cells| == old(|cells|) && cells[0] == old(cells[0])
    {
      var parent: nat, elm: nat := parent0, elm0;
      ghost var q, t := q0, t0;
      ZipRoot(cells, root, elm, q, t);
      LinkColor(cells, elm, Head(q), t);
      while (elm == 0 || Deref(cells, elm).color.Black?) && elm != root
        invariant Removing(parent, elm, q, t)
        invariant InOrder(Plug(q, t)) == InOrder(Plug(q0, t0))
        invariant |cells| == old(|cells|) && cells[0] == old(cells[0])
        invariant elm != root <==> q.Frame?
        invariant elm < |cells| && (elm != 0 <==> t.Node?) && cells[elm].color == ColorOf(t)
        decreases DeficitRank(q, t)
      {
        HeadLinks(cells, root, elm, q, t);
        SiblingExists(q, t);
        ZipAcross(cells, root, elm, q, t);
        var s := if Deref(cells, parent).left == elm then OnLeft else OnRight;
        parent, elm, q, t := RemoveTurn(s, parent, elm, q, t);
        ZipRoot(cells, root, elm, q, t);
        LinkColor(cells, elm, Head(q), t);
      }
      DeleteDone(q, t);
      if elm != 0 {
        PaintFocus(cells, root, elm, q, t, Black);
        cells := StoreColor(cells, elm, Black);
      }
      tree := Plug(q, Blacken(t));
      ZipRoot(cells, root, elm, q, Blacken(t));
    }

    /** Hangs `child`, the only child of `elm` or null, below `elm`'s parent. */
    method Bypass(elm: nat, child: nat, parent: nat, ghost q: Path, ghost t: Tree)
      requires 0 < |cells| && Zip(cells, root, elm, q, t) && t.Node? && (t.left.Leaf? || t.right.Leaf?)
      requires parent == Head(q) && child == if t.left.Leaf? then cells[elm].right else cells[elm].left
      modifies this`cells, this`root
      ensures Zip(cells, root, child, q, OnlyChild(t))
      ensures |cells| == old(|cells|) && cells[0] == old(cells[0]) && cells[elm] == old(cells[elm])
    {
      ghost var m, r := cells, root;
      RepPathPositive(m, r, elm, q);
      RepPositive(m, elm, Head(q), t);
      ZipDown(m, r, elm, q, t);
      ghost var sub := OnlyChild(t);
      assert Rep(m, child, elm, sub);
      assert sub.Node? ==> child in Ids(sub);
      assert q.Frame? ==> q.id in PathIds(q);
      if child != 0 {
        cells := StoreParent(cells, child, parent);
      }
      if parent != 0 {
        ZipAcross(m, r, elm, q, t);
        if Deref(cells, parent).left == elm {
          cells := StoreChild(cells, parent, OnLeft, child);
        } else {
          cells := StoreChild(cells, parent, OnRight, child);
        }
      } else {
        root := child;
      }
      BypassedZip(m, cells, r, root, elm, q, t, child, sub);
    }

    /** Lets whoever points down at `z` point at `elm`. */
    method RedirectParent(z: nat, elm: nat)
      requires 0 < z < |cells| && cells[z].parent < |cells|
      modifies this`cells, this`root
      ensures var m := old(cells);
        && |cells| == |m| && root == (if m[z].parent == 0 then elm else old(root))
        && (m[z].parent == 0 ==> cells == m)
        && (m[z].parent != 0 ==> cells == m[m[z].parent :=
              if m[m[z].parent].left == z then m[m[z].parent].(left := elm) else m[m[z].parent].(right := elm)])
    {
      var p := Deref(cells, z).parent;
      if p != 0 {
        if Deref(cells, p).left == z {
          cells := StoreChild(cells, p, OnLeft, elm);
        } else {
          cells := StoreChild(cells, p, OnRight, elm);
        }
      } else {
        root := elm;
      }
    }

    /** Copies the links and the colour of `z` into `elm` and redirects the links to `z`. */
    method TakePlace(z: nat, elm: nat)
      requires Separate(cells, z, elm) && cells[z].left != 0
      modifies this`cells, this`root
      ensures Replaced(old(cells), cells, old(root), root, z, elm)
      ensures cells[0] == old(cells[0])
    {
      cells := cells[elm := Deref(cells, z)];
      RedirectParent(z, elm);
      cells := StoreParent(cells, Deref(cells, z).left, elm);
      if Deref(cells, z).right != 0 {
        cells := StoreParent(cells, Deref(cells, z).right, elm);
      }
    }

    /** A node with two children: its successor is unlinked and takes its place. */
    method RelinkSuccessor(old': nat, ghost q: Path, ghost t: Tree)
      returns (parent: nat, child: nat, color: Color, ghost qy: Path, ghost ty: Tree)
      requires Linked() && Zip(cells, root, old', q, t) && t.Node? && t.left.Node? && t.right.Node?
      modifies this`cells, this`root
      ensures ty.Node? && ty.left.Leaf? && Plug(qy, ty) == Plug(q, t) && color == ty.color
      ensures LeftSpine(qy, SuccessorBase(q, t))
      ensures Zip(cells, root, child, Relocated(q, t, qy, ty.id), OnlyChild(ty))
      ensures parent == Head(Relocated(q, t, qy, ty.id))
      ensures |cells| == old(|cells|) && cells[0] == old(cells[0])
    {
      ghost var base := SuccessorBase(q, t);
      var elm;
      ZipDown(cells, root, old', q, t);
      elm, qy, ty := Leftmost(Deref(cells, old').right, base, t.right);
      assert ty.id == elm;
      RepPositive(cells, elm, Head(qy), ty);
      child, parent, color := Deref(cells, elm).right, Deref(cells, elm).parent, Deref(cells, elm).color;
      Bypass(elm, child, parent, qy, ty);
      if Deref(cells, elm).parent == old' {
        parent := elm;
      }
      BaseSeparate(cells, root, child, qy, OnlyChild(ty), base, elm);
      ghost var m, r := cells, root;
      TakePlace(old', elm);
      ReplacedZip(m, cells, r, root, child, qy, OnlyChild(ty), base, base.(id := elm));
      assert qy == base || (qy.Frame? && qy.id != old') by {
        if qy != base {
          SpineAbove(qy, base);
        }
      }
    }

    /** Takes a node out of the links; `child` is the subtree that may lack a black node. */
    method Detach(elm: nat, ghost q: Path, ghost t: Tree)
      returns (parent: nat, child: nat, color: Color, ghost q': Path, ghost t': Tree)
      requires Linked() && RedBlack(tree) && Zip(cells, root, elm, q, t) && t.Node? && Plug(q, t) == tree
      modifies this`cells, this`root
      ensures Zip(cells, root, child, q', t') && parent == Head(q')
      ensures InOrder(Plug(q', t')) == Preceding(q, t) + Following(q, t)
      ensures color.Black? ==> Deficient(q', t')
      ensures color.Red? ==> RedBlack(Plug(q', t'))
      ensures |cells| == old(|cells|) && cells[0] == old(cells[0])
    {
      LinkColor(cells, cells[elm].left, elm, t.left);
      LinkColor(cells, cells[elm].right, elm, t.right);
      if Deref(cells, elm).left == 0 {
        child := Deref(cells, elm).right;
      } else if Deref(cells, elm).right == 0 {
        child := Deref(cells, elm).left;
      } else {
        ghost var qy, ty;
        parent, child, color, qy, ty := RelinkSuccessor(elm, q, t);
        RelocatedOrder(q, t, qy, ty);
        RelocateStep(q, t, qy, ty);
        q', t' := Relocated(q, t, qy, ty.id), OnlyChild(ty);
        return;
      }
      parent, color := Deref(cells, elm).parent, Deref(cells, elm).color;
      Bypass(elm, child, parent, q, t);
      UnlinkStep(q, t);
      q', t' := q, OnlyChild(t);
    }

    /** Removes a node: every other node stays in its place in the order. */
    method Remove(elm: nat) returns (removed: nat)
      requires Valid() && elm in Ids(tree)
      modifies this`cells, this`root, this`tree
      ensures Valid() && removed == elm && |cells| == old(|cells|)
      ensures Order() == Without(old(Order()), elm) && elm !in Order()
    {
      ghost var q, t := PlaceOf(cells, root, root, Top, tree, elm);
      RemovedOrder(q, t, key);
      InOrderIds(tree);
      WithoutGone(Order(), elm, key);
      var parent, child, color;
      ghost var q', t';
      parent, child, color, q', t' := Detach(elm, q, t);
      Settle(parent, child, color, q', t');
      return elm;
    }

    /** Repairs the colours if the unlinked node was black. */
    method Settle(parent: nat, child: nat, color: Color, ghost q: Path, ghost t: Tree)
      requires 0 < |cells| && cells[0].color.Black? && Zip(cells, root, child, q, t) && parent == Head(q)
      requires color.Black? ==> Deficient(q, t)
      requires color.Red? ==> RedBlack(Plug(q, t))
      modifies this`cells, this`root, this`tree
      ensures Zip(cells, root, root, Top, tree) && RedBlack(tree) && InOrder(tree) == InOrder(Plug(q, t))
      ensures |cells| == old(|cells|) && cells[0] == old(cells[0])
    {
      if color.Black? {
        RemoveColor(parent, child, q, t);
      } else {
        tree := Plug(q, t);
        ZipRoot(cells, root, child, q, t);
      }
    }
  }
}
