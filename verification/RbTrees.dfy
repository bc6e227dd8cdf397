/** Red-black trees as mathematical values, and the paths that lead into them.

Both red-black implementations of the repository (`kvstore_rbtree.c` with a shared sentinel,
`NtyCo/core/nty_tree.h` with null leaves) are verified against these definitions. A tree names
the nodes it is made of by their identity; keys are kept elsewhere, so that no structural step
can disturb them. A `Path` is the part of a tree around one subtree: the fix-up loops of the
source climb such a path, and their invariants are stated on the pair of path and subtree. */
module RbTrees {
  datatype Color = Red | Black

  datatype Side = OnLeft | OnRight

  datatype Tree = Leaf | Node(left: Tree, id: nat, color: Color, right: Tree)

  /** `Frame(up, side, id, color, sib)` is a hole on side `side` of node `id`. */
  datatype Path = Top | Frame(up: Path, side: Side, id: nat, color: Color, sib: Tree)

  function ColorOf(t: Tree): Color {
    if t.Leaf? then Black else t.color
  }

  function HeadColor(q: Path): Color {
    if q.Top? then Black else q.color
  }

  /** The identity of the node the hole hangs from; 0 is the null node. */
  function Head(q: Path): nat {
    if q.Top? then 0 else q.id
  }

  function Blacken(t: Tree): Tree {
    if t.Leaf? then t else t.(color := Black)
  }

  function Ids(t: Tree): set<nat> {
    if t.Leaf? then {} else Ids(t.left) + {t.id} + Ids(t.right)
  }

  function PathIds(q: Path): set<nat> {
    if q.Top? then {} else PathIds(q.up) + {q.id} + Ids(q.sib)
  }

  /** No node occurs twice. */
  ghost predicate Distinct(t: Tree) {
    t.Node? ==>
      && Distinct(t.left) && Distinct(t.right)
      && Ids(t.left) !! Ids(t.right)
      && t.id !in Ids(t.left) && t.id !in Ids(t.right)
  }

  ghost predicate DistinctPath(q: Path) {
    q.Frame? ==>
      && DistinctPath(q.up) && Distinct(q.sib)
      && PathIds(q.up) !! Ids(q.sib)
      && q.id !in PathIds(q.up) && q.id !in Ids(q.sib)
  }

  ghost predicate DistinctZip(q: Path, t: Tree) {
    DistinctPath(q) && Distinct(t) && PathIds(q) !! Ids(t)
  }

  function InOrder(t: Tree): seq<nat> {
    if t.Leaf? then [] else InOrder(t.left) + [t.id] + InOrder(t.right)
  }

  /** Fills the innermost hole of a path. */
  function Fill(q: Path, t: Tree): Tree
    requires q.Frame?
  {
    if q.side.OnLeft? then Node(t, q.id, q.color, q.sib) else Node(q.sib, q.id, q.color, t)
  }

  function Plug(q: Path, t: Tree): Tree
    decreases q
  {
    if q.Top? then t else Plug(q.up, Fill(q, t))
  }

  function Depth(q: Path): nat {
    if q.Top? then 0 else 1 + Depth(q.up)
  }

  // ---------------------------------------------------------------- red-black shape

  function BlackHeight(t: Tree): nat {
    if t.Leaf? then 0 else BlackHeight(t.left) + (if t.color.Black? then 1 else 0)
  }

  ghost predicate Balanced(t: Tree) {
    t.Node? ==> Balanced(t.left) && Balanced(t.right) && BlackHeight(t.left) == BlackHeight(t.right)
  }

  ghost predicate NoRedRed(t: Tree) {
    t.Node? ==>
      && NoRedRed(t.left) && NoRedRed(t.right)
      && (t.color.Red? ==> ColorOf(t.left).Black? && ColorOf(t.right).Black?)
  }

  ghost predicate RedBlack(t: Tree) {
    ColorOf(t).Black? && NoRedRed(t) && Balanced(t)
  }

  /** The path is balanced around a hole that must have black height `k`. */
  ghost predicate BalancedAround(q: Path, k: nat) {
    q.Frame? ==>
      && Balanced(q.sib) && BlackHeight(q.sib) == k
      && BalancedAround(q.up, k + (if q.color.Black? then 1 else 0))
  }

  /** No red node on or beside the path has a red parent, and the root is black. */
  ghost predicate NoRedRedAround(q: Path) {
    q.Frame? ==>
      && NoRedRed(q.sib) && NoRedRedAround(q.up)
      && (q.color.Red? ==> ColorOf(q.sib).Black? && q.up.Frame? && q.up.color.Black?)
  }

  /** Everything holds, except that the subtree and the node above it may both be red. */
  ghost predicate AlmostRedBlack(q: Path, t: Tree) {
    NoRedRed(t) && Balanced(t) && NoRedRedAround(q) && BalancedAround(q, BlackHeight(t))
  }

  ghost predicate RedBlackZip(q: Path, t: Tree) {
    && AlmostRedBlack(q, t)
    && (HeadColor(q).Red? || q.Top? ==> ColorOf(t).Black?)
  }

  /** The subtree lacks one black node, and its root may clash with red children. */
  ghost predicate Deficient(q: Path, t: Tree) {
    && NoRedRed(Blacken(t)) && Balanced(t) && NoRedRedAround(q)
    && BalancedAround(q, BlackHeight(t) + 1)
  }

  // ---------------------------------------------------------------- moving in a tree

  /** A red-black tree stays one along any path. */
  lemma {:induction false} ClimbRedBlack(q: Path, t: Tree)
    requires RedBlackZip(q, t)
    ensures RedBlack(Plug(q, t))
    decreases q
  {
    if q.Frame? {
      ClimbRedBlack(q.up, Fill(q, t));
    }
  }

  lemma {:induction false} DescendRedBlack(q: Path, t: Tree)
    requires RedBlack(Plug(q, t))
    ensures RedBlackZip(q, t)
    decreases q
  {
    if q.Frame? {
      DescendRedBlack(q.up, Fill(q, t));
    }
  }

  lemma {:induction false} PlugOrder(q: Path, t: Tree, u: Tree)
    requires InOrder(t) == InOrder(u)
    ensures InOrder(Plug(q, t)) == InOrder(Plug(q, u))
    decreases q
  {
    if q.Frame? {
      PlugOrder(q.up, Fill(q, t), Fill(q, u));
    }
  }

  function Before(q: Path): seq<nat> {
    if q.Top? then []
    else if q.side.OnLeft? then Before(q.up)
    else Before(q.up) + InOrder(q.sib) + [q.id]
  }

  function After(q: Path): seq<nat> {
    if q.Top? then []
    else if q.side.OnLeft? then [q.id] + InOrder(q.sib) + After(q.up)
    else After(q.up)
  }

  lemma {:induction false} PlugSplit(q: Path, t: Tree)
    ensures InOrder(Plug(q, t)) == Before(q) + InOrder(t) + After(q)
    decreases q
  {
    if q.Frame? {
      PlugSplit(q.up, Fill(q, t));
    }
  }

  /** The nodes that come before node `t.id` in the tree around it. */
  function Preceding(q: Path, t: Tree): seq<nat>
    requires t.Node?
  {
    Before(q) + InOrder(t.left)
  }

  function Following(q: Path, t: Tree): seq<nat>
    requires t.Node?
  {
    InOrder(t.right) + After(q)
  }

  lemma {:induction false} OrderAround(q: Path, t: Tree)
    requires t.Node?
    ensures InOrder(Plug(q, t)) == Preceding(q, t) + [t.id] + Following(q, t)
  {
    PlugSplit(q, t);
  }

  /** A node of a subtree with nothing of that subtree before it is the subtree's first. */
  lemma {:induction false} FirstBelow(q0: Path, t0: Tree, q: Path, t: Tree)
    requires t0.Node? && t.Node? && Plug(q, t) == Plug(q0, t0) && Preceding(q, t) == Before(q0)
    ensures |InOrder(t0)| > 0 && InOrder(t0)[0] == t.id
  {
    PlugSplit(q0, t0);
    OrderAround(q, t);
    var all, n := InOrder(Plug(q, t)), |Before(q0)|;
    assert all[n] == t.id;
    assert (Before(q0) + InOrder(t0) + After(q0))[n] == InOrder(t0)[0];
  }

  lemma {:induction false} LastBelow(q0: Path, t0: Tree, q: Path, t: Tree)
    requires t0.Node? && t.Node? && Plug(q, t) == Plug(q0, t0) && Following(q, t) == After(q0)
    ensures |InOrder(t0)| > 0 && InOrder(t0)[|InOrder(t0)| - 1] == t.id
  {
    PlugSplit(q0, t0);
    OrderAround(q, t);
    var all := InOrder(Plug(q, t));
    var n := |all| - |After(q0)| - 1;
    assert all[n] == t.id;
    assert (Before(q0) + InOrder(t0) + After(q0))[n] == InOrder(t0)[|InOrder(t0)| - 1];
  }

  lemma {:induction false} AfterLeft(q: Path, t: Tree)
    requires t.Node?
    ensures After(Frame(q, OnLeft, t.id, t.color, t.right)) == [t.id] + Following(q, t)
    ensures Before(Frame(q, OnLeft, t.id, t.color, t.right)) == Before(q)
  {
  }

  lemma {:induction false} BeforeRight(q: Path, t: Tree)
    requires t.Node?
    ensures Before(Frame(q, OnRight, t.id, t.color, t.left)) == Preceding(q, t) + [t.id]
    ensures After(Frame(q, OnRight, t.id, t.color, t.left)) == After(q)
  {
  }

  /** The path continues `base` by left turns only. */
  ghost predicate LeftSpine(q: Path, base: Path) {
    q == base || (q.Frame? && q.side.OnLeft? && LeftSpine(q.up, base))
  }

  /** The same path on top of another base. */
  function Rebase(q: Path, base: Path, base': Path): Path {
    if q == base || q.Top? then base' else q.(up := Rebase(q.up, base, base'))
  }

  /** A base that differs in the identity of its node only. */
  ghost predicate SameFrame(base: Path, base': Path) {
    base.Frame? && base'.Frame? && base' == base.(id := base'.id) && base.side.OnRight?
  }

  lemma {:induction false} RebaseKeeps(q: Path, base: Path, base': Path, k: nat)
    requires LeftSpine(q, base) && SameFrame(base, base')
    ensures HeadColor(Rebase(q, base, base')) == HeadColor(q) && Rebase(q, base, base').Frame? && q.Frame?
    ensures NoRedRedAround(q) ==> NoRedRedAround(Rebase(q, base, base'))
    ensures BalancedAround(q, k) ==> BalancedAround(Rebase(q, base, base'), k)
    ensures Before(q) == Before(base) && Before(Rebase(q, base, base')) == Before(base')
    ensures After(Rebase(q, base, base')) == After(q)
  {
    if q != base {
      RebaseKeeps(q.up, base, base', k + (if q.color.Black? then 1 else 0));
    }
  }

  /** A longer path has another innermost node than its base. */
  lemma {:induction false} SpineAbove(q: Path, base: Path)
    requires LeftSpine(q, base) && q != base && DistinctPath(q) && base.Frame?
    ensures q.Frame? && q.id != base.id && base.id in PathIds(q.up)
  {
    if q.up != base {
      SpineAbove(q.up, base);
    }
  }

  lemma {:induction false} RebaseIds(q: Path, base: Path, base': Path)
    requires LeftSpine(q, base) && SameFrame(base, base')
    requires DistinctPath(q) && base'.id !in PathIds(q)
    ensures PathIds(base) <= PathIds(q) && base.id in PathIds(q)
    ensures PathIds(Rebase(q, base, base')) == PathIds(q) - {base.id} + {base'.id}
    ensures DistinctPath(Rebase(q, base, base'))
  {
    if q != base {
      RebaseIds(q.up, base, base');
    }
  }

  /** Replacing a node by its only child takes it out of the order. */
  lemma {:induction false} UnlinkedOrder(q: Path, t: Tree)
    requires t.Node? && (t.left.Leaf? || t.right.Leaf?)
    ensures InOrder(Plug(q, t)) == Preceding(q, t) + [t.id] + Following(q, t)
    ensures InOrder(Plug(q, if t.left.Leaf? then t.right else t.left)) == Preceding(q, t) + Following(q, t)
  {
    OrderAround(q, t);
    if t.left.Leaf? {
      PlugSplit(q, t.right);
      assert Before(q) + [] == Before(q);
    } else {
      PlugSplit(q, t.left);
      assert [] + After(q) == After(q);
    }
  }

  lemma InOrderIds(t: Tree)
    ensures forall i :: i in InOrder(t) <==> i in Ids(t)
  {
  }

  lemma SameOrderSameIds(t: Tree, u: Tree)
    requires InOrder(t) == InOrder(u)
    ensures Ids(t) == Ids(u)
  {
    InOrderIds(t);
    InOrderIds(u);
  }

  lemma {:induction false} PlugIds(q: Path, t: Tree)
    ensures Ids(Plug(q, t)) == PathIds(q) + Ids(t)
    ensures DistinctZip(q, t) ==> Distinct(Plug(q, t))
    decreases q
  {
    if q.Frame? {
      PlugIds(q.up, Fill(q, t));
    }
  }

  // ---------------------------------------------------------------- rotations

  function RotateLeft(t: Tree): Tree
    requires t.Node? && t.right.Node?
  {
    var y := t.right;
    Node(Node(t.left, t.id, t.color, y.left), y.id, y.color, y.right)
  }

  function RotateRight(t: Tree): Tree
    requires t.Node? && t.left.Node?
  {
    var x := t.left;
    Node(x.left, x.id, x.color, Node(x.right, t.id, t.color, t.right))
  }

  function Other(s: Side): Side {
    if s.OnLeft? then OnRight else OnLeft
  }

  function Child(t: Tree, s: Side): Tree
    requires t.Node?
  {
    if s.OnLeft? then t.left else t.right
  }

  function WithChild(t: Tree, s: Side, u: Tree): Tree
    requires t.Node?
  {
    if s.OnLeft? then t.(left := u) else t.(right := u)
  }

  /** The rotation that moves a node down to side `s`. */
  function Turn(s: Side, t: Tree): Tree
    requires t.Node? && Child(t, Other(s)).Node?
  {
    if s.OnLeft? then RotateLeft(t) else RotateRight(t)
  }

  /** A rotation keeps the nodes and their order, and the opposite one undoes it. */
  lemma {:induction false} RotateLeftKeeps(t: Tree)
    requires t.Node? && t.right.Node?
    ensures InOrder(RotateLeft(t)) == InOrder(t) && Ids(RotateLeft(t)) == Ids(t)
    ensures Distinct(t) ==> Distinct(RotateLeft(t))
    ensures RotateRight(RotateLeft(t)) == t
  {
    RotationKeeps(t.left, t.id, t.color, t.right.left, t.right.id, t.right.color, t.right.right);
  }

  lemma {:induction false} RotateRightKeeps(t: Tree)
    requires t.Node? && t.left.Node?
    ensures InOrder(RotateRight(t)) == InOrder(t) && Ids(RotateRight(t)) == Ids(t)
    ensures Distinct(t) ==> Distinct(RotateRight(t))
    ensures RotateLeft(RotateRight(t)) == t
  {
    RotationKeeps(t.left.left, t.left.id, t.left.color, t.left.right, t.id, t.color, t.right);
  }

  lemma {:induction false} RotationKeeps(a: Tree, x: nat, cx: Color, b: Tree, y: nat, cy: Color, c: Tree)
    ensures var s, t := Node(a, x, cx, Node(b, y, cy, c)), Node(Node(a, x, cx, b), y, cy, c);
      InOrder(s) == InOrder(t) && Ids(s) == Ids(t) && (Distinct(s) <==> Distinct(t))
  {
    var s, t := Node(a, x, cx, Node(b, y, cy, c)), Node(Node(a, x, cx, b), y, cy, c);
    assert InOrder(s) == InOrder(t) by {
      assert InOrder(s) == InOrder(a) + [x] + InOrder(b) + [y] + InOrder(c);
    }
    assert Ids(s) == Ids(a) + {x} + Ids(b) + {y} + Ids(c);
    assert Ids(t) == Ids(a) + {x} + Ids(b) + {y} + Ids(c);
    assert Ids(s.right) == Ids(b) + {y} + Ids(c) && Ids(t.left) == Ids(a) + {x} + Ids(b);
    assert Distinct(s) <==> Distinct(a) && Distinct(s.right) && Ids(a) !! Ids(s.right) && x !in Ids(a) && x !in Ids(s.right);
    assert Distinct(t) <==> Distinct(t.left) && Distinct(c) && Ids(t.left) !! Ids(c) && y !in Ids(t.left) && y !in Ids(c);
  }

  // ---------------------------------------------------------------- height

  function Max(a: int, b: int): int { if a < b then b else a }

  function Height(t: Tree): nat {
    if t.Leaf? then 0 else 1 + Max(Height(t.left), Height(t.right))
  }

  function Size(t: Tree): nat {
    if t.Leaf? then 0 else Size(t.left) + 1 + Size(t.right)
  }

  function Pow2(n: nat): nat {
    if n == 0 then 1 else 2 * Pow2(n - 1)
  }

  /** The largest `k` with `2^k <= n`. */
  function Log2(n: nat): nat
    requires n > 0
  {
    if n == 1 then 0 else 1 + Log2(n / 2)
  }

  lemma {:induction false} Log2AtLeast(n: nat, k: nat)
    requires Pow2(k) <= n
    ensures n > 0 && k <= Log2(n)
    decreases k
  {
    if k > 0 {
      Log2AtLeast(n / 2, k - 1);
    }
  }

  lemma {:induction false} SizeBound(t: Tree)
    requires Balanced(t)
    ensures Pow2(BlackHeight(t)) <= Size(t) + 1
  {
    if t.Node? {
      SizeBound(t.left);
      SizeBound(t.right);
    }
  }

  lemma {:induction false} HeightBound(t: Tree)
    requires Balanced(t) && NoRedRed(t)
    ensures Height(t) <= 2 * BlackHeight(t) + (if ColorOf(t).Red? then 1 else 0)
  {
    if t.Node? {
      HeightBound(t.left);
      HeightBound(t.right);
    }
  }

  /** The depth of a red-black tree is logarithmic in its size. */
  lemma HeightIsLogarithmic(t: Tree)
    requires RedBlack(t)
    ensures Height(t) <= 2 * Log2(Size(t) + 1)
  {
    HeightBound(t);
    SizeBound(t);
    Log2AtLeast(Size(t) + 1, BlackHeight(t));
  }

  lemma {:induction false} DepthBound(q: Path, t: Tree)
    ensures Depth(q) + Height(t) <= Height(Plug(q, t))
    decreases q
  {
    if q.Frame? {
      DepthBound(q.up, Fill(q, t));
    }
  }

  lemma InOrderSize(t: Tree)
    ensures |InOrder(t)| == Size(t)
  {
  }
}
