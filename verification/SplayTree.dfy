/** The top-down splay tree of `NtyCo/core/nty_tree.h`.

While it searches, SPLAY cuts the tree into three: the subtree still to be searched, a chain of
nodes known to be smaller, hanging from the right link of a local header node, and a chain of
nodes known to be larger, hanging from the header's left link. A chain is a `Path` all of whose
frames lie on the same side. Trees and paths are those of `RbTrees`; their colours are not used
here. The halves of the macro for the two directions are written once, with the side as a
parameter. */
module SplayTree {
  import opened RbTrees
  import opened OrderedNodes

  datatype Links = Links(left: nat, right: nat)

  function At(m: seq<Links>, x: nat, s: Side): nat
    requires 0 < x < |m|
  {
    if s.OnLeft? then m[x].left else m[x].right
  }

  function Put(m: seq<Links>, x: nat, s: Side, y: nat): seq<Links>
    requires 0 < x < |m|
  {
    if s.OnLeft? then m[x := m[x].(left := y)] else m[x := m[x].(right := y)]
  }

  ghost predicate Holds(m: seq<Links>, x: nat, t: Tree)
    decreases t
  {
    match t
    case Leaf => x == 0
    case Node(l, id, _, r) => x == id && 0 < x < |m| && Holds(m, m[x].left, l) && Holds(m, m[x].right, r)
  }

  /** The node whose side-`s` link is the open end of the chain. */
  function Tail(q: Path, h: nat): nat {
    if q.Top? then h else q.id
  }

  /** The chain of side `s` that hangs from the header `h`. */
  ghost predicate Chain(m: seq<Links>, h: nat, s: Side, q: Path)
    requires 0 < h < |m|
    decreases q
  {
    q.Frame? ==>
      && q.side == s && 0 < q.id < |m|
      && Chain(m, h, s, q.up)
      && 0 < Tail(q.up, h) < |m| && At(m, Tail(q.up, h), s) == q.id
      && Holds(m, At(m, q.id, Other(s)), q.sib)
  }

  ghost predicate Agree(m: seq<Links>, n: seq<Links>, ids: set<nat>) {
    |m| == |n| && forall i :: i in ids && i < |m| ==> n[i] == m[i]
  }

  lemma {:induction false} HoldsFrame(m: seq<Links>, n: seq<Links>, x: nat, t: Tree)
    requires Holds(m, x, t) && Agree(m, n, Ids(t))
    ensures Holds(n, x, t)
    decreases t
  {
    if t.Node? {
      HoldsFrame(m, n, m[x].left, t.left);
      HoldsFrame(m, n, m[x].right, t.right);
    }
  }

  lemma {:induction false} HoldsBelow(m: seq<Links>, n: seq<Links>, x: nat, t: Tree)
    requires Holds(m, x, t) && |m| <= |n| && forall i :: 0 <= i < |m| ==> n[i] == m[i]
    ensures Holds(n, x, t)
    decreases t
  {
    if t.Node? {
      HoldsBelow(m, n, m[x].left, t.left);
      HoldsBelow(m, n, m[x].right, t.right);
    }
  }

  lemma {:induction false} HoldsShrink(m: seq<Links>, k: nat, x: nat, t: Tree)
    requires Holds(m, x, t) && k <= |m| && forall i :: i in Ids(t) ==> i < k
    ensures Holds(m[..k], x, t)
    decreases t
  {
    if t.Node? {
      assert t.id in Ids(t);
      HoldsShrink(m, k, m[x].left, t.left);
      HoldsShrink(m, k, m[x].right, t.right);
    }
  }

  lemma {:induction false} HoldsPositive(m: seq<Links>, x: nat, t: Tree)
    requires Holds(m, x, t)
    ensures forall i :: i in Ids(t) ==> 0 < i < |m|
    decreases t
  {
    if t.Node? {
      HoldsPositive(m, m[x].left, t.left);
      HoldsPositive(m, m[x].right, t.right);
    }
  }

  /** Writing the open end of a chain, or outside the chain, leaves the chain as it is. */
  lemma {:induction false} ChainFrame(m: seq<Links>, n: seq<Links>, h: nat, s: Side, q: Path)
    requires 0 < h < |m| && Chain(m, h, s, q) && DistinctPath(q) && h !in PathIds(q)
    requires Agree(m, n, PathIds(q) - {Tail(q, h)})
    requires q.Frame? ==> At(n, q.id, Other(s)) == At(m, q.id, Other(s)) && At(n, h, s) == At(m, h, s)
    ensures Chain(n, h, s, q)
    decreases q
  {
    if q.Frame? {
      assert q.up.Frame? ==> q.up.id in PathIds(q.up);
      ChainFrame(m, n, h, s, q.up);
      HoldsFrame(m, n, At(m, q.id, Other(s)), q.sib);
    }
  }

  /** The state of the search: the three parts, disjoint from each other and from the header. */
  ghost predicate Split(m: seq<Links>, h: nat, root: nat, t: Tree, lq: Path, rq: Path) {
    && 0 < h < |m|
    && Holds(m, root, t) && Chain(m, h, OnRight, lq) && Chain(m, h, OnLeft, rq)
    && Apart(h, t, lq, rq)
  }

  ghost predicate Apart(h: nat, t: Tree, lq: Path, rq: Path) {
    && Distinct(t) && DistinctPath(lq) && DistinctPath(rq)
    && Ids(t) !! PathIds(lq) && Ids(t) !! PathIds(rq) && PathIds(lq) !! PathIds(rq)
    && h !in Ids(t) && h !in PathIds(lq) && h !in PathIds(rq)
  }

  /** All nodes of the three parts in order. */
  function OrderOf(t: Tree, lq: Path, rq: Path): seq<nat> {
    Before(lq) + InOrder(t) + After(rq)
  }

  function AllIds(t: Tree, lq: Path, rq: Path): set<nat> {
    Ids(t) + PathIds(lq) + PathIds(rq)
  }

  /** Only nodes of `ids` and the header changed. */
  ghost predicate Untouched(m: seq<Links>, n: seq<Links>, h: nat, ids: set<nat>) {
    |m| == |n| && forall i :: 0 <= i < |m| && i != h && i !in ids ==> n[i] == m[i]
  }

  /** The chain that grows when the search goes to side `s`, and the other one. */
  function Near(s: Side, lq: Path, rq: Path): Path {
    if s.OnLeft? then rq else lq
  }

  function Extend(s: Side, q: Path, t: Tree): Path
    requires t.Node?
  {
    Frame(q, s, t.id, t.color, Child(t, Other(s)))
  }

  // ---------------------------------------------------------------- the three steps

  /** SPLAY_ROTATE: the child on side `s` is rotated above the root. */
  lemma {:induction false} RotateSplit(m: seq<Links>, n: seq<Links>, h: nat, root: nat, t: Tree, lq: Path, rq: Path, s: Side)
    requires Split(m, h, root, t, lq, rq) && t.Node? && Child(t, s).Node?
    requires var tmp := Child(t, s).id;
      0 < tmp < |m| && n == Put(Put(m, root, s, At(m, tmp, Other(s))), tmp, Other(s), root)
    ensures Split(n, h, Child(t, s).id, Turn(Other(s), t), lq, rq)
    ensures InOrder(Turn(Other(s), t)) == InOrder(t)
  {
    var tmp, u := Child(t, s).id, Turn(Other(s), t);
    if s.OnLeft? {
      RotateRightKeeps(t);
    } else {
      RotateLeftKeeps(t);
    }
    RotatedHolds(m, n, root, t, s);
    OutsideChains(m, n, h, t, lq, rq);
  }

  /** Writing inside the searched subtree leaves both chains as they are. */
  lemma {:induction false} OutsideChains(m: seq<Links>, n: seq<Links>, h: nat, t: Tree, lq: Path, rq: Path)
    requires 0 < h < |m| && Chain(m, h, OnRight, lq) && Chain(m, h, OnLeft, rq) && Apart(h, t, lq, rq)
    requires |m| == |n| && forall i :: 0 <= i < |m| && i !in Ids(t) ==> n[i] == m[i]
    ensures Chain(n, h, OnRight, lq) && Chain(n, h, OnLeft, rq)
  {
    assert lq.Frame? ==> lq.id in PathIds(lq);
    assert rq.Frame? ==> rq.id in PathIds(rq);
    ChainFrame(m, n, h, OnRight, lq);
    ChainFrame(m, n, h, OnLeft, rq);
  }

  lemma RotatedHolds(m: seq<Links>, n: seq<Links>, root: nat, t: Tree, s: Side)
    requires Holds(m, root, t) && Distinct(t) && t.Node? && Child(t, s).Node?
    requires var tmp := Child(t, s).id;
      0 < tmp < |m| && n == Put(Put(m, root, s, At(m, tmp, Other(s))), tmp, Other(s), root)
    ensures Holds(n, Child(t, s).id, Turn(Other(s), t))
    ensures root in Ids(t) && Child(t, s).id in Ids(t)
  {
    var c := Child(t, s);
    var tmp := c.id;
    assert Holds(m, At(m, root, s), c) && Distinct(c);
    assert Ids(t) == Ids(t.left) + {root} + Ids(t.right);
    assert Ids(c) == Ids(c.left) + {tmp} + Ids(c.right);
    HoldsFrame(m, n, At(m, root, Other(s)), Child(t, Other(s)));
    HoldsFrame(m, n, m[tmp].left, c.left);
    HoldsFrame(m, n, m[tmp].right, c.right);
  }

  function GrowLeft(s: Side, lq: Path, t: Tree): Path
    requires t.Node?
  {
    if s.OnLeft? then lq else Extend(s, lq, t)
  }

  function GrowRight(s: Side, rq: Path, t: Tree): Path
    requires t.Node?
  {
    if s.OnLeft? then Extend(s, rq, t) else rq
  }

  lemma {:induction false} LinkOrder(t: Tree, lq: Path, rq: Path, s: Side)
    requires t.Node?
    ensures OrderOf(Child(t, s), GrowLeft(s, lq, t), GrowRight(s, rq, t)) == OrderOf(t, lq, rq)
  {
    if s.OnLeft? {
      RegroupLeft(Before(lq), InOrder(t.left), [t.id], InOrder(t.right), After(rq));
    } else {
      RegroupRight(Before(lq), InOrder(t.left), [t.id], InOrder(t.right), After(rq));
    }
  }

  lemma RegroupLeft(a: seq<nat>, b: seq<nat>, c: seq<nat>, d: seq<nat>, e: seq<nat>)
    ensures a + b + (c + d + e) == a + (b + c + d) + e
  {
  }

  lemma RegroupRight(a: seq<nat>, b: seq<nat>, c: seq<nat>, d: seq<nat>, e: seq<nat>)
    ensures (a + b + c) + d + e == a + (b + c + d) + e
  {
  }

  lemma {:induction false} LinkApart(h: nat, t: Tree, lq: Path, rq: Path, s: Side)
    requires Apart(h, t, lq, rq) && t.Node?
    ensures Apart(h, Child(t, s), GrowLeft(s, lq, t), GrowRight(s, rq, t))
  {
  }

  lemma {:induction false} LinkChains(m: seq<Links>, n: seq<Links>, h: nat, root: nat, t: Tree, lq: Path, rq: Path, s: Side)
    requires Split(m, h, root, t, lq, rq) && t.Node?
    requires 0 < Tail(Near(s, lq, rq), h) < |m| && n == Put(m, Tail(Near(s, lq, rq), h), s, root)
    ensures Chain(n, h, OnRight, lq) && Chain(n, h, OnLeft, rq)
    ensures Holds(n, root, t)
  {
    var q := Near(s, lq, rq);
    assert q.Frame? ==> q.id in PathIds(q);
    HoldsFrame(m, n, root, t);
    ChainFrame(m, n, h, OnRight, lq);
    ChainFrame(m, n, h, OnLeft, rq);
  }

  /** SPLAY_LINK: the root joins the chain of side `s`, and the search goes on below it. */
  lemma {:induction false} LinkSplit(m: seq<Links>, n: seq<Links>, h: nat, root: nat, t: Tree, lq: Path, rq: Path, s: Side)
    requires Split(m, h, root, t, lq, rq) && t.Node?
    requires 0 < Tail(Near(s, lq, rq), h) < |m| && n == Put(m, Tail(Near(s, lq, rq), h), s, root)
    ensures Split(n, h, At(n, root, s), Child(t, s), GrowLeft(s, lq, t), GrowRight(s, rq, t))
  {
    LinkChains(m, n, h, root, t, lq, rq, s);
    LinkApart(h, t, lq, rq, s);
  }

  lemma {:induction false} LinkFrame(m: seq<Links>, h: nat, root: nat, t: Tree, lq: Path, rq: Path, s: Side)
    requires Split(m, h, root, t, lq, rq) && t.Node?
    ensures 0 < Tail(Near(s, lq, rq), h) < |m|
    ensures Untouched(m, Put(m, Tail(Near(s, lq, rq), h), s, root), h, AllIds(t, lq, rq))
    ensures AllIds(Child(t, s), GrowLeft(s, lq, t), GrowRight(s, rq, t)) == AllIds(t, lq, rq)
  {
    var q := Near(s, lq, rq);
    assert q.Frame? ==> q.id in PathIds(q);
    assert Ids(t) == Ids(t.left) + {t.id} + Ids(t.right);
    assert PathIds(Extend(s, q, t)) == PathIds(q) + {t.id} + Ids(Child(t, Other(s)));
  }

  /** A closed chain is a tree. */
  lemma {:induction false} CloseChain(m: seq<Links>, h: nat, s: Side, q: Path, x: nat, t: Tree)
    requires 0 < h < |m| && Chain(m, h, s, q) && 0 < Tail(q, h) < |m|
    requires Holds(m, x, t) && At(m, Tail(q, h), s) == x
    ensures Holds(m, At(m, h, s), Plug(q, t))
    decreases q
  {
    if q.Frame? {
      CloseChain(m, h, s, q.up, q.id, Fill(q, t));
    }
  }

  /** All frames of a chain lie on one side, so the other side has nothing. */
  lemma {:induction false} ChainSide(m: seq<Links>, h: nat, s: Side, q: Path)
    requires 0 < h < |m| && Chain(m, h, s, q)
    ensures s.OnRight? ==> After(q) == []
    ensures s.OnLeft? ==> Before(q) == []
    decreases q
  {
    if q.Frame? {
      ChainSide(m, h, s, q.up);
    }
  }

  /** SPLAY_ASSEMBLE: both chains are closed with the root's subtrees and hung below the root. */
  function Assembled(m: seq<Links>, h: nat, root: nat, ltail: nat, rtail: nat): seq<Links>
    requires 0 < h < |m| && 0 < root < |m| && 0 < ltail < |m| && 0 < rtail < |m|
  {
    var m1 := Put(m, ltail, OnRight, At(m, root, OnLeft));
    var m2 := Put(m1, rtail, OnLeft, At(m1, root, OnRight));
    var m3 := Put(m2, root, OnLeft, At(m2, h, OnRight));
    Put(m3, root, OnRight, At(m3, h, OnLeft))
  }

  function Joined(t: Tree, lq: Path, rq: Path): Tree
    requires t.Node?
  {
    Node(Plug(lq, t.left), t.id, t.color, Plug(rq, t.right))
  }

  lemma {:induction false} PlugLeftChain(m: seq<Links>, h: nat, q: Path, t: Tree)
    requires 0 < h < |m| && Chain(m, h, OnRight, q)
    ensures InOrder(Plug(q, t)) == Before(q) + InOrder(t)
  {
    ChainSide(m, h, OnRight, q);
    PlugSplit(q, t);
  }

  lemma {:induction false} PlugRightChain(m: seq<Links>, h: nat, q: Path, t: Tree)
    requires 0 < h < |m| && Chain(m, h, OnLeft, q)
    ensures InOrder(Plug(q, t)) == InOrder(t) + After(q)
  {
    ChainSide(m, h, OnLeft, q);
    PlugSplit(q, t);
  }

  lemma {:induction false} JoinedOrder(m: seq<Links>, h: nat, t: Tree, lq: Path, rq: Path)
    requires 0 < h < |m| && Chain(m, h, OnRight, lq) && Chain(m, h, OnLeft, rq) && t.Node?
    ensures InOrder(Joined(t, lq, rq)) == OrderOf(t, lq, rq)
    ensures InOrder(Joined(t, lq, rq).left) == Before(lq) + InOrder(t.left)
    ensures InOrder(Joined(t, lq, rq).right) == InOrder(t.right) + After(rq)
  {
    PlugLeftChain(m, h, lq, t.left);
    PlugRightChain(m, h, rq, t.right);
    Regroup(Before(lq), InOrder(t.left), [t.id], InOrder(t.right), After(rq));
  }

  lemma Regroup(a: seq<nat>, b: seq<nat>, c: seq<nat>, d: seq<nat>, e: seq<nat>)
    ensures (a + b) + c + (d + e) == a + (b + c + d) + e
  {
  }

  lemma {:induction false} JoinedApart(h: nat, t: Tree, lq: Path, rq: Path)
    requires Apart(h, t, lq, rq) && t.Node?
    ensures Distinct(Joined(t, lq, rq)) && h !in Ids(Joined(t, lq, rq))
  {
    PlugIds(lq, t.left);
    PlugIds(rq, t.right);
  }

  lemma {:induction false} ClosedChains(m: seq<Links>, h: nat, root: nat, t: Tree, lq: Path, rq: Path)
    requires Split(m, h, root, t, lq, rq) && t.Node? && 0 < Tail(lq, h) < |m| && 0 < Tail(rq, h) < |m|
    ensures var n := Put(Put(m, Tail(lq, h), OnRight, At(m, root, OnLeft)), Tail(rq, h), OnLeft, At(m, root, OnRight));
      && Holds(n, At(n, h, OnRight), Plug(lq, t.left))
      && Holds(n, At(n, h, OnLeft), Plug(rq, t.right))
      && n[root] == m[root]
  {
    var n := Put(Put(m, Tail(lq, h), OnRight, At(m, root, OnLeft)), Tail(rq, h), OnLeft, At(m, root, OnRight));
    assert lq.Frame? ==> lq.id in PathIds(lq);
    assert rq.Frame? ==> rq.id in PathIds(rq);
    HoldsFrame(m, n, root, t);
    ChainFrame(m, n, h, OnRight, lq);
    ChainFrame(m, n, h, OnLeft, rq);
    CloseChain(n, h, OnRight, lq, At(m, root, OnLeft), t.left);
    CloseChain(n, h, OnLeft, rq, At(m, root, OnRight), t.right);
  }

  lemma {:induction false} AssembledHolds(m: seq<Links>, h: nat, root: nat, t: Tree, lq: Path, rq: Path)
    requires Split(m, h, root, t, lq, rq) && t.Node? && 0 < Tail(lq, h) < |m| && 0 < Tail(rq, h) < |m|
    ensures Holds(Assembled(m, h, root, Tail(lq, h), Tail(rq, h)), root, Joined(t, lq, rq))
  {
    var n := Put(Put(m, Tail(lq, h), OnRight, At(m, root, OnLeft)), Tail(rq, h), OnLeft, At(m, root, OnRight));
    ClosedChains(m, h, root, t, lq, rq);
    PlugIds(lq, t.left);
    PlugIds(rq, t.right);
    assert lq.Frame? ==> lq.id in PathIds(lq);
    var r := Assembled(m, h, root, Tail(lq, h), Tail(rq, h));
    assert Agree(n, r, Ids(Plug(lq, t.left))) && Agree(n, r, Ids(Plug(rq, t.right)));
    HoldsFrame(n, r, At(n, h, OnRight), Plug(lq, t.left));
    HoldsFrame(n, r, At(n, h, OnLeft), Plug(rq, t.right));
  }

  // ---------------------------------------------------------------- keys

  /** The keys of the left chain are below `k`, those of the right chain above it. */
  ghost predicate Parted(k: int, lq: Path, rq: Path, key: seq<int>) {
    AllBelow(Before(lq), key, k) && AllAbove(After(rq), key, k)
  }

  /** The key lies on side `s` of the root. */
  ghost predicate Beyond(s: Side, k: int, t: Tree, key: seq<int>)
    requires t.Node?
  {
    if s.OnLeft? then k < KeyAt(key, t.id) else KeyAt(key, t.id) < k
  }

  /** The root joins the chain on the far side of the key. */
  lemma {:induction false} PartedGrows(k: int, t: Tree, lq: Path, rq: Path, key: seq<int>, s: Side)
    requires t.Node? && Ascending(OrderOf(t, lq, rq), key) && Parted(k, lq, rq, key)
    requires Beyond(s, k, t, key)
    ensures Parted(k, GrowLeft(s, lq, t), GrowRight(s, rq, t), key)
  {
    var a, b := Before(lq) + InOrder(t.left), InOrder(t.right) + After(rq);
    RootSplit(t, lq, rq, key);
    if s.OnLeft? {
      AboveCons(t.id, b, key, k);
      assert After(GrowRight(s, rq, t)) == [t.id] + b;
    } else {
      BelowSnoc(a, t.id, key, k);
      assert Before(GrowLeft(s, lq, t)) == a + [t.id];
    }
  }

  lemma {:induction false} RootSplit(t: Tree, lq: Path, rq: Path, key: seq<int>)
    requires t.Node? && Ascending(OrderOf(t, lq, rq), key)
    ensures var a, b := Before(lq) + InOrder(t.left), InOrder(t.right) + After(rq);
      OrderOf(t, lq, rq) == a + [t.id] + b && AllBelow(a, key, KeyAt(key, t.id)) && AllAbove(b, key, KeyAt(key, t.id))
  {
    var a, b := Before(lq) + InOrder(t.left), InOrder(t.right) + After(rq);
    assert OrderOf(t, lq, rq) == a + [t.id] + b;
    AscendingSplit(a, t.id, b, key);
  }

  lemma {:induction false} TurnSize(s: Side, t: Tree)
    requires t.Node? && Child(t, s).Node?
    ensures Size(Turn(Other(s), t)) == Size(t) && Ids(Turn(Other(s), t)) == Ids(t)
  {
    if s.OnLeft? {
      RotateRightKeeps(t);
    } else {
      RotateLeftKeeps(t);
    }
    assert Size(t) == Size(t.left) + 1 + Size(t.right);
  }

  /** The root has key `k`, or it is the node next to `k` on one side. */
  ghost predicate Nearest(k: int, t: Tree, key: seq<int>) {
    && t.Node?
    && (KeyAt(key, t.id) == k
        || (k < KeyAt(key, t.id) && AllBelow(InOrder(t.left), key, k))
        || (KeyAt(key, t.id) < k && AllAbove(InOrder(t.right), key, k)))
  }

  lemma {:induction false} NearestMisses(k: int, t: Tree, key: seq<int>)
    requires Nearest(k, t, key) && Ascending(InOrder(t), key) && KeyAt(key, t.id) != k
    ensures Unused(InOrder(t), key, k)
  {
    var a, b, s := InOrder(t.left), InOrder(t.right), InOrder(t);
    assert s == a + [t.id] + b;
    AscendingSplit(a, t.id, b, key);
    assert forall i :: 0 <= i < |s| ==> s[i] == if i < |a| then a[i] else if i == |a| then t.id else b[i - |a| - 1];
  }

  lemma {:induction false} AssembledFrame(m: seq<Links>, h: nat, root: nat, t: Tree, lq: Path, rq: Path)
    requires Split(m, h, root, t, lq, rq) && t.Node?
    ensures 0 < root < |m| && 0 < Tail(lq, h) < |m| && 0 < Tail(rq, h) < |m|
    ensures Untouched(m, Assembled(m, h, root, Tail(lq, h), Tail(rq, h)), h, AllIds(t, lq, rq))
  {
    assert root in Ids(t);
    assert lq.Frame? ==> lq.id in PathIds(lq);
    assert rq.Frame? ==> rq.id in PathIds(rq);
  }

  lemma {:induction false} AssembleStep(m: seq<Links>, h: nat, root: nat, t: Tree, lq: Path, rq: Path)
    requires Split(m, h, root, t, lq, rq) && t.Node? && |m| == h + 1
    ensures 0 < root < |m| && 0 < Tail(lq, h) < |m| && 0 < Tail(rq, h) < |m|
    ensures |Assembled(m, h, root, Tail(lq, h), Tail(rq, h))| == |m|
    ensures Holds(Assembled(m, h, root, Tail(lq, h), Tail(rq, h))[..h], root, Joined(t, lq, rq))
    ensures Distinct(Joined(t, lq, rq))
    ensures Untouched(m, Assembled(m, h, root, Tail(lq, h), Tail(rq, h)), h, AllIds(t, lq, rq))
  {
    AssembledFrame(m, h, root, t, lq, rq);
    AssembledHolds(m, h, root, t, lq, rq);
    JoinedApart(h, t, lq, rq);
    var n := Assembled(m, h, root, Tail(lq, h), Tail(rq, h));
    HoldsPositive(n, root, Joined(t, lq, rq));
    HoldsShrink(n, h, root, Joined(t, lq, rq));
  }

  lemma {:induction false} JoinedNearest(m: seq<Links>, h: nat, t: Tree, lq: Path, rq: Path, k: int, key: seq<int>)
    requires 0 < h < |m| && Chain(m, h, OnRight, lq) && Chain(m, h, OnLeft, rq) && t.Node?
    requires Parted(k, lq, rq, key)
    requires KeyAt(key, t.id) == k || (k < KeyAt(key, t.id) && t.left.Leaf?) || (KeyAt(key, t.id) < k && t.right.Leaf?)
    ensures InOrder(Joined(t, lq, rq)) == OrderOf(t, lq, rq) && Nearest(k, Joined(t, lq, rq), key)
  {
    JoinedOrder(m, h, t, lq, rq);
    assert Before(lq) + [] == Before(lq) && [] + After(rq) == After(rq);
  }

  lemma RootInOrder(t: Tree)
    requires t.Node?
    ensures t.id in InOrder(t) && t.id in Ids(t)
  {
    assert InOrder(t) == InOrder(t.left) + [t.id] + InOrder(t.right);
  }

  /** `elm` on top of a tree whose root lies on the side away from `s`. */
  function Cut(s: Side, elm: nat, t: Tree): Tree
    requires t.Node?
  {
    if s.OnLeft? then Node(t.left, elm, Black, t.(left := Leaf)) else Node(t.(right := Leaf), elm, Black, t.right)
  }

  lemma {:induction false} CutKeeps(s: Side, elm: nat, t: Tree, key: seq<int>)
    requires t.Node? && Distinct(t) && elm !in Ids(t) && Ascending(InOrder(t), key)
    requires Nearest(KeyAt(key, elm), t, key) && Beyond(s, KeyAt(key, elm), t, key)
    ensures Ids(Cut(s, elm, t)) == Ids(t) + {elm} && Distinct(Cut(s, elm, t))
    ensures Ascending(InOrder(Cut(s, elm, t)), key)
  {
    var a, b, k := InOrder(t.left), InOrder(t.right), KeyAt(key, elm);
    assert InOrder(t) == a + [t.id] + b;
    AscendingSplit(a, t.id, b, key);
    if s.OnLeft? {
      AboveCons(t.id, b, key, k);
      assert a + [t.id] + b == a + ([t.id] + b);
      AscendingInsert(a, elm, [t.id] + b, key);
      assert InOrder(t.(left := Leaf)) == [t.id] + b;
    } else {
      BelowSnoc(a, t.id, key, k);
      AscendingInsert(a + [t.id], elm, b, key);
      assert InOrder(t.(right := Leaf)) == a + [t.id];
    }
    CutIds(s, elm, t);
  }

  lemma {:induction false} CutIds(s: Side, elm: nat, t: Tree)
    requires t.Node? && Distinct(t) && elm !in Ids(t)
    ensures Ids(Cut(s, elm, t)) == Ids(t) + {elm} && Distinct(Cut(s, elm, t))
  {
    assert Ids(t) == Ids(t.left) + {t.id} + Ids(t.right);
    var u := if s.OnLeft? then t.(left := Leaf) else t.(right := Leaf);
    assert Ids(u) == (if s.OnLeft? then {t.id} + Ids(t.right) else Ids(t.left) + {t.id});
  }

  /** Taking out a node just put on top gives back the former order. */
  lemma {:induction false} CutWithout(s: Side, elm: nat, t: Tree)
    requires t.Node? && elm !in Ids(t)
    ensures Without(InOrder(Cut(s, elm, t)), elm) == InOrder(t)
  {
    var a, b := InOrder(t.left), InOrder(t.right);
    InOrderIds(t.left);
    if s.OnLeft? {
      assert InOrder(t.(left := Leaf)) == [t.id] + b;
      WithoutSplit(a, elm, [t.id] + b);
      assert a + ([t.id] + b) == a + [t.id] + b;
    } else {
      assert InOrder(t.(right := Leaf)) == a + [t.id];
      WithoutSplit(a + [t.id], elm, b);
    }
  }

  /** Taking the root out joins the orders of its subtrees. */
  lemma {:induction false} RootWithout(t: Tree, key: seq<int>)
    requires t.Node? && Ascending(InOrder(t), key)
    ensures Without(InOrder(t), t.id) == InOrder(t.left) + InOrder(t.right)
    ensures Ascending(InOrder(t.left) + InOrder(t.right), key)
    ensures Ascending(InOrder(t.left), key) && Ascending(InOrder(t.right), key)
    ensures AllBelow(InOrder(t.left), key, KeyAt(key, t.id))
  {
    var a, b := InOrder(t.left), InOrder(t.right);
    assert InOrder(t) == a + [t.id] + b;
    AscendingSplit(a, t.id, b, key);
    WithoutSplit(a, t.id, b);
    AscendingParts(a, b, key);
  }

  lemma AscendingParts(a: seq<nat>, b: seq<nat>, key: seq<int>)
    requires Ascending(a + b, key)
    ensures Ascending(a, key) && Ascending(b, key)
  {
    var s := a + b;
    assert forall i :: 0 <= i < |a| ==> a[i] == s[i];
    assert forall i :: 0 <= i < |b| ==> b[i] == s[|a| + i];
  }

  lemma NoneBetween(ids: seq<nat>, key: seq<int>, k: int)
    ensures AllBelow(ids, key, k) && AllAbove(ids, key, k) ==> |ids| == 0
  {
    assert |ids| > 0 ==> KeyAt(key, ids[0]) == KeyAt(key, First(ids));
  }

  /** If every key is below `k`, the node next to `k` is the last one. */
  lemma {:induction false} AllBelowMeansLast(k: int, t: Tree, key: seq<int>)
    requires Nearest(k, t, key) && AllBelow(InOrder(t), key, k)
    ensures t.right.Leaf?
  {
    var a, b, s := InOrder(t.left), InOrder(t.right), InOrder(t);
    assert s == a + [t.id] + b;
    assert s[|a|] == t.id;
    assert forall i :: 0 <= i < |b| ==> b[i] == s[|a| + 1 + i];
    assert AllBelow(b, key, k);
    NoneBetween(b, key, k);
  }

  class SplayHead {
    var cells: seq<Links>
    var key: seq<int>
    var root: nat
    ghost var tree: Tree

    ghost predicate Valid()
      reads this
    {
      && 0 < |cells| == |key|
      && Holds(cells, root, tree) && Distinct(tree)
      && Ascending(InOrder(tree), key)
    }

    ghost function Order(): seq<nat>
      reads this
    {
      InOrder(tree)
    }

    /** Rotates the root's child on side `s` above the root. */
    method RotateUp(s: Side, tmp: nat, h: nat, ghost t: Tree, ghost lq: Path, ghost rq: Path)
      requires Split(cells, h, root, t, lq, rq) && t.Node? && Child(t, s).Node? && tmp == Child(t, s).id
      modifies this`cells, this`root
      ensures root == tmp && Split(cells, h, root, Turn(Other(s), t), lq, rq) && |cells| == old(|cells|)
      ensures OrderOf(Turn(Other(s), t), lq, rq) == OrderOf(t, lq, rq)
      ensures Untouched(old(cells), cells, h, AllIds(t, lq, rq)) && Ids(Turn(Other(s), t)) == Ids(t)
    {
      ghost var m := cells;
      TurnSize(s, t);
      assert tmp in Ids(Child(t, s)) && tmp in Ids(t);
      assert Holds(m, At(m, root, s), Child(t, s));
      cells := Put(cells, root, s, At(cells, tmp, Other(s)));
      cells := Put(cells, tmp, Other(s), root);
      RotateSplit(m, cells, h, root, t, lq, rq, s);
      root := tmp;
    }

    /** Moves the root to the end `tail` of the chain of side `s`. */
    method LinkDown(s: Side, tail: nat, h: nat, ghost t: Tree, ghost lq: Path, ghost rq: Path) returns (tail': nat)
      requires Split(cells, h, root, t, lq, rq) && t.Node? && tail == Tail(Near(s, lq, rq), h)
      modifies this`cells, this`root
      ensures Split(cells, h, root, Child(t, s), GrowLeft(s, lq, t), GrowRight(s, rq, t)) && |cells| == old(|cells|)
      ensures tail' == t.id && Untouched(old(cells), cells, h, AllIds(t, lq, rq))
      ensures AllIds(Child(t, s), GrowLeft(s, lq, t), GrowRight(s, rq, t)) == AllIds(t, lq, rq)
    {
      ghost var m := cells;
      LinkFrame(m, h, root, t, lq, rq, s);
      cells := Put(cells, tail, s, root);
      LinkSplit(m, cells, h, root, t, lq, rq, s);
      tail' := root;
      root := At(cells, root, s);
    }

    /** The invariant of the search for `k`: only the nodes `ids`, whose order is `order`, and the
        header have changed since the memory was `m0`. */
    ghost predicate Searching(m0: seq<Links>, ids: set<nat>, order: seq<nat>, k: int, h: nat, t: Tree, lq: Path, rq: Path)
      reads this
    {
      && Split(cells, h, root, t, lq, rq) && t.Node? && (forall i :: i in Ids(t) ==> i < |key|)
      && AllIds(t, lq, rq) == ids && Untouched(m0, cells, h, ids)
      && OrderOf(t, lq, rq) == order && Parted(k, lq, rq, key)
    }

    /** The zig-zig rotation: if the key lies beyond the child `tmp` too, `tmp` becomes the root. */
    method RotateIfBeyond(s: Side, k: int, tmp: nat, h: nat, ghost t0: Tree, ghost lq: Path, ghost rq: Path,
                          ghost m0: seq<Links>, ghost ids: set<nat>, ghost order: seq<nat>)
      returns (rotated: bool, ghost t: Tree)
      requires Searching(m0, ids, order, k, h, t0, lq, rq)
      requires Child(t0, s).Node? && tmp == Child(t0, s).id && Beyond(s, k, t0, key)
      modifies this`cells, this`root
      ensures Searching(m0, ids, order, k, h, t, lq, rq)
      ensures Size(t) == Size(t0) && Beyond(s, k, t, key)
      ensures !rotated ==> t == t0
    {
      rotated, t := false, t0;
      assert tmp in Ids(Child(t, s)) && tmp in Ids(t);
      if (if s.OnLeft? then k < key[tmp] else key[tmp] < k) {
        RotateUp(s, tmp, h, t, lq, rq);
        TurnSize(s, t);
        rotated, t := true, Turn(Other(s), t);
      }
    }

    /** The root joins its chain, and the search goes on in its subtree on side `s`. */
    method Advance(s: Side, k: int, tail0: nat, h: nat, ghost t0: Tree, ghost lq0: Path, ghost rq0: Path,
                   ghost m0: seq<Links>, ghost ids: set<nat>, ghost order: seq<nat>)
      returns (tail: nat, ghost t: Tree, ghost lq: Path, ghost rq: Path)
      requires Searching(m0, ids, order, k, h, t0, lq0, rq0) && tail0 == Tail(Near(s, lq0, rq0), h)
      requires Ascending(order, key) && Child(t0, s).Node? && Beyond(s, k, t0, key)
      modifies this`cells, this`root
      ensures Searching(m0, ids, order, k, h, t, lq, rq) && tail == Tail(Near(s, lq, rq), h)
      ensures Size(t) < Size(t0)
      ensures if s.OnLeft? then lq == lq0 else rq == rq0
    {
      PartedGrows(k, t0, lq0, rq0, key, s);
      LinkOrder(t0, lq0, rq0, s);
      tail := LinkDown(s, tail0, h, t0, lq0, rq0);
      lq, rq, t := GrowLeft(s, lq0, t0), GrowRight(s, rq0, t0), Child(t0, s);
    }

    /** One turn of the search to side `s`; `done` when the loop breaks. */
    method SearchTurn(s: Side, k: int, tail0: nat, h: nat, ghost t0: Tree, ghost lq0: Path, ghost rq0: Path,
                      ghost m0: seq<Links>, ghost ids: set<nat>, ghost order: seq<nat>)
      returns (done: bool, tail: nat, ghost t: Tree, ghost lq: Path, ghost rq: Path)
      requires Searching(m0, ids, order, k, h, t0, lq0, rq0) && tail0 == Tail(Near(s, lq0, rq0), h)
      requires Ascending(order, key) && Beyond(s, k, t0, key)
      modifies this`cells, this`root
      ensures Searching(m0, ids, order, k, h, t, lq, rq) && tail == Tail(Near(s, lq, rq), h)
      ensures if s.OnLeft? then lq == lq0 else rq == rq0
      ensures !done ==> Size(t) < Size(t0)
      ensures done ==> Child(t, s).Leaf? && Beyond(s, k, t, key)
    {
      tail, t, lq, rq := tail0, t0, lq0, rq0;
      var tmp := At(cells, root, s);
      assert Holds(cells, tmp, Child(t, s));
      if tmp == 0 {
        return true, tail, t, lq, rq;
      }
      var rotated;
      rotated, t := RotateIfBeyond(s, k, tmp, h, t, lq, rq, m0, ids, order);
      assert Holds(cells, At(cells, root, s), Child(t, s));
      if rotated && At(cells, root, s) == 0 {
        return true, tail, t, lq, rq;
      }
      tail, t, lq, rq := Advance(s, k, tail, h, t, lq, rq, m0, ids, order);
      done := false;
    }

    /** Puts the three parts together again and gives up the header. */
    method Assemble(k: int, h: nat, left: nat, right: nat, ghost t: Tree, ghost lq: Path, ghost rq: Path)
      requires Split(cells, h, root, t, lq, rq) && t.Node? && |cells| == h + 1 && |key| == h
      requires left == Tail(lq, h) && right == Tail(rq, h)
      requires Ascending(OrderOf(t, lq, rq), key) && Parted(k, lq, rq, key)
      requires KeyAt(key, t.id) == k || (k < KeyAt(key, t.id) && t.left.Leaf?) || (KeyAt(key, t.id) < k && t.right.Leaf?)
      modifies this`cells, this`tree
      ensures Valid() && |cells| == h && root == tree.id
      ensures Order() == OrderOf(t, lq, rq) && Nearest(k, tree, key)
      ensures forall i :: 0 <= i < h && i !in AllIds(t, lq, rq) ==> cells[i] == old(cells[i])
    {
      AssembleStep(cells, h, root, t, lq, rq);
      JoinedNearest(cells, h, t, lq, rq, k, key);
      cells := Put(cells, left, OnRight, At(cells, root, OnLeft));
      cells := Put(cells, right, OnLeft, At(cells, root, OnRight));
      cells := Put(cells, root, OnLeft, At(cells, h, OnRight));
      cells := Put(cells, root, OnRight, At(cells, h, OnLeft));
      cells := cells[..h];
      tree := Joined(t, lq, rq);
    }

    /** Brings the node with key `k`, or else one next to it, to the root. */
    method Splay(k: int)
      requires Valid() && root != 0
      modifies this`cells, this`root, this`tree
      ensures Valid() && |cells| == old(|cells|) && root != 0 && root == tree.id
      ensures Order() == old(Order()) && Nearest(k, tree, key)
      ensures forall i :: 0 <= i < |cells| && i !in old(Ids(tree)) ==> cells[i] == old(cells[i])
    {
      var h := |cells|;
      ghost var m, t, lq, rq, ids, order := cells + [Links(0, 0)], tree, Top, Top, Ids(tree), Order();
      HoldsPositive(cells, root, tree);
      HoldsBelow(cells, m, root, tree);
      cells := cells + [Links(0, 0)];
      assert [] + InOrder(tree) + [] == InOrder(tree);
      var left, right := h, h;
      var done := false;
      while !done && key[root] != k
        invariant Searching(m, ids, order, k, h, t, lq, rq)
        invariant left == Tail(lq, h) && right == Tail(rq, h)
        invariant done ==> (k < KeyAt(key, t.id) && t.left.Leaf?) || (KeyAt(key, t.id) < k && t.right.Leaf?)
        decreases !done, Size(t)
      {
        if k < key[root] {
          done, right, t, lq, rq := SearchTurn(OnLeft, k, right, h, t, lq, rq, m, ids, order);
        } else {
          done, left, t, lq, rq := SearchTurn(OnRight, k, left, h, t, lq, rq, m, ids, order);
        }
      }
      Assemble(k, h, left, right, t, lq, rq);
    }

    // -------------------------------------------------------------- the operations

    /** The node with key `k`, or null; the order of the nodes does not change. */
    method Find(k: int) returns (node: nat)
      requires Valid()
      modifies this`cells, this`root, this`tree
      ensures Valid() && Order() == old(Order())
      ensures node != 0 ==> node in Order() && KeyAt(key, node) == k
      ensures node == 0 ==> Unused(Order(), key, k)
    {
      if root == 0 {
        return 0;
      }
      Splay(k);
      RootInOrder(tree);
      if key[root] == k {
        return root;
      }
      NearestMisses(k, tree, key);
      return 0;
    }

    /** Makes `elm` the root, or returns the node that already has its key. */
    method Insert(elm: nat) returns (found: nat)
      requires Valid() && 0 < elm < |cells|
      modifies this`cells, this`root, this`tree
      ensures Valid() && |cells| == old(|cells|)
      ensures found != 0 ==> found in old(Order()) && KeyAt(key, found) == key[elm] && Order() == old(Order())
      ensures found == 0 ==> Unused(old(Order()), key, key[elm]) && root == elm
      ensures found == 0 ==> Ids(tree) == old(Ids(tree)) + {elm} && elm !in old(Ids(tree))
      ensures found == 0 ==> Without(Order(), elm) == old(Order())
    {
      if root == 0 {
        cells := cells[elm := Links(0, 0)];
        root, tree := elm, Node(Leaf, elm, Black, Leaf);
        WithoutSplit([], elm, []);
        return 0;
      }
      ghost var before := tree;
      Splay(key[elm]);
      SameOrderSameIds(before, tree);
      RootInOrder(tree);
      if key[elm] == key[root] {
        return root;
      }
      NearestMisses(key[elm], tree, key);
      InOrderIds(tree);
      if key[elm] < key[root] {
        PlaceAtRoot(elm, OnLeft);
      } else {
        PlaceAtRoot(elm, OnRight);
      }
      return 0;
    }

    /** Splits the tree at the root on side `s` and puts `elm` on top. */
    method PlaceAtRoot(elm: nat, s: Side)
      requires Valid() && 0 < elm < |cells| && elm !in Ids(tree) && tree.Node? && root == tree.id
      requires Nearest(key[elm], tree, key) && Beyond(s, key[elm], tree, key)
      modifies this`cells, this`root, this`tree
      ensures Valid() && |cells| == old(|cells|) && root == elm && Ids(tree) == old(Ids(tree)) + {elm}
      ensures Without(Order(), elm) == old(Order())
    {
      ghost var t, m := tree, cells;
      assert Ids(t) == Ids(t.left) + {t.id} + Ids(t.right);
      cells := Put(cells, elm, s, At(cells, root, s));
      cells := Put(cells, elm, Other(s), root);
      cells := Put(cells, root, s, 0);
      HoldsFrame(m, cells, m[root].left, t.left);
      HoldsFrame(m, cells, m[root].right, t.right);
      root := elm;
      tree := Cut(s, elm, t);
      CutKeeps(s, elm, t, key);
      CutWithout(s, elm, t);
    }

    /** Removes the node with the key of `elm`, if there is one, and returns `elm`; otherwise null. */
    method Remove(elm: nat) returns (removed: nat, ghost node: nat)
      requires Valid() && 0 < elm < |cells|
      modifies this`cells, this`root, this`tree
      ensures Valid() && |cells| == old(|cells|)
      ensures removed == 0 ==> Unused(old(Order()), key, key[elm]) && Order() == old(Order())
      ensures removed != 0 ==> removed == elm && node in old(Order()) && KeyAt(key, node) == key[elm]
      ensures removed != 0 ==> Order() == Without(old(Order()), node)
    {
      node := 0;
      if root == 0 {
        return 0, 0;
      }
      Splay(key[elm]);
      RootInOrder(tree);
      if key[elm] == key[root] {
        node := root;
        RemoveRoot(key[elm]);
        return elm, node;
      }
      NearestMisses(key[elm], tree, key);
      return 0, 0;
    }

    /** Joins the subtrees of the root, whose key is `k`. */
    method RemoveRoot(k: int)
      requires Valid() && tree.Node? && root == tree.id && KeyAt(key, root) == k
      modifies this`cells, this`root, this`tree
      ensures Valid() && |cells| == old(|cells|)
      ensures Order() == Without(old(Order()), old(root))
    {
      ghost var t, m := tree, cells;
      RootWithout(t, key);
      assert Holds(cells, cells[root].left, t.left) && Holds(cells, cells[root].right, t.right);
      if At(cells, root, OnLeft) == 0 {
        root, tree := At(cells, root, OnRight), t.right;
      } else {
        var tmp := At(cells, root, OnRight);
        root, tree := At(cells, root, OnLeft), t.left;
        Splay(k);
        SameOrderSameIds(t.left, tree);
        AllBelowMeansLast(k, tree, key);
        HoldsFrame(m, cells, tmp, t.right);
        AttachRight(tmp, t.right);
      }
    }

    method AttachRight(tmp: nat, ghost r: Tree)
      requires Valid() && tree.Node? && root == tree.id && tree.right.Leaf?
      requires Holds(cells, tmp, r) && Distinct(r) && Ids(tree) !! Ids(r) && Ascending(InOrder(tree) + InOrder(r), key)
      modifies this`cells, this`tree
      ensures Valid() && |cells| == old(|cells|) && Order() == old(Order()) + InOrder(r)
    {
      ghost var m := cells;
      assert Ids(tree) == Ids(tree.left) + {root} + Ids(tree.right);
      assert InOrder(tree) == InOrder(tree.left) + [root];
      cells := Put(cells, root, OnRight, tmp);
      HoldsFrame(m, cells, m[root].left, tree.left);
      HoldsFrame(m, cells, tmp, r);
      tree := tree.(right := r);
    }
  }
}
