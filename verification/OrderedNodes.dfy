/** Nodes ordered by integer keys: neighbours in the order, and searching along a path. */
module OrderedNodes {
  import opened RbTrees

  function KeyAt(key: seq<int>, i: nat): int {
    if i < |key| then key[i] else 0
  }

  /** The listed nodes have strictly increasing keys. */
  ghost predicate Ascending(ids: seq<nat>, key: seq<int>) {
    forall i, j :: 0 <= i < j < |ids| ==> KeyAt(key, ids[i]) < KeyAt(key, ids[j])
  }

  ghost predicate AllBelow(ids: seq<nat>, key: seq<int>, k: int) {
    forall i :: 0 <= i < |ids| ==> KeyAt(key, ids[i]) < k
  }

  ghost predicate AllAbove(ids: seq<nat>, key: seq<int>, k: int) {
    forall i :: 0 <= i < |ids| ==> k < KeyAt(key, ids[i])
  }

  ghost predicate Narrowed(k: int, q: Path, key: seq<int>) {
    AllBelow(Before(q), key, k) && AllAbove(After(q), key, k)
  }

  lemma AscendingSplit(a: seq<nat>, z: nat, b: seq<nat>, key: seq<int>)
    requires Ascending(a + [z] + b, key)
    ensures AllBelow(a, key, KeyAt(key, z)) && AllAbove(b, key, KeyAt(key, z)) && Ascending(a + b, key)
    ensures z !in a && z !in b
  {
    var s, r := a + [z] + b, a + b;
    assert s[|a|] == z;
    assert forall i :: 0 <= i < |a| ==> a[i] == s[i];
    assert forall i :: 0 <= i < |b| ==> b[i] == s[|a| + 1 + i];
    assert forall i :: 0 <= i < |r| ==> r[i] == s[if i < |a| then i else i + 1];
  }

  lemma AscendingInsert(a: seq<nat>, z: nat, b: seq<nat>, key: seq<int>)
    requires Ascending(a + b, key) && AllBelow(a, key, KeyAt(key, z)) && AllAbove(b, key, KeyAt(key, z))
    ensures Ascending(a + [z] + b, key)
  {
    var s, r := a + [z] + b, a + b;
    forall i, j | 0 <= i < j < |s|
      ensures KeyAt(key, s[i]) < KeyAt(key, s[j])
    {
      if i == |a| {
        assert s[j] == b[j - |a| - 1];
      } else if j == |a| {
        assert s[i] == a[i];
      } else {
        assert s[i] == r[if i < |a| then i else i - 1] && s[j] == r[if j < |a| then j else j - 1];
      }
    }
  }

  lemma AboveCons(z: nat, b: seq<nat>, key: seq<int>, k: int)
    requires k < KeyAt(key, z) && AllAbove(b, key, KeyAt(key, z))
    ensures AllAbove([z] + b, key, k)
  {
  }

  lemma BelowSnoc(a: seq<nat>, z: nat, key: seq<int>, k: int)
    requires KeyAt(key, z) < k && AllBelow(a, key, KeyAt(key, z))
    ensures AllBelow(a + [z], key, k)
  {
  }

  lemma {:induction false} NarrowLeft(k: int, q: Path, t: Tree, key: seq<int>)
    requires t.Node? && Ascending(InOrder(Plug(q, t)), key) && Narrowed(k, q, key)
    requires k < KeyAt(key, t.id)
    ensures Narrowed(k, Frame(q, OnLeft, t.id, t.color, t.right), key)
  {
    OrderAround(q, t);
    AscendingSplit(Preceding(q, t), t.id, Following(q, t), key);
    AboveCons(t.id, Following(q, t), key, k);
    AfterLeft(q, t);
  }

  lemma {:induction false} NarrowRight(k: int, q: Path, t: Tree, key: seq<int>)
    requires t.Node? && Ascending(InOrder(Plug(q, t)), key) && Narrowed(k, q, key)
    requires KeyAt(key, t.id) < k
    ensures Narrowed(k, Frame(q, OnRight, t.id, t.color, t.left), key)
  {
    OrderAround(q, t);
    AscendingSplit(Preceding(q, t), t.id, Following(q, t), key);
    BelowSnoc(Preceding(q, t), t.id, key, k);
    BeforeRight(q, t);
  }

  /** The key `k` belongs to no node of the list. */
  ghost predicate Unused(ids: seq<nat>, key: seq<int>, k: int) {
    forall i :: 0 <= i < |ids| ==> KeyAt(key, ids[i]) != k
  }

  lemma {:induction false} HoleMeansUnused(k: int, q: Path, key: seq<int>)
    requires Narrowed(k, q, key)
    ensures InOrder(Plug(q, Leaf)) == Before(q) + After(q)
    ensures Unused(InOrder(Plug(q, Leaf)), key, k)
  {
    PlugSplit(q, Leaf);
    assert Before(q) + [] + After(q) == Before(q) + After(q);
  }

  /** A node placed in the hole where its key is missing keeps the order. */
  lemma {:induction false} InsertedOrder(z: nat, q: Path, key: seq<int>)
    requires Narrowed(KeyAt(key, z), q, key) && Ascending(InOrder(Plug(q, Leaf)), key)
    ensures Ascending(InOrder(Plug(q, Node(Leaf, z, Red, Leaf))), key)
  {
    PlugSplit(q, Leaf);
    PlugSplit(q, Node(Leaf, z, Red, Leaf));
    assert Before(q) + [] + After(q) == Before(q) + After(q);
    assert InOrder(Node(Leaf, z, Red, Leaf)) == [z];
    AscendingInsert(Before(q), z, After(q), key);
  }

  /** A node with key `k` splits the order into keys below `k` and keys from `k` on. */
  lemma {:induction false} FoundSplit(q: Path, t: Tree, key: seq<int>)
    requires t.Node? && Ascending(InOrder(Plug(q, t)), key)
    ensures InOrder(Plug(q, t)) == Preceding(q, t) + ([t.id] + Following(q, t))
    ensures AllBelow(Preceding(q, t), key, KeyAt(key, t.id))
    ensures AllAbove([t.id] + Following(q, t), key, KeyAt(key, t.id) - 1)
  {
    OrderAround(q, t);
    var a, b := Preceding(q, t), Following(q, t);
    assert a + [t.id] + b == a + ([t.id] + b);
    AscendingSplit(a, t.id, b, key);
    AboveCons(t.id, b, key, KeyAt(key, t.id) - 1);
  }

  // ---------------------------------------------------------------- neighbours

  /** The node after `x` in a list without repetitions, or 0. */
  ghost function NextOf(ids: seq<nat>, x: nat): nat {
    if |ids| < 2 then 0 else if ids[0] == x then ids[1] else NextOf(ids[1..], x)
  }

  /** The node before `x`, or 0. */
  ghost function PrevOf(ids: seq<nat>, x: nat): nat {
    var n := |ids| - 1;
    if n < 1 then 0 else if ids[n] == x then ids[n - 1] else PrevOf(ids[..n], x)
  }

  function First(ids: seq<nat>): nat {
    if |ids| == 0 then 0 else ids[0]
  }

  function Last(ids: seq<nat>): nat {
    if |ids| == 0 then 0 else ids[|ids| - 1]
  }

  lemma {:induction false} NextOfSplit(a: seq<nat>, x: nat, b: seq<nat>)
    requires x !in a
    ensures NextOf(a + [x] + b, x) == First(b)
  {
    var s := a + [x] + b;
    if a == [] {
      assert s == [x] + b;
    } else {
      assert s[1..] == a[1..] + [x] + b;
      NextOfSplit(a[1..], x, b);
      assert s[0] == a[0] != x;
    }
  }

  lemma {:induction false} PrevOfSplit(a: seq<nat>, x: nat, b: seq<nat>)
    requires x !in b
    ensures PrevOf(a + [x] + b, x) == Last(a)
  {
    var s := a + [x] + b;
    if |b| == 0 {
      assert s == a + [x];
    } else {
      var c := b[..|b| - 1];
      assert s[..|s| - 1] == a + [x] + c;
      assert s[|s| - 1] == b[|b| - 1] != x;
      PrevOfSplit(a, x, c);
    }
  }

  /** Any node of an ascending list splits it into smaller and larger nodes. */
  lemma SplitAt(ids: seq<nat>, key: seq<int>, x: nat) returns (a: seq<nat>, b: seq<nat>)
    requires Ascending(ids, key) && x in ids
    ensures ids == a + [x] + b && x !in a && x !in b
  {
    var i :| 0 <= i < |ids| && ids[i] == x;
    a, b := ids[..i], ids[i + 1..];
    assert ids == a + [x] + b;
    AscendingSplit(a, x, b, key);
  }

  lemma NextAt(ids: seq<nat>, key: seq<int>, i: nat)
    requires Ascending(ids, key) && i < |ids|
    ensures NextOf(ids, ids[i]) == if i + 1 < |ids| then ids[i + 1] else 0
  {
    var a, x, b := ids[..i], ids[i], ids[i + 1..];
    assert ids == a + [x] + b;
    AscendingSplit(a, x, b, key);
    NextOfSplit(a, x, b);
  }

  /** Stepping back undoes stepping forward. */
  lemma PrevUndoesNext(ids: seq<nat>, key: seq<int>, x: nat)
    requires Ascending(ids, key) && x in ids && NextOf(ids, x) != 0
    ensures NextOf(ids, x) in ids && PrevOf(ids, NextOf(ids, x)) == x
  {
    var a, b := SplitAt(ids, key, x);
    NextOfSplit(a, x, b);
    var c, y := b[1..], b[0];
    assert ids == (a + [x]) + [y] + c;
    AscendingSplit(a + [x], y, c, key);
    PrevOfSplit(a + [x], y, c);
  }

  lemma NextUndoesPrev(ids: seq<nat>, key: seq<int>, x: nat)
    requires Ascending(ids, key) && x in ids && PrevOf(ids, x) != 0
    ensures PrevOf(ids, x) in ids && NextOf(ids, PrevOf(ids, x)) == x
  {
    var a, b := SplitAt(ids, key, x);
    PrevOfSplit(a, x, b);
    var c, p := a[..|a| - 1], a[|a| - 1];
    var d := [x] + b;
    assert ids == c + [p] + d;
    AscendingSplit(c, p, d, key);
    NextOfSplit(c, p, d);
  }

  lemma FollowingHead(a: seq<nat>, b: seq<nat>, y: nat, c: seq<nat>)
    requires a + b == a + [y] + c
    ensures First(b) == y
  {
    assert (a + b)[|a|] == (a + [y] + c)[|a|] == y;
  }

  lemma FollowingNone(a: seq<nat>, b: seq<nat>)
    requires a + b == a
    ensures First(b) == 0
  {
    assert |a + b| == |a|;
  }

  lemma PrecedingLast(a: seq<nat>, b: seq<nat>, c: seq<nat>, y: nat)
    requires a + b == c + [y] + b
    ensures Last(a) == y
  {
    assert |a| == |c| + 1;
    assert (a + b)[|c|] == (c + [y] + b)[|c|] == y;
  }

  lemma PrecedingNone(a: seq<nat>, b: seq<nat>)
    requires a + b == b
    ensures Last(a) == 0
  {
    assert |a + b| == |b|;
  }

  // ---------------------------------------------------------------- removal

  /** The list without the first occurrence of `x`. */
  ghost function Without(ids: seq<nat>, x: nat): seq<nat> {
    if |ids| == 0 then [] else if ids[0] == x then ids[1..] else [ids[0]] + Without(ids[1..], x)
  }

  lemma {:induction false} WithoutSplit(a: seq<nat>, x: nat, b: seq<nat>)
    requires x !in a
    ensures Without(a + [x] + b, x) == a + b
  {
    var s := a + [x] + b;
    if a == [] {
      assert s[1..] == b;
      assert a + b == b;
    } else {
      assert s[1..] == a[1..] + [x] + b && s[0] == a[0];
      WithoutSplit(a[1..], x, b);
      assert [a[0]] + (a[1..] + b) == a + b;
    }
  }

  lemma WithoutGone(ids: seq<nat>, x: nat, key: seq<int>)
    requires Ascending(ids, key) && x in ids
    ensures x !in Without(ids, x) && Ascending(Without(ids, x), key)
  {
    var a, b := SplitAt(ids, key, x);
    WithoutSplit(a, x, b);
    AscendingSplit(a, x, b, key);
  }

  /** Unlinking the place of `t.id` removes it from the order and keeps the rest. */
  lemma {:induction false} RemovedOrder(q: Path, t: Tree, key: seq<int>)
    requires t.Node? && Ascending(InOrder(Plug(q, t)), key)
    ensures Ascending(Preceding(q, t) + Following(q, t), key)
    ensures Without(InOrder(Plug(q, t)), t.id) == Preceding(q, t) + Following(q, t)
  {
    OrderAround(q, t);
    AscendingSplit(Preceding(q, t), t.id, Following(q, t), key);
    WithoutSplit(Preceding(q, t), t.id, Following(q, t));
  }

  /** Taking out a node just placed in a hole gives back the former order. */
  lemma {:induction false} InsertedWithout(z: nat, q: Path)
    requires z !in Ids(Plug(q, Leaf))
    ensures Without(InOrder(Plug(q, Node(Leaf, z, Red, Leaf))), z) == InOrder(Plug(q, Leaf))
  {
    PlugSplit(q, Leaf);
    PlugSplit(q, Node(Leaf, z, Red, Leaf));
    assert Before(q) + [] + After(q) == Before(q) + After(q);
    InOrderIds(Plug(q, Leaf));
    assert InOrder(Node(Leaf, z, Red, Leaf)) == [z];
    assert forall i :: 0 <= i < |Before(q)| ==> Before(q)[i] == (Before(q) + After(q))[i];
    WithoutSplit(Before(q), z, After(q));
  }
}
