/** Search trees: the keys stored in the nodes of a tree, read along a path of comparisons. */
module KeyedTrees {
  import opened RbTrees
  import opened CStrings

  /** The bindings of a tree, in order. */
  ghost function EntriesOf(t: Tree, key: seq<string>, value: seq<string>): seq<Entry> {
    Entries(InOrder(t), key, value)
  }

  /** The keys left of the hole are smaller than `k`, those right of it larger. */
  ghost predicate Narrowed(k: string, q: Path, key: seq<string>, value: seq<string>) {
    AllBelow(Entries(Before(q), key, value), k) && AllAbove(Entries(After(q), key, value), k)
  }

  /** The bindings left of a node, its own, and those right of it. */
  lemma {:induction false} SplitAtNode(q: Path, t: Tree, key: seq<string>, value: seq<string>)
    requires t.Node?
    ensures EntriesOf(Plug(q, t), key, value) == Entries(Preceding(q, t), key, value)
         + [(At(key, t.id), At(value, t.id))] + Entries(Following(q, t), key, value)
  {
    OrderAround(q, t);
    EntriesSplit(Preceding(q, t), t.id, Following(q, t), key, value);
  }

  lemma {:induction false} EntriesAfterLeft(q: Path, t: Tree, key: seq<string>, value: seq<string>)
    requires t.Node?
    ensures Entries(After(Frame(q, OnLeft, t.id, t.color, t.right)), key, value)
         == [(At(key, t.id), At(value, t.id))] + Entries(Following(q, t), key, value)
  {
    AfterLeft(q, t);
    EntriesCons(t.id, Following(q, t), key, value);
  }

  lemma {:induction false} EntriesBeforeRight(q: Path, t: Tree, key: seq<string>, value: seq<string>)
    requires t.Node?
    ensures Entries(Before(Frame(q, OnRight, t.id, t.color, t.left)), key, value)
         == Entries(Preceding(q, t), key, value) + [(At(key, t.id), At(value, t.id))]
  {
    BeforeRight(q, t);
    EntriesSnoc(Preceding(q, t), t.id, key, value);
  }

  lemma BelowTransitive(es: seq<Entry>, j: string, k: string)
    requires AllBelow(es, j) && Less(j, k)
    ensures AllBelow(es, k)
  {
    forall i | 0 <= i < |es|
      ensures Less(es[i].0, k)
    {
      LessTransitive(es[i].0, j, k);
    }
  }

  lemma AboveTransitive(es: seq<Entry>, j: string, k: string)
    requires AllAbove(es, j) && Less(k, j)
    ensures AllAbove(es, k)
  {
    forall i | 0 <= i < |es|
      ensures Less(k, es[i].0)
    {
      LessTransitive(k, j, es[i].0);
    }
  }

  /** Comparing with the key of the current node narrows the search on one side. */
  lemma {:induction false} NarrowLeft(k: string, q: Path, t: Tree, key: seq<string>, value: seq<string>)
    requires t.Node? && Sorted(EntriesOf(Plug(q, t), key, value)) && Narrowed(k, q, key, value)
    requires Less(k, At(key, t.id))
    ensures Narrowed(k, Frame(q, OnLeft, t.id, t.color, t.right), key, value)
  {
    var a, e, b := Entries(Preceding(q, t), key, value), (At(key, t.id), At(value, t.id)), Entries(Following(q, t), key, value);
    SplitAtNode(q, t, key, value);
    SortedSplit(a, e, b);
    AboveTransitive(b, e.0, k);
    EntriesAfterLeft(q, t, key, value);
  }

  lemma {:induction false} NarrowRight(k: string, q: Path, t: Tree, key: seq<string>, value: seq<string>)
    requires t.Node? && Sorted(EntriesOf(Plug(q, t), key, value)) && Narrowed(k, q, key, value)
    requires Less(At(key, t.id), k)
    ensures Narrowed(k, Frame(q, OnRight, t.id, t.color, t.left), key, value)
  {
    var a, e, b := Entries(Preceding(q, t), key, value), (At(key, t.id), At(value, t.id)), Entries(Following(q, t), key, value);
    SplitAtNode(q, t, key, value);
    SortedSplit(a, e, b);
    BelowTransitive(a, e.0, k);
    EntriesBeforeRight(q, t, key, value);
  }

  /** A search that ends in a hole has excluded every key of the tree; one that ends at a node
      with no smaller and no larger key has found the binding. */
  lemma {:induction false} SearchResult(k: string, q: Path, t: Tree, key: seq<string>, value: seq<string>)
    requires Sorted(EntriesOf(Plug(q, t), key, value)) && Narrowed(k, q, key, value)
    requires t.Node? ==> !Less(k, At(key, t.id)) && !Less(At(key, t.id), k)
    ensures k in MapOf(EntriesOf(Plug(q, t), key, value)) <==> t.Node?
    ensures t.Node? ==> At(key, t.id) == k && MapOf(EntriesOf(Plug(q, t), key, value))[k] == At(value, t.id)
  {
    if t.Node? {
      LessTotal(k, At(key, t.id));
      SplitAtNode(q, t, key, value);
      MapOfSplit(Entries(Preceding(q, t), key, value), (At(key, t.id), At(value, t.id)), Entries(Following(q, t), key, value));
    } else {
      var l, r := Before(q), After(q);
      PlugSplit(q, t);
      assert InOrder(Plug(q, t)) == l + r;
      EntriesSplit(l, 0, r, key, value);
      MapOfConcat(Entries(l, key, value), Entries(r, key, value));
      MapOfAbsent(Entries(l, key, value), k);
      MapOfAbsent(Entries(r, key, value), k);
    }
  }

  /** A node placed in the hole where its key is missing adds exactly its binding. */
  lemma {:induction false} InsertedBinding(q: Path, z: nat, t: Tree, key: seq<string>, value: seq<string>)
    requires Sorted(EntriesOf(Plug(q, Leaf), key, value)) && Narrowed(At(key, z), q, key, value)
    requires InOrder(t) == InOrder(Plug(q, Node(Leaf, z, Red, Leaf)))
    ensures Sorted(EntriesOf(t, key, value))
    ensures MapOf(EntriesOf(t, key, value)) == MapOf(EntriesOf(Plug(q, Leaf), key, value))[At(key, z) := At(value, z)]
  {
    var l, r := Before(q), After(q);
    PlugSplit(q, Leaf);
    PlugSplit(q, Node(Leaf, z, Red, Leaf));
    assert InOrder(Plug(q, Leaf)) == l + r;
    assert InOrder(t) == l + [z] + r;
    EntriesSplit(l, z, r, key, value);
    var a, e, b := Entries(l, key, value), (At(key, z), At(value, z)), Entries(r, key, value);
    SortedInsert(a, e, b);
    MapOfSplit(a, e, b);
  }

  lemma NeighboursSorted(a: seq<Entry>, z: Entry, y: Entry, b: seq<Entry>)
    requires Sorted(a + [z] + ([y] + b))
    ensures AllBelow(a, z.0) && AllBelow(a, y.0) && Less(z.0, y.0) && AllAbove(b, z.0) && AllAbove(b, y.0)
    ensures Sorted(a + [y] + b)
  {
    var c := [y] + b;
    SortedSplit(a, z, c);
    assert a + c == a + [y] + b;
    SortedSplit(a, y, b);
    assert c[0] == y && forall i :: 0 <= i < |b| ==> c[i + 1] == b[i];
  }

  lemma NeighbourRemoved(a: seq<Entry>, z: Entry, y: Entry, b: seq<Entry>)
    requires Sorted(a + [z] + ([y] + b))
    ensures MapOf(a + [y] + b) == MapOf(a + [z] + ([y] + b)) - {z.0}
  {
    MapOfSplit(a, z, [y] + b);
    RemoveInserted(MapOf(a + ([y] + b)), z.0, z.1);
    assert a + ([y] + b) == a + [y] + b;
  }

  /** The contents after nodes `z` and `y` exchange key and value. */
  function Swapped(s: seq<string>, z: nat, y: nat): seq<string>
    requires z < |s| && y < |s|
  {
    s[z := s[y]][y := s[z]]
  }

  lemma {:induction false} SwappedEntries(a: seq<nat>, z: nat, y: nat, b: seq<nat>, key: seq<string>, value: seq<string>)
    requires z < |key| == |value| && y < |key| && z != y
    requires z !in a && y !in a && z !in b && y !in b
    ensures Entries(a + [z] + b, Swapped(key, z, y), Swapped(value, z, y))
         == Entries(a, key, value) + [(key[y], value[y])] + Entries(b, key, value)
  {
    EntriesFrame(a, key, value, Swapped(key, z, y), Swapped(value, z, y));
    EntriesFrame(b, key, value, Swapped(key, z, y), Swapped(value, z, y));
    EntriesSplit(a, z, b, Swapped(key, z, y), Swapped(value, z, y));
  }

  /** Exchanging the contents of two neighbours and unlinking the second removes the binding of
      the first. */
  lemma {:induction false} DeletedBySwap(a: seq<nat>, z: nat, y: nat, b: seq<nat>, key: seq<string>, value: seq<string>)
    requires z < |key| == |value| && y < |key|
    requires Sorted(Entries(a + [z] + ([y] + b), key, value))
    ensures Sorted(Entries(a + [z] + b, Swapped(key, z, y), Swapped(value, z, y)))
    ensures MapOf(Entries(a + [z] + b, Swapped(key, z, y), Swapped(value, z, y)))
         == MapOf(Entries(a + [z] + ([y] + b), key, value)) - {key[z]}
    ensures y !in a + [z] + b
  {
    var ea, eb, ez, ey := Entries(a, key, value), Entries(b, key, value), (key[z], value[z]), (key[y], value[y]);
    assert Entries(a + [z] + ([y] + b), key, value) == ea + [ez] + ([ey] + eb) by {
      EntriesSplit(a, z, [y] + b, key, value);
      EntriesSplit([y], 0, b, key, value);
    }
    NeighboursSorted(ea, ez, ey, eb);
    NeighbourRemoved(ea, ez, ey, eb);
    NotAmong(a, z, key, value);
    NotAmong(a, y, key, value);
    NotAmong(b, z, key, value);
    NotAmong(b, y, key, value);
    LessTotal(ez.0, ez.0);
    SwappedEntries(a, z, y, b, key, value);
  }

  /** Unlinking a node removes its binding. */
  lemma {:induction false} DeletedInPlace(a: seq<nat>, z: nat, b: seq<nat>, key: seq<string>, value: seq<string>)
    requires Sorted(Entries(a + [z] + b, key, value))
    ensures Sorted(Entries(a + b, key, value))
    ensures MapOf(Entries(a + b, key, value)) == MapOf(Entries(a + [z] + b, key, value)) - {At(key, z)}
    ensures z !in a + b
  {
    var ea, eb, ez := Entries(a, key, value), Entries(b, key, value), (At(key, z), At(value, z));
    EntriesSplit(a, z, b, key, value);
    SortedSplit(ea, ez, eb);
    NotAmong(a, z, key, value);
    NotAmong(b, z, key, value);
    MapOfSplit(ea, ez, eb);
    RemoveInserted(MapOf(ea + eb), ez.0, ez.1);
  }

  lemma NotAmong(ids: seq<nat>, z: nat, key: seq<string>, value: seq<string>)
    requires AllBelow(Entries(ids, key, value), At(key, z)) || AllAbove(Entries(ids, key, value), At(key, z))
    ensures z !in ids
  {
    if z in ids {
      var i :| 0 <= i < |ids| && ids[i] == z;
      assert Entries(ids, key, value)[i].0 == At(key, z);
      LessTotal(At(key, z), At(key, z));
    }
  }

  lemma RemoveInserted<K, V>(m: map<K, V>, k: K, v: V)
    requires k !in m
    ensures m[k := v] - {k} == m
  {
  }

  /** What deleting node `t.id` leaves, when the node unlinked is `ty.id`: either the same node or,
      if it has two children, its successor, whose contents it takes over. */
  lemma {:induction false} RemovedContents(q: Path, t: Tree, qy: Path, ty: Tree, key: seq<string>, value: seq<string>)
    requires t.Node? && ty.Node? && (ty.left.Leaf? || ty.right.Leaf?) && Plug(q, t) == Plug(qy, ty)
    requires Sorted(EntriesOf(Plug(q, t), key, value))
    requires t.id < |key| == |value| && ty.id < |key|
    requires t.left.Leaf? || t.right.Leaf? ==> ty == t && qy == q
    requires t.left.Node? && t.right.Node? ==> Preceding(qy, ty) == Preceding(q, t) + [t.id]
    ensures Sorted(Entries(Preceding(qy, ty) + Following(qy, ty), Swapped(key, t.id, ty.id), Swapped(value, t.id, ty.id)))
    ensures MapOf(Entries(Preceding(qy, ty) + Following(qy, ty), Swapped(key, t.id, ty.id), Swapped(value, t.id, ty.id)))
         == MapOf(EntriesOf(Plug(q, t), key, value)) - {key[t.id]}
    ensures ty.id !in Preceding(qy, ty) + Following(qy, ty) && ty.id in Ids(Plug(q, t))
    ensures t.id == ty.id ==> Swapped(key, t.id, ty.id) == key && Swapped(value, t.id, ty.id) == value
  {
    var a, z, y, b := Preceding(qy, ty), t.id, ty.id, Following(qy, ty);
    OrderAround(qy, ty);
    PlugIds(qy, ty);
    assert z == y ==> Swapped(key, z, y) == key && Swapped(value, z, y) == value;
    if t.left.Node? && t.right.Node? {
      assert a + [y] + b == Preceding(q, t) + [z] + ([y] + b);
      DeletedBySwap(Preceding(q, t), z, y, b, key, value);
    } else {
      DeletedInPlace(a, z, b, key, value);
    }
  }

  /** Overwriting the value of a node overwrites the value of its key. */
  lemma {:induction false} ModifiedBinding(q: Path, t: Tree, v: string, key: seq<string>, value: seq<string>)
    requires t.Node? && t.id < |value| && Sorted(EntriesOf(Plug(q, t), key, value))
    ensures Sorted(EntriesOf(Plug(q, t), key, value[t.id := v]))
    ensures MapOf(EntriesOf(Plug(q, t), key, value[t.id := v]))
         == MapOf(EntriesOf(Plug(q, t), key, value))[At(key, t.id) := v]
  {
    var a, z, b := Preceding(q, t), t.id, Following(q, t);
    OrderAround(q, t);
    EntriesSplit(a, z, b, key, value);
    EntriesSplit(a, z, b, key, value[z := v]);
    var ea, eb, e := Entries(a, key, value), Entries(b, key, value), (At(key, z), At(value, z));
    SortedSplit(ea, e, eb);
    NotAmong(a, z, key, value);
    NotAmong(b, z, key, value);
    EntriesFrame(a, key, value, key, value[z := v]);
    EntriesFrame(b, key, value, key, value[z := v]);
    SortedInsert(ea, (e.0, v), eb);
    MapOfSplit(ea, e, eb);
    MapOfSplit(ea, (e.0, v), eb);
  }
}
