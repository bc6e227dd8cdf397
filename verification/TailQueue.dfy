/** The tail queues of `NtyCo/core/nty_queue.h`.

A queue head holds the first element and the address of the link that ends the list; an element
holds its successor and the address of the link that points to it. Those addresses are what makes
the macros short and hard to read: storing through `tqh_last` or `tqe_prev` writes either a head
or an element, and `TAILQ_LAST` and `TAILQ_PREV` read an element's entry as if it were a head. */
module TailQueue {

  /** The address of a link: `tqh_first` of a head, or `tqe_next` of an element. */
  datatype Addr = AtHead(h: nat) | AtElem(e: nat)

  /** The heads `(first, last)` and the entries `(next, prev)`; element 0 is NULL. */
  datatype Links = Links(first: seq<nat>, last: seq<Addr>, next: seq<nat>, prev: seq<Addr>)

  predicate Mapped(m: Links, a: Addr) {
    match a
    case AtHead(h) => h < |m.first| == |m.last|
    case AtElem(e) => 0 < e < |m.next| == |m.prev|
  }

  function Load(m: Links, a: Addr): nat {
    if !Mapped(m, a) then 0 else match a case AtHead(h) => m.first[h] case AtElem(e) => m.next[e]
  }

  /** `*a = x` */
  function Store(m: Links, a: Addr, x: nat): Links
    requires Mapped(m, a)
  {
    match a
    case AtHead(h) => m.(first := m.first[h := x])
    case AtElem(e) => m.(next := m.next[e := x])
  }

  /** The field that follows the link at `a`: `tqh_last` or `tqe_prev`, which lie at the same offset. */
  function Beside(m: Links, a: Addr): Addr {
    if !Mapped(m, a) then a else match a case AtHead(h) => m.last[h] case AtElem(e) => m.prev[e]
  }

  function StoreBeside(m: Links, a: Addr, b: Addr): Links
    requires Mapped(m, a)
  {
    match a
    case AtHead(h) => m.(last := m.last[h := b])
    case AtElem(e) => m.(prev := m.prev[e := b])
  }

  // ---------------------------------------------------------------- what a queue is

  /** The address of the link that leads to position `i`. */
  function Slot(h: nat, s: seq<nat>, i: nat): Addr
    requires i <= |s|
  {
    if i == 0 then AtHead(h) else AtElem(s[i - 1])
  }

  ghost predicate LinkAt(m: Links, h: nat, s: seq<nat>, i: nat)
    requires i < |s|
  {
    Load(m, Slot(h, s, i)) == s[i] && Beside(m, AtElem(s[i])) == Slot(h, s, i)
  }

  ghost predicate Fresh(m: Links, s: seq<nat>) {
    && (forall i :: 0 <= i < |s| ==> Mapped(m, AtElem(s[i])))
    && (forall i, j :: 0 <= i < j < |s| ==> s[i] != s[j])
  }

  /** Head `h` represents the sequence `s`. */
  ghost predicate Linked(m: Links, h: nat, s: seq<nat>) {
    && Mapped(m, AtHead(h))
    && Fresh(m, s)
    && (forall i :: 0 <= i < |s| ==> LinkAt(m, h, s, i))
    && Load(m, Slot(h, s, |s|)) == 0
    && Beside(m, AtHead(h)) == Slot(h, s, |s|)
  }

  ghost predicate SameSize(m: Links, n: Links) {
    |m.first| == |n.first| && |m.last| == |n.last| && |m.next| == |n.next| && |m.prev| == |n.prev|
  }

  /** `n` differs from `m` at most in the links of `links` and the neighbouring fields of `sides`. */
  ghost predicate Changed(m: Links, n: Links, links: set<Addr>, sides: set<Addr>) {
    && SameSize(m, n)
    && (forall a :: a !in links ==> Load(n, a) == Load(m, a))
    && (forall a :: a !in sides ==> Beside(n, a) == Beside(m, a))
  }

  /** No head or element of the queue `(h, s)` is among `addrs`. */
  ghost predicate Avoids(h: nat, s: seq<nat>, addrs: set<Addr>) {
    AtHead(h) !in addrs && forall i :: 0 <= i < |s| ==> AtElem(s[i]) !in addrs
  }

  lemma Untouched(m: Links, n: Links, links: set<Addr>, sides: set<Addr>, h: nat, s: seq<nat>)
    requires Linked(m, h, s) && Changed(m, n, links, sides)
    requires Avoids(h, s, links) && Avoids(h, s, sides)
    ensures Linked(n, h, s)
  {
    forall i | 0 <= i < |s|
      ensures LinkAt(n, h, s, i)
    {
      assert LinkAt(m, h, s, i);
    }
  }

  // ---------------------------------------------------------------- insertion and removal

  function Inserted(s: seq<nat>, k: nat, e: nat): seq<nat>
    requires k <= |s|
  {
    s[..k] + [e] + s[k..]
  }

  function Removed(s: seq<nat>, k: nat): seq<nat>
    requires k < |s|
  {
    s[..k] + s[k + 1..]
  }

  /** The link after position `k`, if any, is held by the element there; otherwise the head ends it. */
  function Owner(h: nat, s: seq<nat>, k: nat): Addr
    requires k <= |s|
  {
    if k < |s| then AtElem(s[k]) else AtHead(h)
  }

  function NextId(s: seq<nat>, k: nat): nat
    requires k <= |s|
  {
    if k < |s| then s[k] else 0
  }

  lemma InsertedFresh(m: Links, s: seq<nat>, k: nat, e: nat)
    requires Fresh(m, s) && k <= |s| && e !in s && Mapped(m, AtElem(e))
    ensures Fresh(m, Inserted(s, k, e))
  {
    var r := Inserted(s, k, e);
    assert forall i :: 0 <= i < |r| ==> r[i] == if i < k then s[i] else if i == k then e else s[i - 1];
  }

  lemma InsertedLink(m: Links, n: Links, h: nat, s: seq<nat>, k: nat, e: nat, i: nat)
    requires Linked(m, h, s) && k <= |s| && e !in s && Mapped(m, AtElem(e)) && i <= |s|
    requires InsertChange(m, n, h, s, k, e)
    ensures LinkAt(n, h, Inserted(s, k, e), i)
  {
    if i < k {
      assert LinkAt(m, h, s, i);
    } else if i > k {
      assert LinkAt(m, h, s, i - 1);
    }
  }

  /** The four insertions change the same three places: the link before, the side entry after, and
      the entry of the new element. */
  lemma InsertedLinks(m: Links, n: Links, h: nat, s: seq<nat>, k: nat, e: nat)
    requires Linked(m, h, s) && k <= |s| && e !in s && Mapped(m, AtElem(e))
    requires InsertChange(m, n, h, s, k, e)
    ensures Linked(n, h, Inserted(s, k, e))
  {
    var r := Inserted(s, k, e);
    InsertedFresh(m, s, k, e);
    assert Fresh(n, r);
    forall i | 0 <= i < |r|
      ensures LinkAt(n, h, r, i)
    {
      InsertedLink(m, n, h, s, k, e, i);
    }
    assert Slot(h, r, |r|) == if k < |s| then Slot(h, s, |s|) else AtElem(e);
  }

  lemma RemovedLinks(m: Links, n: Links, h: nat, s: seq<nat>, k: nat)
    requires Linked(m, h, s) && k < |s|
    requires RemoveChange(m, n, h, s, k)
    ensures Linked(n, h, Removed(s, k))
  {
    var r := Removed(s, k);
    assert forall i :: 0 <= i < |r| ==> r[i] == s[if i < k then i else i + 1];
    forall i | 0 <= i < |r|
      ensures LinkAt(n, h, r, i)
    {
      if i < k {
        assert LinkAt(m, h, s, i);
      } else {
        assert LinkAt(m, h, s, i + 1);
      }
    }
  }

  lemma ConcatLinks(m: Links, n: Links, h: nat, s: seq<nat>, g: nat, t: seq<nat>)
    requires Linked(m, h, s) && Linked(m, g, t) && h != g && Apart(s, t) && ConcatChange(m, n, h, s, g, t)
    ensures Linked(n, h, s + t) && Linked(n, g, [])
  {
    var r := s + t;
    forall i | 0 <= i < |r|
      ensures LinkAt(n, h, r, i)
    {
      if i < |s| {
        assert LinkAt(m, h, s, i);
      } else {
        assert LinkAt(m, g, t, i - |s|);
      }
    }
  }

  // ---------------------------------------------------------------- queueing an element twice

  /** The four writes of TAILQ_INSERT_TAIL. */
  function TailInserted(m: Links, h: nat, e: nat): Links
    requires Mapped(m, AtHead(h)) && Mapped(m, AtElem(e)) && Mapped(m, m.last[h])
  {
    var m1 := StoreBeside(Store(m, AtElem(e), 0), AtElem(e), m.last[h]);
    var m2 := Store(m1, m.last[h], e);
    StoreBeside(m2, AtHead(h), AtElem(e))
  }

  /** Up to the first place where `e` was queued, any queue found afterwards is the old one. */
  lemma {:induction false} SamePrefix(m: Links, h: nat, s: seq<nat>, e: nat, r: seq<nat>, k: nat, j: nat)
    requires Linked(m, h, s) && j <= k < |s| && s[k] == e && Mapped(m, m.last[h]) && Linked(TailInserted(m, h, e), h, r)
    ensures j < |r| && r[j] == s[j] && Slot(h, r, j) == Slot(h, s, j)
    ensures Beside(TailInserted(m, h, e), AtElem(s[j])) == Slot(h, s, j)
  {
    if j > 0 {
      SamePrefix(m, h, s, e, r, k, j - 1);
    }
    var n := TailInserted(m, h, e);
    assert LinkAt(m, h, s, j) && Mapped(m, AtElem(s[j]));
    assert Slot(h, r, j) == Slot(h, s, j);
    assert Load(n, Slot(h, s, j)) == Load(m, Slot(h, s, j));
    if j < |r| {
      assert LinkAt(n, h, r, j);
    }
  }

  lemma RequeueBreaks(m: Links, h: nat, s: seq<nat>, e: nat, r: seq<nat>)
    requires Linked(m, h, s) && e in s && Mapped(m, m.last[h])
    ensures !Linked(TailInserted(m, h, e), h, r)
  {
    var k :| 0 <= k < |s| && s[k] == e;
    var n := TailInserted(m, h, e);
    assert Beside(n, AtElem(e)) == Slot(h, s, |s|) != Slot(h, s, k);
    if Linked(n, h, r) {
      SamePrefix(m, h, s, e, r, k, k);
    }
  }

  /** Inserting at the tail leaves a queue exactly if the element was not queued already. */
  lemma InsertTailIff(m: Links, h: nat, s: seq<nat>, e: nat)
    requires Linked(m, h, s) && Mapped(m, AtElem(e))
    ensures Mapped(m, m.last[h]) && ((exists r :: Linked(TailInserted(m, h, e), h, r)) <==> e !in s)
  {
    assert Mapped(m, Slot(h, s, |s|));
    if e in s {
      forall r
        ensures !Linked(TailInserted(m, h, e), h, r)
      {
        RequeueBreaks(m, h, s, e, r);
      }
    } else {
      InsertedLinks(m, TailInserted(m, h, e), h, s, |s|, e);
    }
  }

  // ---------------------------------------------------------------- several queues at once

  ghost predicate Apart(s: seq<nat>, t: seq<nat>) {
    forall i, j :: 0 <= i < |s| && 0 <= j < |t| ==> s[i] != t[j]
  }

  ghost predicate Disjoint(items: seq<seq<nat>>) {
    forall g, h :: 0 <= g < |items| && 0 <= h < |items| && g != h ==> Apart(items[g], items[h])
  }

  /** Every head `h` represents `items[h]`, and no element is in two queues. */
  ghost predicate AllLinked(m: Links, items: seq<seq<nat>>) {
    && |m.first| == |m.last| == |items|
    && 0 < |m.next| == |m.prev|
    && (forall h :: 0 <= h < |items| ==> Linked(m, h, items[h]))
    && Disjoint(items)
  }

  ghost predicate InNone(items: seq<seq<nat>>, e: nat) {
    forall h :: 0 <= h < |items| ==> e !in items[h]
  }

  lemma StaysDisjoint(items: seq<seq<nat>>, h: nat, r: seq<nat>, e: nat)
    requires Disjoint(items) && h < |items|
    requires forall i :: 0 <= i < |r| ==> r[i] in items[h] || (r[i] == e && InNone(items, e))
    ensures Disjoint(items[h := r])
  {
    forall g | 0 <= g < |items| && g != h
      ensures Apart(items[g], r) && Apart(r, items[g])
    {
      assert Apart(items[g], items[h]);
    }
  }

  lemma OthersUntouched(m: Links, n: Links, links: set<Addr>, sides: set<Addr>, items: seq<seq<nat>>, h: nat, r: seq<nat>)
    requires AllLinked(m, items) && h < |items| && Changed(m, n, links, sides)
    requires forall g :: 0 <= g < |items| && g != h ==> Avoids(g, items[g], links + sides)
    requires Linked(n, h, r) && Disjoint(items[h := r])
    ensures AllLinked(n, items[h := r])
  {
    forall g | 0 <= g < |items| && g != h
      ensures Linked(n, g, items[g])
    {
      assert Avoids(g, items[g], links + sides);
      assert Avoids(g, items[g], links) && Avoids(g, items[g], sides);
      Untouched(m, n, links, sides, g, items[g]);
    }
  }

  ghost predicate InsertChange(m: Links, n: Links, h: nat, s: seq<nat>, k: nat, e: nat)
    requires k <= |s|
  {
    && Changed(m, n, {Slot(h, s, k), AtElem(e)}, {Owner(h, s, k), AtElem(e)})
    && Load(n, Slot(h, s, k)) == e && Load(n, AtElem(e)) == NextId(s, k)
    && Beside(n, AtElem(e)) == Slot(h, s, k) && Beside(n, Owner(h, s, k)) == AtElem(e)
  }

  lemma InsertedQueues(m: Links, n: Links, items: seq<seq<nat>>, h: nat, k: nat, e: nat)
    requires AllLinked(m, items) && InNone(items, e) && 0 < e < |m.next|
    requires h < |items| && k <= |items[h]| && InsertChange(m, n, h, items[h], k, e)
    ensures AllLinked(n, items[h := Inserted(items[h], k, e)])
  {
    var s := items[h];
    InsertedLinks(m, n, h, s, k, e);
    StaysDisjoint(items, h, Inserted(s, k, e), e);
    var links, sides := {Slot(h, s, k), AtElem(e)}, {Owner(h, s, k), AtElem(e)};
    forall g | 0 <= g < |items| && g != h
      ensures Avoids(g, items[g], links + sides)
    {
      assert Apart(items[g], s);
    }
    OthersUntouched(m, n, links, sides, items, h, Inserted(s, k, e));
  }

  ghost predicate RemoveChange(m: Links, n: Links, h: nat, s: seq<nat>, k: nat)
    requires k < |s|
  {
    && Changed(m, n, {Slot(h, s, k)}, {Owner(h, s, k + 1)})
    && Load(n, Slot(h, s, k)) == NextId(s, k + 1) && Beside(n, Owner(h, s, k + 1)) == Slot(h, s, k)
  }

  lemma RemovedQueues(m: Links, n: Links, items: seq<seq<nat>>, h: nat, k: nat)
    requires AllLinked(m, items) && h < |items| && k < |items[h]| && RemoveChange(m, n, h, items[h], k)
    ensures AllLinked(n, items[h := Removed(items[h], k)])
    ensures InNone(items[h := Removed(items[h], k)], items[h][k])
  {
    var s, r := items[h], Removed(items[h], k);
    RemovedLinks(m, n, h, s, k);
    assert forall i :: 0 <= i < |r| ==> r[i] == s[if i < k then i else i + 1];
    StaysDisjoint(items, h, r, 0);
    var links, sides := {Slot(h, s, k)}, {Owner(h, s, k + 1)};
    forall g | 0 <= g < |items| && g != h
      ensures Avoids(g, items[g], links + sides) && s[k] !in items[g]
    {
      assert Apart(items[g], s);
    }
    OthersUntouched(m, n, links, sides, items, h, r);
  }

  ghost predicate ConcatChange(m: Links, n: Links, h: nat, s: seq<nat>, g: nat, t: seq<nat>) {
    && t != []
    && Changed(m, n, {Slot(h, s, |s|), AtHead(g)}, {AtElem(t[0]), AtHead(h), AtHead(g)})
    && Load(n, Slot(h, s, |s|)) == t[0] && Load(n, AtHead(g)) == 0
    && Beside(n, AtElem(t[0])) == Slot(h, s, |s|)
    && Beside(n, AtHead(h)) == Slot(g, t, |t|) && Beside(n, AtHead(g)) == AtHead(g)
  }

  lemma ConcatDisjoint(items: seq<seq<nat>>, h: nat, g: nat)
    requires Disjoint(items) && h < |items| && g < |items| && h != g
    ensures Disjoint(items[h := items[h] + items[g]][g := []])
  {
    forall f | 0 <= f < |items| && f != h && f != g
      ensures Apart(items[f], items[h] + items[g]) && Apart(items[h] + items[g], items[f])
    {
      assert Apart(items[f], items[h]) && Apart(items[f], items[g]);
    }
  }

  lemma ConcatQueues(m: Links, n: Links, items: seq<seq<nat>>, h: nat, g: nat)
    requires AllLinked(m, items) && h < |items| && g < |items| && h != g
    requires ConcatChange(m, n, h, items[h], g, items[g])
    ensures AllLinked(n, items[h := items[h] + items[g]][g := []])
  {
    var s, t := items[h], items[g];
    assert Apart(s, t);
    ConcatLinks(m, n, h, s, g, t);
    ConcatDisjoint(items, h, g);
    forall f | 0 <= f < |items| && f != h && f != g
      ensures Linked(n, f, items[f])
    {
      assert Apart(items[f], s) && Apart(items[f], t);
      Untouched(m, n, {Slot(h, s, |s|), AtHead(g)}, {AtElem(t[0]), AtHead(h), AtHead(g)}, f, items[f]);
    }
  }

  // ---------------------------------------------------------------- the queues of a program

  class Queues {
    var m: Links
    ghost var items: seq<seq<nat>>

    ghost predicate Valid()
      reads this
    {
      AllLinked(m, items)
    }

    /** `e` is an element of no queue. */
    ghost predicate Free(e: nat)
      reads this
    {
      0 < e < |m.next| && InNone(items, e)
    }

    constructor (heads: nat, elements: nat)
      ensures Valid() && |items| == heads && |m.next| == elements + 1
      ensures forall h :: 0 <= h < heads ==> items[h] == []
    {
      m := Links(seq(heads, _ => 0), seq(heads, h requires h >= 0 => AtHead(h)), seq(elements + 1, _ => 0), seq(elements + 1, _ => AtHead(0)));
      items := seq(heads, _ => []);
    }

    /** TAILQ_INIT: the head forgets whatever it held. */
    method Init(h: nat)
      requires Valid() && h < |items|
      modifies this
      ensures Valid() && items == old(items)[h := []] && |m.next| == old(|m.next|)
    {
      ghost var m0, was := m, items;
      m := m.(first := m.first[h := 0]);
      m := m.(last := m.last[h := AtHead(h)]);
      items := items[h := []];
      forall g | 0 <= g < |items|
        ensures Linked(m, g, items[g])
      {
        if g != h {
          Untouched(m0, m, {AtHead(h)}, {AtHead(h)}, g, was[g]);
        }
      }
    }

    method InsertTail(h: nat, e: nat)
      requires Valid() && h < |items| && Free(e)
      modifies this
      ensures Valid() && items == old(items)[h := old(items[h]) + [e]] && |m.next| == old(|m.next|)
      ensures old(Mapped(m, m.last[h])) && m == TailInserted(old(m), h, e)
    {
      ghost var m0, s := m, items[h];
      m := Store(m, AtElem(e), 0);
      m := StoreBeside(m, AtElem(e), m.last[h]);
      m := Store(m, m.last[h], e);
      m := m.(last := m.last[h := AtElem(e)]);
      InsertedQueues(m0, m, items, h, |s|, e);
      assert Inserted(s, |s|, e) == s + [e];
      items := items[h := Inserted(s, |s|, e)];
    }

    method InsertHead(h: nat, e: nat)
      requires Valid() && h < |items| && Free(e)
      modifies this
      ensures Valid() && items == old(items)[h := [e] + old(items[h])] && |m.next| == old(|m.next|)
    {
      ghost var m0, s := m, items[h];
      assert s != [] ==> LinkAt(m, h, s, 0);
      m := Store(m, AtElem(e), m.first[h]);
      if m.next[e] != 0 {
        m := StoreBeside(m, AtElem(m.first[h]), AtElem(e));
      } else {
        m := m.(last := m.last[h := AtElem(e)]);
      }
      m := m.(first := m.first[h := e]);
      m := StoreBeside(m, AtElem(e), AtHead(h));
      InsertedQueues(m0, m, items, h, 0, e);
      assert Inserted(s, 0, e) == [e] + s;
      items := items[h := Inserted(s, 0, e)];
    }

    /** Inserts `e` after `x`, the element at position `k` of queue `h`. */
    method InsertAfter(h: nat, x: nat, e: nat, ghost k: nat)
      requires Valid() && h < |items| && Free(e) && k < |items[h]| && items[h][k] == x
      modifies this
      ensures Valid() && items == old(items)[h := Inserted(old(items[h]), k + 1, e)] && |m.next| == old(|m.next|)
    {
      ghost var m0, s := m, items[h];
      assert Slot(h, s, k + 1) == AtElem(x);
      assert k + 1 < |s| ==> LinkAt(m, h, s, k + 1);
      assert e != x;
      m := Store(m, AtElem(e), m.next[x]);
      if m.next[e] != 0 {
        m := StoreBeside(m, AtElem(m.next[e]), AtElem(e));
      } else {
        m := m.(last := m.last[h := AtElem(e)]);
      }
      m := Store(m, AtElem(x), e);
      m := StoreBeside(m, AtElem(e), AtElem(x));
      InsertedQueues(m0, m, items, h, k + 1, e);
      items := items[h := Inserted(s, k + 1, e)];
    }

    /** Inserts `e` before `x`, the element at position `k` of queue `h`; the head is not named. */
    method InsertBefore(x: nat, e: nat, ghost h: nat, ghost k: nat)
      requires Valid() && h < |items| && Free(e) && k < |items[h]| && items[h][k] == x
      modifies this
      ensures Valid() && items == old(items)[h := Inserted(old(items[h]), k, e)] && |m.next| == old(|m.next|)
    {
      ghost var m0, s := m, items[h];
      assert LinkAt(m, h, s, k) && Mapped(m, AtElem(s[k]));
      assert e != x;
      assert Mapped(m, Slot(h, s, k));
      m := StoreBeside(m, AtElem(e), m.prev[x]);
      m := Store(m, AtElem(e), x);
      m := Store(m, m.prev[x], e);
      m := StoreBeside(m, AtElem(x), AtElem(e));
      InsertedQueues(m0, m, items, h, k, e);
      items := items[h := Inserted(s, k, e)];
    }

    /** Takes out `e`, the element at position `k` of queue `h`. */
    method Remove(h: nat, e: nat, ghost k: nat)
      requires Valid() && h < |items| && k < |items[h]| && items[h][k] == e
      modifies this
      ensures Valid() && items == old(items)[h := Removed(old(items[h]), k)] && |m.next| == old(|m.next|)
      ensures Free(e)
    {
      ghost var m0, s := m, items[h];
      assert LinkAt(m, h, s, k) && (k + 1 < |s| ==> LinkAt(m, h, s, k + 1));
      assert Mapped(m, Slot(h, s, k)) && Load(m, AtElem(e)) == NextId(s, k + 1);
      if m.next[e] != 0 {
        m := StoreBeside(m, AtElem(m.next[e]), m.prev[e]);
      } else {
        m := m.(last := m.last[h := m.prev[e]]);
      }
      m := Store(m, m.prev[e], m.next[e]);
      RemovedQueues(m0, m, items, h, k);
      items := items[h := Removed(s, k)];
    }

    /** Moves all of queue `g` to the end of queue `h`. */
    method Concat(h: nat, g: nat)
      requires Valid() && h < |items| && g < |items| && h != g
      modifies this
      ensures Valid() && items == old(items)[h := old(items[h]) + old(items[g])][g := []] && |m.next| == old(|m.next|)
    {
      ghost var m0, s, t := m, items[h], items[g];
      assert t != [] ==> LinkAt(m, g, t, 0);
      if m.first[g] != 0 {
        assert Mapped(m, Slot(h, s, |s|)) && Mapped(m, AtElem(t[0]));
        m := Store(m, m.last[h], m.first[g]);
        m := StoreBeside(m, AtElem(m.first[g]), m.last[h]);
        m := m.(last := m.last[h := m.last[g]]);
        m := m.(first := m.first[g := 0]);
        m := m.(last := m.last[g := AtHead(g)]);
        ConcatQueues(m0, m, items, h, g);
      } else {
        assert s + t == s;
      }
      items := items[h := s + t][g := []];
    }

    // -------------------------------------------------------------- reading

    method First(h: nat) returns (e: nat)
      requires Valid() && h < |items|
      ensures e == NextId(items[h], 0)
      ensures e == 0 <==> items[h] == []
    {
      assert items[h] != [] ==> LinkAt(m, h, items[h], 0);
      e := m.first[h];
    }

    /** TAILQ_LAST, which is NULL for an empty queue. */
    method Last(h: nat) returns (e: nat)
      requires Valid() && h < |items|
      ensures e == if items[h] == [] then 0 else items[h][|items[h]| - 1]
      ensures e == 0 <==> items[h] == []
    {
      ghost var s := items[h];
      assert s != [] ==> LinkAt(m, h, s, |s| - 1);
      e := Load(m, Beside(m, m.last[h]));
    }

    method Next(x: nat, ghost h: nat, ghost k: nat) returns (e: nat)
      requires Valid() && h < |items| && k < |items[h]| && items[h][k] == x
      ensures e == NextId(items[h], k + 1)
      ensures e == 0 <==> k + 1 == |items[h]|
    {
      ghost var s := items[h];
      assert k + 1 < |s| ==> LinkAt(m, h, s, k + 1);
      assert Slot(h, s, k + 1) == AtElem(x);
      e := Load(m, AtElem(x));
    }

    /** TAILQ_PREV, which is NULL for the first element. */
    method Prev(x: nat, ghost h: nat, ghost k: nat) returns (e: nat)
      requires Valid() && h < |items| && k < |items[h]| && items[h][k] == x
      ensures e == if k == 0 then 0 else items[h][k - 1]
    {
      ghost var s := items[h];
      assert LinkAt(m, h, s, k) && (k > 0 ==> LinkAt(m, h, s, k - 1));
      e := Load(m, Beside(m, m.prev[x]));
    }

    /** TAILQ_FOREACH. */
    method Foreach(h: nat) returns (visited: seq<nat>)
      requires Valid() && h < |items|
      ensures visited == items[h]
    {
      visited := [];
      var x := First(h);
      ghost var k := 0;
      while x != 0
        invariant k <= |items[h]| && visited == items[h][..k] && x == NextId(items[h], k)
        invariant x == 0 <==> k == |items[h]|
        decreases |items[h]| - k
      {
        visited := visited + [x];
        x := Next(x, h, k);
        k := k + 1;
      }
    }
  }
}
