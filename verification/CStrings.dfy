/** Keys as C strings: the order of `strcmp`, and the bindings held by an ordered list of nodes. */
module CStrings {
  /** `strcmp(a, b) < 0`. */
  predicate Less(a: string, b: string) {
    b != [] && (a == [] || a[0] < b[0] || (a[0] == b[0] && Less(a[1..], b[1..])))
  }

  lemma {:induction false} LessTotal(a: string, b: string)
    ensures Less(a, b) || a == b || Less(b, a)
    ensures !(Less(a, b) && Less(b, a)) && !Less(a, a)
  {
    if a != [] && b != [] {
      LessTotal(a[1..], b[1..]);
      assert a[0] == b[0] && a[1..] == b[1..] ==> a == b by {
        assert a == [a[0]] + a[1..] && b == [b[0]] + b[1..];
      }
    }
    if a != [] {
      LessTotal(a[1..], a[1..]);
    }
  }

  lemma {:induction false} LessTransitive(a: string, b: string, c: string)
    requires Less(a, b) && Less(b, c)
    ensures Less(a, c)
  {
    if a != [] && a[0] == b[0] == c[0] {
      LessTransitive(a[1..], b[1..], c[1..]);
    }
  }

  /** The order is decided by the first difference; a proper prefix comes first. */
  lemma {:induction false} LessIff(a: string, b: string)
    ensures Less(a, b) <==> exists i: nat :: FirstDifference(a, b, i)
  {
    if b == [] || a == [] || a[0] != b[0] {
      if Less(a, b) {
        assert FirstDifference(a, b, 0);
      }
    } else {
      LessIff(a[1..], b[1..]);
      if Less(a, b) {
        var i: nat :| FirstDifference(a[1..], b[1..], i);
        assert a == [a[0]] + a[1..] && b == [b[0]] + b[1..];
        assert FirstDifference(a, b, i + 1);
      }
      if i: nat :| FirstDifference(a, b, i) {
        assert a[1..][..i - 1] == a[..i][1..] && b[1..][..i - 1] == b[..i][1..];
        assert FirstDifference(a[1..], b[1..], i - 1);
      }
    }
  }

  /** `a` and `b` agree before position `i`, where `a` ends or has the smaller character. */
  predicate FirstDifference(a: string, b: string, i: nat) {
    i <= |a| && i < |b| && a[..i] == b[..i] && (i < |a| ==> a[i] < b[i])
  }

  // ---------------------------------------------------------------- sorted bindings

  type Entry = (string, string)

  ghost predicate Sorted(es: seq<Entry>) {
    forall i, j :: 0 <= i < j < |es| ==> Less(es[i].0, es[j].0)
  }

  ghost predicate AllBelow(es: seq<Entry>, k: string) {
    forall i :: 0 <= i < |es| ==> Less(es[i].0, k)
  }

  ghost predicate AllAbove(es: seq<Entry>, k: string) {
    forall i :: 0 <= i < |es| ==> Less(k, es[i].0)
  }

  /** The map a list of bindings stands for. */
  ghost function MapOf(es: seq<Entry>): map<string, string> {
    if |es| == 0 then map[]
    else MapOf(es[..|es| - 1])[es[|es| - 1].0 := es[|es| - 1].1]
  }

  lemma {:induction false} MapOfConcat(a: seq<Entry>, b: seq<Entry>)
    ensures MapOf(a + b) == MapOf(a) + MapOf(b)
  {
    if |b| == 0 {
      assert a + b == a;
    } else {
      var c, e := b[..|b| - 1], b[|b| - 1];
      MapOfConcat(a, c);
      assert (a + b)[..|a + b| - 1] == a + c && (a + b)[|a + b| - 1] == e;
      UpdateRight(MapOf(a), MapOf(c), e.0, e.1);
    }
  }

  lemma UpdateRight<K, V>(a: map<K, V>, b: map<K, V>, k: K, v: V)
    ensures a + b[k := v] == (a + b)[k := v]
  {
  }

  lemma {:induction false} MapOfAbsent(es: seq<Entry>, k: string)
    requires AllBelow(es, k) || AllAbove(es, k)
    ensures k !in MapOf(es)
  {
    if |es| > 0 {
      LessTotal(k, k);
      MapOfAbsent(es[..|es| - 1], k);
    }
  }

  /** Keys around a binding of a sorted list are smaller on its left and larger on its right. */
  lemma SortedSplit(a: seq<Entry>, e: Entry, b: seq<Entry>)
    requires Sorted(a + [e] + b)
    ensures AllBelow(a, e.0) && AllAbove(b, e.0) && Sorted(a + b)
  {
    var s, r := a + [e] + b, a + b;
    assert s[|a|] == e;
    assert forall i :: 0 <= i < |a| ==> a[i] == s[i];
    assert forall i :: 0 <= i < |b| ==> b[i] == s[|a| + 1 + i];
    assert forall i :: 0 <= i < |r| ==> r[i] == s[if i < |a| then i else i + 1];
  }

  lemma SortedInsert(a: seq<Entry>, e: Entry, b: seq<Entry>)
    requires Sorted(a + b) && AllBelow(a, e.0) && AllAbove(b, e.0)
    ensures Sorted(a + [e] + b)
  {
    var s, r := a + [e] + b, a + b;
    forall i, j | 0 <= i < j < |s|
      ensures Less(s[i].0, s[j].0)
    {
      if i == |a| {
        assert s[j] == b[j - |a| - 1];
      } else if j == |a| {
        assert s[i] == a[i];
      } else {
        assert s[i] == r[if i < |a| then i else i - 1] && s[j] == r[if j < |a| then j else j - 1];
      }
    }
  }

  lemma InsertSize<K, V>(m: map<K, V>, k: K, v: V)
    requires k !in m
    ensures |m[k := v]| == |m| + 1
  {
    assert m[k := v].Keys == m.Keys + {k};
  }

  lemma InsertBetween<K, V>(a: map<K, V>, k: K, v: V, b: map<K, V>)
    requires k !in a && k !in b
    ensures a + map[k := v] + b == (a + b)[k := v]
  {
  }

  lemma MapOfSingle(e: Entry)
    ensures MapOf([e]) == map[e.0 := e.1]
  {
    assert [e][..0] == [];
  }

  /** One more entry in a sorted list is exactly one more binding in the map. */
  lemma {:induction false} MapOfSplit(a: seq<Entry>, e: Entry, b: seq<Entry>)
    requires Sorted(a + [e] + b)
    ensures e.0 !in MapOf(a + b)
    ensures MapOf(a + [e] + b) == MapOf(a + b)[e.0 := e.1]
    ensures |MapOf(a + [e] + b)| == |MapOf(a + b)| + 1
  {
    SortedSplit(a, e, b);
    MapOfAbsent(a, e.0);
    MapOfAbsent(b, e.0);
    InsertBetween(MapOf(a), e.0, e.1, MapOf(b));
    InsertSize(MapOf(a) + MapOf(b), e.0, e.1);
    MapOfSingle(e);
    MapOfConcat(a + [e], b);
    MapOfConcat(a, [e]);
    MapOfConcat(a, b);
  }

  lemma {:induction false} MapOfSize(es: seq<Entry>)
    requires Sorted(es)
    ensures |MapOf(es)| == |es|
  {
    if |es| > 0 {
      var a, e := es[..|es| - 1], es[|es| - 1];
      MapOfAbsent(a, e.0);
      InsertSize(MapOf(a), e.0, e.1);
      MapOfSize(a);
    }
  }

  // ---------------------------------------------------------------- entries held in node fields

  function At(s: seq<string>, i: nat): string {
    if i < |s| then s[i] else ""
  }

  /** The bindings stored in the listed nodes, in the order of the list. */
  ghost function Entries(ids: seq<nat>, key: seq<string>, value: seq<string>): seq<Entry> {
    seq(|ids|, i requires 0 <= i < |ids| => (At(key, ids[i]), At(value, ids[i])))
  }

  lemma EntriesSplit(a: seq<nat>, z: nat, b: seq<nat>, key: seq<string>, value: seq<string>)
    ensures Entries(a + [z] + b, key, value)
         == Entries(a, key, value) + [(At(key, z), At(value, z))] + Entries(b, key, value)
    ensures Entries(a + b, key, value) == Entries(a, key, value) + Entries(b, key, value)
  {
  }

  lemma EntriesCons(z: nat, b: seq<nat>, key: seq<string>, value: seq<string>)
    ensures Entries([z] + b, key, value) == [(At(key, z), At(value, z))] + Entries(b, key, value)
  {
  }

  lemma EntriesSnoc(a: seq<nat>, z: nat, key: seq<string>, value: seq<string>)
    ensures Entries(a + [z], key, value) == Entries(a, key, value) + [(At(key, z), At(value, z))]
  {
  }

  lemma EntriesFrame(ids: seq<nat>, key: seq<string>, value: seq<string>, key': seq<string>, value': seq<string>)
    requires forall i :: i in ids ==> At(key', i) == At(key, i) && At(value', i) == At(value, i)
    ensures Entries(ids, key', value') == Entries(ids, key, value)
  {
  }
}
