/** The chained hash table of `kvstore_hash.c`.

Nodes live in parallel sequences indexed by node, and index 0 is the null pointer. `chains` lists
the nodes of every bucket, and `contents` is the map the table stands for. */
module HashTable {
  import opened Engines

  const MAX_TABLE_SIZE: nat := 102400
  const WORD: int := 0x1_0000_0000_0000_0000

  /** A C `char` is a signed byte; it is widened before it is added. */
  function SignedByte(c: char): int {
    var b := c as int % 256;
    if b < 128 then b else b - 256
  }

  /** The accumulated hash of a key, in unsigned 64-bit arithmetic. */
  function Djb(key: string): (h: nat)
    ensures h < WORD
  {
    if |key| == 0 then 5381 else (Djb(key[..|key| - 1]) * 33 + SignedByte(key[|key| - 1])) % WORD
  }

  /** The bucket a key belongs to. */
  function BucketOf(key: string): (b: nat)
    ensures b < MAX_TABLE_SIZE
  {
    Djb(key) % MAX_TABLE_SIZE
  }

  method Hash(key: string, size: nat) returns (b: nat)
    requires 0 < size
    ensures b == Djb(key) % size
  {
    var hash := 5381;
    for i := 0 to |key|
      invariant hash == Djb(key[..i])
    {
      var c := SignedByte(key[i]);
      assert key[..i + 1][..i] == key[..i];
      var shifted := hash * 32 % WORD;
      hash := ((shifted + hash) % WORD + c) % WORD;
      ShiftAdd(Djb(key[..i]), c);
    }
    assert key[..|key|] == key;
    b := hash % size;
  }

  lemma ShiftAdd(h: nat, c: int)
    ensures ((h * 32 % WORD + h) % WORD + c) % WORD == (h * 33 + c) % WORD
  {
    ModAdd(h * 32, h);
    ModAdd(h * 33, c);
  }

  lemma ModAdd(x: int, c: int)
    ensures (x % WORD + c) % WORD == (x + c) % WORD
  {
    var q, r := x / WORD, x % WORD;
    assert x + c == WORD * q + (r + c);
    ModMultiple(q, r + c);
  }

  lemma ModMultiple(q: int, y: int)
    ensures (WORD * q + y) % WORD == y % WORD
  {
    var z := WORD * q + y;
    assert z == WORD * (q + y / WORD) + y % WORD;
  }

  function Power33(n: nat): nat {
    if n == 0 then 1 else 33 * Power33(n - 1)
  }

  /** The characters of a key, as signed bytes, weighted by powers of 33. */
  function Weighted(key: string): int {
    if key == "" then 0
    else
      var b := key[0] as int % 256;
      (if b < 128 then b else b - 256) * Power33(|key| - 1) + Weighted(key[1..])
  }

  lemma {:induction false} WeightedSnoc(key: string, c: char)
    ensures var b := c as int % 256;
      Weighted(key + [c]) == 33 * Weighted(key) + (if b < 128 then b else b - 256)
  {
    if key == "" {
      assert key + [c] == [c] && [c][1..] == "" && Power33(0) == 1;
    } else {
      var b := key[0] as int % 256;
      var v, n := if b < 128 then b else b - 256, |key|;
      assert (key + [c])[0] == key[0] && (key + [c])[1..] == key[1..] + [c];
      WeightedSnoc(key[1..], c);
      assert v * Power33(n) == 33 * (v * Power33(n - 1));
    }
  }

  /** The hash in closed form: 5381 and the signed characters, weighted by powers of 33, modulo 2^64. */
  lemma {:induction false} HashValue(key: string)
    ensures Djb(key) == (5381 * Power33(|key|) + Weighted(key)) % 0x1_0000_0000_0000_0000
    ensures BucketOf(key) == Djb(key) % 102400
  {
    if key != "" {
      var n := |key| - 1;
      var p, c := key[..n], key[n];
      assert key == p + [c];
      HashValue(p);
      WeightedSnoc(p, c);
      var x := 5381 * Power33(n) + Weighted(p);
      ModScaled(x, SignedByte(c));
      assert 33 * x + SignedByte(c) == 5381 * Power33(n + 1) + Weighted(key);
    }
  }

  lemma ModScaled(x: int, c: int)
    ensures (x % WORD * 33 + c) % WORD == (33 * x + c) % WORD
  {
    var q, r := x / WORD, x % WORD;
    assert 33 * x + c == WORD * (33 * q) + (r * 33 + c);
    ModMultiple(33 * q, r * 33 + c);
  }

  // ---------------------------------------------------------------- chains

  /** The node at position `i` of a list, or null past its end. */
  function NodeAt(ids: seq<nat>, i: nat): nat {
    if i < |ids| then ids[i] else 0
  }

  /** The link of the node at position `i` leads to the node at position `i + 1`. */
  ghost predicate LinkAt(next: seq<nat>, ids: seq<nat>, i: nat)
    requires i < |ids|
  {
    0 < ids[i] < |next| && next[ids[i]] == NodeAt(ids, i + 1)
  }

  /** The links from `head` visit exactly the listed nodes, in this order, and then end. */
  ghost predicate Links(next: seq<nat>, head: nat, ids: seq<nat>) {
    && head == NodeAt(ids, 0)
    && forall i :: 0 <= i < |ids| ==> LinkAt(next, ids, i)
  }

  /** The bucket function `h` is a parameter of the lemmas about chains.
      The listed nodes all belong to bucket `b`, and no two have the same key. */
  ghost predicate Keyed(h: string -> nat, key: seq<string>, b: nat, ids: seq<nat>) {
    && (forall i :: 0 <= i < |ids| ==> ids[i] < |key| && h(key[ids[i]]) == b)
    && (forall i, j :: 0 <= i < j < |ids| ==> key[ids[i]] != key[ids[j]])
  }

  /** The nodes hold exactly the bindings of `m` whose keys belong to bucket `b`. */
  ghost predicate Binds(h: string -> nat, key: seq<string>, value: seq<string>, m: map<string, string>, b: nat, ids: seq<nat>)
    requires Keyed(h, key, b, ids) && |value| == |key|
  {
    && (forall i :: 0 <= i < |ids| ==> key[ids[i]] in m && m[key[ids[i]]] == value[ids[i]])
    && (forall k {:trigger Has(key, ids, k)} :: k in m && h(k) == b ==> Has(key, ids, k))
  }

  /** Some listed node has key `k`. */
  ghost predicate Has(key: seq<string>, ids: seq<nat>, k: string)
    requires forall i :: 0 <= i < |ids| ==> ids[i] < |key|
  {
    exists i :: 0 <= i < |ids| && key[ids[i]] == k
  }

  function RemoveAt(ids: seq<nat>, i: nat): seq<nat>
    requires i < |ids|
  {
    ids[..i] + ids[i + 1..]
  }

  /** A bucket is untouched by writes to nodes of other buckets and to other keys of the map. */
  lemma LinksFrame(next: seq<nat>, next': seq<nat>, head: nat, ids: seq<nat>)
    requires Links(next, head, ids) && |next| <= |next'|
    requires forall i :: 0 <= i < |ids| && ids[i] < |next| ==> next'[ids[i]] == next[ids[i]]
    ensures Links(next', head, ids)
  {
    forall i | 0 <= i < |ids|
      ensures LinkAt(next', ids, i)
    {
      assert LinkAt(next, ids, i);
    }
  }

  lemma BindsFrame(h: string -> nat, key: seq<string>, value: seq<string>, m: map<string, string>,
                   key': seq<string>, value': seq<string>, m': map<string, string>, b: nat, ids: seq<nat>)
    requires |key| == |value| && |key'| == |value'| && |key| <= |key'|
    requires Keyed(h, key, b, ids) && Binds(h, key, value, m, b, ids)
    requires forall i :: 0 <= i < |ids| ==> key'[ids[i]] == key[ids[i]] && value'[ids[i]] == value[ids[i]]
    requires forall k :: h(k) == b ==> (k in m <==> k in m') && (k in m ==> m'[k] == m[k])
    ensures Keyed(h, key', b, ids) && Binds(h, key', value', m', b, ids)
  {
    forall k | k in m' && h(k) == b
      ensures Has(key', ids, k)
    {
      assert Has(key, ids, k);
    }
  }

  lemma BucketFrame(h: string -> nat, next: seq<nat>, key: seq<string>, value: seq<string>, m: map<string, string>,
                    next': seq<nat>, key': seq<string>, value': seq<string>, m': map<string, string>,
                    head: nat, b: nat, ids: seq<nat>)
    requires |next| == |key| == |value| && |next'| == |key'| == |value'| && |next| <= |next'|
    requires Links(next, head, ids) && Keyed(h, key, b, ids) && Binds(h, key, value, m, b, ids)
    requires forall i :: 0 <= i < |next| && h(key[i]) == b ==> next'[i] == next[i] && key'[i] == key[i] && value'[i] == value[i]
    requires forall k :: h(k) == b ==> (k in m <==> k in m') && (k in m ==> m'[k] == m[k])
    ensures Links(next', head, ids) && Keyed(h, key', b, ids) && Binds(h, key', value', m', b, ids)
  {
    assert forall i :: 0 <= i < |ids| ==> h(key[ids[i]]) == b;
    LinksFrame(next, next', head, ids);
    BindsFrame(h, key, value, m, key', value', m', b, ids);
  }

  /** A new node in front of a chain whose keys differ from its own. */
  lemma LinksPrepend(next: seq<nat>, head: nat, ids: seq<nat>)
    requires 0 < |next| && Links(next, head, ids)
    ensures Links(next + [head], |next|, [|next|] + ids)
  {
    var all, next' := [|next|] + ids, next + [head];
    forall i | 0 <= i < |all|
      ensures LinkAt(next', all, i)
    {
      if i > 0 {
        assert LinkAt(next, ids, i - 1);
      }
    }
  }

  lemma KeyedPrepend(h: string -> nat, key: seq<string>, ids: seq<nat>, k: string)
    requires Keyed(h, key, h(k), ids) && forall i :: 0 <= i < |ids| ==> key[ids[i]] != k
    ensures Keyed(h, key + [k], h(k), [|key|] + ids)
  {
    var all := [|key|] + ids;
    assert forall i :: 0 < i < |all| ==> all[i] == ids[i - 1];
  }

  lemma BindsPrepend(h: string -> nat, key: seq<string>, value: seq<string>, m: map<string, string>, ids: seq<nat>, k: string, v: string)
    requires |key| == |value| && k !in m && Keyed(h, key, h(k), ids) && Binds(h, key, value, m, h(k), ids)
    requires Keyed(h, key + [k], h(k), [|key|] + ids)
    ensures Binds(h, key + [k], value + [v], m[k := v], h(k), [|key|] + ids)
  {
    var all, key' := [|key|] + ids, key + [k];
    assert forall i :: 0 < i < |all| ==> all[i] == ids[i - 1];
    forall j | j in m[k := v] && h(j) == h(k)
      ensures Has(key', all, j)
    {
      if j == k {
        assert key'[all[0]] == j;
      } else {
        assert Has(key, ids, j);
        var i :| 0 <= i < |ids| && key[ids[i]] == j;
        assert key'[all[i + 1]] == j;
      }
    }
  }

  /** Bypassing the node at position `i` takes it out of the chain. */
  lemma LinksRemove(h: string -> nat, next: seq<nat>, key: seq<string>, head: nat, b: nat, ids: seq<nat>, i: nat, next': seq<nat>, head': nat)
    requires Links(next, head, ids) && Keyed(h, key, b, ids) && i < |ids|
    requires LinkAt(next, ids, i) && (i > 0 ==> LinkAt(next, ids, i - 1))
    requires i == 0 ==> head' == next[ids[0]] && next' == next
    requires i > 0 ==> head' == head && next' == next[ids[i - 1] := next[ids[i]]]
    ensures Links(next', head', RemoveAt(ids, i))
  {
    var rest := RemoveAt(ids, i);
    forall j | 0 <= j < |rest|
      ensures LinkAt(next', rest, j)
    {
      var l := if j < i then j else j + 1;
      assert LinkAt(next, ids, l);
      assert i > 0 ==> LinkAt(next, ids, i - 1) && LinkAt(next, ids, i);
      assert rest[j] == ids[l];
      assert i > 0 && l != i - 1 ==> key[ids[l]] != key[ids[i - 1]];
      assert NodeAt(rest, j + 1) == if j + 1 < i then NodeAt(ids, j + 1) else NodeAt(ids, j + 2);
    }
  }

  lemma KeyedRemove(h: string -> nat, key: seq<string>, b: nat, ids: seq<nat>, i: nat)
    requires Keyed(h, key, b, ids) && i < |ids|
    ensures Keyed(h, key, b, RemoveAt(ids, i))
  {
    var rest := RemoveAt(ids, i);
    assert forall j :: 0 <= j < |rest| ==> rest[j] == ids[if j < i then j else j + 1];
  }

  lemma BindsRemove(h: string -> nat, key: seq<string>, value: seq<string>, m: map<string, string>, b: nat, ids: seq<nat>, i: nat)
    requires |key| == |value| && Keyed(h, key, b, ids) && Binds(h, key, value, m, b, ids) && i < |ids|
    requires Keyed(h, key, b, RemoveAt(ids, i))
    ensures Binds(h, key, value, m - {key[ids[i]]}, b, RemoveAt(ids, i))
  {
    var rest, k := RemoveAt(ids, i), key[ids[i]];
    assert forall j :: 0 <= j < |rest| ==> rest[j] == ids[if j < i then j else j + 1];
    forall l | l in m - {k} && h(l) == b
      ensures Has(key, rest, l)
    {
      assert Has(key, ids, l);
      var j :| 0 <= j < |ids| && key[ids[j]] == l;
      assert key[rest[if j < i then j else j - 1]] == l;
    }
  }

  lemma BucketRemove(h: string -> nat, next: seq<nat>, next': seq<nat>, key: seq<string>, value: seq<string>, m: map<string, string>,
                     head: nat, head': nat, b: nat, ids: seq<nat>, i: nat)
    requires |next| == |key| == |value| && i < |ids|
    requires Links(next, head, ids) && Keyed(h, key, b, ids) && Binds(h, key, value, m, b, ids)
    requires LinkAt(next, ids, i) && (i > 0 ==> LinkAt(next, ids, i - 1))
    requires i == 0 ==> head' == next[ids[0]] && next' == next
    requires i > 0 ==> head' == head && next' == next[ids[i - 1] := next[ids[i]]]
    ensures Links(next', head', RemoveAt(ids, i)) && Keyed(h, key, b, RemoveAt(ids, i))
    ensures Binds(h, key, value, m - {key[ids[i]]}, b, RemoveAt(ids, i))
  {
    LinksRemove(h, next, key, head, b, ids, i, next', head');
    KeyedRemove(h, key, b, ids, i);
    BindsRemove(h, key, value, m, b, ids, i);
  }

  class Table {
    const heads: array<nat>
    var key: seq<string>
    var value: seq<string>
    var next: seq<nat>
    var count: int
    ghost var chains: seq<seq<nat>>
    ghost var contents: map<string, string>

    ghost predicate Bucket(b: nat)
      requires heads.Length == MAX_TABLE_SIZE && b < MAX_TABLE_SIZE
      reads this, heads
    {
      && |next| == |key| == |value| && |chains| == MAX_TABLE_SIZE
      && Links(next, heads[b], chains[b]) && Keyed(BucketOf, key, b, chains[b]) && Binds(BucketOf, key, value, contents, b, chains[b])
    }

    ghost predicate Valid()
      reads this, heads
    {
      && heads.Length == MAX_TABLE_SIZE && |chains| == MAX_TABLE_SIZE
      && 0 < |next| == |key| == |value|
      && (forall b :: 0 <= b < MAX_TABLE_SIZE ==> Bucket(b))
      && count == |contents|
    }

    /** The bindings and the counter, as the server sees them. */
    ghost function State(): Store
      reads this
    {
      Store(contents, count)
    }

    constructor ()
      ensures Valid() && State() == EMPTY && fresh(heads)
    {
      heads := new nat[MAX_TABLE_SIZE](i => 0);
      key, value, next, count := [""], [""], [0], 0;
      chains, contents := seq(MAX_TABLE_SIZE, i => []), map[];
    }

    /** The position of a key in the chain of its bucket. */
    method Locate(k: string, b: nat) returns (node: nat, ghost i: nat)
      requires Valid() && b == BucketOf(k)
      ensures node != 0 ==> i < |chains[b]| && node == chains[b][i] && node < |key| && key[node] == k
      ensures node == 0 ==> k !in contents
    {
      node, i := heads[b], 0;
      assert Bucket(b);
      assert |chains[b]| > 0 ==> LinkAt(next, chains[b], 0);
      while node != 0
        invariant 0 <= i <= |chains[b]|
        invariant node == NodeAt(chains[b], i) && (i < |chains[b]| ==> LinkAt(next, chains[b], i))
        invariant forall j :: 0 <= j < i ==> key[chains[b][j]] != k
        decreases |chains[b]| - i
      {
        assert i + 1 < |chains[b]| ==> LinkAt(next, chains[b], i + 1);
        if key[node] == k {
          return;
        }
        node, i := next[node], i + 1;
      }
      assert !Has(key, chains[b], k);
    }

    method Get(k: Option<string>) returns (v: Option<string>)
      requires Valid()
      ensures v == if k.Some? then Lookup(contents, k.value) else None
    {
      if k.None? {
        return None;
      }
      var b := Hash(k.value, MAX_TABLE_SIZE);
      var node, i := Locate(k.value, b);
      if node == 0 {
        return None;
      }
      assert Bucket(b);
      return Some(value[node]);
    }

    /** Overwrites the value of a node. */
    method Overwrite(node: nat, v: string, ghost b: nat, ghost i: nat)
      requires Valid() && b < MAX_TABLE_SIZE && i < |chains[b]| && node == chains[b][i] && node < |key|
      modifies this`value, this`contents
      ensures Valid() && contents == old(contents)[key[node] := v] && key[node] in old(contents)
    {
      ghost var m, was := contents, value;
      assert Bucket(b);
      value := value[node := v];
      contents := contents[key[node] := v];
      assert contents.Keys == m.Keys;
      forall c | 0 <= c < MAX_TABLE_SIZE
        ensures Bucket(c)
      {
        assert old(Bucket(c));
        if c != b {
          BucketFrame(BucketOf, next, key, was, m, next, key, value, contents, heads[c], c, chains[c]);
        }
      }
    }

    /** Puts a new node at the head of its bucket. */
    method Prepend(k: string, v: string, b: nat)
      requires Valid() && b == BucketOf(k) && k !in contents
      modifies this, heads
      ensures Valid() && contents == old(contents)[k := v] && count == old(count) + 1
    {
      ghost var n0, k0, v0, m0 := next, key, value, contents;
      assert Bucket(b);
      LinksPrepend(next, heads[b], chains[b]);
      KeyedPrepend(BucketOf, key, chains[b], k);
      BindsPrepend(BucketOf, key, value, contents, chains[b], k, v);
      SizeAfterInsert(contents, k, v);
      var z := |next|;
      key, value, next := key + [k], value + [v], next + [heads[b]];
      heads[b] := z;
      count := count + 1;
      contents, chains := contents[k := v], chains[b := [z] + chains[b]];
      forall c | 0 <= c < MAX_TABLE_SIZE
        ensures Bucket(c)
      {
        assert old(Bucket(c));
        if c != b {
          BucketFrame(BucketOf, n0, k0, v0, m0, next, key, value, contents, heads[c], c, chains[c]);
        }
      }
    }

    method Put(k: Option<string>, v: Option<string>) returns (code: int)
      requires Valid()
      modifies this, heads
      ensures Valid()
      ensures k.Some? && v.Some? ==> (State(), Status(code)) == HashStep(old(State()), Set(k.value, v.value))
      ensures k.None? || v.None? ==> State() == old(State()) && code == -1
    {
      if k.None? || v.None? {
        return -1;
      }
      var b := Hash(k.value, MAX_TABLE_SIZE);
      var node, i := Locate(k.value, b);
      if node != 0 {
        Overwrite(node, v.value, b, i);
      } else {
        Prepend(k.value, v.value, b);
      }
      return 0;
    }

    method Modify(k: Option<string>, v: Option<string>) returns (code: int)
      requires Valid()
      modifies this`value, this`contents
      ensures Valid()
      ensures k.Some? && v.Some? ==> (State(), Status(code)) == HashStep(old(State()), Mod(k.value, v.value))
      ensures k.None? || v.None? ==> State() == old(State()) && code == -1
    {
      if k.None? || v.None? {
        return -1;
      }
      var b := Hash(k.value, MAX_TABLE_SIZE);
      var node, i := Locate(k.value, b);
      if node == 0 {
        return -1;
      }
      Overwrite(node, v.value, b, i);
      return 0;
    }

    /** Redirects the link that leads to a node past it. */
    method SkipNode(b: nat, cur: nat)
      requires b < heads.Length && cur < |next|
      requires if cur == 0 then heads[b] < |next| else next[cur] < |next|
      modifies this`next, heads
      ensures cur == 0 ==> next == old(next) && heads[b] == next[old(heads[b])]
      ensures cur != 0 ==> next == old(next)[cur := old(next[next[cur]])] && heads[b] == old(heads[b])
      ensures forall c :: 0 <= c < heads.Length && c != b ==> heads[c] == old(heads[c])
    {
      if cur == 0 {
        heads[b] := next[heads[b]];
      } else {
        next := next[cur := next[next[cur]]];
      }
    }

    /** Bypasses the node at position `i` of a chain; `cur` is the node before it, if any. */
    method Unlink(b: nat, cur: nat, ghost i: nat, ghost k: string)
      requires Valid() && b < MAX_TABLE_SIZE && i < |chains[b]|
      requires chains[b][i] < |key| && key[chains[b][i]] == k
      requires cur == if i == 0 then 0 else chains[b][i - 1]
      modifies this, heads
      ensures Valid() && k in old(contents) && contents == old(contents) - {k}
      ensures count == old(count) - 1
    {
      ghost var n0, m0, ids, h0 := next, contents, chains[b], heads[b];
      assert Bucket(b);
      SizeAfterRemove(contents, k);
      assert LinkAt(next, ids, i) && (i > 0 ==> LinkAt(next, ids, i - 1));
      SkipNode(b, cur);
      BucketRemove(BucketOf, n0, next, key, value, m0, h0, heads[b], b, ids, i);
      count := count - 1;
      contents, chains := contents - {k}, chains[b := RemoveAt(ids, i)];
      forall c | 0 <= c < MAX_TABLE_SIZE
        ensures Bucket(c)
      {
        assert old(Bucket(c));
        if c != b {
          BucketFrame(BucketOf, n0, key, value, m0, next, key, value, contents, heads[c], c, chains[c]);
        }
      }
    }

    /** The last node of the chain before the one with key `k`. */
    method Before(k: string, b: nat) returns (cur: nat, ghost i: nat)
      requires Valid() && b == BucketOf(k) && heads[b] != 0
      requires heads[b] < |key| && key[heads[b]] != k
      ensures 0 < cur < |next| && 0 < i <= |chains[b]| && cur == chains[b][i - 1]
      ensures next[cur] != 0 ==> i < |chains[b]| && chains[b][i] < |key| && key[chains[b][i]] == k
      ensures next[cur] == 0 ==> k !in contents
    {
      cur, i := heads[b], 1;
      assert Bucket(b);
      ghost var ids := chains[b];
      assert LinkAt(next, ids, 0) && (|ids| > 1 ==> LinkAt(next, ids, 1));
      while next[cur] != 0
        invariant 0 < i <= |ids| && cur == ids[i - 1] && LinkAt(next, ids, i - 1)
        invariant i < |ids| ==> LinkAt(next, ids, i)
        invariant forall j :: 0 <= j < i ==> key[ids[j]] != k
        decreases |ids| - i
      {
        assert i + 1 < |ids| ==> LinkAt(next, ids, i + 1);
        if key[next[cur]] == k {
          return;
        }
        cur, i := next[cur], i + 1;
      }
      assert !Has(key, ids, k);
    }

    method Delete(k: Option<string>) returns (code: int)
      requires Valid()
      modifies this, heads
      ensures Valid()
      ensures k.Some? ==> (State(), Status(code)) == HashStep(old(State()), Del(k.value))
      ensures k.None? ==> State() == old(State()) && code == -2
    {
      if k.None? {
        return -2;
      }
      var b := Hash(k.value, MAX_TABLE_SIZE);
      assert Bucket(b);
      var head := heads[b];
      assert |chains[b]| > 0 ==> LinkAt(next, chains[b], 0);
      if head == 0 {
        assert !Has(key, chains[b], k.value);
        return -1;
      }
      if key[head] == k.value {
        Unlink(b, 0, 0, k.value);
        return 0;
      }
      var cur, i := Before(k.value, b);
      if next[cur] == 0 {
        return -1;
      }
      Unlink(b, cur, i, k.value);
      return 0;
    }

    method Count() returns (n: int)
      requires Valid()
      ensures n == |contents|
    {
      n := count;
    }

    /** The chains partition the live nodes: no node is in two chains or twice in one. */
    lemma ChainsDisjoint(b: nat, i: nat, c: nat, j: nat)
      requires Valid() && b < MAX_TABLE_SIZE && c < MAX_TABLE_SIZE && i < |chains[b]| && j < |chains[c]|
      requires chains[b][i] == chains[c][j]
      ensures b == c && i == j
    {
      assert Bucket(b) && Bucket(c);
    }
  }
}
