/** The fixed-block pool of `kvstore_mpv1.c`: one page cut into equal blocks, with the free list kept
inside the free blocks themselves.

A block is named by its number and an address by the number of the block that starts there, so the
first address past the last block is the number of blocks. That address ends the free list: it is
what the last block's link holds, and it is never followed because of the counter. */
module BlockPool {
  import opened Engines

  const PAGE_SIZE: nat := 4096
  const WORD: nat := 8

  function BlockSize(size: int): nat {
    if size < 16 then 16 else size
  }

  function Blocks(size: int): nat {
    PAGE_SIZE / BlockSize(size)
  }

  /** Distinct blocks of a page do not overlap, and all lie inside it. */
  lemma BlocksAreDisjoint(size: int, i: nat, j: nat)
    requires i < j < Blocks(size)
    ensures i * BlockSize(size) + BlockSize(size) <= j * BlockSize(size)
    ensures j * BlockSize(size) + BlockSize(size) <= PAGE_SIZE
  {
    var b := BlockSize(size);
    assert i * b + b == (i + 1) * b;
    assert j * b + b == (j + 1) * b;
    Scaled(i + 1, j, b);
    Scaled(j + 1, Blocks(size), b);
  }

  lemma Scaled(a: nat, c: nat, b: nat)
    requires a <= c
    ensures a * b <= c * b
  {
  }

  /** How many of the addresses 0, 1, ... have room for a link word inside the page. */
  function Slots(size: int): nat {
    Blocks(size) + if PAGE_SIZE % BlockSize(size) >= WORD then 1 else 0
  }

  /** The word at the start of block `i`, or right after the last block, lies inside the page exactly
      if `i` is one of the slots: every block has its word, what follows the blocks may not. */
  lemma SlotsAreInside(size: int, i: nat)
    requires i <= Blocks(size)
    ensures i * BlockSize(size) + WORD <= PAGE_SIZE <==> i < Slots(size)
  {
    var b, n := BlockSize(size), Blocks(size);
    assert PAGE_SIZE == b * n + PAGE_SIZE % b;
    if i < n {
      assert i * b + b == (i + 1) * b;
      Scaled(i + 1, n, b);
    }
  }

  ghost predicate LinkAt(word: seq<nat>, free: seq<nat>, n: nat, i: nat)
    requires i < |free|
  {
    free[i] < n <= |word| && word[free[i]] == if i + 1 < |free| then free[i + 1] else n
  }

  /** Following the links from `first` visits `free` and ends at `n`. */
  ghost predicate Chained(word: seq<nat>, free: seq<nat>, first: nat, n: nat) {
    && first == (if free == [] then n else free[0])
    && (forall i :: 0 <= i < |free| ==> LinkAt(word, free, n, i))
  }

  /** Every block is outstanding or on the free list, never both and never twice. */
  ghost predicate Partition(free: seq<nat>, outstanding: set<nat>, n: nat) {
    && (forall i, j :: 0 <= i < j < |free| ==> free[i] != free[j])
    && (forall b :: b in outstanding ==> b !in free)
    && (forall b: nat :: b < n <==> b in outstanding || b in free)
  }

  lemma ChainUnlinked(word: seq<nat>, free: seq<nat>, n: nat)
    requires free != [] && LinkAt(word, free, n, 0) && Chained(word, free, free[0], n)
    ensures Chained(word, free[1..], word[free[0]], n)
  {
    assert LinkAt(word, free, n, 0);
    forall i | 0 <= i < |free[1..]|
      ensures LinkAt(word, free[1..], n, i)
    {
      assert LinkAt(word, free, n, i + 1);
    }
  }

  lemma ChainPushed(word: seq<nat>, free: seq<nat>, first: nat, n: nat, b: nat)
    requires Chained(word, free, first, n) && b < n <= |word| && b !in free
    ensures Chained(word[b := first], [b] + free, b, n)
  {
    var longer, word' := [b] + free, word[b := first];
    forall i | 0 <= i < |longer|
      ensures LinkAt(word', longer, n, i)
    {
      if i > 0 {
        assert LinkAt(word, free, n, i - 1);
        assert longer[i] in free;
      }
    }
  }

  /** The counter decides exhaustion: it is zero exactly if all blocks are outstanding. */
  lemma {:induction false} FreeCount(free: seq<nat>, outstanding: set<nat>, n: nat)
    requires Partition(free, outstanding, n)
    ensures |free| + |outstanding| == n
  {
    Listed(free);
    assert Below(n) == Members(free) + outstanding && Members(free) !! outstanding;
  }

  /** The numbers below `n`. */
  ghost function Below(n: nat): (r: set<nat>)
    ensures |r| == n && forall b: nat :: b in r <==> b < n
  {
    if n == 0 then {} else Below(n - 1) + {n - 1}
  }

  ghost function Members(s: seq<nat>): (r: set<nat>)
    ensures forall b :: b in r <==> b in s
  {
    if s == [] then {} else Members(s[1..]) + {s[0]}
  }

  lemma {:induction false} Listed(s: seq<nat>)
    requires forall i, j :: 0 <= i < j < |s| ==> s[i] != s[j]
    ensures |Members(s)| == |s|
  {
    if s != [] {
      var tail := s[1..];
      assert forall i :: 0 <= i < |tail| ==> tail[i] == s[i + 1];
      Listed(tail);
      assert s[0] !in Members(tail);
    }
  }

  /** The size the server asks for: one block that fills the page, and no room after it. */
  lemma ServerPoolOverruns()
    ensures Blocks(4096) == 1 && PAGE_SIZE % BlockSize(4096) < WORD && 1 * BlockSize(4096) + WORD > PAGE_SIZE
  {
  }

  class Pool {
    const blocks: nat
    const overrun: bool
    var word: seq<nat>
    var freePtr: nat
    var freeCount: nat
    ghost var free: seq<nat>
    ghost var outstanding: set<nat>

    ghost predicate Valid()
      reads this
    {
      && blocks <= |word|
      && Chained(word, free, freePtr, blocks)
      && Partition(free, outstanding, blocks)
      && freeCount == |free|
    }

    /** mp_init: the last word it writes, after the last block, is outside the page unless the blocks
        leave room for it. */
    constructor (size: int)
      ensures Valid() && blocks == Blocks(size) && outstanding == {}
      ensures free == seq(blocks, i => i)
      ensures |word| == Slots(size) && blocks == 4096 / (if size < 16 then 16 else size)
      ensures overrun <==> 4096 % (if size < 16 then 16 else size) < 8
    {
      var n := Blocks(size);
      blocks, freePtr, freeCount := n, 0, n;
      var w := seq(Slots(size), _ => 0);
      var i := 0;
      while i < n
        invariant 0 <= i <= n && |w| == Slots(size)
        invariant forall k :: 0 <= k < i ==> w[k] == k + 1
      {
        w := w[i := i + 1];
        i := i + 1;
      }
      if n < |w| {
        w, overrun := w[n := 0], false;
      } else {
        overrun := true;
      }
      word := w;
      outstanding := {};
      ghost var f := seq(n, i => i);
      free := f;
      new;
      forall k | 0 <= k < |free|
        ensures LinkAt(word, free, blocks, k)
      {
      }
      forall b: nat
        ensures b < blocks <==> b in outstanding || b in free
      {
        if b < blocks {
          assert free[b] == b;
        }
      }
    }

    /** mp_allock: NULL exactly when every block is outstanding. */
    method Alloc() returns (r: Option<nat>)
      requires Valid()
      modifies this`freePtr, this`freeCount, this`free, this`outstanding
      ensures Valid()
      ensures r.None? <==> |old(outstanding)| == blocks
      ensures r.None? ==> outstanding == old(outstanding) && free == old(free)
      ensures r.Some? ==> r.value < blocks && r.value !in old(outstanding) && outstanding == old(outstanding) + {r.value}
      ensures r.Some? ==> old(free) == [r.value] + free
    {
      FreeCount(free, outstanding, blocks);
      if freeCount == 0 {
        return None;
      }
      assert LinkAt(word, free, blocks, 0);
      ChainUnlinked(word, free, blocks);
      ghost var first := free[0];
      assert free == [first] + free[1..];
      var ptr := freePtr;
      freePtr := word[ptr];
      freeCount := freeCount - 1;
      free, outstanding := free[1..], outstanding + {ptr};
      return Some(ptr);
    }

    /** mp_free of a block that is outstanding. */
    method Free(ptr: nat)
      requires Valid() && ptr in outstanding
      modifies this
      ensures Valid() && outstanding == old(outstanding) - {ptr} && free == [ptr] + old(free)
    {
      ChainPushed(word, free, freePtr, blocks, ptr);
      word := word[ptr := freePtr];
      freePtr := ptr;
      freeCount := freeCount + 1;
      free, outstanding := [ptr] + free, outstanding - {ptr};
    }

    /** The owner of an outstanding block may overwrite it, link word included. */
    method Scribble(ptr: nat, value: nat)
      requires Valid() && ptr in outstanding
      modifies this`word
      ensures Valid() && word == old(word)[ptr := value]
    {
      ghost var was := word;
      word := word[ptr := value];
      forall i | 0 <= i < |free|
        ensures LinkAt(word, free, blocks, i)
      {
        assert LinkAt(was, free, blocks, i);
        assert free[i] in free;
      }
    }
  }
}
