/** The three-region buffer of `Kmuduo/Buffer.h` and its scatter read in `Kmuduo/Buffer.cc`.

Bytes before `readerIndex` are spare, bytes up to `writerIndex` are readable, the rest is
writable. Compaction moves the readable bytes down inside the same array, growth replaces the
array; both keep the readable bytes, so that the buffer is a queue of bytes. */
module Buffers {
  newtype Byte = x: int | 0 <= x < 256

  const CHEAP_PREPEND: nat := 8
  const INITIAL_SIZE: nat := 1024
  const EXTRA_SIZE: nat := 65536

  /** What a read or write on a socket returns, if it does not fail. */
  datatype Transfer = Moved(n: nat) | Failed

  function Min(a: nat, b: nat): nat {
    if a <= b then a else b
  }

  /** Copies `a[from..until]` forward to `a[to..]`. The ranges may overlap, because the destination
      lies below the source: every element is read before it is overwritten. */
  method CopyDown(a: array<Byte>, from: nat, until: nat, to: nat)
    requires to < from <= until <= a.Length
    modifies a
    ensures a[to..to + (until - from)] == old(a[from..until])
    ensures a[..to] == old(a[..to])
  {
    ghost var was := a[..];
    var n, i := until - from, 0;
    while i < n
      invariant 0 <= i <= n
      invariant forall k :: to <= k < to + i ==> a[k] == was[k - to + from]
      invariant forall k :: 0 <= k < to || to + i <= k < a.Length ==> a[k] == was[k]
    {
      a[to + i] := a[from + i];
      i := i + 1;
    }
    assert a[to..to + n] == was[from..until];
  }

  /** Copies `src` to `a[to..]`. */
  method CopyIn(a: array<Byte>, src: seq<Byte>, to: nat)
    requires to + |src| <= a.Length
    modifies a
    ensures a[..] == old(a[..to]) + src + old(a[to + |src|..])
  {
    var i := 0;
    while i < |src|
      invariant 0 <= i <= |src|
      invariant forall k :: to <= k < to + i ==> a[k] == src[k - to]
      invariant forall k :: 0 <= k < to || to + i <= k < a.Length ==> a[k] == old(a[k])
    {
      a[to + i] := src[i];
      i := i + 1;
    }
  }

  class Buffer {
    var data: array<Byte>
    var readerIndex: nat
    var writerIndex: nat

    ghost predicate Valid()
      reads this
    {
      CHEAP_PREPEND <= readerIndex <= writerIndex <= data.Length
    }

    /** The readable bytes. */
    ghost function Contents(): seq<Byte>
      requires Valid()
      reads this, data
    {
      data[readerIndex..writerIndex]
    }

    constructor ()
      ensures Valid() && fresh(data) && Contents() == [] && Writable() == 1024 && readerIndex == 8
    {
      data := new Byte[CHEAP_PREPEND + INITIAL_SIZE];
      readerIndex, writerIndex := CHEAP_PREPEND, CHEAP_PREPEND;
    }

    function Readable(): (n: nat)
      requires Valid()
      reads this, data
      ensures n == |Contents()|
    {
      writerIndex - readerIndex
    }

    function Writable(): nat
      requires Valid()
      reads this
    {
      data.Length - writerIndex
    }

    /** Drops the first `len` readable bytes, or all of them if there are no more. */
    method Retrieve(len: nat)
      requires Valid()
      modifies this`readerIndex, this`writerIndex
      ensures Valid() && data == old(data)
      ensures Contents() == old(Contents()[Min(len, Readable())..])
      ensures len >= old(Readable()) ==> readerIndex == writerIndex == 8
    {
      if len < Readable() {
        readerIndex := readerIndex + len;
      } else {
        readerIndex, writerIndex := CHEAP_PREPEND, CHEAP_PREPEND;
      }
    }

    /** Reads and drops the first `len` bytes. */
    method RetrieveAsString(len: nat) returns (s: seq<Byte>)
      requires Valid() && len <= Readable()
      modifies this`readerIndex, this`writerIndex
      ensures Valid() && data == old(data) && |s| == len
      ensures s + Contents() == old(Contents())
    {
      s := data[readerIndex..readerIndex + len];
      ghost var all := Contents();
      assert s == all[..len];
      Retrieve(len);
    }

    /** Makes room for `len` bytes, by compaction where that suffices and by growth otherwise. */
    method MakeSpace(len: nat)
      requires Valid() && Writable() < len
      modifies this, data
      ensures Valid() && Writable() >= len && Contents() == old(Contents())
      ensures data != old(data) ==> fresh(data)
      ensures data == old(data) <==> old(Writable() + readerIndex) >= len + 8
      ensures data == old(data) ==> readerIndex == 8
      ensures data != old(data) ==> readerIndex == old(readerIndex) && Writable() == len
    {
      if Writable() + readerIndex < len + CHEAP_PREPEND {
        var bigger := new Byte[writerIndex + len];
        CopyIn(bigger, data[..writerIndex], 0);
        assert bigger[..writerIndex] == data[..writerIndex];
        assert bigger[readerIndex..writerIndex] == bigger[..writerIndex][readerIndex..];
        data := bigger;
      } else {
        var readable := Readable();
        CopyDown(data, readerIndex, writerIndex, CHEAP_PREPEND);
        readerIndex := CHEAP_PREPEND;
        writerIndex := readerIndex + readable;
      }
    }

    method EnsureWritableBytes(len: nat)
      requires Valid()
      modifies this, data
      ensures Valid() && Writable() >= len && Contents() == old(Contents())
      ensures data != old(data) ==> fresh(data)
      ensures old(Writable()) >= len ==> data == old(data) && readerIndex == old(readerIndex) && writerIndex == old(writerIndex)
    {
      if Writable() < len {
        MakeSpace(len);
      }
    }

    /** Writes bytes that fit behind the readable ones. */
    method FillWritable(src: seq<Byte>)
      requires Valid() && |src| <= Writable()
      modifies this`writerIndex, data
      ensures Valid() && Contents() == old(Contents()) + src
      ensures Writable() == old(Writable()) - |src|
    {
      ghost var all := data[..];
      CopyIn(data, src, writerIndex);
      writerIndex := writerIndex + |src|;
      assert data[readerIndex..writerIndex] == all[readerIndex..writerIndex - |src|] + src;
    }

    method Append(src: seq<Byte>)
      requires Valid()
      modifies this, data
      ensures Valid() && Contents() == old(Contents()) + src
      ensures data != old(data) ==> fresh(data)
    {
      EnsureWritableBytes(|src|);
      FillWritable(src);
    }

    /** The most that one `readv` can hand over: the writable bytes, and the overflow area unless the
        writable bytes alone are at least as many. */
    function ReadLimit(): (n: nat)
      requires Valid()
      reads this
      ensures Writable() < 65536 ==> n == Writable() + 65536
      ensures Writable() >= 65536 ==> n == Writable()
    {
      Writable() + if Writable() < EXTRA_SIZE then EXTRA_SIZE else 0
    }

    /** Reads from a socket on which `incoming` is waiting. The kernel fills the writable bytes first
        and the overflow area next; the overflow is then appended. */
    method ReadFd(incoming: seq<Byte>, outcome: Transfer) returns (n: int, rest: seq<Byte>)
      requires Valid() && (outcome.Moved? ==> outcome.n <= |incoming| && outcome.n <= ReadLimit())
      modifies this, data
      ensures Valid() && Contents() + rest == old(Contents()) + incoming
      ensures outcome.Moved? ==> n == outcome.n == |incoming| - |rest|
      ensures outcome.Failed? ==> n == -1 && rest == incoming
      ensures data != old(data) ==> fresh(data)
    {
      if outcome.Failed? {
        return -1, incoming;
      }
      var writable := Writable();
      n, rest := outcome.n, incoming[outcome.n..];
      var inPlace := Min(outcome.n, writable);
      FillWritable(incoming[..inPlace]);
      if outcome.n > writable {
        var extrabuf := incoming[writable..outcome.n];
        Append(extrabuf);
        assert incoming == incoming[..inPlace] + extrabuf + rest;
      } else {
        assert incoming == incoming[..inPlace] + rest;
      }
    }

    /** Offers the readable bytes to a socket that takes some of them; the buffer keeps all. */
    method WriteFd(outcome: Transfer) returns (n: int, taken: seq<Byte>)
      requires Valid() && (outcome.Moved? ==> outcome.n <= Readable())
      ensures outcome.Moved? ==> n == outcome.n && taken == Contents()[..outcome.n]
      ensures outcome.Failed? ==> n == -1 && taken == []
    {
      if outcome.Failed? {
        return -1, [];
      }
      return outcome.n, data[readerIndex..readerIndex + outcome.n];
    }
  }
}
