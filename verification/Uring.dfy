/** The completion loop of `io_uring_entry.c`: the life of the operations handed to the ring.

Every operation carries its own `conn_info`. It is queued by one of the `set_event` functions,
submitted to the kernel, completes there in any order, is collected in a batch and is handled once,
which frees its `conn_info`. The kernel's results are parameters of the steps. */
module Uring {
  type Item = nat

  datatype Op = Accept | Recv(item: Item) | Send(item: Item)

  /** `queued` are prepared entries, `flying` are with the kernel, `complete` have completed, and
      `batch` is what the current pass still has to handle. `live` are the allocated connections. */
  datatype Ring = Ring(queued: seq<Op>, flying: multiset<Op>, complete: seq<Op>, batch: seq<Op>, live: set<Item>)

  const BATCH: nat := 128
  const ENTRIES: nat := 1024

  datatype Step =
    | Submit
    | Complete(op: Op)                    // the kernel finishes an operation
    | Peek(n: nat)                        // a batch of at most 128 completions
    | Handle(res: int, item: Item)        // one completion; `item` is what malloc would return

  predicate Enabled(r: Ring, s: Step) {
    match s
    case Submit => r.batch == []
    case Complete(op) => op in r.flying
    case Peek(n) => r.batch == [] && r.queued == [] && n <= BATCH && n <= |r.complete|
    case Handle(_, item) => r.batch != [] && item !in r.live
  }

  /** What the loop body does with the first completion of the batch. */
  function Handled(r: Ring, res: int, item: Item): Ring
    requires r.batch != []
  {
    var rest := r.(batch := r.batch[1..]);
    match r.batch[0]
    case Accept =>
      if res >= 0 then rest.(queued := r.queued + [Accept, Recv(item)], live := r.live + {item})
      else rest.(queued := r.queued + [Accept])
    case Recv(it) =>
      if res <= 0 then rest.(live := r.live - {it}) else rest.(queued := r.queued + [Send(it)])
    case Send(it) =>
      rest.(queued := r.queued + [Recv(it)])
  }

  function Apply(r: Ring, s: Step): Ring
    requires Enabled(r, s)
  {
    match s
    case Submit => r.(queued := [], flying := r.flying + multiset(r.queued))
    case Complete(op) => r.(flying := r.flying - multiset{op}, complete := r.complete + [op])
    case Peek(n) => r.(batch := r.complete[..n], complete := r.complete[n..])
    case Handle(res, item) => Handled(r, res, item)
  }

  ghost predicate Run(rings: seq<Ring>, steps: seq<Step>) {
    && |rings| == |steps| + 1
    && (forall i :: 0 <= i < |steps| ==> Enabled(rings[i], steps[i]) && rings[i + 1] == Apply(rings[i], steps[i]))
  }

  function Started(): Ring {
    Ring([Accept], multiset{}, [], [], {})
  }

  // ---------------------------------------------------------------- one operation at a time

  /** Every operation not yet handled, wherever it is. */
  function Pending(r: Ring): multiset<Op> {
    multiset(r.queued) + r.flying + multiset(r.complete) + multiset(r.batch)
  }

  /** One accept, one operation for each live connection, none for any other. */
  ghost predicate OneEach(pending: multiset<Op>, live: set<Item>) {
    && pending[Accept] == 1
    && (forall it :: Both(pending, it) == if it in live then 1 else 0)
  }

  function Both(pending: multiset<Op>, it: Item): nat {
    pending[Recv(it)] + pending[Send(it)]
  }

  /** How many entries the current pass can still add to those queued, counting these. */
  function Committed(r: Ring): nat {
    |r.queued| + |r.batch| + multiset(r.batch)[Accept]
  }

  ghost predicate Inv(r: Ring) {
    OneEach(Pending(r), r.live) && Committed(r) <= BATCH + 1
  }

  lemma CompleteKeepsPending(r: Ring, op: Op)
    requires op in r.flying
    ensures Pending(Apply(r, Complete(op))) == Pending(r)
  {
    assert r.flying == (r.flying - multiset{op}) + multiset{op};
    assert multiset(r.complete + [op]) == multiset(r.complete) + multiset{op};
  }

  lemma PeekKeepsPending(r: Ring, n: nat)
    requires Enabled(r, Peek(n))
    ensures Pending(Apply(r, Peek(n))) == Pending(r)
  {
    assert r.complete == r.complete[..n] + r.complete[n..];
    assert multiset(r.complete) == multiset(r.complete[..n]) + multiset(r.complete[n..]);
  }

  /** Submitting, completing and collecting only move operations. */
  lemma MovesKeepPending(r: Ring, s: Step)
    requires Enabled(r, s) && !s.Handle?
    ensures Pending(Apply(r, s)) == Pending(r)
  {
    if s.Complete? {
      CompleteKeepsPending(r, s.op);
    } else if s.Peek? {
      PeekKeepsPending(r, s.n);
    }
  }

  /** The operations that handling `op` adds. */
  function Successors(op: Op, res: int, item: Item): seq<Op> {
    match op
    case Accept => if res >= 0 then [Accept, Recv(item)] else [Accept]
    case Recv(it) => if res <= 0 then [] else [Send(it)]
    case Send(it) => [Recv(it)]
  }

  lemma HandleShape(r: Ring, res: int, item: Item)
    requires r.batch != []
    ensures var r' := Handled(r, res, item);
      && r'.queued == r.queued + Successors(r.batch[0], res, item)
      && r'.batch == r.batch[1..] && r'.flying == r.flying && r'.complete == r.complete
  {
  }

  lemma Rearranged(q: multiset<Op>, f: multiset<Op>, c: multiset<Op>, b: multiset<Op>, op: Op, s: multiset<Op>)
    ensures q + s + f + c + b == q + f + c + (multiset{op} + b) - multiset{op} + s
  {
  }

  lemma HandlePending(r: Ring, res: int, item: Item)
    requires r.batch != []
    ensures r.batch[0] in Pending(r)
    ensures Pending(Handled(r, res, item)) == Pending(r) - multiset{r.batch[0]} + multiset(Successors(r.batch[0], res, item))
  {
    var op, s := r.batch[0], Successors(r.batch[0], res, item);
    HandleShape(r, res, item);
    assert multiset(r.queued + s) == multiset(r.queued) + multiset(s);
    assert r.batch == [op] + r.batch[1..];
    assert multiset(r.batch) == multiset{op} + multiset(r.batch[1..]);
    Rearranged(multiset(r.queued), r.flying, multiset(r.complete), multiset(r.batch[1..]), op, multiset(s));
  }

  lemma HandleKeepsOneEach(pending: multiset<Op>, live: set<Item>, op: Op, res: int, item: Item, live': set<Item>)
    requires OneEach(pending, live) && op in pending && item !in live
    requires live' == match op
      case Accept => if res >= 0 then live + {item} else live
      case Recv(it) => if res <= 0 then live - {it} else live
      case Send(_) => live
    ensures OneEach(pending - multiset{op} + multiset(Successors(op, res, item)), live')
  {
    var after := pending - multiset{op} + multiset(Successors(op, res, item));
    if !op.Accept? {
      assert Both(pending, op.item) == 1;
    }
    forall it
      ensures Both(after, it) == if it in live' then 1 else 0
    {
      assert Both(pending, it) == if it in live then 1 else 0;
    }
  }

  lemma HandleCommitted(r: Ring, res: int, item: Item)
    requires r.batch != []
    ensures Committed(Handled(r, res, item)) <= Committed(r)
  {
    HandleShape(r, res, item);
    assert r.batch == [r.batch[0]] + r.batch[1..];
    assert multiset(r.batch) == multiset{r.batch[0]} + multiset(r.batch[1..]);
  }

  lemma MovesCommitted(r: Ring, s: Step)
    requires Inv(r) && Enabled(r, s) && !s.Handle?
    ensures Committed(Apply(r, s)) <= BATCH + 1
  {
    MovesKeepPending(r, s);
    if s.Peek? {
      assert Pending(Apply(r, s))[Accept] == 1;
    }
  }

  lemma StepKeepsInv(r: Ring, s: Step)
    requires Inv(r) && Enabled(r, s)
    ensures Inv(Apply(r, s))
  {
    if s.Handle? {
      HandlePending(r, s.res, s.item);
      HandleKeepsOneEach(Pending(r), r.live, r.batch[0], s.res, s.item, Apply(r, s).live);
      HandleCommitted(r, s.res, s.item);
    } else {
      MovesKeepPending(r, s);
      MovesCommitted(r, s);
    }
  }

  /** In every state of every run there is one accept and one operation for each live connection, no
      operation refers to a freed connection, and at most 129 entries wait for submission, so that
      the ring of 1024 entries always has room for another. */
  lemma {:induction false} OneOperationEach(rings: seq<Ring>, steps: seq<Step>, i: nat)
    requires Run(rings, steps) && rings[0] == Started() && i <= |steps|
    ensures OneEach(Pending(rings[i]), rings[i].live)
    ensures |rings[i].queued| <= 129 < ENTRIES == 1024
    ensures Inv(rings[i])
  {
    if i == 0 {
      assert Pending(Started()) == multiset{Accept};
    } else {
      OneOperationEach(rings, steps, i - 1);
      StepKeepsInv(rings[i - 1], steps[i - 1]);
    }
  }

  // ---------------------------------------------------------------- requests and replies alternate

  predicate Concerns(op: Op, it: Item) {
    op == Recv(it) || op == Send(it)
  }

  /** Step `k` handles an operation of connection `it`. */
  ghost predicate HandlesAt(rings: seq<Ring>, steps: seq<Step>, k: nat, it: Item)
    requires Run(rings, steps) && k < |steps|
  {
    steps[k].Handle? && Concerns(rings[k].batch[0], it)
  }

  /** Whether a reply to `it` is under way changes only by handling an operation of `it`. */
  lemma ReplyStays(r: Ring, s: Step, it: Item)
    requires Enabled(r, s) && !(s.Handle? && Concerns(r.batch[0], it))
    ensures Send(it) in Pending(Apply(r, s)) <==> Send(it) in Pending(r)
  {
    if s.Handle? {
      HandlePending(r, s.res, s.item);
    } else {
      MovesKeepPending(r, s);
    }
  }

  /** A read that brought data puts a reply under way; nothing else does. */
  lemma ReplyAfter(r: Ring, res: int, item: Item, it: Item)
    requires OneEach(Pending(r), r.live) && r.batch != [] && item !in r.live && Concerns(r.batch[0], it)
    ensures Send(it) in Pending(Handled(r, res, item)) <==> r.batch[0].Recv? && res > 0
  {
    HandlePending(r, res, item);
    assert Both(Pending(r), it) <= 1;
  }

  ghost predicate ReplyDue(rings: seq<Ring>, k: nat, it: Item)
    requires k < |rings|
  {
    Send(it) in Pending(rings[k])
  }

  lemma {:induction false} DueUnchanged(rings: seq<Ring>, i: nat, j: nat, it: Item)
    requires i <= j < |rings| && forall k :: i <= k < j ==> (ReplyDue(rings, k + 1, it) <==> ReplyDue(rings, k, it))
    ensures ReplyDue(rings, j, it) <==> ReplyDue(rings, i, it)
    decreases j
  {
    if i < j {
      DueUnchanged(rings, i, j - 1, it);
      assert ReplyDue(rings, j - 1 + 1, it) <==> ReplyDue(rings, j - 1, it);
    }
  }

  lemma ReplyUnchanged(rings: seq<Ring>, steps: seq<Step>, i: nat, j: nat, it: Item)
    requires Run(rings, steps) && i <= j <= |steps| && forall k :: i <= k < j ==> !HandlesAt(rings, steps, k, it)
    ensures ReplyDue(rings, j, it) <==> ReplyDue(rings, i, it)
  {
    forall k | i <= k < j
      ensures ReplyDue(rings, k + 1, it) <==> ReplyDue(rings, k, it)
    {
      assert !HandlesAt(rings, steps, k, it);
      ReplyStays(rings[k], steps[k], it);
    }
    DueUnchanged(rings, i, j, it);
  }

  /** Which operation of `it` is handled at step `j`: the reply if one is under way, else a read. */
  lemma HandledKind(rings: seq<Ring>, steps: seq<Step>, j: nat, it: Item)
    requires Run(rings, steps) && rings[0] == Started() && j < |steps| && HandlesAt(rings, steps, j, it)
    ensures rings[j].batch[0] == if Send(it) in Pending(rings[j]) then Send(it) else Recv(it)
  {
    OneOperationEach(rings, steps, j);
    HandlePending(rings[j], steps[j].res, steps[j].item);
    assert Both(Pending(rings[j]), it) <= 1;
  }

  /** Over every run, the operations of a connection alternate: after a read that brought data comes the
      reply, after a reply, or after a read that ended an earlier connection, a read. */
  lemma Alternates(rings: seq<Ring>, steps: seq<Step>, i: nat, j: nat, it: Item)
    requires Run(rings, steps) && rings[0] == Started() && i < j < |steps|
    requires HandlesAt(rings, steps, i, it) && HandlesAt(rings, steps, j, it)
    requires forall k :: i < k < j ==> !HandlesAt(rings, steps, k, it)
    ensures rings[j].batch[0] == if rings[i].batch[0].Recv? && steps[i].res > 0 then Send(it) else Recv(it)
  {
    OneOperationEach(rings, steps, i);
    ReplyAfter(rings[i], steps[i].res, steps[i].item, it);
    ReplyUnchanged(rings, steps, i + 1, j, it);
    HandledKind(rings, steps, j, it);
  }

  /** The first operation of a connection is a read. */
  lemma FirstIsRead(rings: seq<Ring>, steps: seq<Step>, j: nat, it: Item)
    requires Run(rings, steps) && rings[0] == Started() && j < |steps| && HandlesAt(rings, steps, j, it)
    requires forall k :: 0 <= k < j ==> !HandlesAt(rings, steps, k, it)
    ensures rings[j].batch[0] == Recv(it)
  {
    assert Pending(Started()) == multiset{Accept};
    ReplyUnchanged(rings, steps, 0, j, it);
    HandledKind(rings, steps, j, it);
  }

  /** A connection is opened exactly by an accept that succeeds, and freed exactly by a read that brings
      nothing; a batch may hold up to 128 completions. */
  lemma ConnectionLife(r: Ring, s: Step, it: Item)
    requires Enabled(r, s)
    ensures it !in r.live && it in Apply(r, s).live <==> it !in r.live && s.Handle? && r.batch[0].Accept? && s.res >= 0 && s.item == it
    ensures it in r.live && it !in Apply(r, s).live <==> it in r.live && s.Handle? && r.batch[0] == Recv(it) && s.res <= 0
    ensures r.batch == [] && r.queued == [] ==> forall n: nat :: n <= |r.complete| ==> (Enabled(r, Peek(n)) <==> n <= 128)
  {
  }

  // ---------------------------------------------------------------- every operation is handled

  /** There is always a connection that is not allocated. */
  lemma {:induction false} UnallocatedExists(live: set<Item>)
    ensures exists item: Item :: item !in live
  {
    var bound := Above(live);
    assert bound !in live;
  }

  ghost function Above(live: set<Item>): (b: Item)
    ensures forall it :: it in live ==> it < b
  {
    if live == {} then 0
    else
      var x :| x in live;
      var b := Above(live - {x});
      assert forall it :: it in live ==> it == x || it in live - {x};
      if x < b then b else x + 1
  }

  ghost predicate Leads(r: Ring, ss: seq<Step>, r': Ring)
    decreases |ss|
  {
    if ss == [] then r == r' else Enabled(r, ss[0]) && Leads(Apply(r, ss[0]), ss[1..], r')
  }

  /** Some steps lead from `r` to `r'`. */
  ghost predicate CanReach(r: Ring, r': Ring) {
    exists ss :: Leads(r, ss, r')
  }

  lemma CanStay(r: Ring)
    ensures CanReach(r, r)
  {
    assert Leads(r, [], r);
  }

  lemma CanStep(r: Ring, s: Step, r': Ring)
    requires Enabled(r, s) && CanReach(Apply(r, s), r')
    ensures CanReach(r, r')
  {
    var ss :| Leads(Apply(r, s), ss, r');
    assert ([s] + ss)[1..] == ss;
    assert Leads(r, [s] + ss, r');
  }

  lemma {:induction false} LeadsOn(r: Ring, ss: seq<Step>, t: Ring, more: seq<Step>, u: Ring)
    requires Leads(r, ss, t) && Leads(t, more, u)
    ensures Leads(r, ss + more, u)
    decreases |ss|
  {
    if ss == [] {
      assert ss + more == more;
    } else {
      var all := ss + more;
      assert all[0] == ss[0] && all[1..] == ss[1..] + more;
      LeadsOn(Apply(r, ss[0]), ss[1..], t, more, u);
    }
  }

  lemma CanGoOn(r: Ring, t: Ring, u: Ring)
    requires CanReach(r, t) && CanReach(t, u)
    ensures CanReach(r, u)
  {
    var ss :| Leads(r, ss, t);
    var more :| Leads(t, more, u);
    LeadsOn(r, ss, t, more, u);
  }

  /** The next completion of the batch is handled, with some result. */
  lemma HandleSome(r: Ring) returns (s: Step)
    requires r.batch != []
    ensures s.Handle? && Enabled(r, s)
    ensures var r' := Apply(r, s); r'.batch == r.batch[1..] && r'.flying == r.flying && r'.complete == r.complete && r.queued <= r'.queued
  {
    UnallocatedExists(r.live);
    var item: Item :| item !in r.live;
    HandleShape(r, 1, item);
    s := Handle(1, item);
  }

  /** The batch is handled up to the operation `op`. */
  lemma {:induction false} HandleUntil(r: Ring, op: Op) returns (r': Ring)
    requires op in r.batch
    ensures CanReach(r, r') && r'.batch != [] && r'.batch[0] == op
    decreases |r.batch|
  {
    if r.batch[0] == op {
      r' := r;
      CanStay(r);
    } else {
      var s := HandleSome(r);
      r' := HandleUntil(Apply(r, s), op);
      CanStep(r, s, r');
    }
  }

  /** The batch is handled completely. */
  lemma {:induction false} HandleAll(r: Ring) returns (r': Ring)
    ensures CanReach(r, r') && r'.batch == [] && r'.flying == r.flying && r'.complete == r.complete && r.queued <= r'.queued
    decreases |r.batch|
  {
    if r.batch == [] {
      r' := r;
      CanStay(r);
    } else {
      var s := HandleSome(r);
      r' := HandleAll(Apply(r, s));
      CanStep(r, s, r');
    }
  }

  /** A completed operation comes to the head of a batch. */
  lemma {:induction false} BringComplete(r: Ring, op: Op) returns (r': Ring)
    requires r.batch == [] && r.queued == [] && op in r.complete
    ensures CanReach(r, r') && r'.batch != [] && r'.batch[0] == op
    decreases |r.complete|
  {
    var p := Apply(r, Peek(1));
    assert r.complete == [r.complete[0]] + r.complete[1..];
    if p.batch[0] == op {
      r' := p;
      CanStay(p);
    } else {
      var h := HandleAll(p);
      var u := Apply(h, Submit);
      r' := BringComplete(u, op);
      CanStep(h, Submit, r');
      CanGoOn(p, h, r');
    }
    CanStep(r, Peek(1), r');
  }

  /** An operation that is with the kernel, or has completed, comes to the head of a batch. */
  lemma BringFlying(r: Ring, op: Op) returns (r': Ring)
    requires r.batch == [] && r.queued == [] && (op in r.flying || op in r.complete)
    ensures CanReach(r, r') && r'.batch != [] && r'.batch[0] == op
  {
    if op in r.complete {
      r' := BringComplete(r, op);
    } else {
      var c := Apply(r, Complete(op));
      assert c.complete[|r.complete|] == op;
      r' := BringComplete(c, op);
      CanStep(r, Complete(op), r');
    }
  }

  /** Every operation that is pending, in whatever state, can be submitted, completed and collected, and
      comes to be handled. */
  lemma OperationIsHandled(r: Ring, op: Op) returns (r': Ring)
    requires op in Pending(r)
    ensures CanReach(r, r') && r'.batch != [] && r'.batch[0] == op
  {
    if op in r.batch {
      r' := HandleUntil(r, op);
    } else {
      var h := HandleAll(r);
      var u := Apply(h, Submit);
      assert op in r.queued ==> op in h.queued;
      r' := BringFlying(u, op);
      CanStep(h, Submit, r');
      CanGoOn(r, h, r');
    }
  }

  // ---------------------------------------------------------------- the loop itself

  /** The ring after handling completions in order with these results; `items` are what `malloc` returned
      meanwhile. */
  ghost function AfterAll(r: Ring, results: seq<int>, items: seq<Item>): Ring
    requires |items| == |results|
    decreases |results|
  {
    var n := |results| - 1;
    if n < 0 then r
    else
      var m := AfterAll(r, results[..n], items[..n]);
      if m.batch == [] then m else Handled(m, results[n], items[n])
  }

  lemma AfterOne(r: Ring, results: seq<int>, items: seq<Item>, res: int, item: Item)
    requires |items| == |results| && AfterAll(r, results, items).batch != []
    ensures AfterAll(r, results + [res], items + [item]) == Handled(AfterAll(r, results, items), res, item)
  {
    var rs, its, n := results + [res], items + [item], |results|;
    assert rs[..n] == results && its[..n] == items;
  }

  class Loop {
    var ring: Ring

    constructor ()
      ensures ring == Started()
    {
      ring := Ring([], multiset{}, [], [], {});
      new;
      SetEventAccept();
    }

    method SetEventAccept()
      modifies this
      ensures ring == old(ring).(queued := old(ring.queued) + [Accept])
    {
      ring := ring.(queued := ring.queued + [Accept]);
    }

    method SetEventRecv(item: Item)
      modifies this
      ensures ring == old(ring).(queued := old(ring.queued) + [Recv(item)])
    {
      ring := ring.(queued := ring.queued + [Recv(item)]);
    }

    method SetEventSend(item: Item)
      modifies this
      ensures ring == old(ring).(queued := old(ring.queued) + [Send(item)])
    {
      ring := ring.(queued := ring.queued + [Send(item)]);
    }

    /** The body of the loop over a batch, for one completion. */
    method HandleOne(res: int, item: Item)
      requires Inv(ring) && ring.batch != [] && item !in ring.live
      modifies this
      ensures ring == Apply(old(ring), Handle(res, item)) && Inv(ring)
    {
      StepKeepsInv(ring, Handle(res, item));
      ghost var was := ring;
      var op := ring.batch[0];
      ring := ring.(batch := ring.batch[1..]);
      match op {
        case Accept =>
          SetEventAccept();
          if res >= 0 {
            ring := ring.(live := ring.live + {item});
            SetEventRecv(item);
            assert was.queued + [Accept] + [Recv(item)] == was.queued + [Accept, Recv(item)];
          }
        case Recv(it) =>
          if res <= 0 {
            ring := ring.(live := ring.live - {it});
          } else {
            SetEventSend(it);
          }
        case Send(it) =>
          SetEventRecv(it);
      }
    }

    /** Some connection that is not allocated. */
    method Malloc() returns (item: Item)
      ensures item !in ring.live
    {
      UnallocatedExists(ring.live);
      item :| item !in ring.live;
    }

    /** Handles the next completion, after those with the results `done`. */
    method HandleNext(res: int, ghost start: Ring, ghost done: seq<int>, ghost items: seq<Item>) returns (ghost items': seq<Item>)
      requires Inv(ring) && ring.batch != [] && |items| == |done| && ring == AfterAll(start, done, items)
      modifies this
      ensures Inv(ring) && |ring.batch| == old(|ring.batch|) - 1
      ensures |items'| == |done + [res]| && ring == AfterAll(start, done + [res], items')
      ensures ring.flying == old(ring.flying) && ring.complete == old(ring.complete)
    {
      var item := Malloc();
      HandleShape(ring, res, item);
      AfterOne(start, done, items, res, item);
      HandleOne(res, item);
      items' := items + [item];
    }

    /** Handles a whole batch: every completion of it once, each with its own result, leaving at most 129
        queued entries. */
    method HandleBatch(results: seq<int>) returns (ghost items: seq<Item>)
      requires Inv(ring) && |results| == |ring.batch|
      modifies this
      ensures Inv(ring) && ring.batch == [] && |ring.queued| <= 129
      ensures |items| == |results| && ring == AfterAll(old(ring), results, items)
      ensures ring.flying == old(ring.flying) && ring.complete == old(ring.complete)
    {
      var i := 0;
      items := [];
      while i < |results|
        invariant 0 <= i <= |results| && Inv(ring) && |ring.batch| == |results| - i
        invariant |items| == i && ring == AfterAll(old(ring), results[..i], items)
        invariant ring.flying == old(ring.flying) && ring.complete == old(ring.complete)
        decreases |results| - i
      {
        items := HandleNext(results[i], old(ring), results[..i], items);
        assert results[..i] + [results[i]] == results[..i + 1];
        i := i + 1;
      }
      assert results[..i] == results;
    }
  }
}
