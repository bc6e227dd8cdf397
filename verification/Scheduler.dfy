/** The coroutine scheduler of `NtyCo/core/nty_schedule.c`: the sleep tree, the poll timeout and one
pass over the ready queue. Clock readings are parameters, in microseconds since the scheduler's
birth; resuming a coroutine is an arbitrary list of effects on the queue and the end-of-file marks. */
module Scheduler {
  import opened RbTrees
  import opened OrderedNodes
  import opened SleepOrder
  import NtyTree
  import TailQueue

  datatype Timespec = Timespec(sec: nat, nsec: nat)

  function Nanos(t: Timespec): nat {
    t.sec * 1_000_000_000 + t.nsec
  }

  /** The conversion of `nty_schedule_epoll`, which loses the milliseconds from one second on. */
  function Convert(usecs: nat): Timespec {
    var sec := usecs / 1_000_000;
    Timespec(sec, if sec != 0 then (usecs % 1000) * 1000 else usecs * 1000)
  }

  /** The nanoseconds polled for: from one second on, without the milliseconds. */
  function Polled(usecs: nat): int {
    if usecs < 1_000_000 then usecs * 1000 else usecs * 1000 - 1_000_000 * (usecs / 1000 % 1000)
  }

  /** The converted timeout is a proper one, never exceeds the requested time, is short of it by less
      than a second, and equals it exactly for times whose milliseconds are not dropped. */
  lemma ConvertedTimeout(usecs: nat)
    ensures Convert(usecs).nsec < 1_000_000_000
    ensures Nanos(Convert(usecs)) <= usecs * 1000 < Nanos(Convert(usecs)) + 1_000_000_000
    ensures Nanos(Convert(usecs)) == usecs * 1000 <==> usecs < 1_000_000 || usecs % 1_000_000 < 1000
    ensures Nanos(Convert(usecs)) == 0 <==> usecs == 0
    ensures Nanos(Convert(usecs)) == Polled(usecs)
  {
    var q, us := usecs / 1000, usecs % 1000;
    var sec, ms := q / 1000, q % 1000;
    Millions(usecs, sec, ms * 1000 + us);
    assert Convert(usecs) == Timespec(sec, if sec != 0 then us * 1000 else usecs * 1000);
  }

  lemma Millions(x: nat, q: nat, r: nat)
    requires x == q * 1_000_000 + r && r < 1_000_000
    ensures x / 1_000_000 == q && x % 1_000_000 == r
  {
  }

  const DEFAULT_TIMEOUT: nat := 3_000_000

  /** What a resumed coroutine does before it yields, as far as the ready queue can tell. */
  datatype Effect = Enqueue(co: nat) | Mark(co: nat, eof: bool)

  /** Coroutines enqueue themselves or others only when these are not queued already. */
  function Admitted(queue: seq<nat>, effects: seq<Effect>, n: nat): seq<nat>
    decreases |effects|
  {
    if |effects| == 0 then queue
    else
      var queue' := match effects[0]
        case Enqueue(co) => if 0 < co < n && co !in queue then queue + [co] else queue
        case Mark(_, _) => queue;
      Admitted(queue', effects[1..], n)
  }

  function Marked(eof: seq<bool>, effects: seq<Effect>): seq<bool>
    decreases |effects|
  {
    if |effects| == 0 then eof
    else
      var eof' := match effects[0]
        case Enqueue(_) => eof
        case Mark(co, b) => if co < |eof| then eof[co := b] else eof;
      Marked(eof', effects[1..])
  }

  function EffectsAt(script: seq<seq<Effect>>, i: nat): seq<Effect> {
    if i < |script| then script[i] else []
  }

  /** The marks after the first `i` resumed coroutines have run. */
  function MarksAfter(eof: seq<bool>, script: seq<seq<Effect>>, i: nat): seq<bool> {
    if i == 0 then eof else Marked(MarksAfter(eof, script, i - 1), EffectsAt(script, i - 1))
  }

  function IsMarked(eof: seq<bool>, co: nat): bool {
    co < |eof| && eof[co]
  }

  /** The queue after the first `i` turns: each takes the first coroutine off, which then enqueues some. */
  function QueueAfter(start: seq<nat>, script: seq<seq<Effect>>, i: nat, n: nat): seq<nat> {
    if i == 0 then start else Admitted(Rest(QueueAfter(start, script, i - 1, n)), EffectsAt(script, i - 1), n)
  }

  function Rest(queue: seq<nat>): seq<nat> {
    if queue == [] then [] else queue[1..]
  }

  /** The last effect decides: it adds a coroutine at the end, or not if that is queued already. */
  lemma {:induction false} AdmittedLast(queue: seq<nat>, effects: seq<Effect>, e: Effect, n: nat)
    ensures var q := Admitted(queue, effects, n);
      Admitted(queue, effects + [e], n) == if e.Enqueue? && 0 < e.co < n && e.co !in q then q + [e.co] else q
    decreases |effects|
  {
    var all := effects + [e];
    if |effects| == 0 {
      assert all[1..] == [];
    } else {
      assert all[0] == effects[0] && all[1..] == effects[1..] + [e];
      var d := effects[0];
      var queue' := if d.Enqueue? && 0 < d.co < n && d.co !in queue then queue + [d.co] else queue;
      AdmittedLast(queue', effects[1..], e, n);
    }
  }

  /** Queued afterwards is who was queued or was enqueued by some effect. */
  lemma {:induction false} AdmittedMembers(queue: seq<nat>, effects: seq<Effect>, n: nat, c: nat)
    ensures c in Admitted(queue, effects, n) <==> c in queue || (0 < c < n && Enqueue(c) in effects)
    decreases |effects|
  {
    if |effects| > 0 {
      var d := effects[0];
      var queue' := if d.Enqueue? && 0 < d.co < n && d.co !in queue then queue + [d.co] else queue;
      AdmittedMembers(queue', effects[1..], n, c);
      assert effects == [d] + effects[1..];
    }
  }

  /** The last mark of a coroutine stands. */
  lemma {:induction false} MarkedLast(eof: seq<bool>, effects: seq<Effect>, e: Effect, c: nat)
    ensures |Marked(eof, effects)| == |eof|
    ensures IsMarked(Marked(eof, effects + [e]), c) ==
            if e.Mark? && e.co == c && c < |eof| then e.eof else IsMarked(Marked(eof, effects), c)
    decreases |effects|
  {
    var all := effects + [e];
    if |effects| == 0 {
      assert all[1..] == [];
    } else {
      assert all[0] == effects[0] && all[1..] == effects[1..] + [e];
      var d := effects[0];
      MarkedLast(if d.Mark? && d.co < |eof| then eof[d.co := d.eof] else eof, effects[1..], e, c);
    }
  }

  /** Nobody in `resumed` was marked when its turn came. */
  ghost predicate Unmarked(eof: seq<bool>, script: seq<seq<Effect>>, resumed: seq<nat>) {
    forall i :: 0 <= i < |resumed| ==> !IsMarked(MarksAfter(eof, script, i), resumed[i])
  }

  lemma UnmarkedTurn(eof: seq<bool>, script: seq<seq<Effect>>, resumed: seq<nat>, co: nat)
    requires Unmarked(eof, script, resumed) && !IsMarked(MarksAfter(eof, script, |resumed|), co)
    ensures Unmarked(eof, script, resumed + [co])
  {
  }

  lemma {:induction false} AdmittedAppends(queue: seq<nat>, effects: seq<Effect>, n: nat) returns (added: seq<nat>)
    ensures Admitted(queue, effects, n) == queue + added
    decreases |effects|
  {
    if |effects| == 0 {
      added := [];
    } else {
      var e := effects[0];
      var more := if e.Enqueue? && 0 < e.co < n && e.co !in queue then [e.co] else [];
      added := AdmittedAppends(queue + more, effects[1..], n);
      assert queue + more + added == queue + (more + added);
      if more == [] {
        assert queue + more == queue;
      }
      added := more + added;
    }
  }

  lemma RekeyedOrder(ids: seq<nat>, key: seq<int>, co: nat, k: int)
    requires Ascending(ids, key) && co !in ids && co < |key|
    ensures Ascending(ids, key[co := k])
  {
    assert forall i :: 0 <= i < |ids| ==> KeyAt(key[co := k], ids[i]) == KeyAt(key, ids[i]);
  }

  lemma RekeyedUnused(ids: seq<nat>, key: seq<int>, co: nat, k: int, j: int)
    requires co !in ids && co < |key|
    ensures Unused(ids, key[co := k], j) <==> Unused(ids, key, j)
  {
    assert forall i :: 0 <= i < |ids| ==> KeyAt(key[co := k], ids[i]) == KeyAt(key, ids[i]);
  }

  ghost predicate NoRepeats(s: seq<nat>) {
    forall i, j :: 0 <= i < j < |s| ==> s[i] != s[j]
  }

  /** The queue at the start of a pass is what was resumed, whoever was freed, and what is left;
      something is left only if somebody was freed. */
  ghost predicate PassResult(start: seq<nat>, resumed: seq<nat>, freed: nat, left: seq<nat>) {
    && NoRepeats(start)
    && start == resumed + (if freed == 0 then [] else [freed]) + left
    && (freed == 0 ==> left == [])
  }

  /** A turn moves the coroutine at position `k` of the queue from those left to those resumed; it is the
      last of the queue exactly if nobody is left behind it. */
  lemma TurnMoves(start: seq<nat>, k: nat)
    requires NoRepeats(start) && k < |start|
    ensures start[..k] + [start[k]] == start[..k + 1] && start[k..][1..] == start[k + 1..]
    ensures start[|start| - 1] == start[k] <==> k + 1 == |start|
    ensures start == start[..k] + [start[k]] + start[k + 1..]
  {
  }

  class Schedule {
    const sleeping: NtyTree.RbHead
    const ready: TailQueue.Queues
    var eof: seq<bool>

    ghost predicate Valid()
      reads this, sleeping, ready
    {
      sleeping.Valid() && ready.Valid() && |ready.items| == 1
    }

    constructor (tree: NtyTree.RbHead, queue: TailQueue.Queues)
      requires tree.Valid() && queue.Valid() && |queue.items| == 1
      ensures Valid() && sleeping == tree && ready == queue && eof == seq(|queue.m.next|, _ => false)
    {
      sleeping, ready, eof := tree, queue, seq(|queue.m.next|, _ => false);
    }

    // -------------------------------------------------------------- sleeping

    /** Removes whoever holds the key that `co` still carries. */
    method DropStale(co: nat)
      requires sleeping.Valid() && 0 < co < |sleeping.cells|
      modifies sleeping
      ensures sleeping.Valid() && sleeping.key == old(sleeping.key)
      ensures sleeping.Order() == Others(old(sleeping.Order()), sleeping.key, sleeping.key[co]) && co !in sleeping.Order()
    {
      ghost var ids := sleeping.Order();
      OthersMembers(ids, sleeping.key, sleeping.key[co], co);
      var tmp := sleeping.Find(sleeping.key[co]);
      if tmp != 0 {
        OthersWithout(ids, sleeping.key, tmp);
        InOrderIds(sleeping.tree);
        var _ := sleeping.Remove(tmp);
      } else {
        OthersUnused(ids, sleeping.key, sleeping.key[co]);
      }
    }

    method Postpone(co: nat)
      requires sleeping.Valid() && 0 < co < |sleeping.cells| && co !in sleeping.Order()
      modifies sleeping`key
      ensures sleeping.Valid() && sleeping.key == old(sleeping.key)[co := old(sleeping.key[co]) + 1]
    {
      RekeyedOrder(sleeping.Order(), sleeping.key, co, sleeping.key[co] + 1);
      sleeping.key := sleeping.key[co := sleeping.key[co] + 1];
    }

    /** One attempt to insert `co` under its present key among the sleepers `ids`. */
    method TryInsert(co: nat, ghost ids: seq<nat>, ghost key: seq<int>) returns (tmp: nat)
      requires sleeping.Valid() && 0 < co < |sleeping.cells| && sleeping.Order() == ids && co !in ids
      requires |key| == |sleeping.key| && sleeping.key == key[co := sleeping.key[co]]
      modifies sleeping
      ensures sleeping.Valid() && |sleeping.cells| == old(|sleeping.cells|) && sleeping.key == old(sleeping.key)
      ensures tmp != 0 ==> sleeping.Order() == ids && !Unused(ids, key, sleeping.key[co])
      ensures tmp == 0 ==> Unused(ids, key, sleeping.key[co]) && co in sleeping.Order() && Without(sleeping.Order(), co) == ids
    {
      tmp := sleeping.Insert(co);
      InOrderIds(sleeping.tree);
      RekeyedUnused(ids, key, co, sleeping.key[co], sleeping.key[co]);
    }

    /** Puts `co`, which is not asleep, to sleep at the first free key from its own key on. */
    method InsertFree(co: nat, ghost d: int)
      requires sleeping.Valid() && 0 < co < |sleeping.cells| && co !in sleeping.Order() && sleeping.key[co] == d
      modifies sleeping
      ensures sleeping.Valid() && |sleeping.cells| == old(|sleeping.cells|) && co in sleeping.Order()
      ensures |sleeping.key| == old(|sleeping.key|) && sleeping.key == old(sleeping.key)[co := sleeping.key[co]]
      ensures Without(sleeping.Order(), co) == old(sleeping.Order())
      ensures LeastUnused(old(sleeping.Order()), old(sleeping.key), d, sleeping.key[co])
    {
      ghost var ids, key0, n := sleeping.Order(), sleeping.key, |sleeping.cells|;
      var tmp := TryInsert(co, ids, key0);
      while tmp != 0
        invariant sleeping.Valid() && |sleeping.cells| == n && |sleeping.key| == |key0|
        invariant sleeping.key == key0[co := sleeping.key[co]] && d <= sleeping.key[co]
        invariant AllUsed(ids, key0, d, sleeping.key[co])
        invariant tmp != 0 ==> sleeping.Order() == ids && !Unused(ids, key0, sleeping.key[co])
        invariant tmp == 0 ==> Unused(ids, key0, sleeping.key[co]) && co in sleeping.Order() && Without(sleeping.Order(), co) == ids
        decreases if tmp == 0 then -1 else Top(ids, key0) - sleeping.key[co]
      {
        UsedAtMostTop(ids, key0, sleeping.key[co]);
        Postpone(co);
        tmp := TryInsert(co, ids, key0);
        if tmp != 0 {
          UsedAtMostTop(ids, key0, sleeping.key[co]);
        }
      }
    }

    static ghost predicate AllUsed(ids: seq<nat>, key: seq<int>, d: int, k: int) {
      forall j :: d <= j < k ==> !Unused(ids, key, j)
    }

    static ghost function Top(ids: seq<nat>, key: seq<int>): int {
      if ids == [] then 0 else KeyAt(key, ids[|ids| - 1])
    }

    static lemma UsedAtMostTop(ids: seq<nat>, key: seq<int>, k: int)
      requires Ascending(ids, key) && !Unused(ids, key, k)
      ensures k <= Top(ids, key)
    {
      var i :| 0 <= i < |ids| && KeyAt(key, ids[i]) == k;
    }

    /** nty_schedule_sched_sleepdown */
    method Sleepdown(co: nat, msecs: nat, now: nat)
      requires sleeping.Valid() && 0 < co < |sleeping.cells|
      modifies sleeping
      ensures sleeping.Valid()
      ensures SleptDown(old(sleeping.Order()), old(sleeping.key), sleeping.Order(), sleeping.key, co, msecs, now)
      ensures forall wanted: seq<int> :: |wanted| == |sleeping.key| ==>
        Step(Sleepers(old(sleeping.Order()), old(sleeping.key), now, wanted), Sleep(co, msecs),
             Sleepers(sleeping.Order(), sleeping.key, now, wanted[co := now + 1000 * msecs]))
    {
      ghost var key0 := sleeping.key;
      DropStale(co);
      ghost var rest := sleeping.Order();
      var deadline := now + msecs * 1000;
      RekeyedOrder(rest, sleeping.key, co, deadline);
      sleeping.key := sleeping.key[co := deadline];
      if msecs != 0 {
        InsertFree(co, deadline);
        forall j
          ensures Unused(rest, key0[co := deadline], j) <==> Unused(rest, key0, j)
        {
          RekeyedUnused(rest, key0, co, deadline, j);
        }
      }
    }

    /** nty_schedule_expired: the first sleeper if it is due, taken out of the tree. */
    method Expire(now: nat) returns (co: nat)
      requires sleeping.Valid()
      modifies sleeping
      ensures sleeping.Valid() && sleeping.key == old(sleeping.key)
      ensures Expired(old(sleeping.Order()), sleeping.key, sleeping.Order(), co, now)
      ensures forall wanted :: Step(Sleepers(old(sleeping.Order()), sleeping.key, now, wanted), SleepOrder.Expire(co),
                                    Sleepers(sleeping.Order(), sleeping.key, now, wanted))
    {
      ghost var ids := sleeping.Order();
      sleeping.OrderPositive();
      co := sleeping.MinMax(-1);
      if co == 0 {
        return;
      }
      assert co == sleeping.Order()[0];
      if sleeping.key[co] <= now {
        var _ := sleeping.Remove(co);
        WithoutSplit([], co, ids[1..]);
        assert ids == [] + [co] + ids[1..];
        assert [] + ids[1..] == ids[1..];
        return;
      }
      co := 0;
    }

    // -------------------------------------------------------------- polling

    /** nty_schedule_min_timeout: the time until the earliest deadline, or the default. */
    method MinTimeout(now: nat) returns (usecs: nat)
      requires sleeping.Valid()
      ensures sleeping.Order() == [] ==> usecs == DEFAULT_TIMEOUT
      ensures usecs == 0 <==> !AllAbove(sleeping.Order(), sleeping.key, now)
      ensures usecs > 0 && sleeping.Order() != [] ==> now + usecs == KeyAt(sleeping.key, sleeping.Order()[0])
    {
      sleeping.OrderPositive();
      var co := sleeping.MinMax(-1);
      if co == 0 {
        return DEFAULT_TIMEOUT;
      }
      assert co == sleeping.Order()[0];
      var min := sleeping.key[co];
      if min > now {
        return min - now;
      }
      return 0;
    }

    /** The decision of nty_schedule_epoll: it waits only if nothing is ready or due, and then no
        longer than until the deadline of any sleeper. */
    method PollTimeout(now: nat) returns (waits: bool, t: Timespec)
      requires Valid()
      ensures waits <==> ready.items[0] == [] && AllAbove(sleeping.Order(), sleeping.key, now)
      ensures waits ==> 0 < Nanos(t) && t.nsec < 1_000_000_000
      ensures waits ==> forall i :: 0 <= i < |sleeping.Order()| ==> now * 1000 + Nanos(t) <= KeyAt(sleeping.key, sleeping.Order()[i]) * 1000
      ensures waits && sleeping.Order() == [] ==> t == Timespec(3, 0)
      ensures waits && sleeping.Order() != [] ==>
        var d := KeyAt(sleeping.key, sleeping.Order()[0]) - now;
        d > 0 && Nanos(t) == (if d < 1_000_000 then d * 1000 else d * 1000 - 1_000_000 * (d / 1000 % 1000))
    {
      t := Timespec(0, 0);
      var usecs := MinTimeout(now);
      var first := ready.First(0);
      waits := usecs != 0 && first == 0;
      if waits {
        t := Convert(usecs);
        ConvertedTimeout(usecs);
      }
    }

    // -------------------------------------------------------------- the ready queue

    /** A resumed coroutine runs until it yields. */
    method Resume(effects: seq<Effect>)
      requires ready.Valid() && |ready.items| == 1
      modifies this`eof, ready
      ensures ready.Valid() && |ready.items| == 1 && |ready.m.next| == old(|ready.m.next|)
      ensures ready.items[0] == Admitted(old(ready.items[0]), effects, |ready.m.next|)
      ensures eof == Marked(old(eof), effects)
    {
      var i := 0;
      while i < |effects|
        invariant i <= |effects|
        invariant ready.Valid() && |ready.items| == 1 && |ready.m.next| == old(|ready.m.next|)
        invariant Admitted(ready.items[0], effects[i..], |ready.m.next|) == Admitted(old(ready.items[0]), effects, |ready.m.next|)
        invariant Marked(eof, effects[i..]) == Marked(old(eof), effects)
        decreases |effects| - i
      {
        assert effects[i..][0] == effects[i] && effects[i..][1..] == effects[i + 1..];
        match effects[i] {
          case Enqueue(co) =>
            var queued := ready.Foreach(0);
            if 0 < co < |ready.m.next| && co !in queued {
              ready.InsertTail(0, co);
            }
          case Mark(co, b) =>
            if co < |eof| {
              eof := eof[co := b];
            }
        }
        i := i + 1;
      }
    }

    /** Takes the first coroutine off the queue. */
    method TakeFirst(co: nat)
      requires ready.Valid() && |ready.items| == 1 && ready.items[0] != [] && ready.items[0][0] == co
      modifies ready
      ensures ready.Valid() && |ready.items| == 1 && ready.items[0] == old(ready.items[0][1..])
      ensures |ready.m.next| == old(|ready.m.next|)
    {
      ghost var queue := ready.items[0];
      ready.Remove(0, co, 0);
      assert TailQueue.Removed(queue, 0) == queue[1..];
    }

    lemma QueueDistinct()
      requires ready.Valid() && |ready.items| == 1
      ensures NoRepeats(ready.items[0])
    {
      assert TailQueue.Linked(ready.m, 0, ready.items[0]);
    }

    /** One turn of the pass: `co` leaves the queue and, unless it is marked, runs. */
    method Turn(co: nat, effects: seq<Effect>, ghost left: seq<nat>, ghost joined: seq<nat>) returns (marked: bool, ghost joined': seq<nat>)
      requires ready.Valid() && |ready.items| == 1 && ready.items[0] == left + joined && left != [] && co == left[0]
      modifies this`eof, ready
      ensures ready.Valid() && |ready.items| == 1 && ready.items[0] == left[1..] + joined'
      ensures marked == IsMarked(old(eof), co)
      ensures marked ==> joined' == joined
      ensures !marked ==> eof == Marked(old(eof), effects)
      ensures |ready.m.next| == old(|ready.m.next|)
      ensures ready.items[0] == if marked then Rest(old(ready.items[0])) else Admitted(Rest(old(ready.items[0])), effects, |ready.m.next|)
    {
      ghost var rest := left[1..];
      QueueTail(left, joined);
      TakeFirst(co);
      marked, joined' := IsMarked(eof, co), joined;
      if !marked {
        ghost var added := AdmittedAppends(rest + joined, effects, |ready.m.next|);
        Resume(effects);
        joined' := joined + added;
        assert rest + joined + added == rest + joined';
      }
    }

    static lemma QueueTail(left: seq<nat>, joined: seq<nat>)
      requires left != []
      ensures (left + joined)[0] == left[0] && (left + joined)[1..] == left[1..] + joined
    {
    }

    static lemma AfterTurn(eof: seq<bool>, start: seq<nat>, script: seq<seq<Effect>>, i: nat, n: nat)
      ensures MarksAfter(eof, script, i + 1) == Marked(MarksAfter(eof, script, i), EffectsAt(script, i))
      ensures QueueAfter(start, script, i + 1, n) == Admitted(Rest(QueueAfter(start, script, i, n)), EffectsAt(script, i), n)
    {
    }

    /** A turn as the pass sees it: after `resumed`, the next coroutine is freed or resumed. */
    method NextTurn(co: nat, script: seq<seq<Effect>>, ghost eof0: seq<bool>, ghost start: seq<nat>, resumed: seq<nat>,
                    ghost left: seq<nat>, ghost joined: seq<nat>)
      returns (marked: bool, ghost joined': seq<nat>)
      requires ready.Valid() && |ready.items| == 1 && ready.items[0] == left + joined && left != [] && co == left[0]
      requires Unmarked(eof0, script, resumed) && eof == MarksAfter(eof0, script, |resumed|)
      requires ready.items[0] == QueueAfter(start, script, |resumed|, |ready.m.next|)
      modifies this`eof, ready
      ensures ready.Valid() && |ready.items| == 1 && ready.items[0] == left[1..] + joined'
      ensures marked ==> IsMarked(MarksAfter(eof0, script, |resumed|), co)
      ensures !marked ==> Unmarked(eof0, script, resumed + [co]) && eof == MarksAfter(eof0, script, |resumed| + 1)
      ensures |ready.m.next| == old(|ready.m.next|)
      ensures marked ==> ready.items[0] == Rest(QueueAfter(start, script, |resumed|, |ready.m.next|))
      ensures !marked ==> ready.items[0] == QueueAfter(start, script, |resumed| + 1, |ready.m.next|)
    {
      marked, joined' := Turn(co, EffectsAt(script, |resumed|), left, joined);
      if !marked {
        UnmarkedTurn(eof0, script, resumed, co);
        AfterTurn(eof0, start, script, |resumed|, |ready.m.next|);
      }
    }

    /** One pass over the ready queue. The coroutines queued at the start are resumed in order, each
        once and none that joins during the pass, up to the first that is marked when its turn comes;
        that one is freed and ends the pass. Whoever was not reached stays ahead of whoever joined. */
    method ReadyPass(script: seq<seq<Effect>>) returns (resumed: seq<nat>, freed: nat, ghost left: seq<nat>, ghost joined: seq<nat>)
      requires ready.Valid() && |ready.items| == 1
      modifies this`eof, ready
      ensures ready.Valid() && |ready.items| == 1 && ready.items[0] == left + joined
      ensures PassResult(old(ready.items[0]), resumed, freed, left)
      ensures Unmarked(old(eof), script, resumed)
      ensures freed != 0 ==> IsMarked(MarksAfter(old(eof), script, |resumed|), freed)
      ensures |ready.m.next| == old(|ready.m.next|)
      ensures var q := QueueAfter(old(ready.items[0]), script, |resumed|, |ready.m.next|);
        ready.items[0] == if freed == 0 then q else Rest(q)
    {
      ghost var start := ready.items[0];
      QueueDistinct();
      var last := ready.Last(0);
      resumed, freed, left, joined := [], 0, start, [];
      var co := ready.First(0);
      ghost var k := 0;
      while co != 0
        invariant ready.Valid() && |ready.items| == 1 && ready.items[0] == left + joined
        invariant k <= |start| && resumed == start[..k] && left == start[k..] && freed == 0
        invariant co != 0 ==> k < |start| && co == start[k]
        invariant co == 0 ==> k == |start|
        invariant Unmarked(old(eof), script, resumed)
        invariant eof == MarksAfter(old(eof), script, |resumed|)
        invariant |ready.m.next| == old(|ready.m.next|) && ready.items[0] == QueueAfter(start, script, |resumed|, |ready.m.next|)
        decreases |start| - k
      {
        TurnMoves(start, k);
        var marked;
        marked, joined := NextTurn(co, script, old(eof), start, resumed, left, joined);
        k := k + 1;
        left := start[k..];
        if marked {
          freed := co;
          break;
        }
        resumed := resumed + [co];
        if co == last {
          break;
        }
        co := ready.First(0);
      }
    }
  }
}
