/** What one call of the sleep scheduler does to the sleepers, and what follows for whole runs.

The sleepers are listed in ascending order of their keys (`sleep_usecs`, measured from the birth
of the scheduler). A coroutine that is not asleep keeps the key of its last sleep, and the next
call of `nty_schedule_sched_sleepdown` looks that stale key up. */
module SleepOrder {
  import opened RbTrees
  import opened OrderedNodes

  /** The listed nodes whose key differs from `k`. */
  ghost function Others(ids: seq<nat>, key: seq<int>, k: int): seq<nat> {
    if |ids| == 0 then [] else (if KeyAt(key, ids[0]) == k then [] else [ids[0]]) + Others(ids[1..], key, k)
  }

  lemma {:induction false} OthersUnused(ids: seq<nat>, key: seq<int>, k: int)
    requires Unused(ids, key, k)
    ensures Others(ids, key, k) == ids
  {
    if |ids| != 0 {
      OthersUnused(ids[1..], key, k);
    }
  }

  /** Removing the one node with key `k`. */
  lemma {:induction false} OthersWithout(ids: seq<nat>, key: seq<int>, x: nat)
    requires Ascending(ids, key) && x in ids
    ensures Without(ids, x) == Others(ids, key, KeyAt(key, x))
  {
    var k := KeyAt(key, x);
    assert Ascending(ids[1..], key);
    if ids[0] == x {
      OthersUnused(ids[1..], key, k);
      assert Others(ids, key, k) == ids[1..];
    } else {
      OthersWithout(ids[1..], key, x);
    }
  }

  lemma {:induction false} OthersMembers(ids: seq<nat>, key: seq<int>, k: int, x: nat)
    ensures x in Others(ids, key, k) <==> x in ids && KeyAt(key, x) != k
  {
    if |ids| != 0 {
      OthersMembers(ids[1..], key, k, x);
    }
  }

  /** `k` is the least key from `d` on that no listed node has. */
  ghost predicate LeastUnused(ids: seq<nat>, key: seq<int>, d: int, k: int) {
    && d <= k && Unused(ids, key, k)
    && (forall j :: d <= j < k ==> !Unused(ids, key, j))
  }

  lemma {:induction false} UsedPosition(ids: seq<nat>, key: seq<int>, d: int, k: int) returns (i: nat)
    requires Ascending(ids, key) && d <= k && forall j :: d <= j <= k ==> !Unused(ids, key, j)
    ensures k - d <= i < |ids| && KeyAt(key, ids[i]) == k
    decreases k - d
  {
    assert !Unused(ids, key, k);
    i :| 0 <= i < |ids| && KeyAt(key, ids[i]) == k;
    if d < k {
      var h := UsedPosition(ids, key, d, k - 1);
      assert h < i;
    }
  }

  /** Collisions postpone a deadline by at most one microsecond for each sleeper. */
  lemma CollisionDelay(ids: seq<nat>, key: seq<int>, d: int, k: int)
    requires Ascending(ids, key) && LeastUnused(ids, key, d, k)
    ensures k <= d + |ids|
  {
    if d < k {
      var i := UsedPosition(ids, key, d, k - 1);
    }
  }

  // ---------------------------------------------------------------- single calls

  /** One call of sleepdown for `co` with `msecs` milliseconds, `now` microseconds after birth. */
  ghost predicate SleptDown(ids: seq<nat>, key: seq<int>, ids': seq<nat>, key': seq<int>, co: nat, msecs: nat, now: int) {
    var rest := Others(ids, key, KeyAt(key, co));
    && co < |key| == |key'| && key' == key[co := key'[co]]
    && (msecs == 0 ==> ids' == rest && key'[co] == now)
    && (msecs > 0 ==> co in ids' && Without(ids', co) == rest && LeastUnused(rest, key, now + 1000 * msecs, key'[co]))
    && Ascending(ids', key')
  }

  /** One call of expired, which returns `woken` or 0. */
  ghost predicate Expired(ids: seq<nat>, key: seq<int>, ids': seq<nat>, woken: nat, now: int) {
    && (woken == 0 ==> ids' == ids && AllAbove(ids, key, now))
    && (woken != 0 ==> |ids| > 0 && woken == ids[0] && ids' == ids[1..] && KeyAt(key, woken) <= now)
  }

  // ---------------------------------------------------------------- runs

  /** `wanted` is the deadline each coroutine last asked for; it exists for the specification only. */
  datatype Sleepers = Sleepers(ids: seq<nat>, key: seq<int>, clock: int, wanted: seq<int>)

  datatype Action = Sleep(co: nat, msecs: nat) | Expire(woken: nat) | Tick

  ghost predicate Step(s: Sleepers, a: Action, s': Sleepers) {
    match a
    case Sleep(co, msecs) =>
      && 0 < co < |s.key| == |s.wanted|
      && SleptDown(s.ids, s.key, s'.ids, s'.key, co, msecs, s.clock)
      && s'.clock == s.clock && s'.wanted == s.wanted[co := s.clock + 1000 * msecs]
    case Expire(woken) =>
      Expired(s.ids, s.key, s'.ids, woken, s.clock) && s'.key == s.key && s'.clock == s.clock && s'.wanted == s.wanted
    case Tick =>
      s.clock <= s'.clock && s' == s.(clock := s'.clock)
  }

  ghost predicate Run(states: seq<Sleepers>, actions: seq<Action>) {
    |states| == |actions| + 1 && forall i :: 0 <= i < |actions| ==> Step(states[i], actions[i], states[i + 1])
  }

  /** A sleep of zero milliseconds is not called at the very microsecond another sleeper is due. */
  ghost predicate Careful(s: Sleepers, a: Action) {
    a.Sleep? && a.msecs == 0 ==> forall i :: 0 <= i < |s.ids| && s.ids[i] != a.co ==> KeyAt(s.key, s.ids[i]) != s.clock
  }

  lemma {:induction false} WithoutMembers(ids: seq<nat>, x: nat, y: nat)
    requires y != x
    ensures y in Without(ids, x) <==> y in ids
  {
    if |ids| != 0 && ids[0] != x {
      WithoutMembers(ids[1..], x, y);
    }
  }

  /** After a sleep, `y` is asleep exactly if it was kept, or is `co` and sleeps for some time. */
  lemma SleptMembers(s: Sleepers, co: nat, msecs: nat, s': Sleepers, y: nat)
    requires Step(s, Sleep(co, msecs), s')
    ensures y in s'.ids <==> (y == co && msecs > 0) || (y != co && y in Others(s.ids, s.key, s.key[co]))
  {
    OthersMembers(s.ids, s.key, s.key[co], co);
    if y != co {
      WithoutMembers(s'.ids, co, y);
    }
  }

  /** A call for `co` drops another sleeper exactly when that one has the key `co` still carries. */
  lemma DroppedIff(s: Sleepers, co: nat, msecs: nat, s': Sleepers, x: nat)
    requires Step(s, Sleep(co, msecs), s') && x in s.ids && x != co
    ensures x !in s'.ids <==> KeyAt(s.key, x) == KeyAt(s.key, co)
  {
    SleptMembers(s, co, msecs, s', x);
    OthersMembers(s.ids, s.key, s.key[co], x);
  }

  /** A scheduler just born: nobody sleeps, and every key is a past time. */
  ghost predicate Born(s: Sleepers) {
    s.ids == [] && |s.key| == |s.wanted| && forall c :: 0 <= c < |s.key| ==> s.key[c] <= s.clock
  }

  // ---------------------------------------------------------------- never early

  /** Every sleeper has a key not before the deadline it last asked for. */
  ghost predicate InTime(s: Sleepers) {
    && |s.key| == |s.wanted|
    && (forall i :: 0 <= i < |s.ids| ==> 0 < s.ids[i] < |s.key| && s.wanted[s.ids[i]] <= s.key[s.ids[i]])
  }

  lemma SleepKeepsInTime(s: Sleepers, co: nat, msecs: nat, s': Sleepers)
    requires InTime(s) && Step(s, Sleep(co, msecs), s')
    ensures InTime(s')
  {
    forall i | 0 <= i < |s'.ids|
      ensures 0 < s'.ids[i] < |s'.key| && s'.wanted[s'.ids[i]] <= s'.key[s'.ids[i]]
    {
      var y := s'.ids[i];
      SleptMembers(s, co, msecs, s', y);
      OthersMembers(s.ids, s.key, s.key[co], y);
    }
  }

  lemma {:induction false} StaysInTime(states: seq<Sleepers>, actions: seq<Action>, i: nat)
    requires Run(states, actions) && Born(states[0]) && i <= |actions|
    ensures InTime(states[i])
  {
    if i > 0 {
      StaysInTime(states, actions, i - 1);
      var s, a, s' := states[i - 1], actions[i - 1], states[i];
      assert Step(s, a, s');
      if a.Sleep? {
        SleepKeepsInTime(s, a.co, a.msecs, s');
      } else if a.Expire? && a.woken != 0 {
        assert forall j :: 0 <= j < |s'.ids| ==> s'.ids[j] == s.ids[j + 1];
      }
    }
  }

  /** Over every run, nobody is woken before the deadline it last asked for. */
  lemma NeverEarly(states: seq<Sleepers>, actions: seq<Action>, i: nat, x: nat)
    requires Run(states, actions) && Born(states[0]) && i < |actions| && actions[i] == Expire(x) && x != 0
    ensures x in states[i].ids && x < |states[i].wanted| && states[i].wanted[x] <= states[i].clock
  {
    StaysInTime(states, actions, i);
    assert Step(states[i], actions[i], states[i + 1]);
  }

  /** Somebody is woken exactly if somebody is due, be it this very microsecond; it is the one with the
      least key, and nobody else leaves. */
  lemma WokenIff(s: Sleepers, woken: nat, s': Sleepers)
    requires Ascending(s.ids, s.key) && Step(s, Expire(woken), s') && forall i :: 0 <= i < |s.ids| ==> s.ids[i] > 0
    ensures woken != 0 <==> exists i :: 0 <= i < |s.ids| && KeyAt(s.key, s.ids[i]) <= s.clock
    ensures woken != 0 ==> woken in s.ids && s.ids == [woken] + s'.ids
    ensures woken != 0 ==> forall i :: 0 <= i < |s.ids| ==> KeyAt(s.key, woken) <= KeyAt(s.key, s.ids[i])
  {
    if woken != 0 {
      assert KeyAt(s.key, s.ids[0]) <= s.clock;
    }
  }

  // ---------------------------------------------------------------- exactly when a sleeper is lost

  /** The position after the last sleep of `c` among the first `n` actions, or 0. */
  ghost function LastSleep(actions: seq<Action>, n: nat, c: nat): (i: nat)
    requires n <= |actions|
    ensures i <= n && (i > 0 ==> actions[i - 1].Sleep? && actions[i - 1].co == c)
  {
    if n == 0 then 0
    else if actions[n - 1].Sleep? && actions[n - 1].co == c then n
    else LastSleep(actions, n - 1, c)
  }

  /** The last sleep of `c` was of zero length. */
  ghost predicate Zeroed(actions: seq<Action>, n: nat, c: nat)
    requires n <= |actions|
  {
    var i := LastSleep(actions, n, c);
    i > 0 && actions[i - 1].msecs == 0
  }

  ghost predicate SharesKey(s: Sleepers, c: nat) {
    exists i :: 0 <= i < |s.ids| && KeyAt(s.key, s.ids[i]) == KeyAt(s.key, c)
  }

  /** What the whole run has done to the keys of coroutines that are awake: all are of the past, and
      only one left by a zero-length sleep can be that of a sleeper. */
  ghost predicate Traced(s: Sleepers, actions: seq<Action>, n: nat)
    requires n <= |actions|
  {
    && Ascending(s.ids, s.key)
    && (forall c :: 0 < c < |s.key| && c !in s.ids ==> s.key[c] <= s.clock)
    && (forall c :: 0 < c < |s.key| && c !in s.ids && SharesKey(s, c) ==> Zeroed(actions, n, c))
  }

  /** A sleeper with the key of another coroutine shows that the other one is awake. */
  lemma SameKeySameNode(s: Sleepers, x: nat, c: nat)
    requires Ascending(s.ids, s.key) && x in s.ids && x != c && KeyAt(s.key, x) == KeyAt(s.key, c)
    ensures c !in s.ids
  {
    var i :| 0 <= i < |s.ids| && s.ids[i] == x;
    forall j | 0 <= j < |s.ids|
      ensures s.ids[j] != c
    {
    }
  }

  /** A sleeper dropped by a call shares its key with no remaining sleeper, and its key is past. */
  lemma DroppedTraced(s: Sleepers, co: nat, msecs: nat, s': Sleepers, c: nat)
    requires Ascending(s.ids, s.key) && Step(s, Sleep(co, msecs), s') && c in s.ids && c !in s'.ids && c != co
    requires co !in s.ids ==> s.key[co] <= s.clock
    ensures KeyAt(s'.key, c) <= s'.clock && !SharesKey(s', c)
  {
    DroppedIff(s, co, msecs, s', c);
    SameKeySameNode(s, c, co);
    forall i | 0 <= i < |s'.ids|
      ensures KeyAt(s'.key, s'.ids[i]) != KeyAt(s'.key, c)
    {
      SleptMembers(s, co, msecs, s', s'.ids[i]);
      OthersMembers(s.ids, s.key, s.key[co], s'.ids[i]);
    }
  }

  /** A coroutine that stays awake shares its key with no sleeper it did not share it with before. */
  lemma AwakeTraced(s: Sleepers, co: nat, msecs: nat, s': Sleepers, c: nat)
    requires Step(s, Sleep(co, msecs), s') && 0 < c < |s.key| && c != co && s.key[c] <= s.clock && SharesKey(s', c)
    ensures SharesKey(s, c)
  {
    var i :| 0 <= i < |s'.ids| && KeyAt(s'.key, s'.ids[i]) == KeyAt(s'.key, c);
    var y := s'.ids[i];
    SleptMembers(s, co, msecs, s', y);
    OthersMembers(s.ids, s.key, s.key[co], y);
    var j :| 0 <= j < |s.ids| && s.ids[j] == y;
  }

  lemma TracedSleep(s: Sleepers, s': Sleepers, actions: seq<Action>, n: nat)
    requires n < |actions| && Traced(s, actions, n) && actions[n].Sleep? && Step(s, actions[n], s')
    ensures Traced(s', actions, n + 1)
  {
    var co, msecs := actions[n].co, actions[n].msecs;
    forall c | 0 < c < |s'.key| && c !in s'.ids
      ensures s'.key[c] <= s'.clock
      ensures SharesKey(s', c) ==> Zeroed(actions, n + 1, c)
    {
      if c == co {
        SleptMembers(s, co, msecs, s', c);
      } else if c in s.ids {
        DroppedTraced(s, co, msecs, s', c);
      } else if SharesKey(s', c) {
        AwakeTraced(s, co, msecs, s', c);
      }
    }
  }

  /** Waking the first sleeper makes nobody share a key. */
  lemma ExpireShares(s: Sleepers, woken: nat, s': Sleepers, c: nat)
    requires Ascending(s.ids, s.key) && Step(s, Expire(woken), s') && SharesKey(s', c)
    ensures SharesKey(s, c) && (woken != 0 ==> c != woken)
  {
    var i :| 0 <= i < |s'.ids| && KeyAt(s'.key, s'.ids[i]) == KeyAt(s'.key, c);
    if woken != 0 {
      assert s.ids[i + 1] == s'.ids[i];
    }
  }

  lemma TracedExpire(s: Sleepers, s': Sleepers, actions: seq<Action>, n: nat)
    requires n < |actions| && Traced(s, actions, n) && actions[n].Expire? && Step(s, actions[n], s')
    ensures Traced(s', actions, n + 1)
  {
    var woken := actions[n].woken;
    assert woken != 0 ==> s.ids == [woken] + s'.ids;
    forall c | 0 < c < |s'.key| && c !in s'.ids
      ensures s'.key[c] <= s'.clock
      ensures SharesKey(s', c) ==> Zeroed(actions, n + 1, c)
    {
      if SharesKey(s', c) {
        ExpireShares(s, woken, s', c);
      }
    }
  }

  lemma TracedTick(s: Sleepers, s': Sleepers, actions: seq<Action>, n: nat)
    requires n < |actions| && Traced(s, actions, n) && actions[n].Tick? && Step(s, actions[n], s')
    ensures Traced(s', actions, n + 1)
  {
    forall c | 0 < c < |s'.key| && c !in s'.ids && SharesKey(s', c)
      ensures Zeroed(actions, n + 1, c)
    {
      assert SharesKey(s, c);
    }
  }

  lemma TracedStep(s: Sleepers, s': Sleepers, actions: seq<Action>, n: nat)
    requires n < |actions| && Traced(s, actions, n) && Step(s, actions[n], s')
    ensures Traced(s', actions, n + 1)
  {
    match actions[n]
    case Sleep(_, _) => TracedSleep(s, s', actions, n);
    case Expire(_) => TracedExpire(s, s', actions, n);
    case Tick => TracedTick(s, s', actions, n);
  }

  ghost predicate TracedAt(states: seq<Sleepers>, actions: seq<Action>, n: nat)
    requires n < |states| && n <= |actions|
  {
    Traced(states[n], actions, n)
  }

  lemma {:induction false} TracedAlong(states: seq<Sleepers>, actions: seq<Action>, n: nat)
    requires |states| == |actions| + 1 && n <= |actions| && TracedAt(states, actions, 0)
    requires forall k :: 0 <= k < |actions| && TracedAt(states, actions, k) ==> TracedAt(states, actions, k + 1)
    ensures TracedAt(states, actions, n)
  {
    if n > 0 {
      TracedAlong(states, actions, n - 1);
      assert TracedAt(states, actions, n - 1 + 1);
    }
  }

  lemma StaysTraced(states: seq<Sleepers>, actions: seq<Action>, n: nat)
    requires Run(states, actions) && Born(states[0]) && n <= |actions|
    ensures Traced(states[n], actions, n)
  {
    forall k | 0 <= k < |actions| && TracedAt(states, actions, k)
      ensures TracedAt(states, actions, k + 1)
    {
      TracedStep(states[k], states[k + 1], actions, k);
    }
    assert TracedAt(states, actions, 0);
    TracedAlong(states, actions, n);
  }

  /** Since its last sleep, of zero length, an awake coroutine carries the clock of that moment. */
  lemma {:induction false} ZeroedKey(states: seq<Sleepers>, actions: seq<Action>, n: nat, c: nat)
    requires Run(states, actions) && n <= |actions| && Zeroed(actions, n, c)
    ensures c < |states[n].key| && states[n].key[c] == states[LastSleep(actions, n, c) - 1].clock
  {
    if n > 0 {
      var s, a, s' := states[n - 1], actions[n - 1], states[n];
      assert Step(s, a, s');
      if !(a.Sleep? && a.co == c) {
        ZeroedKey(states, actions, n - 1, c);
      }
    }
  }

  /** The coroutine called for at step `j` last slept for zero milliseconds, at the key of `x`. */
  ghost predicate Hits(states: seq<Sleepers>, actions: seq<Action>, j: nat, x: nat)
    requires |states| == |actions| + 1 && j < |actions| && actions[j].Sleep?
  {
    var i := LastSleep(actions, j, actions[j].co);
    i > 0 && actions[i - 1].msecs == 0 && states[i - 1].clock == KeyAt(states[j].key, x)
  }

  /** Over every run: a call for `co` drops another sleeper exactly if the last sleep of `co` had zero
      length and was called at the very microsecond that is that sleeper's key. */
  lemma LostIff(states: seq<Sleepers>, actions: seq<Action>, j: nat, x: nat)
    requires Run(states, actions) && Born(states[0]) && j < |actions| && actions[j].Sleep?
    requires x in states[j].ids && x != actions[j].co
    ensures x !in states[j + 1].ids <==> Hits(states, actions, j, x)
  {
    var s, co := states[j], actions[j].co;
    assert Step(s, actions[j], states[j + 1]);
    DroppedIff(s, co, actions[j].msecs, states[j + 1], x);
    StaysTraced(states, actions, j);
    if KeyAt(s.key, x) == KeyAt(s.key, co) {
      SameKeySameNode(s, x, co);
      var i :| 0 <= i < |s.ids| && s.ids[i] == x;
      assert SharesKey(s, co);
    }
    if Zeroed(actions, j, co) {
      ZeroedKey(states, actions, j, co);
    }
  }

  /** Over every run: how a sleeper leaves the tree. */
  lemma LeavesIff(states: seq<Sleepers>, actions: seq<Action>, j: nat, x: nat)
    requires Run(states, actions) && Born(states[0]) && j < |actions| && x in states[j].ids
    ensures x !in states[j + 1].ids <==>
      actions[j] == Expire(x) || actions[j] == Sleep(x, 0) || (actions[j].Sleep? && actions[j].co != x && Hits(states, actions, j, x))
  {
    var s, a, s' := states[j], actions[j], states[j + 1];
    StaysTraced(states, actions, j);
    StaysInTime(states, actions, j);
    assert Step(s, a, s');
    if a.Sleep? && a.co != x {
      LostIff(states, actions, j, x);
    } else if a.Sleep? {
      SleptMembers(s, x, a.msecs, s', x);
    } else if a.Expire? && a.woken != 0 {
      assert s.ids == [a.woken] + s'.ids;
      FirstIsGone(s.ids, s.key);
    }
  }

  lemma FirstIsGone(ids: seq<nat>, key: seq<int>)
    requires Ascending(ids, key) && |ids| > 0
    ensures ids[0] !in ids[1..]
  {
  }

  /** A sleeper whose key is past after a step was asleep with that key before it. */
  lemma PastBefore(s: Sleepers, a: Action, s': Sleepers, x: nat)
    requires Step(s, a, s') && x in s'.ids && KeyAt(s'.key, x) <= s.clock
    ensures x in s.ids && KeyAt(s.key, x) == KeyAt(s'.key, x)
  {
    if a.Sleep? {
      SleptMembers(s, a.co, a.msecs, s', x);
      OthersMembers(s.ids, s.key, s.key[a.co], x);
    }
  }

  /** A sleeper whose key is past at step `n` has been asleep with that key since. */
  lemma {:induction false} PastSleeper(states: seq<Sleepers>, actions: seq<Action>, n: nat, j: nat, x: nat)
    requires Run(states, actions) && n <= j <= |actions| && x in states[j].ids && KeyAt(states[j].key, x) <= states[n].clock
    ensures x in states[n].ids && KeyAt(states[n].key, x) == KeyAt(states[j].key, x)
    decreases j
  {
    if n < j {
      assert Step(states[j - 1], actions[j - 1], states[j - 1 + 1]);
      ClockGrows(states, actions, n, j - 1);
      PastBefore(states[j - 1], actions[j - 1], states[j], x);
      PastSleeper(states, actions, n, j - 1, x);
    }
  }

  lemma {:induction false} ClockGrows(states: seq<Sleepers>, actions: seq<Action>, n: nat, j: nat)
    requires Run(states, actions) && n <= j <= |actions|
    ensures states[n].clock <= states[j].clock
    decreases j
  {
    if n < j {
      ClockGrows(states, actions, n, j - 1);
      assert Step(states[j - 1], actions[j - 1], states[j - 1 + 1]);
    }
  }

  /** Over every run in which zero-length sleeps are careful, a sleeper leaves the tree only by its own
      doing or by expiring. */
  lemma SleepersAreSafe(states: seq<Sleepers>, actions: seq<Action>, j: nat, x: nat)
    requires Run(states, actions) && Born(states[0]) && j < |actions|
    requires forall i :: 0 <= i < |actions| ==> Careful(states[i], actions[i])
    ensures x in states[j].ids && x !in states[j + 1].ids ==> actions[j] == Expire(x) || actions[j] == Sleep(x, 0)
  {
    if x in states[j].ids {
      LeavesIff(states, actions, j, x);
      if actions[j].Sleep? && actions[j].co != x && Hits(states, actions, j, x) {
        var i := LastSleep(actions, j, actions[j].co) - 1;
        assert Careful(states[i], actions[i]);
        PastSleeper(states, actions, i, j, x);
      }
    }
  }

  /** Without the condition on zero-length sleeps a sleeper can be lost: coroutine 1 sleeps one
      millisecond; when it is due, coroutine 2 makes a zero-length sleep and then any other, which
      removes coroutine 1 by the key both now carry. */
  lemma SleeperIsLost() returns (states: seq<Sleepers>, actions: seq<Action>)
    ensures Run(states, actions) && Born(states[0])
    ensures actions == [Sleep(1, 1), Tick, Sleep(2, 0), Sleep(2, 1)]
    ensures 1 in states[3].ids && 1 !in states[4].ids
  {
    var s0 := Sleepers([], [0, 0, 0], 0, [0, 0, 0]);
    var s1 := Sleepers([1], [0, 1000, 0], 0, [0, 1000, 0]);
    var s2 := Sleepers([1], [0, 1000, 0], 1000, [0, 1000, 0]);
    var s3 := Sleepers([1], [0, 1000, 1000], 1000, [0, 1000, 1000]);
    var s4 := Sleepers([2], [0, 1000, 2000], 1000, [0, 1000, 2000]);
    states, actions := [s0, s1, s2, s3, s4], [Sleep(1, 1), Tick, Sleep(2, 0), Sleep(2, 1)];
    AloneAsleep(s0, 1, 1, s1);
    ZeroSleep(s2, 2, s3);
    AloneAsleep(s3, 2, 1, s4);
  }

  /** A zero-length sleep of a coroutine that is awake and shares its key with no sleeper. */
  lemma ZeroSleep(s: Sleepers, co: nat, s': Sleepers)
    requires 0 < co < |s.key| == |s.wanted| && Ascending(s.ids, s.key) && co !in s.ids && Unused(s.ids, s.key, s.key[co])
    requires s' == Sleepers(s.ids, s.key[co := s.clock], s.clock, s.wanted[co := s.clock])
    ensures Step(s, Sleep(co, 0), s')
  {
    OthersUnused(s.ids, s.key, s.key[co]);
    assert forall i :: 0 <= i < |s.ids| ==> KeyAt(s'.key, s.ids[i]) == KeyAt(s.key, s.ids[i]);
  }

  /** Going to sleep when everybody else is dropped or awake. */
  lemma AloneAsleep(s: Sleepers, co: nat, msecs: nat, s': Sleepers)
    requires 0 < co < |s.key| == |s.wanted| && msecs > 0 && |s.ids| <= 1
    requires s.ids == [] || KeyAt(s.key, s.ids[0]) == s.key[co]
    requires s' == Sleepers([co], s.key[co := s.clock + 1000 * msecs], s.clock, s.wanted[co := s.clock + 1000 * msecs])
    ensures Step(s, Sleep(co, msecs), s')
  {
    assert Others(s.ids, s.key, s.key[co]) == [] by {
      if s.ids != [] {
        assert s.ids[1..] == [];
      }
    }
    assert Without([co], co) == [];
  }
}
