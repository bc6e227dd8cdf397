/** The hand-off of `Kmuduo/EventLoop.cc`: other threads push functors under a mutex and then signal
an eventfd; the loop thread polls, reads the eventfd, swaps the queue out and runs it.

Every action is one step of one thread, and actions of different threads interleave freely. What
the poller reports besides the eventfd, and what callbacks and functors do, is left open. */
module EventLoop {
  type Thread = nat
  type Functor = nat

  /** Where the loop thread is: blocked in `poll`; handling the active channels, with the eventfd
      still to be read if `wake`; inside `doPendingFunctors` before the swap; running the batch;
      inside `queueLoop` between its push and its wake-up; or testing `quit_`. */
  datatype Place = Polling | Handling(wake: bool) | Starting | Running | MustWake | Checking | Stopped

  /** `waking` are the other threads between a push, or setting `quit_`, and their wake-up. The
      histories `enqueued` (in lock order) and `executed` exist for the specification only. */
  datatype State = State(
    place: Place, pending: seq<Functor>, batch: seq<Functor>, calling: bool, quit: bool,
    counter: nat, waking: set<Thread>, enqueued: seq<Functor>, executed: seq<Functor>)

  /** The largest value an eventfd holds; a write that would exceed it fails and changes nothing. */
  const MAX_COUNTER: nat := 0xffff_ffff_ffff_fffe

  function Signal(n: nat): nat {
    if n < MAX_COUNTER then n + 1 else n
  }

  datatype Action =
    | Push(t: Thread, f: Functor)   // queueLoop of another thread, up to the unlock
    | Quit(t: Thread)               // quit of another thread, up to its wake-up
    | Wake(t: Thread)               // the wake-up of another thread
    | PollReturn                    // poll returns, for an event or by timeout
    | ReadWakeup                    // handleRead
    | LoopPush(f: Functor)          // queueLoop in the loop thread, up to the unlock
    | LoopWake                      // and its wake-up
    | LoopQuit                      // quit in the loop thread
    | BeginPending                  // doPendingFunctors sets its flag
    | Swap
    | RunFunctor
    | EndPending
    | CheckQuit

  predicate Enabled(s: State, a: Action) {
    match a
    case Push(t, _) => t !in s.waking
    case Quit(t) => t !in s.waking
    case Wake(t) => t in s.waking
    case PollReturn => s.place.Polling?
    case ReadWakeup => s.place == Handling(true)
    case LoopPush(_) => s.place.Handling? || s.place.Running?
    case LoopWake => s.place.MustWake?
    case LoopQuit => s.place.Handling? || s.place.Running?
    case BeginPending => s.place == Handling(false)
    case Swap => s.place.Starting?
    case RunFunctor => s.place.Running? && s.batch != []
    case EndPending => s.place.Running? && s.batch == []
    case CheckQuit => s.place.Checking?
  }

  function Apply(s: State, a: Action): State
    requires Enabled(s, a)
  {
    match a
    case Push(t, f) => s.(pending := s.pending + [f], enqueued := s.enqueued + [f], waking := s.waking + {t})
    case Quit(t) => s.(quit := true, waking := s.waking + {t})
    case Wake(t) => s.(counter := Signal(s.counter), waking := s.waking - {t})
    case PollReturn => s.(place := Handling(s.counter > 0))
    case ReadWakeup => s.(place := Handling(false), counter := 0)
    case LoopPush(f) =>
      s.(pending := s.pending + [f], enqueued := s.enqueued + [f], place := if s.calling then MustWake else s.place)
    case LoopWake => s.(place := Running, counter := Signal(s.counter))
    case LoopQuit => s.(quit := true)
    case BeginPending => s.(place := Starting, calling := true)
    case Swap => s.(place := Running, batch := s.pending, pending := [])
    case RunFunctor => s.(executed := s.executed + [s.batch[0]], batch := s.batch[1..])
    case EndPending => s.(place := Checking, calling := false)
    case CheckQuit => s.(place := if s.quit then Stopped else Polling)
  }

  /** What has happened before the loop enters its first poll: the functors already in its queue, the
      eventfd counter, and the threads between their push and their wake-up. */
  datatype Beginning = Beginning(queued: seq<Functor>, counter: nat, waking: set<Thread>)

  function Start(b: Beginning): State {
    State(Polling, b.queued, [], false, false, b.counter, b.waking, b.queued, [])
  }

  ghost predicate Next(s: State, s': State) {
    exists a :: Enabled(s, a) && s' == Apply(s, a)
  }

  /** Every interleaving of the threads from the given beginning. */
  ghost predicate IsRun(run: seq<State>, b: Beginning) {
    && |run| > 0 && run[0] == Start(b)
    && forall i :: 0 <= i < |run| - 1 ==> Next(run[i], run[i + 1])
  }

  // ---------------------------------------------------------------- wake-ups

  /** The loop cannot sleep: the eventfd is readable, or a thread is about to make it so. */
  predicate WakeupComing(s: State) {
    s.counter > 0 || s.waking != {}
  }

  /** If the loop is in `poll` and there is work, or it was told to quit, a wake-up is coming. */
  predicate NoLostWakeup(s: State) {
    s.place.Polling? && (s.pending != [] || s.quit) ==> WakeupComing(s)
  }

  /** The inductive form: after the swap, every functor in the queue has its wake-up. */
  predicate WakeupInvariant(s: State) {
    && (s.calling <==> s.place.Starting? || s.place.Running? || s.place.MustWake?)
    && (s.place.Polling? || s.place.Checking? || s.place.Running? ==> s.pending != [] ==> WakeupComing(s))
    && (s.place.Polling? && s.quit ==> WakeupComing(s))
    && (s.place.Polling? || s.place.Handling? || s.place.Starting? || s.place.Checking? ==> s.batch == [])
  }

  lemma WakeupStep(s: State, a: Action)
    requires WakeupInvariant(s) && Enabled(s, a)
    ensures WakeupInvariant(Apply(s, a))
  {
    if a.Push? || a.Quit? {
      assert a.t in s.waking + {a.t};
    }
  }

  /** The action between two states of a run. */
  lemma ActionAt(run: seq<State>, b: Beginning, i: nat) returns (a: Action)
    requires IsRun(run, b) && i + 1 < |run|
    ensures Enabled(run[i], a) && run[i + 1] == Apply(run[i], a)
  {
    assert Next(run[i], run[i + 1]);
    a :| Enabled(run[i], a) && run[i + 1] == Apply(run[i], a);
  }

  /** Whatever is queued at the beginning has a wake-up. */
  predicate Signalled(b: Beginning) {
    b.queued == [] || b.counter > 0 || b.waking != {}
  }

  lemma {:induction false} WakeupRun(run: seq<State>, b: Beginning, i: nat)
    requires IsRun(run, b) && Signalled(b) && i < |run|
    ensures WakeupInvariant(run[i])
  {
    if i > 0 {
      WakeupRun(run, b, i - 1);
      var a := ActionAt(run, b, i - 1);
      WakeupStep(run[i - 1], a);
    }
  }

  /** No wake-up is ever lost, in any interleaving, exactly when the functors queued before the first
      poll, if any, were signalled or are about to be: one queued by the loop thread itself is not. */
  lemma NoLostWakeups(b: Beginning)
    ensures Signalled(b) <==> forall run, i | IsRun(run, b) && 0 <= i < |run| :: NoLostWakeup(run[i])
  {
    if Signalled(b) {
      forall run, i | IsRun(run, b) && 0 <= i < |run|
        ensures NoLostWakeup(run[i])
      {
        WakeupRun(run, b, i);
      }
    } else {
      var run := [Start(b)];
      assert IsRun(run, b) && !NoLostWakeup(run[0]);
    }
  }

  // ---------------------------------------------------------------- order of execution

  /** Nothing is lost, repeated or reordered, and the batch is empty outside `doPendingFunctors`. */
  predicate InOrder(s: State) {
    && s.executed + s.batch + s.pending == s.enqueued
    && (s.batch != [] ==> s.place.Running? || s.place.MustWake?)
  }

  lemma OrderStep(s: State, a: Action)
    requires InOrder(s) && Enabled(s, a)
    ensures InOrder(Apply(s, a))
  {
    var s' := Apply(s, a);
    if a.RunFunctor? {
      assert s.batch == [s.batch[0]] + s.batch[1..];
      assert s'.executed + s'.batch == s.executed + s.batch;
    } else if a.Swap? {
      assert s.executed + [] + s.pending == s.executed + s.pending + [];
    }
  }

  lemma OrderNext(run: seq<State>, b: Beginning, i: nat)
    requires IsRun(run, b) && i + 1 < |run| && InOrder(run[i])
    ensures InOrder(run[i + 1])
  {
    var a := ActionAt(run, b, i);
    OrderStep(run[i], a);
  }

  lemma {:induction false} OrderAlong(run: seq<State>, i: nat)
    requires i < |run| && InOrder(run[0]) && forall k :: 0 <= k < |run| - 1 && InOrder(run[k]) ==> InOrder(run[k + 1])
    ensures InOrder(run[i])
  {
    if i > 0 {
      OrderAlong(run, i - 1);
      assert InOrder(run[i - 1 + 1]);
    }
  }

  /** In every reachable state, started with any queue, what has run, then the rest of the current
      batch, then the queue, is the history of pushes in lock order. */
  lemma ExecutionOrder(run: seq<State>, b: Beginning, i: nat)
    requires IsRun(run, b) && i < |run|
    ensures InOrder(run[i])
  {
    forall k | 0 <= k < |run| - 1 && InOrder(run[k])
      ensures InOrder(run[k + 1])
    {
      OrderNext(run, b, k);
    }
    OrderAlong(run, i);
  }

  lemma ExecutedIsPrefix(s: State)
    requires InOrder(s)
    ensures s.executed <= s.enqueued && |s.executed| + |s.batch| <= |s.enqueued|
  {
    assert s.enqueued == s.executed + (s.batch + s.pending);
  }

  /** `s'` extends the history of `s`, and no fewer functors have left its queue. */
  ghost predicate Grown(s: State, s': State) {
    s.enqueued <= s'.enqueued && |s.executed| + |s.batch| <= |s'.executed| + |s'.batch|
  }

  lemma GrowStep(s: State, a: Action)
    requires InOrder(s) && Enabled(s, a)
    ensures Grown(s, Apply(s, a))
  {
    if a.Swap? {
      assert s.batch == [];
    }
  }

  lemma GrownTransitive(s: State, t: State, u: State)
    requires Grown(s, t) && Grown(t, u)
    ensures Grown(s, u)
  {
    assert s.enqueued == t.enqueued[..|s.enqueued|] && t.enqueued == u.enqueued[..|t.enqueued|];
  }

  lemma GrowNext(run: seq<State>, b: Beginning, i: nat)
    requires IsRun(run, b) && i + 1 < |run|
    ensures Grown(run[i], run[i + 1])
  {
    ExecutionOrder(run, b, i);
    var a := ActionAt(run, b, i);
    GrowStep(run[i], a);
  }

  lemma {:induction false} GrowsAlong(run: seq<State>, i: nat, j: nat)
    requires i <= j < |run| && forall k :: 0 <= k < |run| - 1 ==> Grown(run[k], run[k + 1])
    ensures Grown(run[i], run[j])
    decreases j
  {
    if i < j {
      GrowsAlong(run, i, j - 1);
      assert Grown(run[j - 1], run[j - 1 + 1]);
      GrownTransitive(run[i], run[j - 1], run[j]);
    }
  }

  /** The history only grows, and what has left the queue never returns to it. */
  lemma HistoryGrows(run: seq<State>, b: Beginning, i: nat, j: nat)
    requires IsRun(run, b) && i <= j < |run|
    ensures Grown(run[i], run[j])
  {
    forall k | 0 <= k < |run| - 1
      ensures Grown(run[k], run[k + 1])
    {
      GrowNext(run, b, k);
    }
    GrowsAlong(run, i, j);
  }

  /** Whatever is queued when the loop swaps its queue out has run, in order, by the time the loop
      polls again, no matter what the other threads and the functors themselves queue meanwhile. */
  lemma RoundCompletes(run: seq<State>, b: Beginning, i: nat, j: nat)
    requires IsRun(run, b) && i < j < |run|
    requires run[i].place.Starting? && run[i + 1].place.Running? && run[j].place.Polling?
    ensures run[i].enqueued <= run[j].executed
  {
    ExecutionOrder(run, b, i);
    ExecutionOrder(run, b, j);
    var a := ActionAt(run, b, i);
    assert a.Swap?;
    HistoryGrows(run, b, i + 1, j);
    HistoryGrows(run, b, i, j);
    ExecutedIsPrefix(run[j]);
    var e, x, h := run[j].enqueued, run[j].executed, run[i].enqueued;
    assert |run[i + 1].executed| + |run[i + 1].batch| == |h|;
    assert x == e[..|x|] && h == e[..|h|];
  }

  /** A functor queued once runs at most once. */
  lemma AtMostOnce(run: seq<State>, b: Beginning, i: nat, f: Functor)
    requires IsRun(run, b) && i < |run|
    ensures multiset(run[i].executed)[f] <= multiset(run[i].enqueued)[f]
  {
    ExecutionOrder(run, b, i);
    var s := run[i];
    assert s.enqueued == s.executed + (s.batch + s.pending);
    assert multiset(s.executed + (s.batch + s.pending)) == multiset(s.executed) + multiset(s.batch + s.pending);
  }

  // ---------------------------------------------------------------- the loop goes on

  /** The steps the loop thread makes by itself, whatever functors and other threads do. */
  predicate OwnStep(a: Action) {
    a.PollReturn? || a.ReadWakeup? || a.LoopWake? || a.BeginPending? || a.Swap? || a.RunFunctor? || a.EndPending? || a.CheckQuit?
  }

  /** The actions `acts` lead from `s` to `s'`. */
  ghost predicate Leads(s: State, acts: seq<Action>, s': State)
    decreases |acts|
  {
    if acts == [] then s == s' else Enabled(s, acts[0]) && Leads(Apply(s, acts[0]), acts[1..], s')
  }

  /** The loop thread alone can go from `s` to `s'`. */
  ghost predicate Alone(s: State, s': State) {
    exists acts :: Leads(s, acts, s') && forall i :: 0 <= i < |acts| ==> OwnStep(acts[i])
  }

  lemma AloneStays(s: State)
    ensures Alone(s, s)
  {
    assert Leads(s, [], s);
  }

  lemma AloneThen(s: State, a: Action, s': State)
    requires OwnStep(a) && Enabled(s, a) && Alone(Apply(s, a), s')
    ensures Alone(s, s')
  {
    var acts :| Leads(Apply(s, a), acts, s') && forall i :: 0 <= i < |acts| ==> OwnStep(acts[i]);
    assert ([a] + acts)[1..] == acts;
    assert Leads(s, [a] + acts, s');
  }

  lemma {:induction false} LeadsOn(s: State, acts: seq<Action>, t: State, more: seq<Action>, u: State)
    requires Leads(s, acts, t) && Leads(t, more, u)
    ensures Leads(s, acts + more, u)
    decreases |acts|
  {
    if acts == [] {
      assert acts + more == more;
    } else {
      var all := acts + more;
      assert all[0] == acts[0] && all[1..] == acts[1..] + more;
      LeadsOn(Apply(s, acts[0]), acts[1..], t, more, u);
    }
  }

  lemma AloneOn(s: State, t: State, u: State)
    requires Alone(s, t) && Alone(t, u)
    ensures Alone(s, u)
  {
    var acts :| Leads(s, acts, t) && forall i :: 0 <= i < |acts| ==> OwnStep(acts[i]);
    var more :| Leads(t, more, u) && forall i :: 0 <= i < |more| ==> OwnStep(more[i]);
    LeadsOn(s, acts, t, more, u);
  }

  /** The rest of a batch runs, and the loop tests `quit_`. */
  lemma {:induction false} FinishBatch(s: State) returns (s': State)
    requires s.place.Running?
    ensures Alone(s, s')
    ensures s' == s.(place := if s.quit then Stopped else Polling, calling := false, batch := [], executed := s.executed + s.batch)
    decreases |s.batch|
  {
    if s.batch == [] {
      var t := Apply(s, EndPending);
      s' := Apply(t, CheckQuit);
      AloneStays(s');
      AloneThen(t, CheckQuit, s');
      AloneThen(s, EndPending, s');
      assert s.executed + s.batch == s.executed;
    } else {
      s' := FinishBatch(Apply(s, RunFunctor));
      AloneThen(s, RunFunctor, s');
      assert s.executed + [s.batch[0]] + s.batch[1..] == s.executed + s.batch;
    }
  }

  /** From `doPendingFunctors` on: everything in the queue is swapped out and run. */
  lemma FromStarting(s: State) returns (s': State)
    requires s.place.Starting?
    ensures Alone(s, s')
    ensures s' == s.(place := if s.quit then Stopped else Polling, calling := false, batch := [], pending := [], executed := s.executed + s.pending)
  {
    s' := FinishBatch(Apply(s, Swap));
    AloneThen(s, Swap, s');
  }

  /** From the handling of events on: the eventfd is read if it was readable, then the queue is run. */
  lemma FromHandling(s: State) returns (s': State)
    requires s.place.Handling?
    ensures Alone(s, s') && s'.place == (if s.quit then Stopped else Polling) && s'.pending == [] && s'.batch == []
    ensures s'.executed == s.executed + s.pending && s'.enqueued == s.enqueued && s'.quit == s.quit && s'.waking == s.waking
    ensures s'.counter == if s.place.wake then 0 else s.counter
  {
    var t := if s.place.wake then Apply(s, ReadWakeup) else s;
    s' := FromStarting(Apply(t, BeginPending));
    AloneThen(t, BeginPending, s');
    if s.place.wake {
      AloneThen(s, ReadWakeup, s');
    }
  }

  /** A round from poll to poll: it runs exactly what is in the queue, in order, and leaves the eventfd
      at zero. */
  lemma FromPolling(s: State) returns (s': State)
    requires s.place.Polling?
    ensures Alone(s, s') && s'.place == (if s.quit then Stopped else Polling) && s'.pending == [] && s'.batch == [] && s'.counter == 0
    ensures s'.executed == s.executed + s.pending && s'.enqueued == s.enqueued && s'.quit == s.quit && s'.waking == s.waking
  {
    s' := FromHandling(Apply(s, PollReturn));
    AloneThen(s, PollReturn, s');
  }

  /** From wherever it is, the loop thread comes back to its poll, or stops if it was told to quit. */
  lemma ToPolling(s: State) returns (s': State)
    requires !s.place.Stopped? && InOrder(s)
    ensures Alone(s, s') && InOrder(s') && s'.place == (if s.quit && !s.place.Polling? then Stopped else Polling)
    ensures s'.quit == s.quit && s'.enqueued == s.enqueued && s'.waking == s.waking
  {
    match s.place
    case Polling =>
      s' := s;
      AloneStays(s);
    case Handling(_) => s' := FromHandling(s);
    case Starting => s' := FromStarting(s);
    case Running => s' := FinishBatch(s);
    case MustWake =>
      s' := FinishBatch(Apply(s, LoopWake));
      AloneThen(s, LoopWake, s');
    case Checking =>
      s' := Apply(s, CheckQuit);
      AloneStays(s');
      AloneThen(s, CheckQuit, s');
  }

  lemma Progress(s: State) returns (s': State)
    requires InOrder(s) && !s.place.Stopped?
    ensures Alone(s, s') && s'.enqueued == s.enqueued && s'.quit == s.quit
    ensures s.quit ==> s'.place.Stopped?
    ensures !s.quit ==> s'.place.Polling? && s'.executed == s'.enqueued && s'.pending == [] && s'.counter == 0
  {
    s' := ToPolling(s);
    if s'.place.Polling? {
      var t := s';
      s' := FromPolling(t);
      AloneOn(s, t, s');
      assert t.batch == [] && t.executed + [] + t.pending == t.executed + t.pending;
    }
  }

  /** From every reachable state of every interleaving, if nobody asks it to quit, the steps of the loop
      thread alone lead to its poll with every functor executed, in order, an empty queue and the eventfd
      at zero; if it was asked to quit, they lead to its end. */
  lemma LoopProgress(run: seq<State>, b: Beginning, i: nat) returns (s': State)
    requires IsRun(run, b) && i < |run| && !run[i].place.Stopped?
    ensures Alone(run[i], s') && s'.enqueued == run[i].enqueued && s'.quit == run[i].quit
    ensures run[i].quit ==> s'.place.Stopped?
    ensures !run[i].quit ==> s'.place.Polling? && s'.executed == s'.enqueued && s'.pending == [] && s'.counter == 0
  {
    ExecutionOrder(run, b, i);
    s' := Progress(run[i]);
  }

  /** The loop stops only if somebody asked it to. */
  lemma {:induction false} StoppedOnlyByQuit(run: seq<State>, b: Beginning, i: nat)
    requires IsRun(run, b) && i < |run|
    ensures run[i].place.Stopped? ==> run[i].quit
  {
    if i > 0 {
      StoppedOnlyByQuit(run, b, i - 1);
      var a := ActionAt(run, b, i - 1);
    }
  }

  /** Any other thread that is not in the middle of a call can push a functor at any time; its wake-up
      makes the eventfd readable, and the loop then runs the functor after everything pushed before. */
  lemma PushIsServed(run: seq<State>, b: Beginning, i: nat, t: Thread, f: Functor) returns (m: State, s': State)
    requires IsRun(run, b) && i < |run| && !run[i].place.Stopped? && !run[i].quit && t !in run[i].waking
    ensures Leads(run[i], [Push(t, f), Wake(t)], m) && m.counter > 0
    ensures Alone(m, s') && s'.place.Polling? && s'.executed == run[i].enqueued + [f] == s'.enqueued
  {
    ExecutionOrder(run, b, i);
    var p := Apply(run[i], Push(t, f));
    m := Apply(p, Wake(t));
    assert [Push(t, f), Wake(t)][1..] == [Wake(t)] && [Wake(t)][1..] == [];
    assert Leads(p, [Wake(t)], m);
    OrderStep(run[i], Push(t, f));
    OrderStep(p, Wake(t));
    s' := Progress(m);
  }

  /** The same for callbacks and functors in the loop thread, while it handles events or runs functors. */
  lemma LoopPushIsServed(run: seq<State>, b: Beginning, i: nat, f: Functor) returns (s': State)
    requires IsRun(run, b) && i < |run| && (run[i].place.Handling? || run[i].place.Running?) && !run[i].quit
    ensures Enabled(run[i], LoopPush(f)) && Alone(Apply(run[i], LoopPush(f)), s')
    ensures s'.place.Polling? && s'.executed == run[i].enqueued + [f] == s'.enqueued
  {
    ExecutionOrder(run, b, i);
    OrderStep(run[i], LoopPush(f));
    s' := Progress(Apply(run[i], LoopPush(f)));
  }

  /** Any other thread can end the loop, at any time, by asking it to quit and waking it. */
  lemma QuitIsServed(run: seq<State>, b: Beginning, i: nat, t: Thread) returns (m: State, s': State)
    requires IsRun(run, b) && i < |run| && !run[i].place.Stopped? && t !in run[i].waking
    ensures Leads(run[i], [Quit(t), Wake(t)], m) && m.counter > 0 && Alone(m, s') && s'.place.Stopped?
  {
    ExecutionOrder(run, b, i);
    var p := Apply(run[i], Quit(t));
    m := Apply(p, Wake(t));
    assert [Quit(t), Wake(t)][1..] == [Wake(t)] && [Wake(t)][1..] == [];
    assert Leads(p, [Wake(t)], m);
    OrderStep(run[i], Quit(t));
    OrderStep(p, Wake(t));
    s' := Progress(m);
  }
}
