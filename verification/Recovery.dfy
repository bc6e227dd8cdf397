/** The server over its restarts: both engines, the log they share, and what a restart brings back.

Requests of both engines interleave on one log. A restart may come at any moment, also between two
renames of a rotation, and replaces the engines by what `wal_replay` makes of the files. */
module Recovery {
  import opened Engines
  import opened WalText
  import opened WalFiles
  import opened WalReplay

  /** `base` is what the last restart brought back and `since` are the requests served after it; both
      exist for the specification only. */
  datatype World = World(log: Log, live: Stores, base: Stores, since: seq<Request>)

  /** A request is served; a rotation that is under way makes its next step; the process restarts, with
      `stale` in the uninitialised buffer of the replay loop. */
  datatype Action = Serve(q: Request) | Advance | Restart(stale: string)

  predicate Enabled(w: World, a: Action) {
    && |w.log.files| == WAL_MAX_ARCHIVE + 1
    && match a
       case Serve(_) => w.log.phase.Idle?
       case Advance => WalFiles.Enabled(w.log, NextRename(w.log))
       case Restart(_) => true
  }

  function NextRename(s: Log): Step {
    if s.phase.Renaming? then RenameNext else Create
  }

  function Logged(s: Log, q: Request): Log
    requires |s.files| == WAL_MAX_ARCHIVE + 1 && s.phase.Idle?
  {
    if Records(q) == [] then s else WalFiles.Apply(s, Append(Records(q)[0]))
  }

  /** What `wal_replay` makes of the files, starting from empty engines. */
  function Replay(s: Log, stale: string): Stores {
    ReplayFiles(NOTHING, s.files, |s.files|, stale)
  }

  function Apply(w: World, a: Action): World
    requires Enabled(w, a)
  {
    match a
    case Serve(q) => World(Logged(w.log, q), Served(w.live, q), w.base, w.since + [q])
    case Advance => w.(log := WalFiles.Apply(w.log, NextRename(w.log)))
    case Restart(stale) =>
      var s := Replay(w.log, stale);
      World(WalFiles.Apply(w.log, Crash), s, s, [])
  }

  function First(): World {
    World(Fresh(), NOTHING, NOTHING, [])
  }

  ghost predicate Next(w: World, w': World) {
    exists a :: Enabled(w, a) && w' == Apply(w, a)
  }

  ghost predicate IsRun(run: seq<World>) {
    && |run| > 0 && run[0] == First()
    && forall i :: 0 <= i < |run| - 1 ==> Next(run[i], run[i + 1])
  }

  // ---------------------------------------------------------------- logs whose records carry values

  function Rebuilt(w: World): Stores {
    Stores(HashRebuilt(w.base.hash, HashCommands(w.since)), TreeRebuilt(w.base.tree, TreeCommands(w.since)))
  }

  function Lived(w: World): Stores {
    ServedAll(w.base, w.since)
  }

  /** Nothing is lost and every record can be read back. */
  predicate Intact(s: Log) {
    s.started <= WAL_MAX_ARCHIVE && AllFit(s.history)
  }

  ghost predicate Tracked(w: World) {
    && WalFiles.Inv(w.log) && w.live == Lived(w)
    && (Intact(w.log) ==> forall stale :: ReplayAll(NOTHING, w.log.history, stale) == Rebuilt(w))
  }

  /** An intact log replays from its files as it does from its history. */
  lemma IntactReplay(s: Log, stale: string)
    requires WalFiles.Inv(s) && Intact(s)
    ensures Replay(s, stale) == ReplayAll(NOTHING, s.history, stale)
  {
    FilesReadBack(NOTHING, s.files, |s.files|, stale);
  }

  lemma SinceSnoc(s: Stores, qs: seq<Request>, q: Request)
    ensures HashRebuilt(s.hash, HashCommands(qs + [q])) == StepHash(HashRebuilt(s.hash, HashCommands(qs)), AsSet(HashCommand(q)))
    ensures TreeRebuilt(s.tree, TreeCommands(qs + [q])) == StepTree(TreeRebuilt(s.tree, TreeCommands(qs)), AsSet(TreeCommand(q)))
    ensures HashFrom(s.hash, HashCommands(qs + [q])) == StepHash(HashFrom(s.hash, HashCommands(qs)), HashCommand(q))
    ensures TreeFrom(s.tree, TreeCommands(qs + [q])) == StepTree(TreeFrom(s.tree, TreeCommands(qs)), TreeCommand(q))
  {
    var all := qs + [q];
    assert all[..|all| - 1] == qs;
    var h, t := HashCommands(qs), TreeCommands(qs);
    if HashCommand(q).Some? {
      assert (h + [q.command])[..|h|] == h;
    } else {
      assert h + [] == h;
    }
    if TreeCommand(q).Some? {
      assert (t + [q.command])[..|t|] == t;
    } else {
      assert t + [] == t;
    }
  }

  lemma LoggedKeeps(s: Log, q: Request)
    requires WalFiles.Inv(s) && s.phase.Idle?
    ensures WalFiles.Inv(Logged(s, q)) && Logged(s, q).history == s.history + Records(q) && s.started <= Logged(s, q).started
  {
    if Records(q) == [] {
      assert s.history + [] == s.history;
    } else {
      assert Records(q) == [Records(q)[0]];
      InvStep(s, Append(Records(q)[0]));
    }
  }

  lemma NoValueIsLogged(q: Request)
    requires q.NoValue?
    ensures !Valued(Records(q))
  {
    assert Records(q)[0].value.None?;
  }

  /** Serving a request, whatever rotation it sets off: only history and rotation count matter. */
  lemma ServeTracked(w: World, q: Request, log: Log)
    requires Tracked(w) && WalFiles.Inv(log) && log.history == w.log.history + Records(q) && w.log.started <= log.started
    ensures Tracked(World(log, Served(w.live, q), w.base, w.since + [q]))
  {
    var w' := World(log, Served(w.live, q), w.base, w.since + [q]);
    SinceSnoc(w.base, w.since, q);
    if Intact(log) {
      AllFitParts(w.log.history, Records(q));
      if q.NoValue? {
        NoValueIsLogged(q);
      }
      forall stale
        ensures ReplayAll(NOTHING, log.history, stale) == Rebuilt(w')
      {
        ReplayValued(NOTHING, w.log.history, Records(q), stale, stale, stale);
        ReplayRequest(Rebuilt(w), q, stale);
      }
    }
  }

  lemma RestartTracked(log: Log, stale: string)
    requires WalFiles.Inv(log)
    ensures Tracked(World(log, Replay(log, stale), Replay(log, stale), []))
  {
    if Intact(log) {
      IntactReplay(log, stale);
      forall other
        ensures ReplayAll(NOTHING, log.history, other) == Replay(log, stale)
      {
        ReplayValued(NOTHING, [], log.history, stale, stale, other);
      }
    }
  }

  lemma AdvanceTracked(w: World)
    requires Tracked(w) && Enabled(w, Advance)
    ensures Tracked(Apply(w, Advance))
  {
    InvStep(w.log, NextRename(w.log));
  }

  lemma TrackedNext(w: World, w': World)
    requires Tracked(w) && Next(w, w')
    ensures Tracked(w')
  {
    var a :| Enabled(w, a) && w' == Apply(w, a);
    match a
    case Serve(q) =>
      LoggedKeeps(w.log, q);
      ServeTracked(w, q, Logged(w.log, q));
    case Advance => AdvanceTracked(w);
    case Restart(stale) =>
      InvStep(w.log, Crash);
      RestartTracked(w'.log, stale);
  }

  lemma FirstTracked()
    ensures Tracked(First())
  {
    FreshRead(WAL_MAX_ARCHIVE + 1);
  }

  lemma {:induction false} StaysTracked(run: seq<World>, i: nat)
    requires IsRun(run) && i < |run|
    ensures Tracked(run[i])
  {
    if i == 0 {
      FirstTracked();
    } else {
      StaysTracked(run, i - 1);
      assert Next(run[i - 1], run[i - 1 + 1]);
      TrackedNext(run[i - 1], run[i]);
    }
  }

  lemma FilledNext(w: World, w': World)
    requires WalFiles.Inv(w.log) && Filled(w.log) && Next(w, w')
    ensures Filled(w'.log)
  {
    var a :| Enabled(w, a) && w' == Apply(w, a);
    match a
    case Serve(q) =>
      if Records(q) != [] {
        FilledStep(w.log, Append(Records(q)[0]));
      }
    case Advance => FilledStep(w.log, NextRename(w.log));
    case Restart(_) => FilledStep(w.log, Crash);
  }

  lemma {:induction false} StaysFilled(run: seq<World>, i: nat)
    requires IsRun(run) && i < |run|
    ensures Filled(run[i].log)
  {
    if i > 0 {
      StaysFilled(run, i - 1);
      StaysTracked(run, i - 1);
      assert Next(run[i - 1], run[i - 1 + 1]);
      FilledNext(run[i - 1], run[i]);
    }
  }

  /** A log is intact at least as long as its text, with 10 MB added for each restart, is at most 4096
      times 10 MB. */
  lemma IntactByText(run: seq<World>, i: nat)
    requires IsRun(run) && i < |run| && AllFit(run[i].log.history)
    requires |Print(run[i].log.history)| + run[i].log.crashes * 10_485_760 <= 4096 * 10_485_760
    ensures Intact(run[i].log)
  {
    StaysFilled(run, i);
  }

  /** Right after a restart, another one would bring back the same. */
  lemma RestartIsFaithful(w: World, stale: string)
    requires Enabled(w, Restart(stale))
    ensures Replay(Apply(w, Restart(stale)).log, stale) == Apply(w, Restart(stale)).live
    ensures Apply(w, Restart(stale)).since == [] && Apply(w, Restart(stale)).log.files == w.log.files
  {
  }

  /** What a restart would bring back, and what is live, by the requests since the last restart. */
  lemma TrackedReplay(w: World, stale: string)
    requires Tracked(w) && Intact(w.log)
    ensures Replay(w.log, stale) == Rebuilt(w) && w.live == Lived(w)
  {
    IntactReplay(w.log, stale);
  }

  lemma TrackedRecovery(w: World, stale: string)
    requires Replay(w.log, stale) == Rebuilt(w) && w.live == Lived(w)
    ensures Replay(w.log, stale).hash.bindings == w.live.hash.bindings <==>
            NoMissedMod(w.base.hash.bindings.Keys, HashCommands(w.since))
    ensures Replay(w.log, stale).tree.bindings == w.live.tree.bindings <==> AllRestored(w.base.tree.bindings, TreeCommands(w.since))
  {
    HashRebuiltExactly(w.base.hash, HashCommands(w.since));
    TreeRebuiltExactly(w.base.tree, TreeCommands(w.since));
  }

  /** In every state of every run of requests to both engines, rotations and restarts, as long as no more
      than 4096 rotations have begun and every record fits and has a value: a restart now would bring
      back the live hash map exactly if no key was last written since the last restart by an HMOD that
      missed. */
  lemma HashRecovery(run: seq<World>, i: nat, stale: string)
    requires IsRun(run) && i < |run| && Intact(run[i].log)
    ensures Replay(run[i].log, stale).hash.bindings == run[i].live.hash.bindings <==>
            NoMissedMod(run[i].base.hash.bindings.Keys, HashCommands(run[i].since))
  {
    StaysTracked(run, i);
    TrackedReplay(run[i], stale);
    TrackedRecovery(run[i], stale);
  }

  /** Likewise it would bring back the live tree exactly if, for every key, the writes since its last RDEL
      include an RSET (or it was there at the last restart), and the first of them gave the value that
      the last RMOD after the first RSET, or else that RSET, has left. */
  lemma TreeRecovery(run: seq<World>, i: nat, stale: string)
    requires IsRun(run) && i < |run| && Intact(run[i].log)
    ensures Replay(run[i].log, stale).tree.bindings == run[i].live.tree.bindings <==>
            AllRestored(run[i].base.tree.bindings, TreeCommands(run[i].since))
  {
    StaysTracked(run, i);
    TrackedReplay(run[i], stale);
    TrackedRecovery(run[i], stale);
  }

  /** The world after `n` further steps of a rotation, as long as one is under way. */
  function Advanced(w: World, n: nat): World
    decreases n
  {
    if n > 0 && Enabled(w, Advance) then Advanced(Apply(w, Advance), n - 1) else w
  }

  lemma {:induction false} AdvancedEnds(w: World)
    requires WalFiles.Inv(w.log)
    ensures var w' := Advanced(w, WAL_MAX_ARCHIVE + 1); w'.log.phase.Idle? && w'.live == w.live && w'.log.history == w.log.history
  {
    var n := match w.log.phase case Idle => 0 case Renaming(i) => i + 2 case Creating => 1;
    AdvancedIn(w, n, WAL_MAX_ARCHIVE + 1);
  }

  lemma {:induction false} AdvancedIn(w: World, n: nat, m: nat)
    requires WalFiles.Inv(w.log) && n <= m && n == match w.log.phase case Idle => 0 case Renaming(i) => i + 2 case Creating => 1
    ensures var w' := Advanced(w, m); w'.log.phase.Idle? && w'.live == w.live && w'.log.history == w.log.history
    decreases n
  {
    if n > 0 {
      InvStep(w.log, NextRename(w.log));
      AdvancedIn(Apply(w, Advance), n - 1, m - 1);
    }
  }

  /** From every reachable state, the rotation under way, if any, ends within 4097 steps that change
      neither engine and lose no record; then any request can be served. */
  lemma RotationEnds(run: seq<World>, i: nat, q: Request)
    requires IsRun(run) && i < |run|
    ensures var w := Advanced(run[i], 4097); w.live == run[i].live && w.log.history == run[i].log.history && Enabled(w, Serve(q))
  {
    StaysTracked(run, i);
    AdvancedEnds(run[i]);
    AdvancedSize(run[i], 4097);
  }

  lemma {:induction false} AdvancedSize(w: World, n: nat)
    requires |w.log.files| == WAL_MAX_ARCHIVE + 1
    ensures |Advanced(w, n).log.files| == WAL_MAX_ARCHIVE + 1
    decreases n
  {
    if n > 0 && Enabled(w, Advance) {
      AdvancedSize(Apply(w, Advance), n - 1);
    }
  }

  // ---------------------------------------------------------------- records without a value

  ghost predicate SameBindings(a: Stores, b: Stores) {
    a.hash.bindings == b.hash.bindings && a.tree.bindings == b.tree.bindings
  }

  /** The engines before the current log is read. */
  function ReplayArchives(s: Stores, files: seq<File>, n: nat, stale: string): Stores
    requires 0 < n <= |files|
    decreases n
  {
    if n == 1 then s else ReplayArchives(ReplayAll(s, Recovered(files[n - 1]), stale), files, n - 1, stale)
  }

  lemma {:induction false} CurrentLast(s: Stores, files: seq<File>, f: File, n: nat, stale: string)
    requires 0 < n <= |files|
    ensures ReplayFiles(s, files[0 := f], n, stale) == ReplayAll(ReplayArchives(s, files, n, stale), Recovered(f), stale)
    decreases n
  {
    if n > 1 {
      CurrentLast(ReplayAll(s, Recovered(files[n - 1]), stale), files, f, n - 1, stale);
    }
  }

  /** The records of a file that can all be read back, except for those taken for values. */
  predicate Legible(rs: seq<Record>) {
    Fitting(rs) && Swallowable(rs)
  }

  lemma LegibleParts(rs: seq<Record>, r: Record)
    requires Legible(rs + [r])
    ensures Legible(rs)
  {
    var all := rs + [r];
    assert forall i :: 0 <= i < |rs| ==> rs[i] == all[i];
  }

  /** The record that waits for a value. */
  function Waiting(rs: seq<Record>): Record
    requires Open(rs)
  {
    ReadBack(rs)[|ReadBack(rs)| - 1]
  }

  /** The tree engine logs no record without a value that sets a key. */
  predicate TreeHasValues(rs: seq<Record>) {
    Open(rs) ==> !WritesTree(Waiting(rs))
  }

  /** What becomes of the engines if the waiting record `p` takes the text of `r` for its value. */
  function Misled(s: Stores, p: Record, r: Record): Stores {
    if WritesHash(p) then s.(hash := s.hash.(bindings := s.hash.bindings[p.key := Text(r)])) else s
  }

  lemma AmendedReplays(s: Stores, got: seq<Record>, r: Record, stale: string)
    requires |got| > 0 && !WritesTree(got[|got| - 1])
    ensures ReplayAll(s, Amended(got, r), stale) == Misled(ReplayAll(s, got, stale), got[|got| - 1], r)
    ensures WritesHash(got[|got| - 1]) ==> got[|got| - 1].key in ReplayAll(s, got, stale).hash.bindings
  {
    var a, p := got[..|got| - 1], got[|got| - 1];
    assert got == a + [p];
    ReplayLast(s, a, p, stale);
    ReplayLast(s, a, p.(value := Some(Text(r))), stale);
    assert "HSET"[0] == 'H' && "HMOD"[0] == 'H' && "RDEL"[0] == 'R';
  }

  /** What one more record adds to what replay brings back: itself if the log is closed; otherwise it is
      lost, and its text may become a value. */
  lemma AppendReplays(s: Log, r: Record, stale: string)
    requires |s.files| == WAL_MAX_ARCHIVE + 1 && s.phase.Idle?
    requires var rs := Content(s.files[0]); Legible(rs + [r]) && TreeHasValues(rs)
    ensures var rs := Content(s.files[0]);
      Replay(WalFiles.Apply(s, Append(r)), stale) ==
      if Open(rs) then Misled(Replay(s, stale), Waiting(rs), r)
      else ReplayOne(Replay(s, stale), r, BufferAfter(ReadBack(rs), stale))
    ensures var rs := Content(s.files[0]);
      Open(rs) && WritesHash(Waiting(rs)) ==> Waiting(rs).key in Replay(s, stale).hash.bindings
  {
    var n, rs := |s.files|, Content(s.files[0]);
    var a := ReplayArchives(NOTHING, s.files, n, stale);
    LegibleParts(rs, r);
    CurrentReplay(s.files, s.files[0], stale);
    assert s.files[0 := s.files[0]] == s.files;
    assert Replay(s, stale) == ReplayAll(a, ReadBack(rs), stale);
    CurrentReplay(s.files, Some(rs + [r]), stale);
    assert Replay(WalFiles.Apply(s, Append(r)), stale) == ReplayAll(a, ReadBack(rs + [r]), stale);
    ReadBackReplays(a, rs, r, stale);
  }

  /** The current log is replayed last, as far as it is read back. */
  lemma CurrentReplay(files: seq<File>, f: File, stale: string)
    requires |files| > 0 && Legible(Content(f))
    ensures ReplayFiles(NOTHING, files[0 := f], |files|, stale) ==
            ReplayAll(ReplayArchives(NOTHING, files, |files|, stale), ReadBack(Content(f)), stale)
  {
    ParseIsReadBack(Content(f));
    CurrentLast(NOTHING, files, f, |files|, stale);
  }

  lemma ReadBackReplays(a: Stores, rs: seq<Record>, r: Record, stale: string)
    requires TreeHasValues(rs)
    ensures var before := ReplayAll(a, ReadBack(rs), stale);
      && ReplayAll(a, ReadBack(rs + [r]), stale) ==
         (if Open(rs) then Misled(before, Waiting(rs), r) else ReplayOne(before, r, BufferAfter(ReadBack(rs), stale)))
      && (Open(rs) && WritesHash(Waiting(rs)) ==> Waiting(rs).key in before.hash.bindings)
  {
    ReadBackAppend(rs, r);
    if Open(rs) {
      AmendedReplays(a, ReadBack(rs), r, stale);
    } else {
      ReplayLast(a, ReadBack(rs), r, stale);
    }
  }

  /** Serving `q` leaves all bindings as they are. */
  predicate Idempotent(s: Stores, q: Request) {
    if q.NoValue? then true
    else
      var b := if q.engine.HashEngine? then s.hash.bindings else s.tree.bindings;
      match q.command
      case Set(k, v) => if q.engine.HashEngine? then Lookup(b, k) == Some(v) else k in b
      case Mod(k, v) => k in b ==> b[k] == v
      case Del(k) => k !in b
      case Get(_) => true
      case Count => true
  }

  /** Replaying the record of `q`, with `buffer` in the value buffer, does what serving `q` does. */
  predicate Replayable(s: Stores, q: Request, buffer: string) {
    if q.NoValue? then Lookup(s.hash.bindings, q.key) == Some(buffer)
    else if !q.command.Mod? then true
    else if q.engine.HashEngine? then q.command.key in s.hash.bindings
    else Lookup(s.tree.bindings, q.command.key) == Some(q.command.val)
  }

  lemma IdempotentIff(s: Stores, q: Request)
    ensures SameBindings(s, Served(s, q)) <==> Idempotent(s, q)
  {
    if q.Request? && (q.command.Set? || q.command.Mod?) {
      var b, k, v := if q.engine.HashEngine? then s.hash.bindings else s.tree.bindings, q.command.key, q.command.val;
      assert Lookup(b[k := v], k) == Some(v);
      if Lookup(b, k) == Some(v) {
        assert b[k := v] == b;
      }
    } else if q.Request? && q.command.Del? {
      var b, k := if q.engine.HashEngine? then s.hash.bindings else s.tree.bindings, q.command.key;
      assert k !in b - {k};
    }
  }

  lemma ReplayableIff(r: Stores, s: Stores, q: Request, buffer: string)
    requires SameBindings(r, s)
    ensures SameBindings(ReplayAll(r, Records(q), buffer), Served(s, q)) <==> Replayable(s, q, buffer)
  {
    if q.NoValue? {
      var b := s.hash.bindings;
      assert Records(q)[1..] == [];
      assert "HSET"[0] == 'H' && "HMOD"[0] == 'H' && "RDEL"[0] == 'R';
      assert Lookup(b[q.key := buffer], q.key) == Some(buffer);
      if Lookup(b, q.key) == Some(buffer) {
        assert b[q.key := buffer] == b;
      }
    } else {
      ReplayRequest(r, q, buffer);
      if q.engine.HashEngine? {
        HashStepFaithfulIff(r.hash, s.hash, q.command);
      } else {
        TreeStepFaithfulIff(r.tree, s.tree, q.command);
      }
    }
  }

  /** A lost request with a waiting record that ignores its value, or has that very value already. */
  predicate Forgettable(s: Stores, p: Record, q: Request)
    requires Records(q) != []
  {
    Idempotent(s, q) && (WritesHash(p) ==> Lookup(s.hash.bindings, p.key) == Some(Text(Records(q)[0])))
  }

  lemma ForgettableIff(r: Stores, s: Stores, p: Record, q: Request)
    requires SameBindings(r, s) && Records(q) != [] && (WritesHash(p) ==> p.key in r.hash.bindings)
    ensures SameBindings(Misled(r, p, Records(q)[0]), Served(s, q)) <==> Forgettable(s, p, q)
  {
    IdempotentIff(s, q);
    if WritesHash(p) {
      var b, t := s.hash.bindings, Text(Records(q)[0]);
      var c := Served(s, q).hash.bindings;
      if q.Request? && (q.command.Set? || q.command.Mod?) {
        LongerThanValue(q);
      }
      assert Lookup(b[p.key := t], p.key) == Some(t);
      if b[p.key := t] == c {
        assert Lookup(c, p.key) == Some(t);
        assert Lookup(b, p.key) == Some(t);
      }
      if Lookup(b, p.key) == Some(t) {
        assert b[p.key := t] == b;
      }
    }
  }

  lemma LongerThanValue(q: Request)
    requires Records(q) != [] && q.Request? && (q.command.Set? || q.command.Mod?)
    ensures |Text(Records(q)[0])| > |q.command.val|
  {
  }

  /** One more request, from a state a restart would bring back, records without values included. If the
      log ends with a record that waits for a value, the new record is lost: the state can still be
      brought back exactly if the request changed no binding and its text does no harm as a value.
      Otherwise it can exactly if the record replays as the request was served. A count is not logged. */
  lemma ServeFaithfulIff(w: World, q: Request, stale: string)
    requires Enabled(w, Serve(q)) && SameBindings(Replay(w.log, stale), w.live)
    requires var rs := Content(w.log.files[0]); Records(q) == [] || (Legible(rs + Records(q)) && TreeHasValues(rs))
    ensures var rs, w' := Content(w.log.files[0]), Apply(w, Serve(q));
      SameBindings(Replay(w'.log, stale), w'.live) <==>
      if Records(q) == [] then true else if Open(rs) then Forgettable(w.live, Waiting(rs), q) else Replayable(w.live, q, BufferAfter(ReadBack(rs), stale))
  {
    if Records(q) == [] {
      return;
    }
    var rs, r, one := Content(w.log.files[0]), Replay(w.log, stale), Records(q)[0];
    assert Records(q) == [one] && [one][1..] == [];
    AppendReplays(w.log, one, stale);
    if Open(rs) {
      ForgettableIff(r, w.live, Waiting(rs), q);
    } else {
      var buffer := BufferAfter(ReadBack(rs), stale);
      assert ReplayAll(r, Records(q), buffer) == ReplayOne(r, one, buffer);
      ReplayableIff(r, w.live, q, buffer);
    }
  }

  // ---------------------------------------------------------------- rotation and restart

  /** A rename onto a free slot, or without a source, keeps the records of the two slots in order. */
  lemma {:induction false} ReplayRename(s: Stores, files: seq<File>, files': seq<File>, i: nat, n: nat, stale: string)
    requires i + 1 < n <= |files| && (files[i].None? || files[i + 1].None?) && files' == Rename(files, i)
    ensures ReplayFiles(s, files', n, stale) == ReplayFiles(s, files, n, stale)
    decreases n
  {
    if n == i + 2 {
      ReplayTwo(s, files, files', i, stale);
    } else {
      assert files'[n - 1] == files[n - 1];
      ReplayRename(ReplayAll(s, Recovered(files[n - 1]), stale), files, files', i, n - 1, stale);
    }
  }

  lemma ReplayTwo(s: Stores, files: seq<File>, files': seq<File>, i: nat, stale: string)
    requires i + 1 < |files| && (files[i].None? || files[i + 1].None?) && files' == Rename(files, i)
    ensures ReplayFiles(s, files', i + 2, stale) == ReplayFiles(s, files, i + 2, stale)
  {
    var a, b := Recovered(files[i + 1]), Recovered(files[i]);
    var t := ReplayAll(ReplayAll(s, a, stale), b, stale);
    assert ReplayFiles(s, files, i + 2, stale) == ReplayFiles(t, files, i, stale);
    assert ReplayAll(ReplayAll(s, Recovered(files'[i + 1]), stale), Recovered(files'[i]), stale) == t;
    assert ReplayFiles(s, files', i + 2, stale) == ReplayFiles(t, files', i, stale);
    ReplayFrame(t, files, files', i, stale);
  }

  lemma {:induction false} ReplayFrame(s: Stores, files: seq<File>, files': seq<File>, n: nat, stale: string)
    requires n <= |files| == |files'| && forall i :: 0 <= i < n ==> files[i] == files'[i]
    ensures ReplayFiles(s, files, n, stale) == ReplayFiles(s, files', n, stale)
    decreases n
  {
    if n > 0 {
      ReplayFrame(ReplayAll(s, Recovered(files[n - 1]), stale), files, files', n - 1, stale);
    }
  }

  /** No step of a rotation changes what a restart would bring back, whatever the records look like, as
      long as no more than 4096 rotations have begun. */
  lemma AdvanceKeepsReplay(w: World, stale: string)
    requires Enabled(w, Advance) && WalFiles.Inv(w.log) && w.log.started <= WAL_MAX_ARCHIVE
    ensures Replay(Apply(w, Advance).log, stale) == Replay(w.log, stale)
  {
    var s := w.log;
    if s.phase.Renaming? {
      ReplayRename(NOTHING, s.files, Rename(s.files, s.phase.i), s.phase.i, |s.files|, stale);
    } else {
      ReplayCreate(s.files, stale);
    }
  }

  lemma ReplayCreate(files: seq<File>, stale: string)
    requires |files| > 0 && files[0].None?
    ensures ReplayFiles(NOTHING, files[0 := Some([])], |files|, stale) == ReplayFiles(NOTHING, files, |files|, stale)
  {
    CurrentLast(NOTHING, files, None, |files|, stale);
    CurrentLast(NOTHING, files, Some([]), |files|, stale);
    assert files[0 := None] == files;
  }
}
