/** What the server of `kvstore.c` logs for each request, and what replaying the log rebuilds. */
module WalReplay {
  import opened Engines
  import opened Histories
  import opened WalText
  import opened WalFiles

  datatype Engine = HashEngine | TreeEngine

  /** A request; `extra` is the third token of a request that does not use it, which is logged all
      the same (`None` if the pointer is null). `NoValue` is an HSET or HMOD whose third token is
      missing: the hash engine refuses it. */
  datatype Request = Request(engine: Engine, command: Command, extra: Option<string>)
                   | NoValue(mod: bool, key: string)

  datatype Stores = Stores(hash: Store, tree: Store)

  const NOTHING := Stores(EMPTY, EMPTY)

  /** The command a request gives to either engine. */
  function HashCommand(q: Request): Option<Command> {
    if q.Request? && q.engine.HashEngine? then Some(q.command) else None
  }

  function TreeCommand(q: Request): Option<Command> {
    if q.Request? && q.engine.TreeEngine? then Some(q.command) else None
  }

  function StepHash(s: Store, c: Option<Command>): Store {
    if c.Some? then HashStep(s, c.value).0 else s
  }

  function StepTree(s: Store, c: Option<Command>): Store {
    if c.Some? then TreeStep(s, c.value).0 else s
  }

  function Served(s: Stores, q: Request): Stores {
    Stores(StepHash(s.hash, HashCommand(q)), StepTree(s.tree, TreeCommand(q)))
  }

  function ReplyTo(s: Stores, q: Request): Reply {
    if q.NoValue? then Status(-1)
    else if q.engine.HashEngine? then HashStep(s.hash, q.command).1
    else TreeStep(s.tree, q.command).1
  }

  /** The record a request leaves in the log: none for a count, and a read of the hash engine under a
      name that is no command. Failed and refused requests are logged too. */
  function Records(q: Request): seq<Record> {
    match q
    case NoValue(mod, k) => [Record(if mod then "HMOD" else "HSET", k, None)]
    case Request(HashEngine, Set(k, v), _) => [Record("HSET", k, Some(v))]
    case Request(HashEngine, Get(k), x) => [Record("HET", k, x)]
    case Request(HashEngine, Del(k), x) => [Record("HDEL", k, x)]
    case Request(HashEngine, Mod(k, v), _) => [Record("HMOD", k, Some(v))]
    case Request(TreeEngine, Set(k, v), _) => [Record("RSET", k, Some(v))]
    case Request(TreeEngine, Get(k), x) => [Record("RGET", k, x)]
    case Request(TreeEngine, Del(k), x) => [Record("RDEL", k, x)]
    case Request(TreeEngine, Mod(k, v), _) => [Record("RMOD", k, Some(v))]
    case Request(_, Count, _) => []
  }

  /** The name under which a request is logged. */
  function LoggedName(q: Request): string {
    if q.NoValue? then (if q.mod then "HMOD" else "HSET")
    else if q.engine.HashEngine? then
      match q.command case Set(_, _) => "HSET" case Get(_) => "HET" case Del(_) => "HDEL" case Mod(_, _) => "HMOD" case Count => ""
    else
      match q.command case Set(_, _) => "RSET" case Get(_) => "RGET" case Del(_) => "RDEL" case Mod(_, _) => "RMOD" case Count => ""
  }

  lemma PrintOne(r: Record)
    ensures Print([r]) == Line(r)
  {
    assert [r][1..] == [];
  }

  /** What a request adds to the log, as text: a line with its name, its key and its third token, if there
      is one; a count adds nothing. */
  lemma LoggedText(q: Request)
    ensures q.NoValue? ==> Print(Records(q)) == LoggedName(q) + " " + q.key + "" + "\n"
    ensures q.Request? && q.command.Count? ==> Print(Records(q)) == ""
    ensures q.Request? && (q.command.Set? || q.command.Mod?) ==>
      Print(Records(q)) == LoggedName(q) + " " + q.command.key + (" " + q.command.val) + "\n"
    ensures q.Request? && (q.command.Get? || q.command.Del?) ==>
      Print(Records(q)) == LoggedName(q) + " " + q.command.key + (if q.extra.Some? then " " + q.extra.value else "") + "\n"
  {
    if q.NoValue? || !q.command.Count? {
      var r := Records(q)[0];
      assert Records(q) == [r];
      PrintOne(r);
    }
  }

  /** The commands of a history of requests, engine by engine. */
  function HashCommands(qs: seq<Request>): seq<Command> {
    if |qs| == 0 then [] else HashCommands(qs[..|qs| - 1]) + Listed(HashCommand(qs[|qs| - 1]))
  }

  function TreeCommands(qs: seq<Request>): seq<Command> {
    if |qs| == 0 then [] else TreeCommands(qs[..|qs| - 1]) + Listed(TreeCommand(qs[|qs| - 1]))
  }

  function Listed(c: Option<Command>): seq<Command> {
    if c.Some? then [c.value] else []
  }

  /** Engines, answers and log after a history of requests, from the state `s`. */
  function ServedAll(s: Stores, qs: seq<Request>): Stores {
    Stores(HashFrom(s.hash, HashCommands(qs)), TreeFrom(s.tree, TreeCommands(qs)))
  }

  function Replies(s: Stores, qs: seq<Request>): seq<Reply> {
    if |qs| == 0 then []
    else Replies(s, qs[..|qs| - 1]) + [ReplyTo(ServedAll(s, qs[..|qs| - 1]), qs[|qs| - 1])]
  }

  function LogOf(qs: seq<Request>): seq<Record> {
    if |qs| == 0 then [] else LogOf(qs[..|qs| - 1]) + Records(qs[|qs| - 1])
  }

  lemma SessionSnoc(s: Stores, p: seq<Request>, q: Request, h: seq<Record>)
    ensures Replies(s, p + [q]) == Replies(s, p) + [ReplyTo(ServedAll(s, p), q)]
    ensures h + LogOf(p + [q]) == h + LogOf(p) + Records(q)
  {
    assert (p + [q])[..|p|] == p;
  }

  lemma {:induction false} ReplyAt(s: Stores, qs: seq<Request>, i: nat)
    requires i < |qs|
    ensures |Replies(s, qs)| == |qs| && Replies(s, qs)[i] == ReplyTo(ServedAll(s, qs[..i]), qs[i])
    decreases |qs|
  {
    var p := qs[..|qs| - 1];
    if i < |p| {
      ReplyAt(s, p, i);
      assert p[..i] == qs[..i];
    } else {
      assert p == qs[..i];
      if i > 0 {
        ReplyAt(s, p, 0);
      }
    }
  }

  /** The answers of a session, by the commands served before. A read of the hash engine finds the value
      of the last HSET or hitting HMOD since the last HDEL, a read of the tree that of the last RMOD after
      the first RSET since the last RDEL, or of that RSET; both find nothing exactly if there is no SET.
      SET succeeds, DEL and MOD succeed exactly on a key that is present, and what lacks a value is
      refused. A count is the number of keys present, for the tree plus the SETs that found their key. */
  lemma SessionAnswers(s: Stores, qs: seq<Request>, i: nat)
    requires i < |qs|
    ensures |Replies(s, qs)| == |qs|
    ensures var q, r := qs[i], Replies(s, qs)[i];
      var cs := if q.Request? && q.engine.TreeEngine? then TreeCommands(qs[..i]) else HashCommands(qs[..i]);
      var b := if q.Request? && q.engine.TreeEngine? then s.tree else s.hash;
      && (q.NoValue? ==> r == Status(-1))
      && (q.Request? ==>
          && (q.command.Set? ==> r == Status(0))
          && (q.command.Del? || q.command.Mod? ==> r == Status(if Present(b.bindings, cs, q.command.key) then 0 else -1))
          && (q.command.Get? ==> r.Found? && (r.value.Some? <==> Present(b.bindings, cs, q.command.key))))
  {
    ReplyAt(s, qs, i);
    var q := qs[i];
    if q.Request? && q.engine.HashEngine? {
      HashAnswers(s.hash, HashCommands(qs[..i]), q.command);
    } else if q.Request? {
      TreeAnswers(s.tree, TreeCommands(qs[..i]), q.command);
    }
  }

  /** The values that reads of the hash engine find, and its counts. */
  lemma HashValues(s: Stores, qs: seq<Request>, i: nat)
    requires i < |qs| && qs[i].Request? && qs[i].engine.HashEngine?
    ensures |Replies(s, qs)| == |qs|
    ensures qs[i].command.Get? && Present(s.hash.bindings, HashCommands(qs[..i]), qs[i].command.key) ==>
      var ws := Writes(s.hash.bindings, HashCommands(qs[..i]), qs[i].command.key);
      AllWrites(ws) && Replies(s, qs)[i] == Found(Some(ws[|ws| - 1].val))
    ensures qs[i].command.Count? ==>
      Replies(s, qs)[i] == Number(|KeysFrom(s.hash.bindings.Keys, HashCommands(qs[..i]))| + s.hash.count - |s.hash.bindings|)
  {
    ReplyAt(s, qs, i);
    HashAnswers(s.hash, HashCommands(qs[..i]), qs[i].command);
  }

  /** The values that reads of the tree engine find, and its counts. */
  lemma TreeValues(s: Stores, qs: seq<Request>, i: nat)
    requires i < |qs| && qs[i].Request? && qs[i].engine.TreeEngine?
    ensures |Replies(s, qs)| == |qs|
    ensures qs[i].command.Get? && Present(s.tree.bindings, TreeCommands(qs[..i]), qs[i].command.key) ==>
      var ws := Writes(s.tree.bindings, TreeCommands(qs[..i]), qs[i].command.key);
      AllWrites(ws) && Replies(s, qs)[i] == Found(Some(LastMod(ws[FirstSet(ws)..])))
    ensures qs[i].command.Count? ==>
      var cs := TreeCommands(qs[..i]);
      Replies(s, qs)[i] == Number(|KeysFrom(s.tree.bindings.Keys, cs)| + OverwritesFrom(s.tree.bindings.Keys, cs) + s.tree.count - |s.tree.bindings|)
  {
    ReplyAt(s, qs, i);
    TreeAnswers(s.tree, TreeCommands(qs[..i]), qs[i].command);
  }

  // ---------------------------------------------------------------- replay

  /** The value buffer after a scan: a record without a value leaves the old contents. */
  function Buffer(r: Record, stale: string): string {
    if r.value.Some? then r.value.value else stale
  }

  predicate WritesHash(r: Record) {
    r.cmd == "HSET" || r.cmd == "HMOD"
  }

  predicate WritesTree(r: Record) {
    r.cmd == "RSET" || r.cmd == "RMOD"
  }

  /** The arms of the replay loop: MOD is replayed as SET, and unknown names are skipped. */
  function ReplayHash(s: Store, r: Record, stale: string): Store {
    if WritesHash(r) then HashStep(s, Set(r.key, Buffer(r, stale))).0
    else if r.cmd == "HDEL" then HashStep(s, Del(r.key)).0
    else s
  }

  function ReplayTree(s: Store, r: Record, stale: string): Store {
    if WritesTree(r) then TreeStep(s, Set(r.key, Buffer(r, stale))).0
    else if r.cmd == "RDEL" then TreeStep(s, Del(r.key)).0
    else s
  }

  function ReplayOne(s: Stores, r: Record, stale: string): Stores {
    Stores(ReplayHash(s.hash, r, stale), ReplayTree(s.tree, r, stale))
  }

  /** The engines after replaying the records of one file; `stale` is what the buffer holds before. */
  function ReplayAll(s: Stores, rs: seq<Record>, stale: string): Stores
    decreases |rs|
  {
    if |rs| == 0 then s else ReplayAll(ReplayOne(s, rs[0], stale), rs[1..], Buffer(rs[0], stale))
  }

  function BufferAfter(rs: seq<Record>, stale: string): string
    decreases |rs|
  {
    if |rs| == 0 then stale else BufferAfter(rs[1..], Buffer(rs[0], stale))
  }

  lemma {:induction false} ReplayConcat(s: Stores, a: seq<Record>, b: seq<Record>, stale: string)
    ensures ReplayAll(s, a + b, stale) == ReplayAll(ReplayAll(s, a, stale), b, BufferAfter(a, stale))
    decreases |a|
  {
    if |a| > 0 {
      assert (a + b)[1..] == a[1..] + b && (a + b)[0] == a[0];
      ReplayConcat(ReplayOne(s, a[0], stale), a[1..], b, Buffer(a[0], stale));
    } else {
      assert a + b == b;
    }
  }

  lemma ReplayLast(s: Stores, a: seq<Record>, r: Record, stale: string)
    ensures ReplayAll(s, a + [r], stale) == ReplayOne(ReplayAll(s, a, stale), r, BufferAfter(a, stale))
  {
    ReplayConcat(s, a, [r], stale);
    assert [r][1..] == [];
  }

  /** Every record carries a value, so the buffer never matters. */
  predicate Valued(rs: seq<Record>) {
    forall i :: 0 <= i < |rs| ==> rs[i].value.Some?
  }

  lemma ReplayValued(s: Stores, a: seq<Record>, b: seq<Record>, x: string, y: string, z: string)
    requires Valued(b)
    ensures ReplayAll(s, b, y) == ReplayAll(s, b, z)
    ensures ReplayAll(s, a + b, x) == ReplayAll(ReplayAll(s, a, x), b, z)
  {
    ReplayConcat(s, a, b, x);
  }

  /** What replaying a request's own record does: its command, with MOD taken for SET. */
  function Replayed(s: Stores, q: Request): Stores {
    Stores(StepHash(s.hash, AsSet(HashCommand(q))), StepTree(s.tree, AsSet(TreeCommand(q))))
  }

  function AsSet(c: Option<Command>): Option<Command> {
    if c.Some? && c.value.Mod? then Some(Set(c.value.key, c.value.val)) else c
  }

  lemma ReplayRequest(s: Stores, q: Request, stale: string)
    requires q.Request?
    ensures ReplayAll(s, Records(q), stale) == Replayed(s, q)
  {
    var b := Records(q);
    if |b| > 0 {
      assert b[1..] == [];
      assert "HET"[1] == 'E' && "HDEL"[1] == 'D' && "HSET"[1] == 'S' && "HMOD"[1] == 'M';
      assert "RGET"[1] == 'G' && "RDEL"[1] == 'D' && "RSET"[1] == 'S' && "RMOD"[1] == 'M';
      assert b[0].cmd[0] == if q.engine.HashEngine? then 'H' else 'R';
    }
  }

  // ---------------------------------------------------------------- the hash engine

  /** How many commands of a history come up to and including the last one that wrote key `k`. */
  function LastWrite(cs: seq<Command>, k: string): (n: nat)
    ensures n <= |cs| && (n > 0 ==> !cs[n - 1].Count? && !cs[n - 1].Get? && cs[n - 1].key == k)
  {
    if |cs| == 0 then 0
    else
      var c := cs[|cs| - 1];
      if (c.Set? || c.Del? || c.Mod?) && c.key == k then |cs| else LastWrite(cs[..|cs| - 1], k)
  }

  /** The last command that wrote key `k` is a MOD that found no such key; `ks` were present before. */
  predicate MissedMod(ks: set<string>, cs: seq<Command>, k: string) {
    var n := LastWrite(cs, k);
    n > 0 && cs[n - 1].Mod? && k !in KeysFrom(ks, cs[..n - 1])
  }

  ghost predicate NoMissedMod(ks: set<string>, cs: seq<Command>) {
    forall k :: !MissedMod(ks, cs, k)
  }

  /** The hash engine after replaying the records of a history, from the state `s`. */
  function HashRebuilt(s: Store, cs: seq<Command>): Store {
    if |cs| == 0 then s else StepHash(HashRebuilt(s, cs[..|cs| - 1]), AsSet(Some(cs[|cs| - 1])))
  }

  lemma {:induction false} RebuiltKey(s: Store, cs: seq<Command>, k: string)
    ensures var n := LastWrite(cs, k);
      Lookup(HashRebuilt(s, cs).bindings, k) ==
      if n == 0 then Lookup(s.bindings, k) else if cs[n - 1].Del? then None else Some(cs[n - 1].val)
  {
    if |cs| > 0 {
      RebuiltKey(s, cs[..|cs| - 1], k);
    }
  }

  lemma {:induction false} LiveKey(s: Store, cs: seq<Command>, k: string)
    requires !MissedMod(s.bindings.Keys, cs, k)
    ensures var n := LastWrite(cs, k);
      Lookup(HashFrom(s, cs).bindings, k) ==
      if n == 0 then Lookup(s.bindings, k) else if cs[n - 1].Del? then None else Some(cs[n - 1].val)
  {
    if |cs| > 0 {
      var p, n := cs[..|cs| - 1], LastWrite(cs, k);
      if n < |cs| {
        assert n > 0 ==> cs[..n - 1] == p[..n - 1];
        LiveKey(s, p, k);
      } else {
        assert cs[..n - 1] == p;
        KeysAfter(s, p);
      }
    }
  }

  lemma {:induction false} MissedKey(s: Store, cs: seq<Command>, k: string)
    requires MissedMod(s.bindings.Keys, cs, k)
    ensures k !in HashFrom(s, cs).bindings
  {
    var p, n := cs[..|cs| - 1], LastWrite(cs, k);
    KeysAfter(s, p);
    if n < |cs| {
      assert cs[..n - 1] == p[..n - 1];
      MissedKey(s, p, k);
    } else {
      assert cs[..n - 1] == p;
    }
  }

  lemma SameLookups(a: map<string, string>, b: map<string, string>)
    ensures a == b <==> forall k :: Lookup(a, k) == Lookup(b, k)
  {
    if forall k :: Lookup(a, k) == Lookup(b, k) {
      forall k
        ensures k in a <==> k in b
        ensures k in a && k in b ==> a[k] == b[k]
      {
        assert Lookup(a, k) == Lookup(b, k);
      }
    }
  }

  /** Replay rebuilds the live map exactly when no key was last written by a MOD that missed. */
  lemma HashRebuiltExactly(s: Store, cs: seq<Command>)
    ensures HashRebuilt(s, cs).bindings == HashFrom(s, cs).bindings <==> NoMissedMod(s.bindings.Keys, cs)
  {
    var a, b := HashRebuilt(s, cs).bindings, HashFrom(s, cs).bindings;
    SameLookups(a, b);
    forall k
      ensures Lookup(a, k) == Lookup(b, k) <==> !MissedMod(s.bindings.Keys, cs, k)
    {
      RebuiltKey(s, cs, k);
      if MissedMod(s.bindings.Keys, cs, k) {
        MissedKey(s, cs, k);
      } else {
        LiveKey(s, cs, k);
      }
    }
  }

  // ---------------------------------------------------------------- the tree engine

  /** The first of the writes, which replay keeps, gave the value that the RMODs after the first RSET
      have left; and there is an RSET, because an RMOD before it missed. */
  predicate Restored(ws: seq<Command>)
    requires AllWrites(ws)
  {
    ws == [] || (FirstSet(ws) < |ws| && ws[0].val == LastMod(ws[FirstSet(ws)..]))
  }

  function TreeRebuilt(s: Store, cs: seq<Command>): Store {
    if |cs| == 0 then s else StepTree(TreeRebuilt(s, cs[..|cs| - 1]), AsSet(Some(cs[|cs| - 1])))
  }

  /** Replay keeps the first value written since the last deletion, not the current one. */
  lemma {:induction false} TreeKeepsFirst(s: Store, cs: seq<Command>, k: string)
    ensures var ws := Writes(s.bindings, cs, k);
      AllWrites(ws) && Lookup(TreeRebuilt(s, cs).bindings, k) == if ws == [] then None else Some(ws[0].val)
  {
    WritesAreWrites(s.bindings, cs, k);
    if |cs| > 0 {
      TreeKeepsFirst(s, cs[..|cs| - 1], k);
    }
  }

  ghost predicate AllRestored(b: map<string, string>, cs: seq<Command>) {
    forall k :: AllWrites(Writes(b, cs, k)) && Restored(Writes(b, cs, k))
  }

  /** Replay rebuilds the live tree exactly when for every key the writes since its last RDEL include an
      RSET, and the first value written is that of the last RMOD after the first RSET, or of that RSET. */
  lemma TreeRebuiltExactly(s: Store, cs: seq<Command>)
    ensures TreeRebuilt(s, cs).bindings == TreeFrom(s, cs).bindings <==> AllRestored(s.bindings, cs)
  {
    var a, b := TreeRebuilt(s, cs).bindings, TreeFrom(s, cs).bindings;
    SameLookups(a, b);
    forall k
      ensures AllWrites(Writes(s.bindings, cs, k))
      ensures Lookup(a, k) == Lookup(b, k) <==> Restored(Writes(s.bindings, cs, k))
    {
      TreeKeepsFirst(s, cs, k);
      TreeHolds(s, cs, k);
    }
  }

  /** Without RMOD the whole engine is rebuilt, its counter included. */
  lemma {:induction false} TreeRebuiltWithoutMod(s: Store, cs: seq<Command>)
    requires forall i :: 0 <= i < |cs| ==> !cs[i].Mod?
    ensures TreeRebuilt(s, cs) == TreeFrom(s, cs)
  {
    if |cs| > 0 {
      TreeRebuiltWithoutMod(s, cs[..|cs| - 1]);
    }
  }

  /** An RMOD that changes a value is lost: the key comes back with its old value. */
  lemma ModifiedValueIsLost(k: string, v: string, w: string)
    requires v != w
    ensures var cs := [Set(k, v), Mod(k, w)];
      Lookup(TreeRebuilt(EMPTY, cs).bindings, k) == Some(v) && Lookup(TreeRun(cs).bindings, k) == Some(w)
  {
    var c, d := Set(k, v), Mod(k, w);
    var cs, one := [c, d], [c];
    assert cs[..1] == one && one[..0] == [];
    assert Writes(map[], [], k) == [] && Writes(map[], one, k) == [c];
    assert Writes(map[], cs, k) == [c] + [d] == cs;
    TreeKeepsFirst(EMPTY, cs, k);
    TreeHolds(EMPTY, cs, k);
  }

  // ---------------------------------------------------------------- one command more

  /** One more hash command keeps replay and live map equal, unless it is an HMOD that misses. */
  lemma HashStepFaithfulIff(replayed: Store, live: Store, c: Command)
    requires replayed.bindings == live.bindings
    ensures StepHash(replayed, AsSet(Some(c))).bindings == HashStep(live, c).0.bindings <==> (c.Mod? ==> c.key in live.bindings)
  {
  }

  /** One more tree command keeps replay and live tree equal, unless it is an RMOD that misses or that
      changes the value: replay would insert the key, or keep the old value. */
  lemma TreeStepFaithfulIff(replayed: Store, live: Store, c: Command)
    requires replayed.bindings == live.bindings
    ensures StepTree(replayed, AsSet(Some(c))).bindings == TreeStep(live, c).0.bindings <==>
            (c.Mod? ==> Lookup(live.bindings, c.key) == Some(c.val))
  {
    var b := live.bindings;
    if c.Mod? {
      assert Lookup(b[c.key := c.val], c.key) == Some(c.val);
      if Lookup(b, c.key) == Some(c.val) {
        assert b[c.key := c.val] == b;
      }
    }
  }

  // ---------------------------------------------------------------- replay of the files

  /** What is read from a file: its text, scanned; nothing from a file that is not there. */
  function Recovered(f: File): seq<Record> {
    if f.Some? then Parse(Print(f.value)) else []
  }

  /** The engines after `wal_replay` has gone through slots `n - 1` down to 0; every file starts with
      the same uninitialised buffer. */
  function ReplayFiles(s: Stores, files: seq<File>, n: nat, stale: string): Stores
    requires n <= |files|
    decreases n
  {
    if n == 0 then s else ReplayFiles(ReplayAll(s, Recovered(files[n - 1]), stale), files, n - 1, stale)
  }

  predicate AllFit(rs: seq<Record>) {
    Fitting(rs) && Valued(rs)
  }

  lemma AllFitParts(a: seq<Record>, b: seq<Record>)
    requires AllFit(a + b)
    ensures AllFit(a) && AllFit(b)
  {
    assert forall i :: 0 <= i < |a| ==> a[i] == (a + b)[i];
    assert forall i :: 0 <= i < |b| ==> b[i] == (a + b)[|a| + i];
  }

  /** If every record fits and has a value, replaying the files replays all their records. */
  lemma {:induction false} FilesReadBack(s: Stores, files: seq<File>, n: nat, stale: string)
    requires n <= |files| && AllFit(ReadDown(files, n))
    ensures ReplayFiles(s, files, n, stale) == ReplayAll(s, ReadDown(files, n), stale)
    decreases n
  {
    if n > 0 {
      var a, b := Content(files[n - 1]), ReadDown(files, n - 1);
      AllFitParts(a, b);
      if files[n - 1].Some? {
        RoundTrip(files[n - 1].value);
      }
      FilesReadBack(ReplayAll(s, a, stale), files, n - 1, stale);
      ReplayValued(s, a, b, stale, stale, stale);
    }
  }
}
