/** The H* and R* arms of the command dispatcher of `kvstore.c`, over both engines and the log, and
the replay loop that runs at start-up. */
module KvServer {
  import opened Engines
  import opened WalText
  import opened WalFiles
  import opened WalReplay
  import Recovery
  import HashTable
  import KvRbTree
  import Arena

  class Wal {
    var files: seq<File>
    ghost var history: seq<Record>
    ghost var started: nat
    ghost var crashes: nat

    ghost predicate At(phase: Phase)
      reads this
    {
      Inv(Log(files, phase, history, started, crashes))
    }

    ghost predicate Valid()
      reads this
    {
      At(Idle)
    }

    constructor ()
      ensures Valid() && history == [] && started == 0 && crashes == 0
    {
      files, history, started, crashes := NoFiles(WAL_MAX_ARCHIVE + 1), [], 0, 0;
      FreshRead(WAL_MAX_ARCHIVE + 1);
    }

    /** `rotate_wal`: every file moves up one slot, a gap included, and the oldest is replaced if there is
        another to take its place; the invariant holds between any two renames. */
    method Rotate()
      requires At(Renaming(WAL_MAX_ARCHIVE - 1))
      modifies this`files
      ensures Valid() && files[0] == Some([])
      ensures forall j :: 1 <= j <= 4096 ==> files[j] == NewFile(old(files), j)
    {
      ghost var was := files;
      var i := WAL_MAX_ARCHIVE - 1;
      while i >= 1
        invariant 0 <= i < WAL_MAX_ARCHIVE && At(Renaming(i)) && Moved(was, files, i)
      {
        RenameSlot(i, was);
        i := i - 1;
      }
      RenameSlot(0, was);
      CreateStep(Log(files, Creating, history, started, crashes));
      files := files[0 := Some([])];
    }

    /** One rename of the rotation. */
    method RenameSlot(i: nat, ghost was: seq<File>)
      requires i < WAL_MAX_ARCHIVE && At(Renaming(i)) && Moved(was, files, i)
      modifies this`files
      ensures At(if i > 0 then Renaming(i - 1) else Creating) && Moved(was, files, i - 1)
    {
      RenameStep(Log(files, Renaming(i), history, started, crashes));
      MovedStep(was, files, i);
      files := Rename(files, i);
    }

    /** What comes into slot `j`: the file below; if there is none, the oldest stays and others are gone. */
    static function NewFile(was: seq<File>, j: nat): File
      requires 0 < j < |was|
    {
      if was[j - 1].Some? then was[j - 1] else if j == 4096 then was[j] else None
    }

    /** The slots above `i + 1` have their new files, slot `i + 1` is free, and the rest is as it was. */
    static ghost predicate Moved(was: seq<File>, files: seq<File>, i: int) {
      && |files| == |was| == WAL_MAX_ARCHIVE + 1 && -1 <= i < WAL_MAX_ARCHIVE
      && (forall j :: i + 1 < j < |was| ==> files[j] == NewFile(was, j))
      && files[i + 1] == (if i + 1 == WAL_MAX_ARCHIVE then was[i + 1] else None)
      && (forall j :: 0 <= j <= i ==> files[j] == was[j])
    }

    static lemma MovedStep(was: seq<File>, files: seq<File>, i: nat)
      requires i < WAL_MAX_ARCHIVE && Moved(was, files, i)
      ensures Moved(was, Rename(files, i), i - 1)
    {
    }

    method Append(r: Record)
      requires Valid()
      modifies this
      ensures Valid() && history == old(history) + [r]
      ensures started == old(started) + (if old(|Print(Content(files[0]))|) + |Line(r)| > 10_485_760 then 1 else 0)
      ensures crashes == old(crashes)
    {
      ghost var next := Apply(Log(files, Idle, history, started, crashes), WalFiles.Append(r));
      AppendStep(Log(files, Idle, history, started, crashes), r);
      PrintSnoc(Content(files[0]), r);
      var full := Write(r);
      assert next == Log(files, if full then Renaming(WAL_MAX_ARCHIVE - 1) else Idle, history, started, crashes);
      if full {
        Rotate();
      }
    }

    /** Prints the record to the open file, and tells whether the file is now too long. */
    method Write(r: Record) returns (full: bool)
      requires |files| == WAL_MAX_ARCHIVE + 1
      modifies this`files, this`history, this`started
      ensures full <==> |Print(old(Content(files[0])) + [r])| > WAL_MAX_SIZE
      ensures files == old(files)[0 := Some(old(Content(files[0])) + [r])] && history == old(history) + [r]
      ensures started == old(started) + (if full then 1 else 0)
    {
      var f := Content(files[0]) + [r];
      files := files[0 := Some(f)];
      history := history + [r];
      full := |Print(f)| > WAL_MAX_SIZE;
      started := started + (if full then 1 else 0);
    }
  }

  class Server {
    const table: HashTable.Table
    const tree: KvRbTree.RbTree
    const wal: Wal

    constructor (table: HashTable.Table, tree: KvRbTree.RbTree, wal: Wal)
      ensures this.table == table && this.tree == tree && this.wal == wal
    {
      this.table, this.tree, this.wal := table, tree, wal;
    }

    ghost predicate Valid()
      reads this, table, table.heads, tree, wal
    {
      table.Valid() && tree.Valid() && wal.Valid()
    }

    /** Both engines. */
    ghost function Live(): Stores
      reads this, table, tree
    {
      Stores(table.State(), tree.State())
    }

    /** Every arm of the dispatcher logs its request in the end, whatever its outcome; a count is not
        logged, and a read of the hash engine is logged under a name of its own. */
    method LogRequest(q: Request)
      requires wal.Valid()
      modifies wal
      ensures wal.Valid() && wal.history == old(wal.history) + Records(q) && wal.started >= old(wal.started)
    {
      match q
      case NoValue(mod, k) => wal.Append(Record(if mod then "HMOD" else "HSET", k, None));
      case Request(HashEngine, Set(k, v), _) => wal.Append(Record("HSET", k, Some(v)));
      case Request(HashEngine, Get(k), extra) => wal.Append(Record("HET", k, extra));
      case Request(HashEngine, Del(k), extra) => wal.Append(Record("HDEL", k, extra));
      case Request(HashEngine, Mod(k, v), _) => wal.Append(Record("HMOD", k, Some(v)));
      case Request(TreeEngine, Set(k, v), _) => wal.Append(Record("RSET", k, Some(v)));
      case Request(TreeEngine, Get(k), extra) => wal.Append(Record("RGET", k, extra));
      case Request(TreeEngine, Del(k), extra) => wal.Append(Record("RDEL", k, extra));
      case Request(TreeEngine, Mod(k, v), _) => wal.Append(Record("RMOD", k, Some(v)));
      case Request(_, Count, _) =>
    }

    /** What the hash table does for a request; one without a value it refuses. */
    method AskTable(q: Request) returns (reply: Reply)
      requires table.Valid() && (q.Request? ==> q.engine.HashEngine?)
      modifies table, table.heads
      ensures table.Valid() && table.State() == StepHash(old(table.State()), HashCommand(q))
      ensures reply == ReplyTo(old(Live()), q)
    {
      var res;
      match q
      case NoValue(mod, k) =>
        if mod {
          res := table.Modify(Some(k), None);
        } else {
          res := table.Put(Some(k), None);
        }
        reply := Status(res);
      case Request(_, Set(k, v), _) =>
        res := table.Put(Some(k), Some(v));
        reply := Status(res);
      case Request(_, Get(k), _) =>
        var v := table.Get(Some(k));
        reply := Found(v);
      case Request(_, Del(k), _) =>
        res := table.Delete(Some(k));
        reply := Status(res);
      case Request(_, Mod(k, v), _) =>
        res := table.Modify(Some(k), Some(v));
        reply := Status(res);
      case Request(_, Count, _) =>
        reply := Number(table.count);
    }

    /** What the tree does for a request; `garbage` is what a newly allocated node holds. */
    method AskTree(q: Request, garbage: Arena.Cell) returns (reply: Reply)
      requires tree.Valid() && q.Request? && q.engine.TreeEngine?
      modifies tree
      ensures tree.Valid() && tree.State() == StepTree(old(tree.State()), TreeCommand(q))
      ensures reply == ReplyTo(old(Live()), q)
    {
      var res;
      match q.command
      case Set(k, v) =>
        res := tree.Set(k, v, garbage);
        reply := Status(res);
      case Get(k) =>
        var v := tree.Get(k);
        reply := Found(v);
      case Del(k) =>
        res := tree.Remove(k);
        reply := Status(res);
      case Mod(k, v) =>
        res := tree.Modify(k, v);
        reply := Status(res);
      case Count =>
        var n := tree.Count();
        reply := Number(n);
    }

    /** A request to the hash engine: it is carried out or refused, and logged whatever its outcome. */
    method HashRequest(q: Request) returns (reply: Reply)
      requires Valid() && (q.Request? ==> q.engine.HashEngine?)
      modifies table, table.heads, wal
      ensures Valid() && Live() == Served(old(Live()), q) && reply == ReplyTo(old(Live()), q)
      ensures wal.history == old(wal.history) + Records(q) && wal.started >= old(wal.started)
    {
      reply := AskTable(q);
      LogRequest(q);
    }

    /** A request to the tree engine. */
    method TreeRequest(q: Request, garbage: Arena.Cell) returns (reply: Reply)
      requires Valid() && q.Request? && q.engine.TreeEngine?
      modifies tree, wal
      ensures Valid() && Live() == Served(old(Live()), q) && reply == ReplyTo(old(Live()), q)
      ensures wal.history == old(wal.history) + Records(q) && wal.started >= old(wal.started)
    {
      reply := AskTree(q, garbage);
      LogRequest(q);
    }

    /** The server as a state of the machine of `Recovery`: `base` is what the last restart brought back
        and `since` are the requests served after it. */
    ghost function World(base: Stores, since: seq<Request>): Recovery.World
      reads this, table, tree, wal
    {
      Recovery.World(Log(wal.files, Idle, wal.history, wal.started, wal.crashes), Live(), base, since)
    }

    /** A request to either engine. */
    method Serve(q: Request, garbage: Arena.Cell, ghost base: Stores, ghost since: seq<Request>) returns (reply: Reply)
      requires Valid() && Recovery.Tracked(World(base, since))
      modifies table, table.heads, tree, wal
      ensures Valid() && Live() == Served(old(Live()), q) && reply == ReplyTo(old(Live()), q)
      ensures wal.history == old(wal.history) + Records(q)
      ensures Recovery.Tracked(World(base, since + [q]))
    {
      ghost var w := World(base, since);
      if q.NoValue? || q.engine.HashEngine? {
        reply := HashRequest(q);
      } else {
        reply := TreeRequest(q, garbage);
      }
      Recovery.ServeTracked(w, q, World(base, since).log);
    }

    /** A history of requests to both engines after a restart: the engines hold what the commands of each
        make of what the restart brought back. */
    method Session(qs: seq<Request>, garbage: Arena.Cell, ghost base: Stores) returns (replies: seq<Reply>)
      requires Valid() && Recovery.Tracked(World(base, []))
      modifies table, table.heads, tree, wal
      ensures Valid() && Recovery.Tracked(World(base, qs))
      ensures Live() == ServedAll(base, qs) && replies == Replies(base, qs) && wal.history == old(wal.history) + LogOf(qs)
    {
      if qs == [] {
        assert wal.history + [] == wal.history;
        return [];
      }
      var p, q := qs[..|qs| - 1], qs[|qs| - 1];
      assert qs == p + [q];
      SessionSnoc(base, p, q, wal.history);
      replies := Session(p, garbage, base);
      var reply := Serve(q, garbage, base, p);
      replies := replies + [reply];
    }

    // -------------------------------------------------------------- replay

    /** Dispatches one record; the names of the array engine are not part of this model. */
    method ReplayRecord(r: Record, value: string, garbage: Arena.Cell)
      requires table.Valid() && tree.Valid() && value == Buffer(r, value)
      modifies table, table.heads, tree
      ensures table.Valid() && tree.Valid() && Live() == ReplayOne(old(Live()), r, value)
    {
      if r.cmd == "RSET" || r.cmd == "RMOD" {
        var _ := tree.Set(r.key, value, garbage);
      } else if r.cmd == "RDEL" {
        var _ := tree.Remove(r.key);
      } else if r.cmd == "HSET" || r.cmd == "HMOD" {
        var _ := table.Put(Some(r.key), Some(value));
      } else if r.cmd == "HDEL" {
        var _ := table.Delete(Some(r.key));
      }
    }

    /** The loop over one file: scan a record, dispatch it, go on. */
    method ReplayFile(text: string, buffer: string, garbage: Arena.Cell)
      requires table.Valid() && tree.Valid()
      modifies table, table.heads, tree
      ensures table.Valid() && tree.Valid() && Live() == ReplayAll(old(Live()), Parse(text), buffer)
    {
      var rest, value := text, buffer;
      var scanned := Scan(rest);
      while scanned.Item?
        invariant table.Valid() && tree.Valid() && scanned == Scan(rest)
        invariant ReplayAll(Live(), Parse(rest), value) == ReplayAll(old(Live()), Parse(text), buffer)
        decreases |rest|
      {
        var r := scanned.record;
        ghost var rs := Parse(rest);
        assert rs[0] == r && rs[1..] == Parse(scanned.rest);
        value := Buffer(r, value);
        ReplayRecord(r, value, garbage);
        rest := scanned.rest;
        scanned := Scan(rest);
      }
    }

    /** `wal_replay`: the archives from the oldest to the newest, then the current log. */
    method Replay(files: seq<File>, buffer: string, garbage: Arena.Cell)
      requires table.Valid() && tree.Valid() && |files| == WAL_MAX_ARCHIVE + 1
      modifies table, table.heads, tree
      ensures table.Valid() && tree.Valid() && Live() == ReplayFiles(old(Live()), files, |files|, buffer)
    {
      ghost var target := ReplayFiles(Live(), files, |files|, buffer);
      var n: nat := WAL_MAX_ARCHIVE + 1;
      while n > 0
        invariant table.Valid() && tree.Valid() && n <= WAL_MAX_ARCHIVE + 1
        invariant ReplayFiles(Live(), files, n, buffer) == target
      {
        n := n - 1;
        ReplaySlot(files, n, buffer, garbage);
      }
    }

    /** The next slot, which leaves what is still to be replayed from slot `n` down; nothing happens if the
        file cannot be opened. */
    method ReplaySlot(files: seq<File>, n: nat, buffer: string, garbage: Arena.Cell)
      requires table.Valid() && tree.Valid() && n < |files|
      modifies table, table.heads, tree
      ensures table.Valid() && tree.Valid()
      ensures ReplayFiles(Live(), files, n, buffer) == ReplayFiles(old(Live()), files, n + 1, buffer)
    {
      if files[n].Some? {
        ReplayFile(Print(files[n].value), buffer, garbage);
      }
    }

    /** A restart: new engines, filled from the files. */
    method Restart(buffer: string, garbage: Arena.Cell)
      requires Valid() && Live() == NOTHING
      modifies table, table.heads, tree
      ensures Valid() && Live() == Recovery.Replay(World(Live(), []).log, buffer)
      ensures Recovery.Tracked(World(Live(), []))
    {
      Replay(wal.files, buffer, garbage);
      Recovery.RestartTracked(World(Live(), []).log, buffer);
    }
  }
}
