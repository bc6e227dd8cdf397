/** Archive rotation of `kvstore.c`: the current log and its numbered archives.

Slot 0 is `wal.log` and slot `i` is `wal.log.i`; a file is the list of its records. A rotation is a
series of renames, and the process may stop between any two of them. */
module WalFiles {
  import opened Engines
  import opened WalText

  const WAL_MAX_ARCHIVE: nat := 4096
  const WAL_MAX_SIZE: nat := 10 * 1024 * 1024

  type File = Option<seq<Record>>

  function Content(f: File): seq<Record> {
    if f.Some? then f.value else []
  }

  /** The records of slots `n - 1` down to 0, in the order `wal_replay` reads them. */
  function ReadDown(files: seq<File>, n: nat): seq<Record>
    requires n <= |files|
  {
    if n == 0 then [] else Content(files[n - 1]) + ReadDown(files, n - 1)
  }

  function Read(files: seq<File>): seq<Record> {
    ReadDown(files, |files|)
  }

  /** `rename` of slot `i` to slot `i + 1`: it replaces the target, and fails if there is no source. */
  function Rename(files: seq<File>, i: nat): seq<File>
    requires i + 1 < |files|
  {
    if files[i].Some? then files[i + 1 := files[i]][i := None] else files
  }

  lemma {:induction false} ReadDownFrame(files: seq<File>, files': seq<File>, n: nat)
    requires n <= |files| == |files'| && forall i :: 0 <= i < n ==> files[i] == files'[i]
    ensures ReadDown(files, n) == ReadDown(files', n)
  {
    if n > 0 {
      ReadDownFrame(files, files', n - 1);
    }
  }

  /** A rename onto a free slot, or without a source, does not change what is read. */
  lemma {:induction false} RenameKeeps(files: seq<File>, i: nat, n: nat)
    requires i + 1 < n <= |files| && (files[i].None? || files[i + 1].None?)
    ensures ReadDown(Rename(files, i), n) == ReadDown(files, n)
    decreases n
  {
    var files' := Rename(files, i);
    if n == i + 2 {
      RenamePair(files, files', i);
    } else {
      assert files'[n - 1] == files[n - 1];
      RenameKeeps(files, i, n - 1);
    }
  }

  lemma RenamePair(files: seq<File>, files': seq<File>, i: nat)
    requires i + 1 < |files| && (files[i].None? || files[i + 1].None?) && files' == Rename(files, i)
    ensures ReadDown(files', i + 2) == ReadDown(files, i + 2)
  {
    if files[i].Some? {
      ReadDownFrame(files, files', i);
      var b, rest := Content(files[i]), ReadDown(files, i);
      assert ReadDown(files, i + 1) == b + rest;
      assert ReadDown(files', i + 1) == [] + rest == rest;
      assert ReadDown(files, i + 2) == [] + (b + rest) == b + rest;
    }
  }

  /** A rename onto the oldest archive drops exactly that archive, which is read first. */
  lemma {:induction false} RenameDrops(files: seq<File>)
    requires |files| > 1 && files[|files| - 2].Some? && files[|files| - 1].Some?
    ensures Read(files) == Content(files[|files| - 1]) + Read(Rename(files, |files| - 2))
  {
    var n := |files|;
    var files' := Rename(files, n - 2);
    ReadDownFrame(files, files', n - 2);
    var rest := ReadDown(files, n - 2);
    assert ReadDown(files, n - 1) == Content(files[n - 2]) + rest;
    assert ReadDown(files', n - 1) == [] + rest;
    assert Content(files'[n - 1]) == Content(files[n - 2]) && [] + rest == rest;
    assert ReadDown(files', n) == ReadDown(files, n - 1);
  }

  lemma {:induction false} ReadAppend(files: seq<File>, n: nat, r: Record)
    requires 0 < n <= |files|
    ensures ReadDown(files[0 := Some(Content(files[0]) + [r])], n) == ReadDown(files, n) + [r]
  {
    var files' := files[0 := Some(Content(files[0]) + [r])];
    if n == 1 {
      assert ReadDown(files', 1) == Content(files[0]) + [r] + [];
      assert ReadDown(files, 1) == Content(files[0]) + [];
    } else {
      ReadAppend(files, n - 1, r);
      assert Content(files[n - 1]) + (ReadDown(files, n - 1) + [r]) == ReadDown(files, n) + [r];
    }
  }

  // ---------------------------------------------------------------- steps

  /** Between operations; about to rename slot `i`; or about to create an empty `wal.log`. */
  datatype Phase = Idle | Renaming(i: nat) | Creating

  /** `history` are all records ever appended, `started` counts the rotations begun and `crashes` the
      crashes. */
  datatype Log = Log(files: seq<File>, phase: Phase, history: seq<Record>, started: nat, crashes: nat)

  datatype Step = Append(r: Record) | RenameNext | Create | Crash

  predicate Enabled(s: Log, a: Step) {
    && |s.files| == WAL_MAX_ARCHIVE + 1
    && match a
       case Append(_) => s.phase.Idle?
       case RenameNext => s.phase.Renaming? && s.phase.i < WAL_MAX_ARCHIVE
       case Create => s.phase.Creating?
       case Crash => true
  }

  function Apply(s: Log, a: Step): Log
    requires Enabled(s, a)
  {
    match a
    case Append(r) =>
      var f := Content(s.files[0]) + [r];
      var t := s.(files := s.files[0 := Some(f)], history := s.history + [r]);
      if |Print(f)| > WAL_MAX_SIZE then t.(phase := Renaming(WAL_MAX_ARCHIVE - 1), started := s.started + 1) else t
    case RenameNext =>
      s.(files := Rename(s.files, s.phase.i), phase := if s.phase.i > 0 then Renaming(s.phase.i - 1) else Creating)
    case Create => s.(files := s.files[0 := Some([])], phase := Idle)
    case Crash => s.(phase := Idle, crashes := s.crashes + 1)
  }

  function NoFiles(n: nat): (files: seq<File>)
    ensures |files| == n && forall i :: 0 <= i < n ==> files[i].None?
  {
    if n == 0 then [] else NoFiles(n - 1) + [None]
  }

  /** The state before the first append. */
  function Fresh(): Log {
    Log(NoFiles(WAL_MAX_ARCHIVE + 1), Idle, [], 0, 0)
  }

  ghost predicate Next(s: Log, s': Log) {
    exists a :: Enabled(s, a) && s' == Apply(s, a)
  }

  ghost predicate IsRun(run: seq<Log>) {
    && |run| > 0 && run[0] == Fresh()
    && forall i :: 0 <= i < |run| - 1 ==> Next(run[i], run[i + 1])
  }

  predicate EndOf(a: seq<Record>, h: seq<Record>) {
    |a| <= |h| && a == h[|h| - |a|..]
  }

  /** What is read is the end of the history, and all of it up to 4096 rotations. */
  predicate Kept(s: Log) {
    && EndOf(Read(s.files), s.history)
    && (s.started <= WAL_MAX_ARCHIVE ==> Read(s.files) == s.history)
  }

  /** A file of slot `j` has been through `j` rotations; before its rename through one less. */
  predicate Aged(s: Log)
    requires |s.files| == WAL_MAX_ARCHIVE + 1 && (s.phase.Renaming? ==> s.phase.i < WAL_MAX_ARCHIVE)
  {
    && (forall j :: 0 <= j < |s.files| && s.files[j].Some? ==> j <= s.started)
    && (s.phase.Renaming? ==> forall j :: 0 <= j <= s.phase.i && s.files[j].Some? ==> j < s.started)
    && (s.phase == Renaming(WAL_MAX_ARCHIVE - 1) ==> s.files[WAL_MAX_ARCHIVE].Some? ==> WAL_MAX_ARCHIVE < s.started)
  }

  predicate Inv(s: Log) {
    && |s.files| == WAL_MAX_ARCHIVE + 1
    && (s.phase.Renaming? ==> s.phase.i < WAL_MAX_ARCHIVE)
    && (s.phase.Renaming? && s.phase.i < WAL_MAX_ARCHIVE - 1 ==> s.files[s.phase.i + 1].None?)
    && (s.phase.Creating? ==> s.files[0].None?)
    && Aged(s) && Kept(s)
  }

  lemma SuffixOfSuffix(h: seq<Record>, a: seq<Record>, b: seq<Record>)
    requires EndOf(a + b, h)
    ensures EndOf(b, h)
  {
    assert b == (a + b)[|a|..];
  }

  lemma EndGrows(a: seq<Record>, h: seq<Record>, r: Record)
    requires EndOf(a, h)
    ensures EndOf(a + [r], h + [r])
  {
    var g := h + [r];
    assert g[|g| - |a| - 1..] == h[|h| - |a|..] + [r];
  }

  lemma RenameStep(s: Log)
    requires Inv(s) && s.phase.Renaming?
    ensures Inv(Apply(s, RenameNext))
  {
    var i := s.phase.i;
    if s.files[i].Some? && s.files[i + 1].Some? {
      RenameDrops(s.files);
      SuffixOfSuffix(s.history, Content(s.files[WAL_MAX_ARCHIVE]), Read(Rename(s.files, i)));
    } else {
      RenameKeeps(s.files, i, |s.files|);
    }
  }

  lemma AppendStep(s: Log, r: Record)
    requires Inv(s) && s.phase.Idle?
    ensures Inv(Apply(s, Append(r)))
  {
    ReadAppend(s.files, |s.files|, r);
    EndGrows(Read(s.files), s.history, r);
  }

  lemma CreateStep(s: Log)
    requires Inv(s) && s.phase.Creating?
    ensures Inv(Apply(s, Create))
  {
    CreateKeeps(s.files, |s.files|);
  }

  lemma {:induction false} CreateKeeps(files: seq<File>, n: nat)
    requires 0 < n <= |files| && files[0].None?
    ensures ReadDown(files[0 := Some([])], n) == ReadDown(files, n)
  {
    if n > 1 {
      CreateKeeps(files, n - 1);
    }
  }

  lemma InvStep(s: Log, a: Step)
    requires Inv(s) && Enabled(s, a)
    ensures Inv(Apply(s, a))
  {
    match a
    case Append(r) => AppendStep(s, r);
    case RenameNext => RenameStep(s);
    case Create => CreateStep(s);
    case Crash =>
  }

  lemma {:induction false} FreshRead(n: nat)
    requires n <= WAL_MAX_ARCHIVE + 1
    ensures ReadDown(Fresh().files, n) == []
  {
    if n > 0 {
      FreshRead(n - 1);
    }
  }

  /** In every run of appends, rotations and crashes, at every point between two renames, reading
      the archives and the log gives the end of the history, and all of it until more than 4096
      rotations have begun. */
  lemma {:induction false} RotationIsSafe(run: seq<Log>, i: nat)
    requires IsRun(run) && i < |run|
    ensures Inv(run[i]) && EndOf(Read(run[i].files), run[i].history)
    ensures run[i].started <= 4096 ==> Read(run[i].files) == run[i].history
  {
    if i == 0 {
      FreshRead(WAL_MAX_ARCHIVE + 1);
    } else {
      RotationIsSafe(run, i - 1);
      assert Next(run[i - 1], run[i - 1 + 1]);
      var a :| Enabled(run[i - 1], a) && run[i] == Apply(run[i - 1], a);
      InvStep(run[i - 1], a);
    }
  }

  // ---------------------------------------------------------------- when a rotation begins

  /** The number of characters of the current log. */
  function CurrentSize(s: Log): nat {
    if |s.files| > 0 then |Print(Content(s.files[0]))| else 0
  }

  lemma {:induction false} PrintSnoc(rs: seq<Record>, r: Record)
    ensures Print(rs + [r]) == Print(rs) + Line(r)
  {
    if |rs| == 0 {
      assert rs + [r] == [r] && [r][1..] == [];
    } else {
      assert (rs + [r])[0] == rs[0] && (rs + [r])[1..] == rs[1..] + [r];
      PrintSnoc(rs[1..], r);
    }
  }

  /** Every rotation but those cut short by a crash has put more than 10 MB of text into an archive. */
  predicate Filled(s: Log) {
    && (s.phase.Renaming? ==> (s.started - s.crashes - 1) * 10_485_760 + CurrentSize(s) <= |Print(s.history)| && CurrentSize(s) > 10_485_760)
    && (!s.phase.Renaming? ==> (s.started - s.crashes) * 10_485_760 + CurrentSize(s) <= |Print(s.history)|)
  }

  lemma FilledStep(s: Log, a: Step)
    requires Inv(s) && Enabled(s, a) && Filled(s)
    ensures Filled(Apply(s, a))
  {
    if a.Append? {
      PrintSnoc(s.history, a.r);
      PrintSnoc(Content(s.files[0]), a.r);
    }
  }

  /** A rotation begins exactly when an append takes the current log beyond 10 MB. */
  lemma RotationBegins(s: Log, a: Step)
    requires Enabled(s, a)
    ensures Apply(s, a).started == s.started + (if a.Append? && CurrentSize(s) + |Line(a.r)| > 10_485_760 then 1 else 0)
  {
    if a.Append? {
      PrintSnoc(Content(s.files[0]), a.r);
    }
  }

  lemma {:induction false} StaysFilled(run: seq<Log>, i: nat)
    requires IsRun(run) && i < |run|
    ensures Filled(run[i])
  {
    if i > 0 {
      StaysFilled(run, i - 1);
      RotationIsSafe(run, i - 1);
      assert Next(run[i - 1], run[i - 1 + 1]);
      var a :| Enabled(run[i - 1], a) && run[i] == Apply(run[i - 1], a);
      FilledStep(run[i - 1], a);
    }
  }

  /** In every run, rotations need text: 10 MB each, one deducted for each crash. */
  lemma RotationsNeedText(run: seq<Log>, i: nat)
    requires IsRun(run) && i < |run|
    ensures (run[i].started - run[i].crashes) * 10_485_760 <= |Print(run[i].history)|
  {
    StaysFilled(run, i);
  }

  /** Nothing is lost, and everything is read back in order, as long as the text ever written, with 10 MB
      added for each crash, is at most 4096 times 10 MB. */
  lemma NothingLost(run: seq<Log>, i: nat)
    requires IsRun(run) && i < |run|
    requires |Print(run[i].history)| + run[i].crashes * 10_485_760 <= 4096 * 10_485_760
    ensures Read(run[i].files) == run[i].history
  {
    RotationsNeedText(run, i);
    RotationIsSafe(run, i);
  }
}
