/** The two storage engines as transition systems over a map and a counter, and how their
answers compare over whole histories of commands. */
module Engines {
  datatype Option<+T> = None | Some(value: T)

  datatype Command = Set(key: string, val: string) | Get(key: string) | Del(key: string)
                   | Mod(key: string, val: string) | Count

  /** `Status` is the return code of a writing call, `Found` the pointer returned by a lookup. */
  datatype Reply = Status(code: int) | Found(value: Option<string>) | Number(n: int)

  datatype Store = Store(bindings: map<string, string>, count: int)

  const EMPTY := Store(map[], 0)

  function Lookup(m: map<string, string>, k: string): Option<string> {
    if k in m then Some(m[k]) else None
  }

  function Delete(s: Store, k: string): (Store, Reply) {
    if k in s.bindings then (Store(s.bindings - {k}, s.count - 1), Status(0)) else (s, Status(-1))
  }

  function Modify(s: Store, k: string, v: string): (Store, Reply) {
    if k in s.bindings then (s.(bindings := s.bindings[k := v]), Status(0)) else (s, Status(-1))
  }

  /** The red-black engine: a SET of a present key changes no binding, yet it is counted. */
  function TreeStep(s: Store, c: Command): (Store, Reply) {
    match c
    case Set(k, v) => (Store(if k in s.bindings then s.bindings else s.bindings[k := v], s.count + 1), Status(0))
    case Get(k) => (s, Found(Lookup(s.bindings, k)))
    case Del(k) => Delete(s, k)
    case Mod(k, v) => Modify(s, k, v)
    case Count => (s, Number(s.count))
  }

  /** The hash engine: a SET of a present key overwrites its value. */
  function HashStep(s: Store, c: Command): (Store, Reply) {
    match c
    case Set(k, v) => (Store(s.bindings[k := v], s.count + (if k in s.bindings then 0 else 1)), Status(0))
    case Get(k) => (s, Found(Lookup(s.bindings, k)))
    case Del(k) => Delete(s, k)
    case Mod(k, v) => Modify(s, k, v)
    case Count => (s, Number(s.count))
  }

  /** The engines after a history of commands, from a given state. */
  function TreeFrom(s: Store, cs: seq<Command>): Store {
    if |cs| == 0 then s else TreeStep(TreeFrom(s, cs[..|cs| - 1]), cs[|cs| - 1]).0
  }

  function HashFrom(s: Store, cs: seq<Command>): Store {
    if |cs| == 0 then s else HashStep(HashFrom(s, cs[..|cs| - 1]), cs[|cs| - 1]).0
  }

  function TreeRun(cs: seq<Command>): Store {
    TreeFrom(EMPTY, cs)
  }

  function HashRun(cs: seq<Command>): Store {
    HashFrom(EMPTY, cs)
  }

  /** What each engine answers to the command at position `i` of a history. */
  function TreeReply(cs: seq<Command>, i: nat): Reply
    requires i < |cs|
  {
    TreeStep(TreeRun(cs[..i]), cs[i]).1
  }

  function HashReply(cs: seq<Command>, i: nat): Reply
    requires i < |cs|
  {
    HashStep(HashRun(cs[..i]), cs[i]).1
  }

  /** The keys present after a history, whichever engine runs it, if `ks` are present before. */
  function KeysFrom(ks: set<string>, cs: seq<Command>): set<string> {
    if |cs| == 0 then ks else StepKeys(KeysFrom(ks, cs[..|cs| - 1]), cs[|cs| - 1])
  }

  function PresentKeys(cs: seq<Command>): set<string> {
    KeysFrom({}, cs)
  }

  /** How many SETs of a history name a key that is present at that moment, if `ks` are present before. */
  function OverwritesFrom(ks: set<string>, cs: seq<Command>): nat {
    if |cs| == 0 then 0
    else
      var s, c := cs[..|cs| - 1], cs[|cs| - 1];
      OverwritesFrom(ks, s) + (if c.Set? && c.key in KeysFrom(ks, s) then 1 else 0)
  }

  function Overwrites(cs: seq<Command>): nat {
    OverwritesFrom({}, cs)
  }

  lemma SizeAfterInsert(m: map<string, string>, k: string, v: string)
    ensures |m[k := v]| == |m| + (if k in m then 0 else 1)
  {
    assert m[k := v].Keys == m.Keys + {k};
  }

  lemma SizeAfterRemove(m: map<string, string>, k: string)
    requires k in m
    ensures |m - {k}| == |m| - 1
  {
    assert (m - {k}).Keys == m.Keys - {k};
  }

  lemma StepSize(s: Store, c: Command)
    ensures var t := TreeStep(s, c).0;
      t.count - |t.bindings| == s.count - |s.bindings| + (if c.Set? && c.key in s.bindings then 1 else 0)
    ensures var h := HashStep(s, c).0;
      h.count - |h.bindings| == s.count - |s.bindings|
  {
    if c.Set? || c.Mod? {
      SizeAfterInsert(s.bindings, c.key, c.val);
    } else if c.Del? && c.key in s.bindings {
      SizeAfterRemove(s.bindings, c.key);
    }
  }

  function StepKeys(ks: set<string>, c: Command): set<string> {
    if c.Set? then ks + {c.key} else if c.Del? then ks - {c.key} else ks
  }

  lemma StepKeysBoth(s: Store, c: Command)
    ensures TreeStep(s, c).0.bindings.Keys == StepKeys(s.bindings.Keys, c)
    ensures HashStep(s, c).0.bindings.Keys == StepKeys(s.bindings.Keys, c)
  {
  }

  lemma {:induction false} KeysAfter(s: Store, cs: seq<Command>)
    ensures TreeFrom(s, cs).bindings.Keys == KeysFrom(s.bindings.Keys, cs)
    ensures HashFrom(s, cs).bindings.Keys == KeysFrom(s.bindings.Keys, cs)
  {
    if |cs| > 0 {
      var p, c := cs[..|cs| - 1], cs[|cs| - 1];
      KeysAfter(s, p);
      StepKeysBoth(TreeFrom(s, p), c);
      StepKeysBoth(HashFrom(s, p), c);
    }
  }

  /** Both engines hold the same keys after every history. */
  lemma KeysOverRuns(cs: seq<Command>)
    ensures TreeRun(cs).bindings.Keys == PresentKeys(cs) && HashRun(cs).bindings.Keys == PresentKeys(cs)
  {
    assert EMPTY.bindings.Keys == {};
    KeysAfter(EMPTY, cs);
  }

  lemma {:induction false} CountsAfter(s: Store, cs: seq<Command>)
    ensures HashFrom(s, cs).count - |HashFrom(s, cs).bindings| == s.count - |s.bindings|
    ensures TreeFrom(s, cs).count - |TreeFrom(s, cs).bindings| == s.count - |s.bindings| + OverwritesFrom(s.bindings.Keys, cs)
  {
    if |cs| > 0 {
      var p, c := cs[..|cs| - 1], cs[|cs| - 1];
      CountsAfter(s, p);
      KeysAfter(s, p);
      StepSize(TreeFrom(s, p), c);
      StepSize(HashFrom(s, p), c);
    }
  }

  /** Over every history the hash engine counts its bindings exactly, and the tree engine's
      counter is ahead by exactly the number of overwriting SETs. */
  lemma CountsOverRuns(cs: seq<Command>)
    ensures HashRun(cs).count == |HashRun(cs).bindings|
    ensures TreeRun(cs).count == |TreeRun(cs).bindings| + Overwrites(cs)
  {
    assert EMPTY.bindings.Keys == {};
    CountsAfter(EMPTY, cs);
  }

  /** The engines end in the same state exactly when no SET of the history overwrites. */
  lemma {:induction false} EnginesAgree(cs: seq<Command>)
    ensures TreeRun(cs) == HashRun(cs) <==> Overwrites(cs) == 0
  {
    CountsOverRuns(cs);
    KeysOverRuns(cs);
    assert |TreeRun(cs).bindings.Keys| == |HashRun(cs).bindings.Keys|;
    if Overwrites(cs) == 0 && |cs| > 0 {
      var s := cs[..|cs| - 1];
      KeysOverRuns(s);
      EnginesAgree(s);
    }
  }

  lemma {:induction false} OverwritesMonotone(cs: seq<Command>, i: nat)
    requires i <= |cs|
    ensures Overwrites(cs[..i]) <= Overwrites(cs)
    decreases |cs|
  {
    if i < |cs| {
      assert cs[..|cs| - 1][..i] == cs[..i];
      OverwritesMonotone(cs[..|cs| - 1], i);
    } else {
      assert cs[..i] == cs;
    }
  }

  /** On a history without overwriting SETs every command is answered alike. */
  lemma AnswersAgree(cs: seq<Command>, i: nat)
    requires Overwrites(cs) == 0 && i < |cs|
    ensures TreeReply(cs, i) == HashReply(cs, i)
  {
    OverwritesMonotone(cs, i);
    EnginesAgree(cs[..i]);
  }

  /** An overwriting SET is visible to the next COUNT, and for ever after. */
  lemma CountDiffers(cs: seq<Command>)
    ensures TreeReply(cs + [Count], |cs|) == HashReply(cs + [Count], |cs|) <==> Overwrites(cs) == 0
  {
    assert (cs + [Count])[..|cs|] == cs;
    CountsOverRuns(cs);
    KeysOverRuns(cs);
    assert |TreeRun(cs).bindings.Keys| == |HashRun(cs).bindings.Keys|;
  }
}
