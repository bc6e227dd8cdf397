/** What the engines hold and answer, told by the history of commands alone. */
module Histories {
  import opened Engines

  /** The SETs and MODs of `k` since its last DEL; what is bound before counts as a SET. */
  function Writes(b: map<string, string>, cs: seq<Command>, k: string): seq<Command> {
    if |cs| == 0 then (if k in b then [Set(k, b[k])] else [])
    else
      var ws, c := Writes(b, cs[..|cs| - 1], k), cs[|cs| - 1];
      if c.Del? && c.key == k then []
      else if (c.Set? || c.Mod?) && c.key == k then ws + [c]
      else ws
  }

  predicate AllWrites(ws: seq<Command>) {
    forall i :: 0 <= i < |ws| ==> ws[i].Set? || ws[i].Mod?
  }

  /** The position of the first SET, or the length. */
  function FirstSet(ws: seq<Command>): (n: nat)
    ensures n <= |ws| && (n < |ws| ==> ws[n].Set?) && forall i :: 0 <= i < n ==> !ws[i].Set?
  {
    if |ws| == 0 || ws[0].Set? then 0 else 1 + FirstSet(ws[1..])
  }

  /** The value of the last MOD, or of the first write if there is none. */
  function LastMod(ws: seq<Command>): string
    requires |ws| > 0 && AllWrites(ws)
  {
    var n := |ws| - 1;
    if n == 0 || ws[n].Mod? then ws[n].val else LastMod(ws[..n])
  }

  lemma {:induction false} WritesAreWrites(b: map<string, string>, cs: seq<Command>, k: string)
    ensures AllWrites(Writes(b, cs, k))
  {
    if |cs| > 0 {
      WritesAreWrites(b, cs[..|cs| - 1], k);
    }
  }

  lemma {:induction false} FirstSetSnoc(ws: seq<Command>, c: Command)
    ensures FirstSet(ws + [c]) == if FirstSet(ws) < |ws| || c.Set? then FirstSet(ws) else |ws| + 1
  {
    var all := ws + [c];
    if |ws| > 0 && !ws[0].Set? {
      assert all[1..] == ws[1..] + [c];
      FirstSetSnoc(ws[1..], c);
    } else if |ws| == 0 {
      assert all[1..] == [];
    }
  }

  /** The value the live tree holds, by the writes to its key. */
  function Held(ws: seq<Command>): Option<string>
    requires AllWrites(ws)
  {
    if FirstSet(ws) == |ws| then None else Some(LastMod(ws[FirstSet(ws)..]))
  }

  lemma HeldSnoc(ws: seq<Command>, c: Command)
    requires AllWrites(ws) && (c.Set? || c.Mod?)
    ensures Held(ws + [c]) == if c.Set? == Held(ws).None? then Some(c.val) else Held(ws)
  {
    var all, f := ws + [c], FirstSet(ws);
    FirstSetSnoc(ws, c);
    assert FirstSet(all) < |all| ==> all[FirstSet(all)..] == ws[f..] + [c];
    assert (ws[f..] + [c])[..|ws| - f] == ws[f..];
  }

  lemma {:induction false} TreeHolds(s: Store, cs: seq<Command>, k: string)
    ensures AllWrites(Writes(s.bindings, cs, k))
    ensures Lookup(TreeFrom(s, cs).bindings, k) == Held(Writes(s.bindings, cs, k))
  {
    WritesAreWrites(s.bindings, cs, k);
    if |cs| > 0 {
      var p, c := cs[..|cs| - 1], cs[|cs| - 1];
      TreeHolds(s, p, k);
      if (c.Set? || c.Mod?) && c.key == k {
        HeldSnoc(Writes(s.bindings, p, k), c);
      }
    }
  }

  /** `k` is present: there is a SET since its last DEL. */
  predicate Present(b: map<string, string>, cs: seq<Command>, k: string) {
    FirstSet(Writes(b, cs, k)) < |Writes(b, cs, k)|
  }

  /** What the hash table holds: the last write, if a SET makes it count. */
  lemma {:induction false} HashHolds(s: Store, cs: seq<Command>, k: string)
    ensures var ws := Writes(s.bindings, cs, k);
      AllWrites(ws) && Lookup(HashFrom(s, cs).bindings, k) == if FirstSet(ws) == |ws| then None else Some(ws[|ws| - 1].val)
  {
    WritesAreWrites(s.bindings, cs, k);
    if |cs| > 0 {
      var p, c := cs[..|cs| - 1], cs[|cs| - 1];
      HashHolds(s, p, k);
      if (c.Set? || c.Mod?) && c.key == k {
        FirstSetSnoc(Writes(s.bindings, p, k), c);
      }
    }
  }

  lemma PresentKey(s: Store, cs: seq<Command>, k: string)
    ensures k in KeysFrom(s.bindings.Keys, cs) <==> Present(s.bindings, cs, k)
    ensures k in HashFrom(s, cs).bindings <==> Present(s.bindings, cs, k)
    ensures k in TreeFrom(s, cs).bindings <==> Present(s.bindings, cs, k)
  {
    KeysAfter(s, cs);
    HashHolds(s, cs, k);
  }

  /** What the hash engine answers after a history. */
  lemma HashAnswers(s: Store, cs: seq<Command>, c: Command)
    ensures var r := HashStep(HashFrom(s, cs), c).1;
      && (c.Set? ==> r == Status(0))
      && (c.Del? || c.Mod? ==> r == Status(if Present(s.bindings, cs, c.key) then 0 else -1))
      && (c.Get? ==> var ws := Writes(s.bindings, cs, c.key);
          AllWrites(ws) && r == Found(if FirstSet(ws) == |ws| then None else Some(ws[|ws| - 1].val)))
      && (c.Count? ==> r == Number(|KeysFrom(s.bindings.Keys, cs)| + s.count - |s.bindings|))
  {
    if !c.Count? {
      PresentKey(s, cs, c.key);
      HashHolds(s, cs, c.key);
    } else {
      CountsAfter(s, cs);
      KeysAfter(s, cs);
      assert |HashFrom(s, cs).bindings.Keys| == |HashFrom(s, cs).bindings|;
    }
  }

  /** What the tree engine answers after a history. */
  lemma TreeAnswers(s: Store, cs: seq<Command>, c: Command)
    ensures var r := TreeStep(TreeFrom(s, cs), c).1;
      && (c.Set? ==> r == Status(0))
      && (c.Del? || c.Mod? ==> r == Status(if Present(s.bindings, cs, c.key) then 0 else -1))
      && (c.Get? ==> var ws := Writes(s.bindings, cs, c.key);
          AllWrites(ws) && r == Found(if FirstSet(ws) == |ws| then None else Some(LastMod(ws[FirstSet(ws)..]))))
      && (c.Count? ==> r == Number(|KeysFrom(s.bindings.Keys, cs)| + OverwritesFrom(s.bindings.Keys, cs) + s.count - |s.bindings|))
  {
    if !c.Count? {
      PresentKey(s, cs, c.key);
      TreeHolds(s, cs, c.key);
    } else {
      CountsAfter(s, cs);
      KeysAfter(s, cs);
      assert |TreeFrom(s, cs).bindings.Keys| == |TreeFrom(s, cs).bindings|;
    }
  }
}
