/** The text of the write-ahead log of `kvstore.c`: how `wal_append` prints a record and how the
`fscanf` of `wal_replay` reads it back. */
module WalText {
  import opened Engines

  /** A logged command; a record without a value is printed without one. */
  datatype Record = Record(cmd: string, key: string, value: Option<string>)

  const CMD_WIDTH: nat := 15
  const KEY_WIDTH: nat := 255
  const VALUE_WIDTH: nat := 255

  predicate IsSpace(c: char) {
    c == ' ' || c == '\t' || c == '\n' || c == '\r' || c as int == 11 || c as int == 12
  }

  // ---------------------------------------------------------------- printing

  /** The line of a record, without its newline. */
  function Text(r: Record): string {
    r.cmd + " " + r.key + (if r.value.Some? then " " + r.value.value else "")
  }

  function Line(r: Record): string {
    Text(r) + "\n"
  }

  function Print(rs: seq<Record>): string {
    if |rs| == 0 then "" else Line(rs[0]) + Print(rs[1..])
  }

  // ---------------------------------------------------------------- scanning

  function SkipSpace(s: string): (r: string)
    ensures |r| <= |s| && (r != "" ==> !IsSpace(r[0]))
  {
    if s != "" && IsSpace(s[0]) then SkipSpace(s[1..]) else s
  }

  /** How many characters `%ns` takes. */
  function WordLength(s: string, n: nat): (k: nat)
    ensures k <= |s| && k <= n && forall i :: 0 <= i < k ==> !IsSpace(s[i])
  {
    if n == 0 || s == "" || IsSpace(s[0]) then 0 else 1 + WordLength(s[1..], n - 1)
  }

  /** How many characters `%n[^\n]` takes. */
  function LineLength(s: string, n: nat): (k: nat)
    ensures k <= |s| && k <= n && forall i :: 0 <= i < k ==> s[i] != '\n'
  {
    if n == 0 || s == "" || s[0] == '\n' then 0 else 1 + LineLength(s[1..], n - 1)
  }

  /** One call of `fscanf`: at least two conversions, or the end of the loop. */
  datatype Scanned = Stop | Item(record: Record, rest: string)

  function Scan(s: string): (r: Scanned)
    ensures r.Item? ==> |r.rest| < |s|
  {
    var a := SkipSpace(s);
    var c := WordLength(a, CMD_WIDTH);
    if c == 0 then Stop else ScanKey(a[..c], a[c..])
  }

  function ScanKey(cmd: string, t: string): (r: Scanned)
    ensures r.Item? ==> |r.rest| <= |t|
  {
    var b := SkipSpace(t);
    var k := WordLength(b, KEY_WIDTH);
    if k == 0 then Stop else ScanValue(cmd, b[..k], b[k..])
  }

  function ScanValue(cmd: string, key: string, t: string): (r: Scanned)
    ensures r.Item? ==> |r.rest| <= |t|
  {
    var d := SkipSpace(t);
    var v := LineLength(d, VALUE_WIDTH);
    if v == 0 then Item(Record(cmd, key, None), d) else Item(Record(cmd, key, Some(d[..v])), d[v..])
  }

  /** The loop around `fscanf`. */
  function Parse(s: string): seq<Record>
    decreases |s|
  {
    var r := Scan(s);
    if r.Stop? then [] else [r.record] + Parse(r.rest)
  }

  // ---------------------------------------------------------------- what fits the format

  /** A word of at most `n` characters. */
  predicate Word(w: string, n: nat) {
    0 < |w| <= n && forall i :: 0 <= i < |w| ==> !IsSpace(w[i])
  }

  /** A value that survives the line format. */
  predicate FitValue(v: string) {
    0 < |v| <= VALUE_WIDTH && !IsSpace(v[0]) && forall i :: 0 <= i < |v| ==> v[i] != '\n'
  }

  predicate Fits(r: Record) {
    Word(r.cmd, CMD_WIDTH) && Word(r.key, KEY_WIDTH) && (r.value.Some? ==> FitValue(r.value.value))
  }

  /** The format in numbers: at most 15 characters of command and 255 of key, none of them the six
      characters of white space, and 1 to 255 characters of value on one line that do not start so. */
  lemma FitsIff(r: Record)
    ensures Fits(r) <==>
      && 1 <= |r.cmd| <= 15 && (forall i :: 0 <= i < |r.cmd| ==> !White(r.cmd[i]))
      && 1 <= |r.key| <= 255 && (forall i :: 0 <= i < |r.key| ==> !White(r.key[i]))
      && (r.value.Some? ==>
          var v := r.value.value; 1 <= |v| <= 255 && !White(v[0]) && forall i :: 0 <= i < |v| ==> v[i] as int != 10)
  {
    assert forall c :: IsSpace(c) <==> White(c);
  }

  predicate White(c: char) {
    9 <= c as int <= 13 || c as int == 32
  }

  lemma {:induction false} WordTaken(w: string, t: string, n: nat)
    requires |w| <= n && (forall i :: 0 <= i < |w| ==> !IsSpace(w[i])) && (t == "" || IsSpace(t[0]))
    ensures WordLength(w + t, n) == |w|
    decreases w
  {
    if w == "" {
      assert w + t == t;
    } else {
      assert (w + t)[1..] == w[1..] + t && (w + t)[0] == w[0];
      WordTaken(w[1..], t, n - 1);
    }
  }

  lemma {:induction false} LineTaken(v: string, t: string, n: nat)
    requires |v| <= n && (forall i :: 0 <= i < |v| ==> v[i] != '\n') && (t == "" || t[0] == '\n')
    ensures LineLength(v + t, n) == |v|
    decreases v
  {
    if v == "" {
      assert v + t == t;
    } else {
      assert (v + t)[1..] == v[1..] + t && (v + t)[0] == v[0];
      LineTaken(v[1..], t, n - 1);
    }
  }

  lemma SpaceSkipped(c: char, s: string)
    requires IsSpace(c)
    ensures SkipSpace([c] + s) == SkipSpace(s)
  {
    assert ([c] + s)[1..] == s;
  }

  lemma NothingToSkip(s: string)
    requires s == "" || !IsSpace(s[0])
    ensures SkipSpace(s) == s
  {
  }

  /** A leading newline does not matter. */
  lemma ParseAfterNewline(s: string)
    ensures Parse("\n" + s) == Parse(s)
  {
    SpaceSkipped('\n', s);
    assert "\n" + s == ['\n'] + s;
    assert Scan("\n" + s) == Scan(s);
  }

  lemma WordRead(w: string, t: string, n: nat)
    requires Word(w, n) && (t == "" || IsSpace(t[0]))
    ensures SkipSpace(w + t) == w + t && WordLength(w + t, n) == |w|
    ensures (w + t)[..|w|] == w && (w + t)[|w|..] == t
  {
    assert (w + t)[0] == w[0];
    NothingToSkip(w + t);
    WordTaken(w, t, n);
  }

  /** Command and key are read back; `t` is what follows the key. */
  lemma ScanWords(cmd: string, key: string, t: string)
    requires Word(cmd, CMD_WIDTH) && Word(key, KEY_WIDTH) && t != "" && IsSpace(t[0])
    ensures Scan(cmd + " " + key + t) == ScanValue(cmd, key, t)
  {
    var u := [' '] + (key + t);
    assert cmd + " " + key + t == cmd + u;
    WordRead(cmd, u, CMD_WIDTH);
    SpaceSkipped(' ', key + t);
    WordRead(key, t, KEY_WIDTH);
  }

  lemma ScanWithValue(r: Record, rest: string)
    requires Fits(r) && r.value.Some?
    ensures Scan(Line(r) + rest) == Item(r, "\n" + rest)
  {
    var v, t := r.value.value, " " + r.value.value + "\n" + rest;
    assert Line(r) + rest == r.cmd + " " + r.key + t;
    ScanWords(r.cmd, r.key, t);
    var d := v + ("\n" + rest);
    assert t == [' '] + d;
    SpaceSkipped(' ', d);
    NothingToSkip(d);
    LineTaken(v, "\n" + rest, VALUE_WIDTH);
    assert d[..|v|] == v && d[|v|..] == "\n" + rest;
  }

  /** A record without a value takes the line after it as its value. */
  lemma ScanWithoutValue(r: Record, rest: string)
    requires Fits(r) && r.value.None? && (rest == "" || !IsSpace(rest[0]))
    ensures var v := LineLength(rest, VALUE_WIDTH);
      Scan(Line(r) + rest) == if rest == "" then Item(r, "") else Item(r.(value := Some(rest[..v])), rest[v..])
  {
    var t := "\n" + rest;
    assert Line(r) + rest == r.cmd + " " + r.key + t;
    ScanWords(r.cmd, r.key, t);
    assert t == ['\n'] + rest;
    SpaceSkipped('\n', rest);
    NothingToSkip(rest);
  }

  lemma PrintStartsWithWord(rs: seq<Record>)
    requires |rs| > 0 && Fits(rs[0])
    ensures Print(rs) != "" && !IsSpace(Print(rs)[0])
  {
    assert Print(rs)[0] == rs[0].cmd[0];
  }

  predicate Fitting(rs: seq<Record>) {
    forall i :: 0 <= i < |rs| ==> Fits(rs[i])
  }

  /** Whatever is read fits the format. */
  lemma {:induction false} ParseFits(s: string)
    ensures Fitting(Parse(s))
    decreases |s|
  {
    var r := Scan(s);
    if r.Item? {
      assert Fits(r.record);
      ParseFits(r.rest);
    }
  }

  // ---------------------------------------------------------------- what is read back

  /** The records read back: one without a value takes the text of the next as its value, and that one
      is lost. */
  function ReadBack(rs: seq<Record>): seq<Record>
    decreases |rs|
  {
    if |rs| == 0 then []
    else if rs[0].value.Some? || |rs| == 1 then [rs[0]] + ReadBack(rs[1..])
    else [rs[0].(value := Some(Text(rs[1])))] + ReadBack(rs[2..])
  }

  /** A record that is taken for a value is not too long for one. */
  predicate Swallowable(rs: seq<Record>) {
    forall i :: 0 < i < |rs| && rs[i - 1].value.None? ==> |Text(rs[i])| <= VALUE_WIDTH
  }

  lemma TextIsValue(r: Record)
    requires Fits(r) && |Text(r)| <= VALUE_WIDTH
    ensures FitValue(Text(r))
  {
    var t, a := Text(r), r.cmd + " " + r.key;
    assert t[0] == r.cmd[0];
    forall i | 0 <= i < |t|
      ensures t[i] != '\n'
    {
      if i < |r.cmd| {
        assert t[i] == r.cmd[i];
      } else if |r.cmd| < i < |a| {
        assert t[i] == r.key[i - |r.cmd| - 1];
      } else if i > |a| {
        assert t[i] == r.value.value[i - |a| - 1];
      }
    }
  }

  lemma PrintedFirst(rs: seq<Record>)
    requires |rs| > 0 && Fits(rs[0]) && rs[0].value.Some?
    ensures Parse(Print(rs)) == [rs[0]] + Parse(Print(rs[1..]))
  {
    ScanWithValue(rs[0], Print(rs[1..]));
    ParseAfterNewline(Print(rs[1..]));
  }

  /** The next record is lost. */
  lemma PrintedSwallowed(rs: seq<Record>)
    requires |rs| > 1 && Fits(rs[0]) && rs[0].value.None? && Fits(rs[1]) && |Text(rs[1])| <= VALUE_WIDTH
    ensures Parse(Print(rs)) == [rs[0].(value := Some(Text(rs[1])))] + Parse(Print(rs[2..]))
  {
    var tail := rs[1..];
    var more, t := Print(tail[1..]), Text(rs[1]);
    assert tail[1..] == rs[2..] && tail[0] == rs[1];
    PrintStartsWithWord(tail);
    TextIsValue(rs[1]);
    assert Print(tail) == t + ("\n" + more);
    ScanWithoutValue(rs[0], Print(tail));
    LineTaken(t, "\n" + more, VALUE_WIDTH);
    assert Print(tail)[..|t|] == t && Print(tail)[|t|..] == "\n" + more;
    ParseAfterNewline(more);
  }

  lemma PrintedAlone(r: Record)
    requires Fits(r)
    ensures Parse(Print([r])) == [r]
  {
    assert Print([r]) == Line(r) + "" by { assert [r][1..] == []; }
    if r.value.Some? {
      ScanWithValue(r, "");
      ParseAfterNewline("");
    } else {
      ScanWithoutValue(r, "");
    }
  }

  /** Printing and reading gives exactly the records not taken for values. */
  lemma {:induction false} ParseIsReadBack(rs: seq<Record>)
    requires Fitting(rs) && Swallowable(rs)
    ensures Parse(Print(rs)) == ReadBack(rs)
    decreases |rs|
  {
    if |rs| == 1 && rs[0].value.None? {
      assert rs == [rs[0]] && rs[1..] == [];
      PrintedAlone(rs[0]);
    } else if |rs| > 0 && rs[0].value.Some? {
      var tail := rs[1..];
      assert forall i :: 0 <= i < |tail| ==> tail[i] == rs[i + 1];
      PrintedFirst(rs);
      ParseIsReadBack(tail);
    } else if |rs| > 1 {
      var tail := rs[2..];
      assert forall i :: 0 <= i < |tail| ==> tail[i] == rs[i + 2];
      PrintedSwallowed(rs);
      ParseIsReadBack(tail);
    }
  }

  /** The last record read back has no value yet, and will take the next. */
  predicate Open(rs: seq<Record>) {
    var got := ReadBack(rs);
    |got| > 0 && got[|got| - 1].value.None?
  }

  /** `r` as the value of the last record of `got`. */
  function Amended(got: seq<Record>, r: Record): seq<Record>
    requires |got| > 0
  {
    got[..|got| - 1] + [got[|got| - 1].(value := Some(Text(r)))]
  }

  /** One more record after those read back: it is taken by the last if that waits for a value. */
  function Extended(got: seq<Record>, r: Record): seq<Record> {
    if |got| > 0 && got[|got| - 1].value.None? then Amended(got, r) else got + [r]
  }

  lemma ExtendedTail(first: Record, got: seq<Record>, r: Record)
    requires first.value.Some?
    ensures Extended([first] + got, r) == [first] + Extended(got, r)
  {
    var all := [first] + got;
    assert |got| > 0 ==> all[|all| - 1] == got[|got| - 1];
  }

  /** The first record read back, and the records that are left. */
  lemma ReadBackFirst(rs: seq<Record>) returns (first: Record, k: nat)
    requires |rs| > 0 && (rs[0].value.Some? || |rs| > 1)
    ensures k <= |rs| && 0 < k && first.value.Some? && forall more :: ReadBack(rs + more) == [first] + ReadBack(rs[k..] + more)
  {
    k := if rs[0].value.Some? then 1 else 2;
    first := if rs[0].value.Some? then rs[0] else rs[0].(value := Some(Text(rs[1])));
    forall more
      ensures ReadBack(rs + more) == [first] + ReadBack(rs[k..] + more)
    {
      assert (rs + more)[k..] == rs[k..] + more;
    }
  }

  /** One more record is either read back, or taken by the last one. */
  lemma ReadBackAppend(rs: seq<Record>, r: Record)
    ensures ReadBack(rs + [r]) == if Open(rs) then Amended(ReadBack(rs), r) else ReadBack(rs) + [r]
  {
    ReadBackExtends(rs, r);
  }

  lemma {:induction false} ReadBackExtends(rs: seq<Record>, r: Record)
    ensures ReadBack(rs + [r]) == Extended(ReadBack(rs), r)
    decreases |rs|
  {
    var all := rs + [r];
    if |rs| == 0 {
      assert all == [r] && all[1..] == [];
    } else if rs[0].value.None? && |rs| == 1 {
      assert all == [rs[0], r] && all[2..] == [] && rs[1..] == [];
    } else {
      var first, k := ReadBackFirst(rs);
      ReadBackExtends(rs[k..], r);
      assert rs + [] == rs && rs[k..] + [] == rs[k..];
      assert ReadBack(rs) == [first] + ReadBack(rs[k..]);
      ExtendedTail(first, ReadBack(rs[k..]), r);
    }
  }

  // ---------------------------------------------------------------- round trip

  /** Every record but the last carries a value. */
  predicate Complete(rs: seq<Record>) {
    forall i :: 0 <= i < |rs| - 1 ==> rs[i].value.Some?
  }

  /** The first record is lost if it has no value and another record follows. */
  lemma PrintedWithoutValue(rs: seq<Record>)
    requires |rs| > 1 && Fits(rs[0]) && rs[0].value.None? && Fits(rs[1])
    ensures |Parse(Print(rs))| > 0 && Parse(Print(rs))[0] != rs[0]
  {
    var tail := rs[1..];
    PrintStartsWithWord(tail);
    ScanWithoutValue(rs[0], Print(tail));
  }

  lemma CompleteTail(rs: seq<Record>)
    requires |rs| > 1 && rs[0].value.Some?
    ensures Complete(rs) <==> Complete(rs[1..])
  {
    var tail := rs[1..];
    assert forall i :: 0 < i < |rs| ==> rs[i] == tail[i - 1];
    assert forall i :: 0 <= i < |tail| ==> tail[i] == rs[i + 1];
  }

  lemma SameHead(r: Record, a: seq<Record>, b: seq<Record>)
    ensures [r] + a == [r] + b <==> a == b
  {
    assert ([r] + a)[1..] == a && ([r] + b)[1..] == b;
  }

  lemma {:induction false} FittingRoundTrip(rs: seq<Record>)
    requires Fitting(rs)
    ensures Parse(Print(rs)) == rs <==> Complete(rs)
  {
    if |rs| == 1 {
      assert rs == [rs[0]];
      PrintedAlone(rs[0]);
    } else if |rs| > 1 {
      var r, tail := rs[0], rs[1..];
      if r.value.None? {
        PrintedWithoutValue(rs);
      } else {
        assert rs == [r] + tail;
        FittingRoundTrip(tail);
        PrintedFirst(rs);
        CompleteTail(rs);
        SameHead(r, Parse(Print(tail)), tail);
      }
    }
  }

  /** Printing a log and reading it back gives the same records exactly when every record fits the
      format and every record but the last carries a value. */
  lemma RoundTrip(rs: seq<Record>)
    ensures Parse(Print(rs)) == rs <==> Fitting(rs) && Complete(rs)
  {
    ParseFits(Print(rs));
    if Fitting(rs) {
      FittingRoundTrip(rs);
    }
  }
}
