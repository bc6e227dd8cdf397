/** The byte streams of one connection of `Kmuduo/TcpConnection.cc`, over every run of its events.

The socket's answers are part of the events; callbacks of the user are further events that follow.
Sends come from the loop thread. */
module TcpStream {
  import opened Buffers

  datatype State = Connecting | Connected | Disconnecting | Disconnected

  /** `writing` is the write interest of the channel, `halfClosed` whether the socket's write side
      was shut down, `closing` how many calls of `shutdownInLoop` other threads have queued. `accepted` and `consumed` are the bytes the socket took and the user read. */
  datatype Conn = Conn(
    state: State, writing: bool, halfClosed: bool, closing: nat,
    output: seq<Byte>, accepted: seq<Byte>,
    input: seq<Byte>, consumed: seq<Byte>)

  /** The answer of a write: bytes taken, no room, the peer is gone, or another error. */
  datatype Answer = Took(n: nat) | WouldBlock | PeerGone | OtherError

  datatype Event =
    | Establish
    | Send(message: seq<Byte>, answer: Answer)
    | Writable(answer: Answer)
    | Arrive(bytes: seq<Byte>)     // a read that returns at least one byte, or 0 at the end of the stream
    | ReadFails
    | Consume(len: nat)
    | Shutdown                     // in the loop thread
    | ShutdownElsewhere            // in another thread, up to queueing its second half
    | RunShutdown                  // the loop runs a queued second half
    | Close
    | Destroy

  /** How many of `len` bytes the socket took. */
  function Count(answer: Answer, len: nat): nat {
    if answer.Took? then Min(answer.n, len) else 0
  }

  /** A send writes directly only if nothing waits and write interest is off. */
  predicate Direct(c: Conn) {
    !c.writing && c.output == []
  }

  function AfterSend(c: Conn, message: seq<Byte>, answer: Answer): Conn {
    if c.state.Connected? then AfterSendInLoop(c, message, answer) else c
  }

  function AfterSendInLoop(c: Conn, message: seq<Byte>, answer: Answer): Conn {
    if c.state.Disconnected? then c
    else if Direct(c) && answer.PeerGone? then c
    else
      var n := if Direct(c) then Count(answer, |message|) else 0;
      c.(accepted := c.accepted + message[..n],
         output := c.output + message[n..],
         writing := c.writing || n < |message|)
  }

  function ShutdownInLoop(c: Conn): Conn {
    if c.writing then c else c.(halfClosed := true)
  }

  function AfterWritable(c: Conn, answer: Answer): Conn {
    var n := Count(answer, |c.output|);
    if !c.writing || n == 0 then c
    else
      var d := c.(accepted := c.accepted + c.output[..n], output := c.output[n..]);
      if c.state.Disconnecting? then ShutdownInLoop(d) else d
  }

  function AfterClose(c: Conn): Conn {
    c.(state := Disconnected, writing := false)
  }

  function After(c: Conn, e: Event): Conn {
    match e
    case Establish => c.(state := Connected)
    case Send(message, answer) => AfterSend(c, message, answer)
    case Writable(answer) => AfterWritable(c, answer)
    case Arrive(bytes) => if bytes == [] then AfterClose(c) else c.(input := c.input + bytes)
    case ReadFails => c
    case Consume(len) =>
      var n := Min(len, |c.input|);
      c.(consumed := c.consumed + c.input[..n], input := c.input[n..])
    case Shutdown => if c.state.Connected? then ShutdownInLoop(c.(state := Disconnecting)) else c
    case ShutdownElsewhere =>
      if c.state.Connected? then c.(state := Disconnecting, closing := c.closing + 1) else c
    case RunShutdown => if c.closing > 0 then ShutdownInLoop(c.(closing := c.closing - 1)) else c
    case Close => AfterClose(c)
    case Destroy => if c.state.Connected? then AfterClose(c) else c
  }

  function Run(c: Conn, es: seq<Event>): Conn
    decreases |es|
  {
    if es == [] then c else Run(After(c, es[0]), es[1..])
  }

  /** A connection is established at most once, before anything else happens to its state. */
  predicate Proper(c: Conn, es: seq<Event>)
    decreases |es|
  {
    es == [] || ((es[0].Establish? ==> c.state.Connecting?) && Proper(After(c, es[0]), es[1..]))
  }

  function Opened(): Conn {
    Conn(Connecting, false, false, 0, [], [], [], [])
  }

  // ---------------------------------------------------------------- the output stream

  /** The message of a send that is neither refused (the connection is not up) nor faulted (the peer
      is gone when the message is written directly). */
  function Kept(c: Conn, e: Event): seq<Byte> {
    if e.Send? && c.state.Connected? && !(Direct(c) && e.answer.PeerGone?) then e.message else []
  }

  function AllKept(c: Conn, es: seq<Event>): seq<Byte>
    decreases |es|
  {
    if es == [] then [] else Kept(c, es[0]) + AllKept(After(c, es[0]), es[1..])
  }

  lemma KeptStep(c: Conn, e: Event)
    ensures After(c, e).accepted + After(c, e).output == c.accepted + c.output + Kept(c, e)
  {
    match e
    case Send(message, answer) =>
      if Direct(c) {
        var n := Count(answer, |message|);
        assert c.accepted + message[..n] + message[n..] == c.accepted + message;
        assert [] + message[n..] == message[n..];
        assert c.accepted + [] + message == c.accepted + message;
      } else {
        assert message[..0] == [] && message[0..] == message;
        assert c.accepted + (c.output + message) == c.accepted + c.output + message;
      }
    case Writable(answer) =>
      var n := Count(answer, |c.output|);
      assert c.accepted + c.output[..n] + c.output[n..] == c.accepted + c.output;
    case _ =>
  }

  /** In every run, the bytes the socket took followed by the bytes still waiting are exactly the
      messages kept, in the order they were sent. */
  lemma {:induction false} StreamOrder(c: Conn, es: seq<Event>)
    ensures Run(c, es).accepted + Run(c, es).output == c.accepted + c.output + AllKept(c, es)
    decreases |es|
  {
    if es == [] {
      assert c.accepted + c.output + [] == c.accepted + c.output;
    } else {
      var d := After(c, es[0]);
      KeptStep(c, es[0]);
      StreamOrder(d, es[1..]);
      assert d.accepted + d.output + AllKept(d, es[1..]) == c.accepted + c.output + (Kept(c, es[0]) + AllKept(d, es[1..]));
    }
  }

  /** Waiting bytes come with write interest as long as the connection is open. */
  predicate Interested(c: Conn) {
    c.output != [] && !c.state.Disconnected? ==> c.writing
  }

  lemma {:induction false} StaysInterested(c: Conn, es: seq<Event>)
    requires Interested(c) && Proper(c, es)
    ensures Interested(Run(c, es))
    decreases |es|
  {
    if es != [] {
      StaysInterested(After(c, es[0]), es[1..]);
    }
  }

  /** If write events that take at least one byte keep coming, everything waiting is written. */
  lemma {:induction false} Drains(c: Conn, counts: seq<nat>)
    requires c.writing && |c.output| <= |counts| && forall i :: 0 <= i < |counts| ==> counts[i] > 0
    ensures Run(c, Writes(counts)).output == [] && Run(c, Writes(counts)).accepted == c.accepted + c.output
    decreases |counts|
  {
    if counts == [] {
      assert c.accepted + c.output == c.accepted;
    } else {
      var e := Writable(Took(counts[0]));
      var d := After(c, e);
      assert Writes(counts)[0] == e && Writes(counts)[1..] == Writes(counts[1..]);
      KeptStep(c, e);
      Drains(d, counts[1..]);
    }
  }

  function Writes(counts: seq<nat>): seq<Event> {
    seq(|counts|, i requires 0 <= i < |counts| => Writable(Took(counts[i])))
  }

  // ---------------------------------------------------------------- the input stream

  function Arrived(es: seq<Event>): seq<Byte> {
    if es == [] then [] else (if es[0].Arrive? then es[0].bytes else []) + Arrived(es[1..])
  }

  /** What the user consumed followed by the input buffer is everything that arrived. */
  lemma {:induction false} InputOrder(c: Conn, es: seq<Event>)
    ensures Run(c, es).consumed + Run(c, es).input == c.consumed + c.input + Arrived(es)
    decreases |es|
  {
    if es == [] {
      assert c.consumed + c.input + [] == c.consumed + c.input;
    } else {
      var e, d := es[0], After(c, es[0]);
      InputOrder(d, es[1..]);
      var bytes := if e.Arrive? then e.bytes else [];
      if e.Consume? {
        var n := Min(e.len, |c.input|);
        assert c.consumed + c.input[..n] + c.input[n..] == c.consumed + c.input;
      } else if e.Arrive? {
        assert c.consumed + (c.input + bytes) == c.consumed + c.input + bytes;
      }
      assert d.consumed + d.input == c.consumed + c.input + bytes;
      assert c.consumed + c.input + bytes + Arrived(es[1..]) == c.consumed + c.input + (bytes + Arrived(es[1..]));
    }
  }

  // ---------------------------------------------------------------- graceful shutdown

  /** The event shuts the write side down: the second half of a shutdown, without write interest. */
  predicate IdleShutdown(c: Conn, e: Event) {
    !c.writing && ((e.Shutdown? && c.state.Connected?) || (e.RunShutdown? && c.closing > 0))
  }

  predicate SomeIdleShutdown(c: Conn, es: seq<Event>)
    decreases |es|
  {
    es != [] && (IdleShutdown(c, es[0]) || SomeIdleShutdown(After(c, es[0]), es[1..]))
  }

  /** The write side is closed exactly in the runs in which the second half of a shutdown finds no write
      interest. Because no write event turns the interest off, one partial send is enough to lose the
      graceful close. */
  lemma {:induction false} HalfClosedByInterest(c: Conn, es: seq<Event>)
    ensures Run(c, es).halfClosed <==> c.halfClosed || SomeIdleShutdown(c, es)
    decreases |es|
  {
    if es != [] {
      HalfClosedByInterest(After(c, es[0]), es[1..]);
    }
  }

  /** Write interest, once there, keeps the write side open for as long as the connection is open. */
  predicate KeptOpen(c: Conn) {
    (!c.halfClosed && c.writing && !c.state.Connecting?) || c.state.Disconnected?
  }

  /** A connection that has had to wait once and is then drained and shut down, from whatever thread, is
      never half closed before it is closed. */
  lemma {:induction false} NeverHalfClosed(c: Conn, es: seq<Event>)
    requires KeptOpen(c) && Proper(c, es)
    ensures KeptOpen(Run(c, es))
    decreases |es|
  {
    if es != [] {
      NeverHalfClosed(After(c, es[0]), es[1..]);
    }
  }

  lemma DrainedYetOpen(message: seq<Byte>)
    requires |message| > 0
    ensures var c := Run(Opened(), [Establish, Send(message, WouldBlock), Writable(Took(|message|)), Shutdown]);
      c.accepted == message && c.output == [] && c.state.Disconnecting? && !c.halfClosed
  {
    var c1 := After(Opened(), Establish);
    var c2 := After(c1, Send(message, WouldBlock));
    assert c2.output == message;
    var c3 := After(c2, Writable(Took(|message|)));
    assert c3.accepted == message;
    var c4 := After(c3, Shutdown);
    var es := [Establish, Send(message, WouldBlock), Writable(Took(|message|)), Shutdown];
    assert Run(Opened(), es) == Run(c1, es[1..]);
    assert Run(c1, es[1..]) == Run(c2, es[1..][1..]);
    assert es[1..][1..] == [Writable(Took(|message|)), Shutdown];
    assert Run(c3, [Shutdown]) == Run(c4, []);
  }

  // ---------------------------------------------------------------- told by the events alone

  /** The state after the events, which no answer of the socket has a part in. */
  function StateAfter(es: seq<Event>): State {
    if es == [] then Connecting
    else
      var s := StateAfter(es[..|es| - 1]);
      match es[|es| - 1]
      case Establish => Connected
      case Shutdown => if s.Connected? then Disconnecting else s
      case ShutdownElsewhere => if s.Connected? then Disconnecting else s
      case Arrive(bytes) => if bytes == [] then Disconnected else s
      case Close => Disconnected
      case Destroy => if s.Connected? then Disconnected else s
      case Send(_, _) => s
      case Writable(_) => s
      case ReadFails => s
      case Consume(_) => s
      case RunShutdown => s
  }

  /** How many second halves of a shutdown are queued. */
  function QueuedAfter(es: seq<Event>): nat {
    if es == [] then 0
    else
      var p, e := es[..|es| - 1], es[|es| - 1];
      if e.ShutdownElsewhere? && StateAfter(p).Connected? then QueuedAfter(p) + 1
      else if e.RunShutdown? && QueuedAfter(p) > 0 then QueuedAfter(p) - 1
      else QueuedAfter(p)
  }

  /** The socket takes the whole message at once. */
  predicate TakenInFull(e: Event)
    requires e.Send?
  {
    e.message == [] || (e.answer.Took? && e.answer.n >= |e.message|)
  }

  /** The event at `i` is a send on a connection that is up, not taken in full, and the peer is there. */
  predicate StalledAt(es: seq<Event>, i: nat)
    requires i < |es|
  {
    es[i].Send? && StateAfter(es[..i]).Connected? && !TakenInFull(es[i]) && !es[i].answer.PeerGone?
  }

  predicate Stalled(es: seq<Event>) {
    exists i :: 0 <= i < |es| && StalledAt(es, i)
  }

  lemma {:induction false} StalledSnoc(p: seq<Event>, e: Event)
    ensures Stalled(p + [e]) <==> Stalled(p) || (e.Send? && StateAfter(p).Connected? && !TakenInFull(e) && !e.answer.PeerGone?)
  {
    var es := p + [e];
    assert es[..|p|] == p && es[|p|] == e;
    assert forall i :: 0 <= i < |p| ==> es[i] == p[i] && es[..i] == p[..i];
    if Stalled(p) {
      var i :| 0 <= i < |p| && StalledAt(p, i);
      assert StalledAt(es, i);
    }
    if Stalled(es) {
      var i :| 0 <= i < |es| && StalledAt(es, i);
      if i < |p| {
        assert StalledAt(p, i);
      }
    }
    if e.Send? && StateAfter(p).Connected? && !TakenInFull(e) && !e.answer.PeerGone? {
      assert StalledAt(es, |p|);
    }
  }

  lemma {:induction false} RunSnoc(c: Conn, p: seq<Event>, e: Event)
    ensures Run(c, p + [e]) == After(Run(c, p), e)
    decreases |p|
  {
    if p == [] {
      assert p + [e] == [e] && [e][1..] == [];
    } else {
      assert (p + [e])[0] == p[0] && (p + [e])[1..] == p[1..] + [e];
      RunSnoc(After(c, p[0]), p[1..], e);
    }
  }

  /** A connection is established at most once, first of all that happens to its state. */
  predicate OnceEstablished(es: seq<Event>) {
    forall i :: 0 <= i < |es| && es[i].Establish? ==> StateAfter(es[..i]).Connecting?
  }

  /** The events decide state, queued shutdowns and write interest; before the first stall nothing waits. */
  ghost predicate Told(c: Conn, es: seq<Event>) {
    && c.state == StateAfter(es) && c.closing == QueuedAfter(es)
    && (c.writing <==> Stalled(es) && !c.state.Disconnected?)
    && (!Stalled(es) ==> c.output == [])
    && (Stalled(es) ==> !c.state.Connecting?)
  }

  lemma ToldStep(c: Conn, p: seq<Event>, e: Event)
    requires Told(c, p) && (e.Establish? ==> c.state.Connecting?)
    ensures Told(After(c, e), p + [e])
  {
    StalledSnoc(p, e);
    assert (p + [e])[..|p|] == p;
  }

  lemma {:induction false} ToldByEvents(es: seq<Event>)
    requires OnceEstablished(es)
    ensures Told(Run(Opened(), es), es)
  {
    if es != [] {
      var p, e := es[..|es| - 1], es[|es| - 1];
      assert es == p + [e];
      assert forall i :: 0 <= i < |p| ==> p[i] == es[i] && p[..i] == es[..i];
      ToldByEvents(p);
      RunSnoc(Opened(), p, e);
      ToldStep(Run(Opened(), p), p, e);
    }
  }

  /** Over every run, there is write interest exactly if some send on the open connection was not taken
      in full (and the peer was there), and the connection has not been closed since. */
  lemma InterestIff(es: seq<Event>)
    requires OnceEstablished(es)
    ensures Run(Opened(), es).writing <==> Stalled(es) && !StateAfter(es).Disconnected?
    ensures Run(Opened(), es).state == StateAfter(es)
  {
    ToldByEvents(es);
  }

  /** The event at `j` is the second half of a shutdown, with no stalled send before it, or after the
      connection was closed. */
  predicate GracefulAt(es: seq<Event>, j: nat)
    requires j < |es|
  {
    var p := es[..j];
    && ((es[j].Shutdown? && StateAfter(p).Connected?) || (es[j].RunShutdown? && QueuedAfter(p) > 0))
    && (!Stalled(p) || StateAfter(p).Disconnected?)
  }

  /** Over every run, the write side is closed exactly if the second half of some shutdown comes before
      any stalled send, or after the connection was closed. */
  lemma {:induction false} HalfClosedIff(es: seq<Event>)
    requires OnceEstablished(es)
    ensures Run(Opened(), es).halfClosed <==> exists j :: 0 <= j < |es| && GracefulAt(es, j)
  {
    if es != [] {
      var p, e := es[..|es| - 1], es[|es| - 1];
      assert es == p + [e];
      assert forall i :: 0 <= i < |p| ==> p[i] == es[i] && p[..i] == es[..i];
      HalfClosedIff(p);
      RunSnoc(Opened(), p, e);
      ToldByEvents(p);
      GracefulSnoc(p, e);
      GracefulStep(Run(Opened(), p), p, e);
    }
  }

  lemma GracefulSnoc(p: seq<Event>, e: Event)
    ensures (exists j :: 0 <= j < |p + [e]| && GracefulAt(p + [e], j)) <==>
            (exists j :: 0 <= j < |p| && GracefulAt(p, j)) || GracefulAt(p + [e], |p|)
  {
    var es := p + [e];
    assert forall i :: 0 <= i < |p| ==> es[i] == p[i] && es[..i] == p[..i];
    assert forall j :: 0 <= j < |p| ==> (GracefulAt(es, j) <==> GracefulAt(p, j));
  }

  lemma GracefulStep(c: Conn, p: seq<Event>, e: Event)
    requires Told(c, p)
    ensures After(c, e).halfClosed <==> c.halfClosed || GracefulAt(p + [e], |p|)
  {
    assert (p + [e])[..|p|] == p;
  }

  /** Messages that the socket takes in full, and then a shutdown, end with the write side closed. */
  lemma TakenThenShutdown(messages: seq<seq<Byte>>)
    ensures Run(Opened(), Establishment(messages) + [Shutdown]).halfClosed
  {
    var p := Establishment(messages);
    var es := p + [Shutdown];
    AllTaken(messages);
    assert es[..|p|] == p;
    assert GracefulAt(es, |p|);
    assert OnceEstablished(es) by {
      assert forall i :: 0 <= i < |p| ==> es[i] == p[i] && es[..i] == p[..i];
    }
    HalfClosedIff(es);
  }

  /** A new connection on which the socket takes every message in full. */
  function Establishment(messages: seq<seq<Byte>>): seq<Event> {
    if messages == [] then [Establish]
    else
      var n := |messages| - 1;
      Establishment(messages[..n]) + [Send(messages[n], Took(|messages[n]|))]
  }

  lemma {:induction false} AllTaken(messages: seq<seq<Byte>>)
    ensures var es := Establishment(messages); OnceEstablished(es) && StateAfter(es).Connected? && !Stalled(es)
  {
    if messages == [] {
      assert [Establish][..0] == [];
    } else {
      var n := |messages| - 1;
      var p, e := Establishment(messages[..n]), Send(messages[n], Took(|messages[n]|));
      AllTaken(messages[..n]);
      StalledSnoc(p, e);
      assert (p + [e])[..|p|] == p;
      assert forall i :: 0 <= i < |p| ==> (p + [e])[i] == p[i] && (p + [e])[..i] == p[..i];
    }
  }

  /** The messages kept, by the events: sent while the connection is up, and not lost to a peer that was
      gone before anything had stalled. */
  function KeptMessages(es: seq<Event>): seq<Byte> {
    if es == [] then []
    else
      var p, e := es[..|es| - 1], es[|es| - 1];
      KeptMessages(p) +
      if e.Send? && StateAfter(p).Connected? && (Stalled(p) || !e.answer.PeerGone?) then e.message else []
  }

  /** Over every run of a new connection, the bytes the socket took followed by those waiting are exactly
      those messages. */
  lemma {:induction false} StreamByEvents(es: seq<Event>)
    requires OnceEstablished(es)
    ensures Run(Opened(), es).accepted + Run(Opened(), es).output == KeptMessages(es)
  {
    if es != [] {
      var p, e := es[..|es| - 1], es[|es| - 1];
      assert es == p + [e];
      assert forall i :: 0 <= i < |p| ==> p[i] == es[i] && p[..i] == es[..i];
      StreamByEvents(p);
      RunSnoc(Opened(), p, e);
      ToldByEvents(p);
      var c := Run(Opened(), p);
      KeptStep(c, e);
      assert Kept(c, e) == if e.Send? && StateAfter(p).Connected? && (Stalled(p) || !e.answer.PeerGone?) then e.message else [];
    }
  }

  /** The user takes what it asks for, as far as there is so much, and what arrives is there to be taken. */
  lemma BytesRead(c: Conn, e: Event)
    ensures e.Consume? ==> var n := if e.len < |c.input| then e.len else |c.input|;
      After(c, e).consumed == c.consumed + c.input[..n] && After(c, e).input == c.input[n..]
    ensures e.Arrive? ==> After(c, e).consumed == c.consumed && After(c, e).input == c.input + e.bytes
    ensures !e.Consume? && !e.Arrive? ==> After(c, e).consumed == c.consumed && After(c, e).input == c.input
  {
    if e.Arrive? && e.bytes == [] {
      assert c.input + [] == c.input;
    }
  }

  /** How many bytes an event moves: a send that finds nothing waiting, or a write event, as many as the
      socket takes, and at most what there is. */
  lemma BytesMoved(c: Conn, e: Event)
    ensures var moved := |After(c, e).accepted| - |c.accepted|;
      && (e.Send? && c.state.Connected? && !c.writing && c.output == [] && e.answer.Took? ==>
          moved == if e.answer.n < |e.message| then e.answer.n else |e.message|)
      && (e.Writable? && c.writing && e.answer.Took? ==>
          moved == if e.answer.n < |c.output| then e.answer.n else |c.output|)
      && ((e.Send? || e.Writable?) && !e.answer.Took? ==> moved == 0)
  {
  }
}
