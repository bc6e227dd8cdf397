/** `Kmuduo/TcpConnection.cc` over its two buffers: every handler does what `TcpStream.After` says.

System calls become parameters: the answer of a write, the bytes a read finds waiting. */
module TcpConnections {
  import opened Buffers
  import opened TcpStream

  class TcpConnection {
    var state: State
    var writing: bool
    var halfClosed: bool
    var closing: nat
    const output: Buffer
    const input: Buffer
    ghost var accepted: seq<Byte>
    ghost var consumed: seq<Byte>

    ghost predicate Valid()
      reads this, output, input
    {
      output != input && output.Valid() && input.Valid() && output.data != input.data
    }

    ghost function Stream(): Conn
      requires Valid()
      reads this, output, input, output.data, input.data
    {
      Conn(state, writing, halfClosed, closing, output.Contents(), accepted, input.Contents(), consumed)
    }

    constructor ()
      ensures Valid() && Stream() == Opened()
      ensures fresh(output) && fresh(input) && fresh(output.data) && fresh(input.data)
    {
      state, writing, halfClosed, closing := Connecting, false, false, 0;
      var a := new Buffer();
      var b := new Buffer();
      output, input := a, b;
      accepted, consumed := [], [];
    }

    method ConnectionEstablished()
      requires Valid()
      modifies this`state
      ensures Valid() && Stream() == After(old(Stream()), Establish)
    {
      state := Connected;
    }

    method Send(message: seq<Byte>, answer: Answer)
      requires Valid()
      modifies this, output, output.data
      ensures Valid() && Stream() == After(old(Stream()), TcpStream.Send(message, answer))
      ensures output.data != old(output.data) ==> fresh(output.data)
    {
      if state == Connected {
        SendInLoop(message, answer);
      }
    }

    /** The direct write of a message, tried only when nothing waits. */
    method WriteDirect(message: seq<Byte>, answer: Answer) returns (nwrote: nat, faultError: bool)
      modifies this`accepted
      ensures nwrote == Count(answer, |message|) && faultError == answer.PeerGone?
      ensures accepted == old(accepted) + message[..nwrote]
    {
      nwrote, faultError := 0, false;
      match answer {
        case Took(_) => nwrote := Count(answer, |message|);
        case WouldBlock =>
        case PeerGone => faultError := true;
        case OtherError =>
      }
      accepted := accepted + message[..nwrote];
    }

    /** Leaves bytes in the output buffer and asks for write events. */
    method Postpone(rest: seq<Byte>)
      requires Valid() && rest != []
      modifies this`writing, output, output.data
      ensures Valid() && Stream() == old(Stream()).(output := old(output.Contents()) + rest, writing := true)
      ensures output.data != old(output.data) ==> fresh(output.data)
    {
      output.Append(rest);
      if !writing {
        writing := true;
      }
    }

    static lemma WholeMessage(message: seq<Byte>, accepted: seq<Byte>, output: seq<Byte>)
      ensures message[..0] == [] && message[0..] == message && accepted + [] == accepted
      ensures output + message[|message|..] == output
    {
    }

    method SendInLoop(message: seq<Byte>, answer: Answer)
      requires Valid()
      modifies this, output, output.data
      ensures Valid() && Stream() == AfterSendInLoop(old(Stream()), message, answer)
      ensures output.data != old(output.data) ==> fresh(output.data)
    {
      if state == Disconnected {
        return;
      }
      ghost var c := Stream();
      var nwrote, faultError := 0, false;
      if !writing && output.Readable() == 0 {
        nwrote, faultError := WriteDirect(message, answer);
      }
      WholeMessage(message, c.accepted, c.output);
      assert Stream() == c.(accepted := c.accepted + message[..nwrote]);
      if !faultError && |message| - nwrote > 0 {
        Postpone(message[nwrote..]);
      }
    }

    method ShutdownInLoop()
      requires Valid()
      modifies this`halfClosed
      ensures Valid() && Stream() == TcpStream.ShutdownInLoop(old(Stream()))
    {
      if !writing {
        halfClosed := true;
      }
    }

    method Shutdown()
      requires Valid()
      modifies this`state, this`halfClosed
      ensures Valid() && Stream() == After(old(Stream()), TcpStream.Shutdown)
    {
      if state == Connected {
        state := Disconnecting;
        ShutdownInLoop();
      }
    }

    /** A shutdown from another thread: its second half goes through the loop's queue. */
    method ShutdownElsewhere()
      requires Valid()
      modifies this`state, this`closing
      ensures Valid() && Stream() == After(old(Stream()), TcpStream.ShutdownElsewhere)
    {
      if state == Connected {
        state := Disconnecting;
        closing := closing + 1;
      }
    }

    /** The loop runs the second half of a shutdown that another thread has queued. */
    method RunShutdown()
      requires Valid() && closing > 0
      modifies this`closing, this`halfClosed
      ensures Valid() && Stream() == After(old(Stream()), TcpStream.RunShutdown)
    {
      closing := closing - 1;
      ShutdownInLoop();
    }

    method HandleWrite(answer: Answer)
      requires Valid()
      modifies this, output
      ensures Valid() && Stream() == After(old(Stream()), Writable(answer))
    {
      if writing {
        var outcome := if answer.Took? then Moved(Count(answer, output.Readable())) else Failed;
        var n, taken := output.WriteFd(outcome);
        if n > 0 {
          accepted := accepted + taken;
          output.Retrieve(n);
          if state == Disconnecting {
            ShutdownInLoop();
          }
        }
      }
    }

    method HandleClose()
      requires Valid()
      modifies this`state, this`writing
      ensures Valid() && Stream() == After(old(Stream()), Close)
    {
      state, writing := Disconnected, false;
    }

    /** Reads from a socket on which `incoming` waits; `rest` stays there. */
    method HandleRead(incoming: seq<Byte>, outcome: Transfer) returns (rest: seq<Byte>)
      requires Valid() && (outcome.Moved? ==> outcome.n <= |incoming| && outcome.n <= input.ReadLimit())
      modifies this, input, input.data
      ensures Valid()
      ensures outcome.Moved? ==> Stream() == After(old(Stream()), Arrive(incoming[..outcome.n])) && rest == incoming[outcome.n..]
      ensures outcome.Failed? ==> Stream() == After(old(Stream()), ReadFails) && rest == incoming
    {
      var n;
      ghost var was := input.Contents();
      n, rest := input.ReadFd(incoming, outcome);
      Tail(was, incoming, input.Contents(), rest);
      if n == 0 {
        HandleClose();
      }
    }

    static lemma Tail(was: seq<Byte>, incoming: seq<Byte>, now: seq<Byte>, rest: seq<Byte>)
      requires now + rest == was + incoming && |rest| <= |incoming|
      ensures rest == incoming[|incoming| - |rest|..] && now == was + incoming[..|incoming| - |rest|]
    {
      var n := |incoming| - |rest|;
      assert now == (now + rest)[..|was| + n] == was + incoming[..n];
      assert rest == (now + rest)[|was| + n..] == incoming[n..];
    }

    /** The user's message callback takes `len` bytes out of the input buffer. */
    method ConsumeInput(len: nat) returns (s: seq<Byte>)
      requires Valid() && len <= input.Readable()
      modifies this`consumed, input
      ensures Valid() && Stream() == After(old(Stream()), Consume(len))
      ensures s == old(input.Contents()[..len])
    {
      ghost var was := input.Contents();
      s := input.RetrieveAsString(len);
      assert s == (s + input.Contents())[..len] == was[..len];
      assert input.Contents() == (s + input.Contents())[len..] == was[len..];
      consumed := consumed + s;
    }

    method ConnectionDestroyed()
      requires Valid()
      modifies this`state, this`writing
      ensures Valid() && Stream() == After(old(Stream()), Destroy)
    {
      if state == Connected {
        state, writing := Disconnected, false;
      }
    }
  }
}
