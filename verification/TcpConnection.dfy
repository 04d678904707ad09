/** A connection as an object over its output buffer.  Every method is proved to act on
 *  the connection as the function of module `TcpSpec` with its name.
 */
module TcpConnection {
  import opened Common
  import opened Buffers
  import TcpSpec

  class Connection {
    var state: TcpSpec.State
    var reading: bool
    var writing: bool
    const outputBuffer: Buffer
    const settings: TcpSpec.Settings
    var queued: seq<TcpSpec.Callback>
    // What has happened to the socket.
    ghost var accepted: string
    ghost var wire: string
    ghost var shutdowns: nat
    ghost var hasty: bool
    ghost var late: bool

    ghost predicate Valid()
      reads this, outputBuffer
    {
      outputBuffer.Valid()
    }

    ghost function View(): TcpSpec.Conn
      reads this, outputBuffer
      requires Valid()
    {
      TcpSpec.Conn(state, reading, writing, outputBuffer.Contents(), queued, accepted, wire, shutdowns, hasty, late)
    }

    /** The buffer has room for this many bytes, or makes it (`Buffers.RoomExactly`). */
    ghost predicate CanKeep(n: nat)
      reads this, outputBuffer
      requires Valid()
    {
      n < SIZE_T && outputBuffer.Accepts(n)
    }

    /** How much of the data a send leaves to the buffer. */
    ghost function Kept(n: nat, outcome: TcpSpec.Outcome): nat
      reads this, outputBuffer
      requires Valid()
    {
      if state == TcpSpec.Disconnected then 0
      else if !writing && outputBuffer.Contents() == "" then
        match outcome
        case Wrote(m) => if m <= n then n - m else 0
        case Broken => 0
        case _ => n
      else n
    }

    constructor (settings: TcpSpec.Settings)
      ensures Valid() && View() == TcpSpec.FRESH && this.settings == settings && fresh(outputBuffer)
    {
      state, reading, writing := TcpSpec.Connecting, false, false;
      outputBuffer := new Buffer(INITIAL_SIZE);
      this.settings, queued := settings, [];
      accepted, wire, shutdowns, hasty, late := "", "", 0, false, false;
    }

    /** What a write that takes `data` does to the socket. */
    ghost method Transmit(data: string)
      requires Valid()
      modifies `wire, `late
      ensures Valid() && View() == TcpSpec.Transmit(old(View()), data)
    {
      wire := wire + data;
      late := late || (data != "" && shutdowns > 0);
    }

    method Complete()
      requires Valid()
      modifies `queued
      ensures Valid() && View() == TcpSpec.Complete(old(View()), settings)
    {
      if settings.onComplete {
        queued := queued + [TcpSpec.WriteComplete];
      }
    }

    /** The second half of `sendInLoop`. */
    method Enqueue(remaining: string)
      requires Valid() && CanKeep(|remaining|)
      modifies `queued, `writing, outputBuffer
      ensures Valid() && View() == TcpSpec.Enqueue(old(View()), settings, remaining)
    {
      if |remaining| > 0 {
        var oldLen := outputBuffer.ReadableBytes();
        if oldLen + |remaining| >= settings.mark && oldLen < settings.mark && settings.onHighWater {
          queued := queued + [TcpSpec.HighWater(oldLen + |remaining|)];
        }
        outputBuffer.Append(remaining);
        if !writing {
          writing := true;
        }
      }
    }

    method SendInLoop(data: string, outcome: TcpSpec.Outcome)
      requires Valid() && CanKeep(Kept(|data|, outcome)) && (outcome.Wrote? ==> outcome.n <= |data|)
      modifies `queued, `writing, `accepted, `wire, `late, outputBuffer
      ensures Valid() && View() == TcpSpec.SendInLoop(old(View()), settings, data, outcome)
    {
      if state == TcpSpec.Disconnected {
        return;
      }
      hide TcpSpec.Enqueue, TcpSpec.Transmit, TcpSpec.Complete;
      var nwrote := 0;
      var faultError := false;
      if !writing && outputBuffer.ReadableBytes() == 0 {
        if outcome.Wrote? {
          nwrote := outcome.n;
          Accept(data);
          WriteAtOnce(data, nwrote);
        } else if outcome.Broken? {
          faultError := true;
        } else {
          Accept(data);
        }
      } else {
        Accept(data);
      }
      if !faultError {
        assert nwrote == 0 ==> data[nwrote..] == data;
        Enqueue(data[nwrote..]);
      }
    }

    /** The connection takes responsibility for the data. */
    ghost method Accept(data: string)
      requires Valid()
      modifies `accepted
      ensures Valid() && View() == old(View()).(accepted := old(View()).accepted + data)
    {
      accepted := accepted + data;
    }

    /** The socket takes the first bytes at once. */
    method WriteAtOnce(data: string, n: nat)
      requires Valid() && n <= |data|
      modifies `queued, `wire, `late
      ensures Valid() && outputBuffer.Valid()
      ensures var c := TcpSpec.Transmit(old(View()), data[..n]);
        View() == if n == |data| then TcpSpec.Complete(c, settings) else c
    {
      Transmit(data[..n]);
      if n == |data| {
        Complete();
      }
    }

    method Send(data: string, outcome: TcpSpec.Outcome)
      requires Valid() && CanKeep(Kept(|data|, outcome)) && (outcome.Wrote? ==> outcome.n <= |data|)
      modifies `queued, `writing, `accepted, `wire, `late, outputBuffer
      ensures Valid() && View() == TcpSpec.Send(old(View()), settings, data, outcome)
    {
      if state == TcpSpec.Connected {
        SendInLoop(data, outcome);
      }
    }

    /** `send` of a buffer, which is emptied if the connection takes its bytes. */
    method SendBuffer(buf: Buffer, outcome: TcpSpec.Outcome)
      requires Valid() && buf != outputBuffer && buf.Valid() && CanKeep(Kept(buf.ReadableBytes(), outcome))
      requires outcome.Wrote? ==> outcome.n <= buf.ReadableBytes()
      modifies `queued, `writing, `accepted, `wire, `late, outputBuffer, buf`readerIndex, buf`writerIndex
      ensures Valid() && View() == TcpSpec.Send(old(View()), settings, old(buf.Contents()), outcome)
      ensures buf.Valid() && buf.Contents() == if state == TcpSpec.Connected then "" else old(buf.Contents())
    {
      if state == TcpSpec.Connected {
        SendInLoop(buf.Contents(), outcome);
        buf.RetrieveAll();
      }
    }

    method ShutdownInLoop()
      requires Valid()
      modifies `shutdowns, `hasty
      ensures Valid() && View() == TcpSpec.ShutdownInLoop(old(View()))
    {
      if !writing {
        hasty := hasty || outputBuffer.Contents() != "";
        shutdowns := shutdowns + 1;
      }
    }

    method Shutdown()
      requires Valid()
      modifies `state, `shutdowns, `hasty
      ensures Valid() && View() == TcpSpec.Shutdown(old(View()))
    {
      if state == TcpSpec.Connected {
        state := TcpSpec.Disconnecting;
        ShutdownInLoop();
      }
    }

    method HandleWrite(outcome: TcpSpec.Outcome)
      requires Valid() && (outcome.Wrote? ==> outcome.n <= outputBuffer.ReadableBytes())
      modifies `queued, `writing, `wire, `late, `shutdowns, `hasty, outputBuffer`readerIndex, outputBuffer`writerIndex
      ensures Valid() && View() == TcpSpec.HandleWrite(old(View()), settings, outcome)
    {
      if writing {
        var n := if outcome.Wrote? then outcome.n else -1;
        if n > 0 {
          Transmit(outputBuffer.Contents()[..n]);
          outputBuffer.Retrieve(n);
          if outputBuffer.ReadableBytes() == 0 {
            writing := false;
            Complete();
            if state == TcpSpec.Disconnecting {
              ShutdownInLoop();
            }
          }
        }
      }
    }

    method HandleClose()
      requires Valid()
      modifies `state, `reading, `writing
      ensures Valid() && View() == TcpSpec.HandleClose(old(View()))
    {
      state := TcpSpec.Disconnected;
      reading, writing := false, false;
    }

    method ConnectEstablished()
      requires Valid()
      modifies `state, `reading
      ensures Valid() && View() == TcpSpec.ConnectEstablished(old(View()))
    {
      state := TcpSpec.Connected;
      reading := true;
    }

    method ConnectDestroyed()
      requires Valid()
      modifies `state, `reading, `writing
      ensures Valid() && View() == TcpSpec.ConnectDestroyed(old(View()))
    {
      if state == TcpSpec.Connected {
        state := TcpSpec.Disconnected;
        reading, writing := false, false;
      }
    }
  }
}
