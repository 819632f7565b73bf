/** FdChannel and TCPConn as they run, on the byte buffer, each step refining the run-wide
    model of the send path. */
module TcpConns {
  import opened Bytes
  import opened Buffers
  import S = TcpStream

  /** The interest set of a descriptor and its registration with the loop, which is taken to
      succeed. */
  class FdChannel {
    var events: set<S.Interest>
    var attached: bool
    var live: bool  // event_ is allocated

    /** Registered exactly when there is something to wait for. */
    ghost predicate Consistent()
      reads this
    {
      attached <==> events != {}
    }

    constructor (r: bool, w: bool)
      ensures events == (if r then {S.Readable} else {}) + (if w then {S.Writable} else {})
      ensures !attached && live
    {
      events := (if r then {S.Readable} else {}) + (if w then {S.Writable} else {});
      attached, live := false, true;
    }

    method DetachFromLoop()
      requires attached
      modifies `attached
      ensures !attached
    {
      attached := false;
    }

    method AttachToLoop()
      requires live && events != {}
      modifies `attached
      ensures attached
    {
      if attached {
        DetachFromLoop();
      }
      assert !attached;
      attached := true;
    }

    method Update()
      requires live && (events == {} ==> attached)
      modifies `attached
      ensures Consistent()
    {
      if events == {} {
        DetachFromLoop();
      } else {
        AttachToLoop();
      }
    }

    method Enable(i: S.Interest)
      requires live
      modifies `events, `attached
      ensures events == old(events) + {i}
      ensures old(Consistent()) || old(i !in events) ==> Consistent()
    {
      var was := events;
      events := events + {i};
      if events != was {
        Update();
      }
    }

    method Disable(i: S.Interest)
      requires live && (events == {i} ==> attached)
      modifies `events, `attached
      ensures events == old(events) - {i}
      ensures old(Consistent()) || old(i in events) ==> Consistent()
    {
      var was := events;
      events := events - {i};
      if events != was {
        Update();
      }
    }

    method DisableAllEvent()
      requires live && (events != {} ==> attached)
      modifies `events, `attached
      ensures events == {} && (old(Consistent()) ==> !attached)
    {
      if events == {} {
        return;
      }
      events := {};
      Update();
    }

    method Close()
      requires live && !attached
      modifies `live
      ensures !live
    {
      live := false;
    }
  }

  class TcpConn {
    var status: S.Status
    const chan: FdChannel
    const output: Buffer
    var queued: seq<S.Callback>
    var mark: nat
    var wantsComplete: bool
    var wantsHigh: bool
    ghost var wire: bytes      // what the kernel has taken
    ghost var accepted: bytes  // what callers have handed over

    ghost predicate Valid()
      reads this, chan, output
    {
      && output.Valid() && chan.Consistent()
      && (status != S.Disconnected || chan.attached ==> chan.live)
    }

    /** The state of the run-wide model. */
    ghost function View(): S.Conn
      requires Valid()
      reads this, chan, output, output.store
    {
      S.Conn(status, chan.events, chan.attached, !chan.live, output.Contents(), wire, accepted, queued,
             mark, wantsComplete, wantsHigh)
    }

    constructor (highWaterMark: nat, complete: bool, high: bool)
      ensures fresh(chan) && fresh(output) && fresh(output.store)
      ensures Valid() && View() == S.Fresh(highWaterMark, complete, high)
    {
      status, queued := S.Disconnected, [];
      mark, wantsComplete, wantsHigh := highWaterMark, complete, high;
      chan := new FdChannel(false, false);
      output := new Buffer(INITIAL_SIZE, CHEAP_PREPEND_SIZE);
      wire, accepted := [], [];
    }

    method OnAttachedToLoop()
      requires Valid() && S.Can(View(), S.Attach)
      modifies this, chan
      ensures Valid() && View() == S.Do(old(View()), S.Attach)
    {
      status := S.Connected;
      chan.Enable(S.Readable);
    }

    /** Does nothing on a connection that is closed already. */
    method HandleClose()
      requires Valid()
      modifies this, chan
      ensures Valid()
      ensures View() == if S.Open(old(View())) then S.Closed(old(View())) else old(View())
    {
      if status == S.Disconnected {
        return;
      }
      status := S.Disconnecting;
      chan.DisableAllEvent();
      chan.Close();
      status := S.Disconnected;
    }

    method HandleError()
      requires Valid() && chan.live
      modifies this, chan
      ensures Valid() && View() == S.Closed(old(View()))
    {
      status := S.Disconnecting;
      HandleClose();
    }

    /** The peer has shut down its side of an incoming connection. */
    method HalfClose()
      requires Valid() && S.Can(View(), S.StopReading)
      modifies chan
      ensures Valid() && View() == S.Do(old(View()), S.StopReading)
    {
      chan.Disable(S.Readable);
    }

    /** Keeps what the kernel did not take. */
    method Keep(rest: bytes)
      requires Valid() && status != S.Disconnected
      modifies this, chan, output, output.store
      ensures Valid() && View() == S.Keep(old(View()), rest)
      ensures output.store == old(output.store) || fresh(output.store)
    {
      if |rest| > 0 {
        var oldLen := output.Length();
        if oldLen + |rest| >= mark && oldLen < mark && wantsHigh {
          queued := queued + [S.HighWater(oldLen + |rest|)];
        }
        output.Write(rest);
        hide Buffer.Valid, Buffer.Contents;
        if S.Writable !in chan.events {
          chan.Enable(S.Writable);
        }
        assert chan.events == old(chan.events) + {S.Writable};
      }
    }

    /** Offers the message to the kernel if nothing is waiting; `k` is what it answers. */
    method TryDirectly(data: bytes, k: S.Kernel) returns (nwritten: nat, writeError: bool)
      requires Valid() && status != S.Disconnected && k.n <= |data|
      modifies this`wire, this`accepted, this`queued
      ensures Valid() && writeError == S.Breaks(old(View()), k) && nwritten == S.Taken(old(View()), k)
      ensures View() == S.Offered(old(View()), data, k)
    {
      nwritten, writeError := 0, false;
      accepted := accepted + data;
      if S.Writable !in chan.events && output.Length() == 0 {
        if k.n >= 0 {
          nwritten := k.n;
          wire := wire + data[..nwritten];
          if nwritten == |data| && wantsComplete {
            queued := queued + [S.WriteComplete];
          }
        } else if k.errno != S.Retriable {
          if k.errno == S.Broken {
            writeError := true;
          }
        }
      }
    }

    /** SendInLoop; `k` is what the kernel answers if it is asked. */
    method SendInLoop(data: bytes, k: S.Kernel)
      requires Valid() && k.n <= |data|
      modifies this, chan, output, output.store
      ensures Valid() && View() == S.SendInLoop(old(View()), data, k)
      ensures output.store == old(output.store) || fresh(output.store)
    {
      if status == S.Disconnected {
        return;
      }
      hide S.Keep, S.Offered, S.Taken, S.Breaks;
      var nwritten, writeError := TryDirectly(data, k);
      if writeError {
        HandleError();
        return;
      }
      Keep(data[nwritten..]);
    }

    /** Nothing is left to write. */
    method Drained()
      requires Valid() && chan.live
      modifies this`queued, chan
      ensures Valid()
      ensures var c := old(View());
              View() == S.Queue(S.WithEvents(c, c.events - {S.Writable}), c.wantsComplete, S.WriteComplete)
    {
      chan.Disable(S.Writable);
      if wantsComplete {
        queued := queued + [S.WriteComplete];
      }
    }

    /** The loop reports the socket writable. */
    method HandleWrite(k: S.Kernel)
      requires Valid() && S.Can(View(), S.WriteEvent(k))
      modifies this, chan, output
      ensures Valid() && View() == S.HandleWrite(old(View()), k)
    {
      hide S.WithEvents, S.Queue;
      if k.n > 0 {
        var sent := output.Next(k.n);
        wire := wire + sent;
        assert sent == old(output.Contents())[..k.n];
        assert output.Contents() == old(output.Contents())[k.n..];
        if output.Length() == 0 {
          Drained();
        }
      } else if k.errno != S.Retriable {
        HandleError();
      }
    }
  }
}
