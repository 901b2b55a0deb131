/** Socket reads and writes as the library runs them: wrappers around the caller's callback that
    are registered with the reactor. */
module TcpSockets {
  import Bytes
  import opened ReactorModel
  import opened ReactorServices
  import opened TcpSocketModel

  class TcpSocketLayer {
    const reactor: ReactorService
    var writes: map<nat, Write>
    var done: seq<Completion>
    var where: seq<Place>

    ghost function Value(): Sockets
      reads this, reactor
    {
      Sockets(reactor.Value(), writes, done, where)
    }

    constructor ()
      ensures fresh(reactor) && Value() == IDLE_SOCKETS
    {
      reactor := new ReactorService();
      writes, done, where := map[], [], [];
    }

    /** Runs the caller's callback. */
    method Callback(op: nat, code: int, nbytes: nat)
      modifies this`done, this`where
      ensures Value() == Complete(old(Value()), op, code, nbytes)
    {
      if op < |where| {
        where := where[op := Finished(|done|)];
      }
      done := done + [Completion(op, code, nbytes)];
    }

    /** What a wrapper does that the reactor has run with an error, since `before`. */
    method TellError(ghost was: Sockets, before: nat)
      requires before == |was.reactor.ran| && Value() == was.(reactor := reactor.Value())
      modifies this`done, this`where
      ensures Value() == Settle(was, reactor.Value())
    {
      var ran := reactor.ran;
      if |ran| != 0 && |ran| != before {
        var x := ran[|ran| - 1];
        var nbytes := if x.op in writes then |writes[x.op].sent| else 0;
        Callback(x.op, x.code, nbytes);
      }
    }

    method AsyncRead(fd: int, denied: int)
      modifies this, reactor
      ensures Value() == TcpSocketModel.AsyncRead(old(Value()), fd, denied)
    {
      var op := |where|;
      where := where + [InSlot(fd, READ)];
      ghost var was := Value();
      var before := |reactor.ran|;
      reactor.RegisterReadOperation(fd, op, denied);
      TellError(was, before);
    }

    method AsyncWrite(fd: int, data: Bytes.bytes, denied: int)
      modifies this, reactor
      ensures Value() == TcpSocketModel.AsyncWrite(old(Value()), fd, data, denied)
    {
      var op := |where|;
      where := where + [InSlot(fd, WRITE)];
      writes := writes[op := Write(data, [], data)];
      ghost var was := Value();
      var before := |reactor.ran|;
      reactor.RegisterWriteOperation(fd, op, denied);
      TellError(was, before);
    }

    /** The read wrapper, run with success; `code` and `nread` are the outcome of recv. */
    method ReadWrap(fd: int, code: int, nread: nat)
      requires Held(reactor.Value(), fd, READ).Some?
      modifies this, reactor
      ensures Value() == OnReadable(old(Value()), fd, code, nread)
    {
      var op := reactor.ops[fd].read.value;
      reactor.RemoveReadOperation(fd);
      if code != SUCCESS {
        Callback(op, code, 0);
      } else {
        Callback(op, SUCCESS, nread);
      }
    }

    /** The write wrapper, run with success; send has accepted `n` bytes of its view. */
    method WriteWrap(fd: int, n: nat, denied: int)
      requires Held(reactor.Value(), fd, WRITE).Some? && Held(reactor.Value(), fd, WRITE).value in writes
      requires n <= |writes[Held(reactor.Value(), fd, WRITE).value].view|
      modifies this, reactor
      ensures Value() == OnWritable(old(Value()), fd, n, denied)
    {
      var op := reactor.ops[fd].write.value;
      var w := writes[op];
      reactor.RemoveWriteOperation(fd);
      writes := writes[op := Write(w.full, w.sent + w.view[..n], Advance(w.view, n))];
      if n != |w.view| {
        ghost var was := Value();
        var before := |reactor.ran|;
        reactor.RegisterWriteOperation(fd, op, denied);
        TellError(was, before);
        return;
      }
      Callback(op, SUCCESS, |w.sent| + n);
    }

    /** The write wrapper when send fails. */
    method WriteWrapError(fd: int, code: int)
      requires Held(reactor.Value(), fd, WRITE).Some?
      modifies this, reactor
      ensures Value() == OnWriteError(old(Value()), fd, code)
    {
      var op := reactor.ops[fd].write.value;
      reactor.RemoveWriteOperation(fd);
      Callback(op, code, if op in writes then |writes[op].sent| else 0);
    }

    method CancelRead(fd: int)
      modifies this, reactor
      ensures Value() == Settle(old(Value()), Cancel(old(Value()).reactor, fd, READ))
    {
      ghost var was := Value();
      var before := |reactor.ran|;
      reactor.CancelReadOperation(fd);
      TellError(was, before);
    }

    method CancelWrite(fd: int)
      modifies this, reactor
      ensures Value() == Settle(old(Value()), Cancel(old(Value()).reactor, fd, WRITE))
    {
      ghost var was := Value();
      var before := |reactor.ran|;
      reactor.CancelWriteOperation(fd);
      TellError(was, before);
    }

    /** Cancelling both operations, up to the point where the read's caller has been told. */
    method CancelAll(fd: int)
      modifies this, reactor
      ensures Value() == Settle(old(Value()), CancelAllRead(old(Value()).reactor, fd))
    {
      ghost var was := Value();
      var before := |reactor.ran|;
      reactor.CancelAllOperations(fd);
      TellError(was, before);
    }

    /** From there on: the write's caller is told, of the innermost cancellation. */
    method FinishCancelAll()
      requires reactor.unwinding != []
      modifies this, reactor
      ensures Value() == Settle(old(Value()), CancelAllWrite(old(Value()).reactor))
    {
      ghost var was := Value();
      var before := |reactor.ran|;
      reactor.FinishCancelAll();
      TellError(was, before);
    }

    /** A hang-up runs the wrapper of one direction with an error: it tells the caller, no more. */
    method HangUp(fd: int, d: Dir)
      modifies this, reactor
      ensures Value() == Settle(old(Value()), Fire(old(Value()).reactor, fd, d, EFDHUP))
    {
      ghost var was := Value();
      var before := |reactor.ran|;
      reactor.DoOperation(fd, d, EFDHUP);
      TellError(was, before);
    }
  }
}
