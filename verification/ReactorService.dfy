/** The reactor service as the library runs it: one table of operation pairs, one method for
    each direction, and the epoll calls in between. */
module ReactorServices {
  import opened Wrappers
  import opened ReactorModel

  class ReactorService {
    var ops: map<int, OpInfo>
    var kernel: map<int, set<Dir>>
    var unwinding: seq<int>
    var ran: seq<Ran>

    ghost function Value(): Reactor
      reads this
    {
      Reactor(ops, kernel, unwinding, ran)
    }

    constructor ()
      ensures Value() == IDLE
    {
      ops, kernel, unwinding, ran := map[], map[], [], [];
    }

    method EpollRegister(fd: int, events: set<Dir>, denied: int) returns (errcode: int)
      modifies this`kernel
      ensures (errcode, kernel) == CtlAdd(old(kernel), fd, events, denied)
    {
      if denied != SUCCESS {
        return denied;
      }
      if fd in kernel {
        return EEXIST;
      }
      kernel := kernel[fd := events];
      errcode := SUCCESS;
    }

    method EpollModify(fd: int, events: set<Dir>, denied: int) returns (errcode: int)
      modifies this`kernel
      ensures (errcode, kernel) == CtlMod(old(kernel), fd, events, denied)
    {
      if denied != SUCCESS {
        return denied;
      }
      if fd !in kernel {
        return ENOENT;
      }
      kernel := kernel[fd := events];
      errcode := SUCCESS;
    }

    method EpollRemove(fd: int)
      modifies this`kernel
      ensures kernel == CtlDel(old(kernel), fd)
    {
      kernel := kernel - {fd};
    }

    method RegisterReadOperation(fd: int, op: nat, denied: int)
      modifies this
      ensures Value() == Register(old(Value()), fd, READ, op, denied)
    {
      if fd !in ops {
        ops := ops[fd := NONE];
      }
      var info := ops[fd];
      if info.read.Some? {
        ran := ran + [Ran(op, EOPEXISTS)];
        return;
      }
      var events, errcode := {READ}, SUCCESS;
      if info.write.Some? {
        events := events + {WRITE};
        assert events == {READ, WRITE};
        errcode := EpollModify(fd, events, denied);
      } else {
        errcode := EpollRegister(fd, events, denied);
      }
      if errcode != SUCCESS {
        ran := ran + [Ran(op, errcode)];
        return;
      }
      ops := ops[fd := info.(read := Some(op))];
      assert ops == old(ops)[fd := info.(read := Some(op))];
    }

    method RegisterWriteOperation(fd: int, op: nat, denied: int)
      modifies this
      ensures Value() == Register(old(Value()), fd, WRITE, op, denied)
    {
      if fd !in ops {
        ops := ops[fd := NONE];
      }
      var info := ops[fd];
      if info.write.Some? {
        ran := ran + [Ran(op, EOPEXISTS)];
        return;
      }
      var events, errcode := {WRITE}, SUCCESS;
      if info.read.Some? {
        events := events + {READ};
        assert events == {READ, WRITE};
        errcode := EpollModify(fd, events, denied);
      } else {
        errcode := EpollRegister(fd, events, denied);
      }
      if errcode != SUCCESS {
        ran := ran + [Ran(op, errcode)];
        return;
      }
      ops := ops[fd := info.(write := Some(op))];
      assert ops == old(ops)[fd := info.(write := Some(op))];
    }

    method RemoveReadOperation(fd: int)
      modifies this
      ensures Value() == Remove(old(Value()), fd, READ)
    {
      if fd !in ops || ops[fd].read.None? {
        return;
      }
      var info := ops[fd];
      if info.write.Some? {
        var _ := EpollModify(fd, {WRITE}, SUCCESS);
      } else {
        EpollRemove(fd);
      }
      ops := ops[fd := info.(read := None)];
    }

    method RemoveWriteOperation(fd: int)
      modifies this
      ensures Value() == Remove(old(Value()), fd, WRITE)
    {
      if fd !in ops || ops[fd].write.None? {
        return;
      }
      var info := ops[fd];
      if info.read.Some? {
        var _ := EpollModify(fd, {READ}, SUCCESS);
      } else {
        EpollRemove(fd);
      }
      ops := ops[fd := info.(write := None)];
    }

    method CancelReadOperation(fd: int)
      modifies this
      ensures Value() == Cancel(old(Value()), fd, READ)
    {
      if fd !in ops || ops[fd].read.None? {
        return;
      }
      var op := ops[fd].read.value;
      RemoveReadOperation(fd);
      ran := ran + [Ran(op, EOPCANCELED)];
    }

    method CancelWriteOperation(fd: int)
      modifies this
      ensures Value() == Cancel(old(Value()), fd, WRITE)
    {
      if fd !in ops || ops[fd].write.None? {
        return;
      }
      var op := ops[fd].write.value;
      RemoveWriteOperation(fd);
      ran := ran + [Ran(op, EOPCANCELED)];
    }

    method RemoveAllOperations(fd: int)
      modifies this
      ensures Value() == RemoveAll(old(Value()), fd)
    {
      if fd !in ops || ops[fd] == NONE {
        return;
      }
      EpollRemove(fd);
      ops := ops[fd := NONE];
    }

    /** Up to the point where the read callback runs. */
    method CancelAllOperations(fd: int)
      modifies this
      ensures Value() == CancelAllRead(old(Value()), fd)
    {
      if fd !in ops || ops[fd] == NONE {
        return;
      }
      EpollRemove(fd);
      var info := ops[fd];
      if info.read.Some? {
        ops := ops[fd := info.(read := None)];
        ran := ran + [Ran(info.read.value, EOPCANCELED)];
      }
      unwinding := unwinding + [fd];
    }

    /** From the return of the read callback on, for the innermost cancellation. */
    method FinishCancelAll()
      requires unwinding != []
      modifies this
      ensures Value() == CancelAllWrite(old(Value()))
    {
      var n := |unwinding| - 1;
      var fd := unwinding[n];
      unwinding := unwinding[..n];
      if fd in ops && ops[fd].write.Some? {
        var op := ops[fd].write.value;
        ops := ops[fd := ops[fd].(write := None)];
        ran := ran + [Ran(op, EOPCANCELED)];
      }
    }

    method DoOperation(fd: int, d: Dir, code: int)
      modifies this`ran
      ensures Value() == Fire(old(Value()), fd, d, code)
    {
      if fd in ops && ops[fd].Get(d).Some? {
        ran := ran + [Ran(ops[fd].Get(d).value, code)];
      }
    }
  }
}
