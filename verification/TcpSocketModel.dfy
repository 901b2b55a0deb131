/** Asynchronous reads and writes on sockets over the reactor: one callback for each operation,
    and partial writes that re-register for the rest. */
module TcpSocketModel {
  import opened Wrappers
  import opened Bytes
  import opened ReactorModel
  import Seqs

  /** The callback of operation `op`, run with a code and a number of bytes. */
  datatype Completion = Completion(op: nat, code: int, nbytes: nat)

  /** A write: the caller's buffer, the bytes the kernel has accepted, the view of the rest. */
  datatype Write = Write(full: bytes, sent: bytes, view: bytes)

  datatype Place = InSlot(fd: int, d: Dir) | Finished(i: nat)

  /** `where` says for each operation, by number, whether it is registered or its callback has run. */
  datatype Sockets = Sockets(reactor: Reactor, writes: map<nat, Write>, done: seq<Completion>, where: seq<Place>)

  const IDLE_SOCKETS: Sockets := Sockets(IDLE, map[], [], [])

  function Held(r: Reactor, fd: int, d: Dir): Option<nat> {
    InfoOf(r, fd).Get(d)
  }

  function SentBytes(s: Sockets, op: nat): nat {
    if op in s.writes then |s.writes[op].sent| else 0
  }

  function Complete(s: Sockets, op: nat, code: int, nbytes: nat): Sockets {
    s.(done := s.done + [Completion(op, code, nbytes)],
       where := if op < |s.where| then s.where[op := Finished(|s.done|)] else s.where)
  }

  /** The reactor has taken a step; an operation that it ran with an error tells its caller. */
  function Settle(s: Sockets, r: Reactor): Sockets {
    var s' := s.(reactor := r);
    if |r.ran| == 0 || |r.ran| == |s.reactor.ran| then s'
    else
      var x := r.ran[|r.ran| - 1];
      Complete(s', x.op, x.code, SentBytes(s, x.op))
  }

  function AsyncRead(s: Sockets, fd: int, denied: int): Sockets {
    Settle(s.(where := s.where + [InSlot(fd, READ)]), Register(s.reactor, fd, READ, |s.where|, denied))
  }

  function AsyncWrite(s: Sockets, fd: int, data: bytes, denied: int): Sockets {
    Settle(s.(where := s.where + [InSlot(fd, WRITE)], writes := s.writes[|s.where| := Write(data, [], data)]),
           Register(s.reactor, fd, WRITE, |s.where|, denied))
  }

  /** A buffer view moved forward; the offset is cut at the end of the buffer. */
  function Advance(view: bytes, offset: nat): bytes {
    if offset > |view| then [] else view[offset..]
  }

  /** The read operation of `fd` runs: it is taken out, then the socket is read. */
  function OnReadable(s: Sockets, fd: int, code: int, nread: nat): Sockets
    requires Held(s.reactor, fd, READ).Some?
  {
    var op := Held(s.reactor, fd, READ).value;
    Complete(s.(reactor := Remove(s.reactor, fd, READ)), op, code, if code == SUCCESS then nread else 0)
  }

  /** The write operation of `fd` runs and the kernel accepts `n` bytes. */
  function OnWritable(s: Sockets, fd: int, n: nat, denied: int): Sockets
    requires Held(s.reactor, fd, WRITE).Some? && Held(s.reactor, fd, WRITE).value in s.writes
    requires n <= |s.writes[Held(s.reactor, fd, WRITE).value].view|
  {
    var op := Held(s.reactor, fd, WRITE).value;
    var w := s.writes[op];
    var r := Remove(s.reactor, fd, WRITE);
    var s' := s.(reactor := r, writes := s.writes[op := Write(w.full, w.sent + w.view[..n], Advance(w.view, n))]);
    if n != |w.view| then Settle(s', Register(r, fd, WRITE, op, denied))
    else Complete(s', op, SUCCESS, |w.sent| + n)
  }

  /** The write operation of `fd` runs and the send fails. */
  function OnWriteError(s: Sockets, fd: int, code: int): Sockets
    requires Held(s.reactor, fd, WRITE).Some?
  {
    var op := Held(s.reactor, fd, WRITE).value;
    Complete(s.(reactor := Remove(s.reactor, fd, WRITE)), op, code, SentBytes(s, op))
  }

  // ---------------------------------------------------------------- the invariant

  /** Every operation is in exactly one place, and every place holds one operation. */
  ghost predicate Placed(s: Sockets) {
    && (forall fd, d :: Held(s.reactor, fd, d).Some? ==>
          var op := Held(s.reactor, fd, d).value; op < |s.where| && s.where[op] == InSlot(fd, d))
    && (forall i :: 0 <= i < |s.done| ==> s.done[i].op < |s.where| && s.where[s.done[i].op] == Finished(i))
    && (forall op :: 0 <= op < |s.where| ==>
          match s.where[op]
          case InSlot(fd, d) => Held(s.reactor, fd, d) == Some(op)
          case Finished(i) => i < |s.done| && s.done[i].op == op)
  }

  /** Accepted bytes and remaining view make up the caller's buffer; success reports all of it. */
  ghost predicate Conserved(s: Sockets) {
    && (forall op :: op in s.writes ==> op < |s.where| && s.writes[op].sent + s.writes[op].view == s.writes[op].full)
    && (forall op :: 0 <= op < |s.where| && s.where[op].InSlot? ==> (op in s.writes <==> s.where[op].d == WRITE))
    && (forall i :: 0 <= i < |s.done| && s.done[i].op in s.writes ==>
          var w := s.writes[s.done[i].op];
          s.done[i].nbytes == |w.sent| && (s.done[i].code == SUCCESS ==> w.sent == w.full))
  }

  ghost predicate Inv(s: Sockets) {
    Placed(s) && Conserved(s)
  }

  /** Slots are unchanged but for one. */
  ghost predicate SlotChanged(r: Reactor, r': Reactor, fd: int, d: Dir, op: Option<nat>) {
    forall x, e :: Held(r', x, e) == if x == fd && e == d then op else Held(r, x, e)
  }

  lemma RegisterSlot(r: Reactor, fd: int, d: Dir, op: nat, denied: int)
    ensures var r' := Register(r, fd, d, op, denied);
            if |r'.ran| == |r.ran| then Held(r, fd, d).None? && SlotChanged(r, r', fd, d, Some(op))
            else (exists code :: code != SUCCESS && r'.ran == r.ran + [Ran(op, code)])
                 && SlotChanged(r, r', fd, d, Held(r, fd, d))
  {
    var r' := Register(r, fd, d, op, denied);
    if |r'.ran| != |r.ran| {
      assert r'.ran == r.ran + [Ran(op, r'.ran[|r.ran|].code)];
    }
  }

  lemma RemoveSlot(r: Reactor, fd: int, d: Dir)
    ensures SlotChanged(r, Remove(r, fd, d), fd, d, None) && Remove(r, fd, d).ran == r.ran
  {
  }

  /** A registered operation leaves its slot, and its callback runs once. */
  lemma FinishKeeps(s: Sockets, r: Reactor, fd: int, d: Dir, code: int, nbytes: nat)
    requires Inv(s) && Held(s.reactor, fd, d).Some? && SlotChanged(s.reactor, r, fd, d, None)
    requires var op := Held(s.reactor, fd, d).value;
             op in s.writes ==>
               nbytes == |s.writes[op].sent| && (code == SUCCESS ==> s.writes[op].sent == s.writes[op].full)
    ensures Inv(Complete(s.(reactor := r), Held(s.reactor, fd, d).value, code, nbytes))
  {
    var op := Held(s.reactor, fd, d).value;
    var s' := Complete(s.(reactor := r), op, code, nbytes);
    assert s.where[op] == InSlot(fd, d);
    forall x, e | Held(r, x, e).Some? ensures Held(r, x, e).value != op {
      assert s.where[Held(s.reactor, x, e).value] == InSlot(x, e);
    }
    forall i | 0 <= i < |s.done| ensures s.done[i].op != op {
      assert s.where[s.done[i].op] == Finished(i);
    }
  }

  /** The tables with a new operation, before the reactor has taken it. */
  function Announced(s: Sockets, fd: int, d: Dir, data: bytes): Sockets {
    s.(where := s.where + [InSlot(fd, d)],
       writes := if d == WRITE then s.writes[|s.where| := Write(data, [], data)] else s.writes)
  }

  lemma StoredKeeps(s: Sockets, r: Reactor, fd: int, d: Dir, data: bytes)
    requires Inv(s) && Held(s.reactor, fd, d).None? && SlotChanged(s.reactor, r, fd, d, Some(|s.where|))
    ensures Inv(Announced(s, fd, d, data).(reactor := r))
  {
    assert |s.where| !in s.writes;
    assert forall o :: 0 <= o < |s.where| && s.where[o].InSlot? ==> s.where[o] != InSlot(fd, d);
  }

  lemma RefusedPlaced(s: Sockets, r: Reactor, fd: int, d: Dir, data: bytes, code: int)
    requires Placed(s) && SlotChanged(s.reactor, r, fd, d, Held(s.reactor, fd, d))
    ensures Placed(Complete(Announced(s, fd, d, data).(reactor := r), |s.where|, code, 0))
  {
    assert forall x, e :: Held(r, x, e) == Held(s.reactor, x, e);
  }

  lemma RefusedConserved(s: Sockets, r: Reactor, fd: int, d: Dir, data: bytes, code: int)
    requires Inv(s) && code != SUCCESS
    ensures Conserved(Complete(Announced(s, fd, d, data).(reactor := r), |s.where|, code, 0))
  {
    assert |s.where| !in s.writes;
    assert forall i :: 0 <= i < |s.done| ==> s.done[i].op < |s.where|;
  }

  lemma RefusedKeeps(s: Sockets, r: Reactor, fd: int, d: Dir, data: bytes, code: int)
    requires Inv(s) && SlotChanged(s.reactor, r, fd, d, Held(s.reactor, fd, d)) && code != SUCCESS
    ensures Inv(Complete(Announced(s, fd, d, data).(reactor := r), |s.where|, code, 0))
  {
    RefusedPlaced(s, r, fd, d, data, code);
    RefusedConserved(s, r, fd, d, data, code);
  }

  lemma NewIsUnknown(s: Sockets)
    requires Inv(s)
    ensures |s.where| !in s.writes
  {
  }

  /** A new operation, registered or refused. */
  lemma AsyncKeeps(s: Sockets, fd: int, d: Dir, data: bytes, denied: int)
    requires Inv(s)
    ensures Inv(if d == READ then AsyncRead(s, fd, denied) else AsyncWrite(s, fd, data, denied))
  {
    hide Inv;
    hide Register;
    var op := |s.where|;
    var r := Register(s.reactor, fd, d, op, denied);
    NewIsUnknown(s);
    RegisterSlot(s.reactor, fd, d, op, denied);
    var s1 := Announced(s, fd, d, data);
    assert Settle(s1, r) == if d == READ then AsyncRead(s, fd, denied) else AsyncWrite(s, fd, data, denied);
    if |r.ran| == |s.reactor.ran| {
      StoredKeeps(s, r, fd, d, data);
    } else {
      var code :| code != SUCCESS && r.ran == s.reactor.ran + [Ran(op, code)];
      RefusedKeeps(s, r, fd, d, data, code);
    }
  }

  /** A cancellation of one slot, if it holds something. */
  lemma CancelSlotKeeps(s: Sockets, r: Reactor, fd: int, d: Dir)
    requires Inv(s) && SlotChanged(s.reactor, r, fd, d, None)
    requires r.ran == s.reactor.ran
                    + match Held(s.reactor, fd, d) case None => [] case Some(op) => [Ran(op, EOPCANCELED)]
    ensures Inv(Settle(s, r))
  {
    hide Inv;
    hide InfoOf;
    var held := Held(s.reactor, fd, d);
    if held.Some? {
      CanceledKeeps(s, r, fd, d, held.value);
      assert r.ran[|r.ran| - 1] == Ran(held.value, EOPCANCELED);
    } else {
      assert r.ran == s.reactor.ran;
      SameSlots(s, r);
    }
  }

  lemma CanceledKeeps(s: Sockets, r: Reactor, fd: int, d: Dir, op: nat)
    requires Inv(s) && Held(s.reactor, fd, d) == Some(op) && SlotChanged(s.reactor, r, fd, d, None)
    ensures Inv(Complete(s.(reactor := r), op, EOPCANCELED, SentBytes(s, op)))
  {
    hide InfoOf;
    hide Complete;
    assert s.where[op] == InSlot(fd, d);
    FinishKeeps(s, r, fd, d, EOPCANCELED, SentBytes(s, op));
  }

  lemma WriteEnds(s: Sockets, fd: int, op: nat)
    requires Inv(s) && Held(s.reactor, fd, WRITE) == Some(op) && op in s.writes && s.writes[op].view == []
    ensures Inv(Complete(s.(reactor := Remove(s.reactor, fd, WRITE)), op, SUCCESS, |s.writes[op].sent|))
  {
    hide InfoOf;
    hide Remove;
    hide Complete;
    hide Placed;
    var w := s.writes[op];
    Seqs.NoMore(w.sent);
    RemoveSlot(s.reactor, fd, WRITE);
    FinishKeeps(s, Remove(s.reactor, fd, WRITE), fd, WRITE, SUCCESS, |w.sent|);
  }

  lemma WriteGoesOn(s: Sockets, fd: int, op: nat, denied: int)
    requires Inv(s) && Held(s.reactor, fd, WRITE) == Some(op) && op in s.writes
    ensures var r := Remove(s.reactor, fd, WRITE);
            Inv(Settle(s.(reactor := r), Register(r, fd, WRITE, op, denied)))
  {
    hide Inv;
    hide InfoOf;
    hide Remove;
    hide Register;
    hide Held;
    var r := Remove(s.reactor, fd, WRITE);
    var r' := Register(r, fd, WRITE, op, denied);
    RemoveSlot(s.reactor, fd, WRITE);
    RegisterSlot(r, fd, WRITE, op, denied);
    if |r'.ran| == |r.ran| {
      SameSlots(s, r');
    } else {
      var code :| code != SUCCESS && r'.ran == r.ran + [Ran(op, code)];
      FinishKeeps(s, r', fd, WRITE, code, |s.writes[op].sent|);
    }
  }

  lemma SameSlots(s: Sockets, r: Reactor)
    requires Inv(s) && forall x, e :: Held(r, x, e) == Held(s.reactor, x, e)
    ensures Inv(s.(reactor := r))
  {
    hide InfoOf;
    hide Held;
  }

  lemma WritableKeeps(s: Sockets, fd: int, n: nat, denied: int)
    requires Inv(s) && Held(s.reactor, fd, WRITE).Some?
    requires Held(s.reactor, fd, WRITE).value in s.writes && n <= |s.writes[Held(s.reactor, fd, WRITE).value].view|
    ensures Inv(OnWritable(s, fd, n, denied))
  {
    hide Inv;
    hide InfoOf;
    hide Held;
    hide Remove;
    hide Register;
    var op := Held(s.reactor, fd, WRITE).value;
    var w := s.writes[op];
    var w1 := Write(w.full, w.sent + w.view[..n], Advance(w.view, n));
    var s1 := s.(writes := s.writes[op := w1]);
    AcceptedKeeps(s, op, n, fd);
    if n == |w.view| {
      WriteEnds(s1, fd, op);
    } else {
      WriteGoesOn(s1, fd, op, denied);
    }
  }

  /** Bytes move from the view of a registered write to its sent part. */
  lemma AcceptedKeeps(s: Sockets, op: nat, n: nat, fd: int)
    requires Inv(s) && Held(s.reactor, fd, WRITE) == Some(op) && op in s.writes && n <= |s.writes[op].view|
    ensures var w := s.writes[op];
            Inv(s.(writes := s.writes[op := Write(w.full, w.sent + w.view[..n], Advance(w.view, n))]))
  {
    hide InfoOf;
    var w := s.writes[op];
    ViewSplits(w, n);
    assert s.where[op] == InSlot(fd, WRITE);
    assert forall i :: 0 <= i < |s.done| ==> s.done[i].op != op;
  }

  lemma ViewSplits(w: Write, n: nat)
    requires n <= |w.view|
    ensures w.sent + w.view == (w.sent + w.view[..n]) + w.view[n..]
  {
  }

  // ---------------------------------------------------------------- what each operation does

  /** The reactor has told one operation, or none. */
  lemma SettleTells(s: Sockets, r: Reactor, told: Option<nat>, code: int)
    requires r.ran == s.reactor.ran + Callbacks(told, code)
    ensures Settle(s, r) == match told
                            case None => s.(reactor := r)
                            case Some(op) => Complete(s.(reactor := r), op, code, SentBytes(s, op))
  {
    Seqs.NoMore(s.reactor.ran);
  }

  /** A read waits in its slot, or its caller is told why not: another is there, the kernel denies it, or the
      descriptor is in the middle of a cancellation. */
  lemma StartReadDoes(s: Sockets, fd: int, denied: int)
    requires Inv(s) && ReactorModel.Inv(s.reactor)
    ensures var s', info, op := AsyncRead(s, fd, denied), InfoOf(s.reactor, fd), |s.where|;
            && s'.writes == s.writes
            && if info.read.Some? then s'.done == s.done + [Completion(op, -1003, 0)]
               else if denied != 0 then s'.done == s.done + [Completion(op, denied, 0)]
               else if fd !in s.reactor.kernel && info.write.Some? then s'.done == s.done + [Completion(op, 2, 0)]
               else s'.done == s.done && InfoOf(s'.reactor, fd) == OpInfo(Some(op), info.write)
  {
    hide Inv;
    hide Register;
    hide InfoOf;
    hide Settle;
    var op, info := |s.where|, InfoOf(s.reactor, fd);
    NewIsUnknown(s);
    RegisterReadDoes(s.reactor, fd, op, denied);
    var r, s1 := Register(s.reactor, fd, READ, op, denied), Announced(s, fd, READ, []);
    var code := if info.read.Some? then -1003 else if denied != 0 then denied else 2;
    if |r.ran| == |s.reactor.ran| {
      Seqs.NoMore(s.reactor.ran);
      SettleTells(s1, r, None, code);
    } else {
      SettleTells(s1, r, Some(op), code);
    }
  }

  lemma StartWriteDoes(s: Sockets, fd: int, data: bytes, denied: int)
    requires Inv(s) && ReactorModel.Inv(s.reactor)
    ensures var s', info, op := AsyncWrite(s, fd, data, denied), InfoOf(s.reactor, fd), |s.where|;
            && s'.writes == s.writes[op := Write(data, [], data)]
            && if info.write.Some? then s'.done == s.done + [Completion(op, -1003, 0)]
               else if denied != 0 then s'.done == s.done + [Completion(op, denied, 0)]
               else s'.done == s.done && InfoOf(s'.reactor, fd) == OpInfo(info.read, Some(op))
  {
    hide Inv;
    hide Register;
    hide InfoOf;
    hide Settle;
    var op, info := |s.where|, InfoOf(s.reactor, fd);
    RegisterWriteDoes(s.reactor, fd, op, denied);
    var r, s1 := Register(s.reactor, fd, WRITE, op, denied), Announced(s, fd, WRITE, data);
    var code := if info.write.Some? then -1003 else denied;
    if |r.ran| == |s.reactor.ran| {
      Seqs.NoMore(s.reactor.ran);
      SettleTells(s1, r, None, code);
    } else {
      SettleTells(s1, r, Some(op), code);
    }
  }

  /** A readable socket: the read leaves its slot, and its caller is told what recv gave, the bytes on success
      only. */
  lemma ReadTells(s: Sockets, fd: int, code: int, nread: nat, op: nat)
    requires ReactorModel.Inv(s.reactor) && InfoOf(s.reactor, fd).read == Some(op)
    ensures var s' := OnReadable(s, fd, code, nread);
            && s'.done == s.done + [Completion(op, code, if code == 0 then nread else 0)]
            && InfoOf(s'.reactor, fd) == OpInfo(None, InfoOf(s.reactor, fd).write)
            && Spares(s.reactor, s'.reactor, fd) && s'.writes == s.writes && s'.reactor.ran == s.reactor.ran
  {
    hide Remove;
    RemoveDoes(s.reactor, fd);
  }

  /** A writable socket: what the kernel accepts moves from the view to the sent part; the caller is told of the
      whole buffer once the view is used up, and otherwise the rest stays registered. */
  lemma WriteAdvances(s: Sockets, fd: int, n: nat, op: nat)
    requires Inv(s) && ReactorModel.Inv(s.reactor) && InfoOf(s.reactor, fd).write == Some(op) && op in s.writes
    requires n <= |s.writes[op].view|
    ensures var s', w := OnWritable(s, fd, n, SUCCESS), s.writes[op];
            && s'.writes == s.writes[op := Write(w.full, w.sent + w.view[..n], w.view[n..])]
            && Spares(s.reactor, s'.reactor, fd)
            && InfoOf(s'.reactor, fd) == OpInfo(InfoOf(s.reactor, fd).read, if n == |w.view| then None else Some(op))
            && s'.done == (if n == |w.view| then s.done + [Completion(op, 0, |w.full|)] else s.done)
  {
    hide Remove;
    hide Register;
    hide Settle;
    hide InfoOf;
    var r := Remove(s.reactor, fd, WRITE);
    RemoveDoes(s.reactor, fd);
    RemoveKeeps(s.reactor, fd, WRITE);
    RegisterWriteDoes(r, fd, op, SUCCESS);
    WriteMeasured(s, op);
    var w := s.writes[op];
    if n != |w.view| {
      var s1 := s.(reactor := r, writes := s.writes[op := Write(w.full, w.sent + w.view[..n], Advance(w.view, n))]);
      Seqs.NoMore(r.ran);
      SettleTells(s1, Register(r, fd, WRITE, op, SUCCESS), None, 0);
    }
  }

  lemma WriteMeasured(s: Sockets, op: nat)
    requires Inv(s) && op in s.writes
    ensures |s.writes[op].sent| + |s.writes[op].view| == |s.writes[op].full|
  {
  }

  /** If the kernel denies the registration for the rest, the caller is told of the bytes sent so far. */
  lemma WriteDenied(s: Sockets, fd: int, n: nat, op: nat, denied: int)
    requires ReactorModel.Inv(s.reactor) && InfoOf(s.reactor, fd).write == Some(op) && op in s.writes
    requires n < |s.writes[op].view| && denied != 0
    ensures var s' := OnWritable(s, fd, n, denied);
            && s'.done == s.done + [Completion(op, denied, |s.writes[op].sent| + n)]
            && InfoOf(s'.reactor, fd) == OpInfo(InfoOf(s.reactor, fd).read, None)
  {
    hide Remove;
    hide Register;
    hide Settle;
    hide InfoOf;
    var r, w := Remove(s.reactor, fd, WRITE), s.writes[op];
    RemoveDoes(s.reactor, fd);
    RemoveKeeps(s.reactor, fd, WRITE);
    RegisterWriteDoes(r, fd, op, denied);
    var s1 := s.(reactor := r, writes := s.writes[op := Write(w.full, w.sent + w.view[..n], Advance(w.view, n))]);
    SettleTells(s1, Register(r, fd, WRITE, op, denied), Some(op), denied);
  }

  /** A failed send tells the caller the bytes sent before it. */
  lemma WriteErrorTells(s: Sockets, fd: int, code: int, op: nat)
    requires ReactorModel.Inv(s.reactor) && InfoOf(s.reactor, fd).write == Some(op) && op in s.writes
    ensures var s' := OnWriteError(s, fd, code);
            && s'.done == s.done + [Completion(op, code, |s.writes[op].sent|)]
            && InfoOf(s'.reactor, fd) == OpInfo(InfoOf(s.reactor, fd).read, None)
            && Spares(s.reactor, s'.reactor, fd) && s'.writes == s.writes
  {
    hide Remove;
    RemoveDoes(s.reactor, fd);
  }

  /** Cancelling tells the operation of the direction, if there is one: a read of no bytes, a write of those
      sent before. */
  lemma CancelTells(s: Sockets, fd: int, d: Dir)
    requires ReactorModel.Inv(s.reactor)
    ensures var s', info := Settle(s, Cancel(s.reactor, fd, d)), InfoOf(s.reactor, fd);
            && InfoOf(s'.reactor, fd) == (if d == READ then OpInfo(None, info.write) else OpInfo(info.read, None))
            && s'.writes == s.writes
            && s'.done == s.done + match (if d == READ then info.read else info.write)
                                   case None => []
                                   case Some(op) => [Completion(op, -1002, SentBytes(s, op))]
  {
    hide Remove;
    hide Settle;
    hide Cancel;
    var info := InfoOf(s.reactor, fd);
    RemoveDoes(s.reactor, fd);
    CancelDoes(s.reactor, fd);
    Seqs.NoMore(s.done);
    SettleTells(s, Cancel(s.reactor, fd, d), if d == READ then info.read else info.write, -1002);
  }

  /** Cancelling both tells the read first ... */
  lemma CancelAllTellsRead(s: Sockets, fd: int)
    requires ReactorModel.Inv(s.reactor)
    ensures var s', info := Settle(s, CancelAllRead(s.reactor, fd)), InfoOf(s.reactor, fd);
            && InfoOf(s'.reactor, fd) == OpInfo(None, info.write) && s'.writes == s.writes
            && s'.done == s.done + match info.read
                                   case None => []
                                   case Some(op) => [Completion(op, -1002, SentBytes(s, op))]
  {
    hide Settle;
    hide CancelAllRead;
    CancelAllReadDoes(s.reactor, fd);
    Seqs.NoMore(s.done);
    SettleTells(s, CancelAllRead(s.reactor, fd), InfoOf(s.reactor, fd).read, -1002);
  }

  /** ... and then whatever write it finds. */
  lemma CancelAllTellsWrite(s: Sockets, fd: int)
    requires s.reactor.unwinding != [] && fd == s.reactor.unwinding[|s.reactor.unwinding| - 1]
    ensures var s', info := Settle(s, CancelAllWrite(s.reactor)), InfoOf(s.reactor, fd);
            && InfoOf(s'.reactor, fd) == OpInfo(info.read, None) && s'.writes == s.writes
            && s'.done == s.done + match info.write
                                   case None => []
                                   case Some(op) => [Completion(op, -1002, SentBytes(s, op))]
  {
    hide Settle;
    hide CancelAllWrite;
    CancelAllWriteDoes(s.reactor, fd);
    Seqs.NoMore(s.done);
    SettleTells(s, CancelAllWrite(s.reactor), InfoOf(s.reactor, fd).write, -1002);
  }

  /** A hang-up tells it too, and changes nothing else. */
  lemma HangUpDoes(s: Sockets, fd: int, d: Dir)
    ensures var s', info := Settle(s, Fire(s.reactor, fd, d, EFDHUP)), InfoOf(s.reactor, fd);
            && Unchanged(s.reactor, s'.reactor) && s'.writes == s.writes
            && s'.done == s.done + match (if d == READ then info.read else info.write)
                                   case None => []
                                   case Some(op) => [Completion(op, -1001, SentBytes(s, op))]
  {
    hide Settle;
    hide Fire;
    var info := InfoOf(s.reactor, fd);
    FireRuns(s.reactor, fd, -1001);
    Seqs.NoMore(s.done);
    SettleTells(s, Fire(s.reactor, fd, d, -1001), if d == READ then info.read else info.write, -1001);
  }

  // ---------------------------------------------------------------- runs

  datatype Step =
    | StartRead(fd: int, denied: int)
    | StartWrite(fd: int, data: bytes, denied: int)
    | Readable(fd: int, code: int, nread: nat)
    | Writable(fd: int, n: nat, denied: int)
    | WriteError(fd: int, code: int)
    | CancelOne(fd: int, d: Dir)
    | CancelAllFirst(fd: int)
    | CancelAllSecond
    | HangUp(fd: int, d: Dir)

  predicate Enabled(s: Sockets, step: Step) {
    match step
    case Readable(fd, _, _) => Held(s.reactor, fd, READ).Some?
    case Writable(fd, n, _) =>
      Held(s.reactor, fd, WRITE).Some? && Held(s.reactor, fd, WRITE).value in s.writes
      && n <= |s.writes[Held(s.reactor, fd, WRITE).value].view|
    case WriteError(fd, code) => Held(s.reactor, fd, WRITE).Some? && code != SUCCESS
    case CancelAllSecond => s.reactor.unwinding != []
    case _ => true
  }

  function Apply(s: Sockets, step: Step): Sockets
    requires Enabled(s, step)
  {
    match step
    case StartRead(fd, denied) => AsyncRead(s, fd, denied)
    case StartWrite(fd, data, denied) => AsyncWrite(s, fd, data, denied)
    case Readable(fd, code, nread) => OnReadable(s, fd, code, nread)
    case Writable(fd, n, denied) => OnWritable(s, fd, n, denied)
    case WriteError(fd, code) => OnWriteError(s, fd, code)
    case CancelOne(fd, d) => Settle(s, Cancel(s.reactor, fd, d))
    case CancelAllFirst(fd) => Settle(s, CancelAllRead(s.reactor, fd))
    case CancelAllSecond => Settle(s, CancelAllWrite(s.reactor))
    case HangUp(fd, d) => Settle(s, Fire(s.reactor, fd, d, EFDHUP))
  }

  /** A hang-up that finds an operation: its wrapper tells the caller and leaves it registered. */
  predicate Meets(s: Sockets, step: Step) {
    step.HangUp? && Held(s.reactor, step.fd, step.d).Some?
  }

  lemma ReadableKeeps(s: Sockets, fd: int, code: int, nread: nat)
    requires Inv(s) && Held(s.reactor, fd, READ).Some?
    ensures Inv(OnReadable(s, fd, code, nread))
  {
    hide InfoOf;
    hide Remove;
    hide Complete;
    RemoveSlot(s.reactor, fd, READ);
    var op := Held(s.reactor, fd, READ).value;
    assert s.where[op] == InSlot(fd, READ);
    FinishKeeps(s, Remove(s.reactor, fd, READ), fd, READ, code, if code == SUCCESS then nread else 0);
  }

  lemma WriteErrorKeeps(s: Sockets, fd: int, code: int)
    requires Inv(s) && Held(s.reactor, fd, WRITE).Some? && code != SUCCESS
    ensures Inv(OnWriteError(s, fd, code))
  {
    hide InfoOf;
    hide Remove;
    hide Complete;
    hide Inv;
    RemoveSlot(s.reactor, fd, WRITE);
    FinishKeeps(s, Remove(s.reactor, fd, WRITE), fd, WRITE, code, SentBytes(s, Held(s.reactor, fd, WRITE).value));
  }

  lemma StepKeeps(s: Sockets, step: Step)
    requires Inv(s) && Enabled(s, step) && !Meets(s, step)
    ensures Inv(Apply(s, step))
  {
    hide Inv;
    hide Settle;
    hide Register;
    hide OnWritable;
    hide OnReadable;
    hide OnWriteError;
    hide AsyncRead;
    hide AsyncWrite;
    match step
    case StartRead(fd, denied) => AsyncKeeps(s, fd, READ, [], denied);
    case StartWrite(fd, data, denied) => AsyncKeeps(s, fd, WRITE, data, denied);
    case Readable(fd, code, nread) => ReadableKeeps(s, fd, code, nread);
    case Writable(fd, n, denied) => WritableKeeps(s, fd, n, denied);
    case WriteError(fd, code) => WriteErrorKeeps(s, fd, code);
    case CancelOne(fd, d) => CancelSlotKeeps(s, Cancel(s.reactor, fd, d), fd, d);
    case CancelAllFirst(fd) => CancelSlotKeeps(s, CancelAllRead(s.reactor, fd), fd, READ);
    case CancelAllSecond =>
      CancelSlotKeeps(s, CancelAllWrite(s.reactor), s.reactor.unwinding[|s.reactor.unwinding| - 1], WRITE);
    case HangUp(fd, d) => CancelSlotKeeps(s, s.reactor, fd, d);
  }

  predicate Runs(s: Sockets, steps: seq<Step>)
    decreases |steps|
  {
    steps == [] || (Enabled(s, steps[0]) && Runs(Apply(s, steps[0]), steps[1..]))
  }

  function After(s: Sockets, steps: seq<Step>): Sockets
    requires Runs(s, steps)
    decreases |steps|
  {
    if steps == [] then s else After(Apply(s, steps[0]), steps[1..])
  }

  /** No hang-up of the run finds an operation. */
  predicate Spared(s: Sockets, steps: seq<Step>)
    requires Runs(s, steps)
    decreases |steps|
  {
    steps == [] || (!Meets(s, steps[0]) && Spared(Apply(s, steps[0]), steps[1..]))
  }

  lemma {:induction false} RunKeeps(s: Sockets, steps: seq<Step>)
    requires Inv(s) && Runs(s, steps) && Spared(s, steps)
    ensures Inv(After(s, steps))
    decreases |steps|
  {
    hide Inv;
    hide Apply;
    hide Enabled;
    hide Meets;
    if steps != [] {
      StepKeeps(s, steps[0]);
      RunKeeps(Apply(s, steps[0]), steps[1..]);
    }
  }

  /** No callback has run twice, and an operation whose callback has not run is registered, in one slot. */
  ghost predicate OnceEach(s: Sockets) {
    && (forall i, j :: 0 <= i < j < |s.done| ==> s.done[i].op != s.done[j].op)
    && (forall op :: 0 <= op < |s.where| ==> (Told(s, op) <==> !Registered(s, op)))
    && (forall fd, d, x, e :: Held(s.reactor, fd, d).Some? && Held(s.reactor, fd, d) == Held(s.reactor, x, e) ==>
          fd == x && d == e)
  }

  ghost predicate Told(s: Sockets, op: nat) {
    exists i :: 0 <= i < |s.done| && s.done[i].op == op
  }

  ghost predicate Registered(s: Sockets, op: nat) {
    exists fd, d :: Held(s.reactor, fd, d) == Some(op)
  }

  lemma InvOnceEach(s: Sockets)
    requires Inv(s)
    ensures OnceEach(s)
  {
    hide InfoOf;
    hide Held;
    forall op | 0 <= op < |s.where|
      ensures Told(s, op) <==> !Registered(s, op)
    {
      match s.where[op]
      case InSlot(fd, d) => assert Held(s.reactor, fd, d) == Some(op);
      case Finished(i) => assert s.done[i].op == op;
    }
  }

  // ---------------------------------------------------------------- hang-ups

  /** A callback that has run although its operation is still registered, or twice: the operation was
      started by one of the calls. */
  ghost predicate Again(s: Sockets, op: nat) {
    && op < |s.where|
    && ((Told(s, op) && Registered(s, op))
        || exists i, j :: 0 <= i < j < |s.done| && s.done[i].op == op && s.done[j].op == op)
  }

  /** A step leaves a registered operation in its slot or tells its caller. */
  ghost predicate Carries(s: Sockets, s': Sockets) {
    && s.done <= s'.done && |s.where| <= |s'.where|
    && (forall fd, d :: Held(s.reactor, fd, d).Some? ==>
          Held(s'.reactor, fd, d) == Held(s.reactor, fd, d)
          || (|s'.done| > |s.done| && s'.done[|s.done|].op == Held(s.reactor, fd, d).value))
  }

  lemma AgainStays(s: Sockets, s': Sockets, op: nat)
    requires Again(s, op) && Carries(s, s')
    ensures Again(s', op)
  {
    hide InfoOf;
    hide Held;
    if Told(s, op) && Registered(s, op) {
      var i :| 0 <= i < |s.done| && s.done[i].op == op;
      var fd, d :| Held(s.reactor, fd, d) == Some(op);
      assert s'.done[i] == s.done[i];
      if Held(s'.reactor, fd, d) != Some(op) {
        assert s'.done[i].op == op && s'.done[|s.done|].op == op;
      }
    } else {
      var i, j :| 0 <= i < j < |s.done| && s.done[i].op == op && s.done[j].op == op;
      assert s'.done[i] == s.done[i] && s'.done[j] == s.done[j];
    }
  }

  /** What the reactor may do to the slots in one step. */
  ghost predicate SlotStep(r: Reactor, r': Reactor, fd: int, d: Dir) {
    || SlotChanged(r, r', fd, d, Held(r, fd, d))
    || (exists op :: Held(r, fd, d).None? && SlotChanged(r, r', fd, d, Some(op)))
    || (SlotChanged(r, r', fd, d, None)
        && (Held(r, fd, d).Some? ==> exists code :: r'.ran == r.ran + [Ran(Held(r, fd, d).value, code)]))
  }

  lemma SettleCarries(s: Sockets, s0: Sockets, r: Reactor, fd: int, d: Dir)
    requires s0.reactor == s.reactor && s0.done == s.done && |s.where| <= |s0.where| && SlotStep(s.reactor, r, fd, d)
    ensures Carries(s, Settle(s0, r))
  {
    hide InfoOf;
    hide Held;
  }

  lemma StartCarries(s: Sockets, fd: int, d: Dir, op: nat, denied: int)
    ensures SlotStep(s.reactor, Register(s.reactor, fd, d, op, denied), fd, d)
  {
    hide InfoOf;
    hide Register;
    RegisterSlot(s.reactor, fd, d, op, denied);
  }

  lemma CancelStep(r: Reactor, fd: int, d: Dir)
    ensures SlotStep(r, Cancel(r, fd, d), fd, d)
  {
    var r' := Cancel(r, fd, d);
    if Held(r, fd, d).Some? {
      assert r'.ran == r.ran + [Ran(Held(r, fd, d).value, EOPCANCELED)];
    }
  }

  lemma TakeOutStep(r: Reactor, fd: int, d: Dir, unwinding: seq<int>, kernel: map<int, set<Dir>>)
    ensures SlotStep(r, TakeOut(r.(kernel := kernel), fd, d).(unwinding := unwinding), fd, d)
  {
    var r' := TakeOut(r.(kernel := kernel), fd, d).(unwinding := unwinding);
    if Held(r, fd, d).Some? {
      assert r'.ran == r.ran + [Ran(Held(r, fd, d).value, EOPCANCELED)];
    }
  }

  lemma FireStep(r: Reactor, fd: int, d: Dir, code: int)
    ensures SlotStep(r, Fire(r, fd, d, code), fd, d)
  {
  }

  lemma CompleteCarries(s: Sockets, r: Reactor, writes: map<nat, Write>, fd: int, d: Dir, code: int, nbytes: nat)
    requires Held(s.reactor, fd, d).Some? && SlotChanged(s.reactor, r, fd, d, None)
    ensures Carries(s, Complete(s.(reactor := r, writes := writes), Held(s.reactor, fd, d).value, code, nbytes))
  {
    hide InfoOf;
    hide Held;
  }

  lemma WritableCarries(s: Sockets, fd: int, n: nat, denied: int)
    requires Enabled(s, Writable(fd, n, denied))
    ensures Carries(s, OnWritable(s, fd, n, denied))
  {
    hide InfoOf;
    hide Held;
    hide Remove;
    hide Register;
    var op := Held(s.reactor, fd, WRITE).value;
    var w := s.writes[op];
    var r := Remove(s.reactor, fd, WRITE);
    var s1 := s.(reactor := r, writes := s.writes[op := Write(w.full, w.sent + w.view[..n], Advance(w.view, n))]);
    RemoveSlot(s.reactor, fd, WRITE);
    if n == |w.view| {
      CompleteCarries(s, r, s1.writes, fd, WRITE, SUCCESS, |w.sent| + n);
    } else {
      var r' := Register(r, fd, WRITE, op, denied);
      RegisterSlot(r, fd, WRITE, op, denied);
      if |r'.ran| != |r.ran| {
        var code :| code != SUCCESS && r'.ran == r.ran + [Ran(op, code)];
      }
    }
  }

  lemma StepCarries(s: Sockets, step: Step)
    requires Enabled(s, step)
    ensures Carries(s, Apply(s, step))
  {
    hide InfoOf;
    hide Carries;
    hide SlotStep;
    hide Settle;
    hide Complete;
    hide Register;
    hide OnWritable;
    hide Cancel;
    hide TakeOut;
    hide Fire;
    match step
    case StartRead(fd, denied) =>
      StartCarries(s, fd, READ, |s.where|, denied);
      SettleCarries(s, s.(where := s.where + [InSlot(fd, READ)]),
                    Register(s.reactor, fd, READ, |s.where|, denied), fd, READ);
    case StartWrite(fd, data, denied) =>
      StartCarries(s, fd, WRITE, |s.where|, denied);
      SettleCarries(s, Announced(s, fd, WRITE, data), Register(s.reactor, fd, WRITE, |s.where|, denied), fd, WRITE);
    case Readable(fd, code, nread) =>
      RemoveSlot(s.reactor, fd, READ);
      CompleteCarries(s, Remove(s.reactor, fd, READ), s.writes, fd, READ, code, if code == SUCCESS then nread else 0);
    case Writable(fd, n, denied) => WritableCarries(s, fd, n, denied);
    case WriteError(fd, code) =>
      RemoveSlot(s.reactor, fd, WRITE);
      CompleteCarries(s, Remove(s.reactor, fd, WRITE), s.writes, fd, WRITE, code,
                      SentBytes(s, Held(s.reactor, fd, WRITE).value));
    case CancelOne(fd, d) =>
      CancelStep(s.reactor, fd, d);
      SettleCarries(s, s, Cancel(s.reactor, fd, d), fd, d);
    case CancelAllFirst(fd) =>
      CancelAllReadStep(s.reactor, fd);
      SettleCarries(s, s, CancelAllRead(s.reactor, fd), fd, READ);
    case CancelAllSecond =>
      var k := |s.reactor.unwinding| - 1;
      TakeOutStep(s.reactor, s.reactor.unwinding[k], WRITE, s.reactor.unwinding[..k], s.reactor.kernel);
      SettleCarries(s, s, CancelAllWrite(s.reactor), s.reactor.unwinding[k], WRITE);
    case HangUp(fd, d) =>
      FireStep(s.reactor, fd, d, EFDHUP);
      SettleCarries(s, s, Fire(s.reactor, fd, d, EFDHUP), fd, d);
  }

  lemma CancelAllReadStep(r: Reactor, fd: int)
    ensures SlotStep(r, CancelAllRead(r, fd), fd, READ)
  {
    TakeOutStep(r, fd, READ, r.unwinding + [fd], CtlDel(r.kernel, fd));
  }

  /** A hang-up that finds an operation tells its caller and leaves it registered. */
  lemma MeetingTellsAgain(s: Sockets, step: Step)
    requires Meets(s, step) && Held(s.reactor, step.fd, step.d).value < |s.where|
    ensures Again(Apply(s, step), Held(s.reactor, step.fd, step.d).value)
  {
    var op := Held(s.reactor, step.fd, step.d).value;
    var s' := Apply(s, step);
    assert s'.done[|s.done|].op == op && Held(s'.reactor, step.fd, step.d) == Some(op);
  }

  lemma {:induction false} AgainInRun(s: Sockets, steps: seq<Step>, op: nat)
    requires Runs(s, steps) && Again(s, op)
    ensures Again(After(s, steps), op)
    decreases |steps|
  {
    hide Again;
    hide Carries;
    hide Apply;
    hide Enabled;
    if steps != [] {
      StepCarries(s, steps[0]);
      AgainStays(s, Apply(s, steps[0]), op);
      AgainInRun(Apply(s, steps[0]), steps[1..], op);
    }
  }

  lemma HeldIsKnown(s: Sockets, fd: int, d: Dir)
    requires Inv(s) && Held(s.reactor, fd, d).Some?
    ensures Held(s.reactor, fd, d).value < |s.where|
  {
    hide InfoOf;
  }

  lemma {:induction false} HangUpShows(s: Sockets, steps: seq<Step>) returns (op: nat)
    requires Inv(s) && Runs(s, steps) && !Spared(s, steps)
    ensures Again(After(s, steps), op)
    decreases |steps|
  {
    hide Inv;
    hide Again;
    hide Apply;
    hide Enabled;
    hide InfoOf;
    var s' := Apply(s, steps[0]);
    if Meets(s, steps[0]) {
      op := Held(s.reactor, steps[0].fd, steps[0].d).value;
      HeldIsKnown(s, steps[0].fd, steps[0].d);
      MeetingTellsAgain(s, steps[0]);
      AgainInRun(s', steps[1..], op);
    } else {
      StepKeeps(s, steps[0]);
      op := HangUpShows(s', steps[1..]);
    }
  }

  lemma AgainNotOnce(s: Sockets, op: nat)
    requires Again(s, op)
    ensures !OnceEach(s)
  {
    hide InfoOf;
    hide Held;
  }

  /** Whole runs, hang-ups included: each callback runs once and is otherwise still pending, if and only
      if no hang-up has found a registered operation. */
  lemma OneCallbackEach(steps: seq<Step>)
    requires Runs(IDLE_SOCKETS, steps)
    ensures OnceEach(After(IDLE_SOCKETS, steps)) <==> Spared(IDLE_SOCKETS, steps)
  {
    hide Inv;
    hide OnceEach;
    hide Spared;
    hide Runs;
    hide After;
    IdleInv();
    if Spared(IDLE_SOCKETS, steps) {
      RunKeeps(IDLE_SOCKETS, steps);
      InvOnceEach(After(IDLE_SOCKETS, steps));
    } else {
      var op := HangUpShows(IDLE_SOCKETS, steps);
      AgainNotOnce(After(IDLE_SOCKETS, steps), op);
    }
  }

  lemma StepsRun(s: Sockets, first: Step, more: seq<Step>)
    requires Enabled(s, first) && Runs(Apply(s, first), more)
    ensures Runs(s, [first] + more) && After(s, [first] + more) == After(Apply(s, first), more)
  {
    assert ([first] + more)[1..] == more;
  }

  /** A read on descriptor 3 that meets a hang-up and then data: its callback runs with the error, and
      again with the bytes. */
  lemma HangUpTellsTwice(nread: nat)
    ensures var steps := [StartRead(3, SUCCESS), HangUp(3, READ), Readable(3, SUCCESS, nread)];
            Runs(IDLE_SOCKETS, steps)
            && After(IDLE_SOCKETS, steps).done == [Completion(0, -1001, 0), Completion(0, 0, nread)]
  {
    hide Runs;
    hide After;
    hide AsyncRead;
    hide OnReadable;
    hide Settle;
    hide Held;
    var a, b, c := StartRead(3, SUCCESS), HangUp(3, READ), Readable(3, SUCCESS, nread);
    assert [a] + [b, c] == [a, b, c] && [b] + [c] == [b, c] && [c] + [] == [c];
    var s1 := Apply(IDLE_SOCKETS, a);
    ReadStarts();
    var s2 := Apply(s1, b);
    HangUpTells(s1, 3, 0);
    ReadEnds(s2, 3, 0, nread);
    NothingRuns(Apply(s2, c));
    StepsRun(s2, c, []);
    StepsRun(s1, b, [c]);
    StepsRun(IDLE_SOCKETS, a, [b, c]);
  }

  lemma ReadStarts()
    ensures var s := AsyncRead(IDLE_SOCKETS, 3, SUCCESS);
            Held(s.reactor, 3, READ) == Some(0) && s.done == [] && s.writes == map[]
  {
  }

  lemma HangUpTells(s: Sockets, fd: int, op: nat)
    requires Held(s.reactor, fd, READ) == Some(op) && op !in s.writes
    ensures var s' := Settle(s, Fire(s.reactor, fd, READ, EFDHUP));
            Held(s'.reactor, fd, READ) == Some(op) && s'.done == s.done + [Completion(op, EFDHUP, 0)]
  {
  }

  lemma ReadEnds(s: Sockets, fd: int, op: nat, nread: nat)
    requires Held(s.reactor, fd, READ) == Some(op)
    ensures OnReadable(s, fd, SUCCESS, nread).done == s.done + [Completion(op, SUCCESS, nread)]
  {
  }

  lemma NothingRuns(s: Sockets)
    ensures Runs(s, []) && After(s, []) == s
  {
  }

  lemma IdleInv()
    ensures Inv(IDLE_SOCKETS)
  {
  }

  /** Whole runs: through any partial writes, the bytes sent and the view left make up the buffer,
      every completion reports the bytes sent, and a successful one has sent them all. */
  lemma WritesConserved(steps: seq<Step>)
    requires Runs(IDLE_SOCKETS, steps) && Spared(IDLE_SOCKETS, steps)
    ensures var s := After(IDLE_SOCKETS, steps);
            && (forall op :: op in s.writes ==> s.writes[op].sent + s.writes[op].view == s.writes[op].full)
            && (forall i :: 0 <= i < |s.done| && s.done[i].op in s.writes ==>
                  var w := s.writes[s.done[i].op];
                  s.done[i].nbytes == |w.sent| && (s.done[i].code == SUCCESS ==> w.sent == w.full))
  {
    RunKeeps(IDLE_SOCKETS, steps);
  }

  /** A partial write that the kernel lets re-register goes on: the same operation, no callback. */
  lemma PartialWriteContinues(s: Sockets, fd: int, n: nat)
    requires Inv(s) && ReactorModel.Inv(s.reactor) && Enabled(s, Writable(fd, n, SUCCESS))
    requires n < |s.writes[Held(s.reactor, fd, WRITE).value].view|
    ensures var s' := OnWritable(s, fd, n, SUCCESS);
            s'.done == s.done && s'.where == s.where && Held(s'.reactor, fd, WRITE) == Held(s.reactor, fd, WRITE)
  {
    var r := Remove(s.reactor, fd, WRITE);
    RemoveKeeps(s.reactor, fd, WRITE);
    RegisterExact(r, fd, WRITE, Held(s.reactor, fd, WRITE).value);
  }
}
