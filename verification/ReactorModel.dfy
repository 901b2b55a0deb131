/** The reactor's bookkeeping: for every file descriptor a pair of operations, and in the kernel
    the interest set that must agree with it. A callback is a point between two steps, so that
    whatever a callback registers, removes or cancels is a step of its own. */
module ReactorModel {
  import Seqs
  import opened Wrappers

  datatype Dir = READ | WRITE

  const SUCCESS: int := 0
  const EFDHUP: int := -1001
  const EOPCANCELED: int := -1002
  const EOPEXISTS: int := -1003
  const ENOENT: int := 2
  const EEXIST: int := 17

  /** The operations of one descriptor; a number stands for the closure that was registered. */
  datatype OpInfo = OpInfo(read: Option<nat>, write: Option<nat>) {

    function Get(d: Dir): Option<nat> {
      if d == READ then read else write
    }

    function Set(d: Dir, op: Option<nat>): OpInfo {
      if d == READ then this.(read := op) else this.(write := op)
    }

    /** The interest the kernel should have. */
    function Wanted(): set<Dir> {
      (if read.Some? then {READ} else {}) + (if write.Some? then {WRITE} else {})
    }
  }

  const NONE: OpInfo := OpInfo(None, None)

  function Other(d: Dir): Dir {
    if d == READ then WRITE else READ
  }

  datatype Ran = Ran(op: nat, code: int)

  /** `unwinding` lists the descriptors whose cancellation of all operations is between its read
      and its write half, innermost last; `ran` lists the callbacks run, with their codes. */
  datatype Reactor = Reactor(ops: map<int, OpInfo>, kernel: map<int, set<Dir>>, unwinding: seq<int>, ran: seq<Ran>)

  const IDLE: Reactor := Reactor(map[], map[], [], [])

  function InfoOf(r: Reactor, fd: int): OpInfo {
    if fd in r.ops then r.ops[fd] else NONE
  }

  // ---------------------------------------------------------------- the kernel

  /** ADD fails on a present descriptor; `denied` is an error of the kernel's own. */
  function CtlAdd(kernel: map<int, set<Dir>>, fd: int, events: set<Dir>, denied: int): (int, map<int, set<Dir>>) {
    if denied != SUCCESS then (denied, kernel)
    else if fd in kernel then (EEXIST, kernel)
    else (SUCCESS, kernel[fd := events])
  }

  /** MOD fails on an absent one. */
  function CtlMod(kernel: map<int, set<Dir>>, fd: int, events: set<Dir>, denied: int): (int, map<int, set<Dir>>) {
    if denied != SUCCESS then (denied, kernel)
    else if fd !in kernel then (ENOENT, kernel)
    else (SUCCESS, kernel[fd := events])
  }

  /** DEL of an absent one is ignored by all callers. */
  function CtlDel(kernel: map<int, set<Dir>>, fd: int): map<int, set<Dir>> {
    kernel - {fd}
  }

  // ---------------------------------------------------------------- operations

  /** A registration: its closure is stored, or run at once with the reason why not. */
  function Register(r: Reactor, fd: int, d: Dir, op: nat, denied: int): Reactor {
    var info := InfoOf(r, fd);
    var ops := r.ops[fd := info];
    if info.Get(d).Some? then r.(ops := ops, ran := r.ran + [Ran(op, EOPEXISTS)])
    else
      var (errcode, kernel) := if info.Get(Other(d)).Some? then CtlMod(r.kernel, fd, {READ, WRITE}, denied)
                               else CtlAdd(r.kernel, fd, {d}, denied);
      if errcode != SUCCESS then r.(ops := ops, ran := r.ran + [Ran(op, errcode)])
      else r.(ops := r.ops[fd := info.Set(d, Some(op))], kernel := kernel)
  }

  /** Interest after taking out direction `d`; the error code is not looked at. */
  function Uninterest(r: Reactor, fd: int, d: Dir): map<int, set<Dir>> {
    if InfoOf(r, fd).Get(Other(d)).Some? then CtlMod(r.kernel, fd, {Other(d)}, SUCCESS).1
    else CtlDel(r.kernel, fd)
  }

  function Remove(r: Reactor, fd: int, d: Dir): Reactor {
    var info := InfoOf(r, fd);
    if info.Get(d).None? then r
    else r.(ops := r.ops[fd := info.Set(d, None)], kernel := Uninterest(r, fd, d))
  }

  /** The closure is taken out first and run afterwards, so that it may register anew. */
  function Cancel(r: Reactor, fd: int, d: Dir): Reactor {
    var op := InfoOf(r, fd).Get(d);
    if op.None? then r
    else Remove(r, fd, d).(ran := r.ran + [Ran(op.value, EOPCANCELED)])
  }

  function RemoveAll(r: Reactor, fd: int): Reactor {
    if InfoOf(r, fd) == NONE then r
    else r.(ops := r.ops[fd := NONE], kernel := CtlDel(r.kernel, fd))
  }

  function TakeOut(r: Reactor, fd: int, d: Dir): Reactor {
    var op := InfoOf(r, fd).Get(d);
    if op.None? then r
    else r.(ops := r.ops[fd := InfoOf(r, fd).Set(d, None)], ran := r.ran + [Ran(op.value, EOPCANCELED)])
  }

  /** Cancelling all operations, up to and including the read callback ... */
  function CancelAllRead(r: Reactor, fd: int): Reactor {
    if InfoOf(r, fd) == NONE then r
    else TakeOut(r.(kernel := CtlDel(r.kernel, fd)), fd, READ).(unwinding := r.unwinding + [fd])
  }

  /** ... and the rest of it: the write callback. The kernel is not asked again. */
  function CancelAllWrite(r: Reactor): Reactor
    requires r.unwinding != []
  {
    var n := |r.unwinding| - 1;
    TakeOut(r, r.unwinding[n], WRITE).(unwinding := r.unwinding[..n])
  }

  /** The event loop runs an operation that is still there; it does not take it out. */
  function Fire(r: Reactor, fd: int, d: Dir, code: int): Reactor {
    var op := InfoOf(r, fd).Get(d);
    if op.None? then r else r.(ran := r.ran + [Ran(op.value, code)])
  }

  // ---------------------------------------------------------------- agreement

  /** The kernel's interest is exactly what the operations call for. */
  predicate Agrees(r: Reactor, fd: int) {
    var wanted := InfoOf(r, fd).Wanted();
    if wanted == {} then fd !in r.kernel else fd in r.kernel && r.kernel[fd] == wanted
  }

  /** In the middle of cancelling all: gone from the kernel, the write operation still to be cancelled. */
  predicate Detached(r: Reactor, fd: int) {
    fd in r.unwinding && fd !in r.kernel && InfoOf(r, fd).read.None? && InfoOf(r, fd).write.Some?
  }

  ghost predicate Inv(r: Reactor) {
    forall fd :: Agrees(r, fd) || Detached(r, fd)
  }

  /** A step that touches one descriptor only. */
  ghost predicate Only(r: Reactor, r': Reactor, fd: int) {
    && (forall x :: x != fd ==> InfoOf(r', x) == InfoOf(r, x))
    && (forall x :: x != fd ==> (x in r'.kernel <==> x in r.kernel))
    && (forall x :: x != fd && x in r.kernel ==> r'.kernel[x] == r.kernel[x])
    && (forall x :: x in r.unwinding ==> x in r'.unwinding)
  }

  lemma OnlyKeeps(r: Reactor, r': Reactor, fd: int)
    requires Inv(r) && Only(r, r', fd)
    requires Agrees(r', fd) || Detached(r', fd)
    ensures Inv(r')
  {
    forall x ensures Agrees(r', x) || Detached(r', x) {
      if x != fd {
        assert Agrees(r, x) || Detached(r, x);
        assert InfoOf(r', x) == InfoOf(r, x);
      }
    }
  }

  lemma RegisterKeeps(r: Reactor, fd: int, d: Dir, op: nat, denied: int)
    requires Inv(r)
    ensures Inv(Register(r, fd, d, op, denied))
  {
    assert Agrees(r, fd) || Detached(r, fd);
    OnlyKeeps(r, Register(r, fd, d, op, denied), fd);
  }

  /** Registering a free direction that the kernel does not deny succeeds exactly when the
      descriptor is not in the middle of a cancellation: ADD never meets a present descriptor
      and MOD an absent one only there. */
  lemma RegisterExact(r: Reactor, fd: int, d: Dir, op: nat)
    requires Inv(r) && InfoOf(r, fd).Get(d).None?
    ensures InfoOf(Register(r, fd, d, op, SUCCESS), fd).Get(d) == Some(op) <==> !Detached(r, fd)
    ensures Detached(r, fd) ==> Register(r, fd, d, op, SUCCESS).ran == r.ran + [Ran(op, ENOENT)]
    ensures !Detached(r, fd) ==> Register(r, fd, d, op, SUCCESS).ran == r.ran
  {
    assert Agrees(r, fd) || Detached(r, fd);
  }

  lemma RemoveKeeps(r: Reactor, fd: int, d: Dir)
    requires Inv(r)
    ensures Inv(Remove(r, fd, d))
  {
    assert Agrees(r, fd) || Detached(r, fd);
    OnlyKeeps(r, Remove(r, fd, d), fd);
  }

  lemma CancelKeeps(r: Reactor, fd: int, d: Dir)
    requires Inv(r)
    ensures Inv(Cancel(r, fd, d))
  {
    RemoveKeeps(r, fd, d);
    var r1, r2 := Remove(r, fd, d), Cancel(r, fd, d);
    forall x ensures Agrees(r2, x) || Detached(r2, x) {
      assert Agrees(r1, x) || Detached(r1, x);
      assert InfoOf(r2, x) == InfoOf(r1, x);
    }
  }

  lemma RemoveAllKeeps(r: Reactor, fd: int)
    requires Inv(r)
    ensures Inv(RemoveAll(r, fd))
  {
    assert Agrees(r, fd) || Detached(r, fd);
    OnlyKeeps(r, RemoveAll(r, fd), fd);
  }

  lemma CancelAllReadKeeps(r: Reactor, fd: int)
    requires Inv(r)
    ensures Inv(CancelAllRead(r, fd))
  {
    assert Agrees(r, fd) || Detached(r, fd);
    OnlyKeeps(r, CancelAllRead(r, fd), fd);
  }

  /** Whether the second half of the innermost cancellation finds a write operation that was
      armed in the meantime: one that the kernel knows. */
  predicate Rearmed(r: Reactor)
    requires r.unwinding != []
  {
    var fd := r.unwinding[|r.unwinding| - 1];
    InfoOf(r, fd).write.Some? && fd in r.kernel
  }

  /** The second half keeps the agreement exactly when no callback has re-armed writing on the
      descriptor since the first half: a re-armed operation is dropped, its interest stays. */
  lemma CancelAllWriteExact(r: Reactor)
    requires Inv(r) && r.unwinding != []
    ensures Inv(CancelAllWrite(r)) <==> !Rearmed(r)
  {
    var n := |r.unwinding| - 1;
    var fd := r.unwinding[n];
    var r' := CancelAllWrite(r);
    assert Agrees(r, fd) || Detached(r, fd);
    assert r.unwinding == r.unwinding[..n] + [fd];
    if Rearmed(r) {
      assert !Agrees(r', fd) && !Detached(r', fd);
    } else {
      forall x ensures Agrees(r', x) || Detached(r', x) {
        assert Agrees(r, x) || Detached(r, x);
        assert x != fd ==> InfoOf(r', x) == InfoOf(r, x);
      }
    }
  }

  lemma FireKeeps(r: Reactor, fd: int, d: Dir, code: int)
    requires Inv(r)
    ensures Inv(Fire(r, fd, d, code))
  {
    var r' := Fire(r, fd, d, code);
    assert forall x :: InfoOf(r', x) == InfoOf(r, x);
    forall x ensures Agrees(r', x) || Detached(r', x) {
      assert Agrees(r, x) || Detached(r, x);
    }
  }

  // ---------------------------------------------------------------- what each operation does

  /** The other descriptors are as they were, in slots and in the kernel. */
  ghost predicate Spares(r: Reactor, r': Reactor, fd: int) {
    && (forall x :: x != fd ==> InfoOf(r', x) == InfoOf(r, x))
    && r'.kernel - {fd} == r.kernel - {fd}
  }

  ghost predicate Unchanged(r: Reactor, r': Reactor) {
    (forall x :: InfoOf(r', x) == InfoOf(r, x)) && r'.kernel == r.kernel && r'.unwinding == r.unwinding
  }

  /** The callbacks that telling a slot's operation amounts to. */
  function Callbacks(op: Option<nat>, code: int): seq<Ran> {
    match op
    case None => []
    case Some(n) => [Ran(n, code)]
  }

  /** An event runs the operation of its own direction, and only that. */
  lemma FireRuns(r: Reactor, fd: int, code: int)
    ensures Fire(r, fd, READ, code) == r.(ran := r.ran + Callbacks(InfoOf(r, fd).read, code))
    ensures Fire(r, fd, WRITE, code) == r.(ran := r.ran + Callbacks(InfoOf(r, fd).write, code))
  {
    Seqs.NoMore(r.ran);
  }

  /** A read registration, with the reasons for a refusal in the order of the tests: 'exists', the kernel's own
      error, and 'no entry' in the middle of a cancellation. */
  lemma RegisterReadDoes(r: Reactor, fd: int, op: nat, denied: int)
    requires Inv(r)
    ensures var r', info := Register(r, fd, READ, op, denied), InfoOf(r, fd);
            if info.read.Some? then Unchanged(r, r') && r'.ran == r.ran + [Ran(op, -1003)]
            else if denied != 0 then Unchanged(r, r') && r'.ran == r.ran + [Ran(op, denied)]
            else if fd !in r.kernel && info.write.Some? then Unchanged(r, r') && r'.ran == r.ran + [Ran(op, 2)]
            else
              && InfoOf(r', fd) == OpInfo(Some(op), info.write) && Spares(r, r', fd) && fd in r'.kernel
              && r'.kernel[fd] == (if info.write.Some? then {READ, WRITE} else {READ})
              && r'.ran == r.ran && r'.unwinding == r.unwinding
  {
    assert Agrees(r, fd) || Detached(r, fd);
  }

  lemma RegisterWriteDoes(r: Reactor, fd: int, op: nat, denied: int)
    requires Inv(r)
    ensures var r', info := Register(r, fd, WRITE, op, denied), InfoOf(r, fd);
            if info.write.Some? then Unchanged(r, r') && r'.ran == r.ran + [Ran(op, -1003)]
            else if denied != 0 then Unchanged(r, r') && r'.ran == r.ran + [Ran(op, denied)]
            else
              && InfoOf(r', fd) == OpInfo(info.read, Some(op)) && Spares(r, r', fd) && fd in r'.kernel
              && r'.kernel[fd] == (if info.read.Some? then {READ, WRITE} else {WRITE})
              && r'.ran == r.ran && r'.unwinding == r.unwinding
  {
    assert Agrees(r, fd) || Detached(r, fd);
  }

  /** Removal empties one slot, tells nobody, and leaves the kernel the interest of the other. */
  lemma RemoveDoes(r: Reactor, fd: int)
    requires Inv(r)
    ensures var r', info := Remove(r, fd, READ), InfoOf(r, fd);
            && InfoOf(r', fd) == OpInfo(None, info.write) && Spares(r, r', fd)
            && (info.read.Some? ==> r'.kernel == if info.write.Some? then r.kernel[fd := {WRITE}] else r.kernel - {fd})
            && r'.ran == r.ran && r'.unwinding == r.unwinding
    ensures var r', info := Remove(r, fd, WRITE), InfoOf(r, fd);
            && InfoOf(r', fd) == OpInfo(info.read, None) && Spares(r, r', fd)
            && (info.write.Some? && fd in r.kernel ==>
                  r'.kernel == if info.read.Some? then r.kernel[fd := {READ}] else r.kernel - {fd})
            && r'.ran == r.ran && r'.unwinding == r.unwinding
  {
    assert Agrees(r, fd) || Detached(r, fd);
  }

  /** Cancellation removes and then tells the one operation. */
  lemma CancelDoes(r: Reactor, fd: int)
    ensures Cancel(r, fd, READ) == Remove(r, fd, READ).(ran := r.ran + Callbacks(InfoOf(r, fd).read, -1002))
    ensures Cancel(r, fd, WRITE) == Remove(r, fd, WRITE).(ran := r.ran + Callbacks(InfoOf(r, fd).write, -1002))
  {
    Seqs.NoMore(r.ran);
  }

  /** Removing both empties both slots and tells nobody. */
  lemma RemoveAllDoes(r: Reactor, fd: int)
    requires Inv(r)
    ensures var r' := RemoveAll(r, fd);
            && InfoOf(r', fd) == OpInfo(None, None) && fd !in r'.kernel && Spares(r, r', fd)
            && r'.ran == r.ran && r'.unwinding == r.unwinding
  {
    assert Agrees(r, fd) || Detached(r, fd);
  }

  /** The first half of cancelling both tells the read operation, out of its slot, with the kernel's interest
      gone; if there is nothing to cancel it does nothing. */
  lemma CancelAllReadDoes(r: Reactor, fd: int)
    requires Inv(r)
    ensures var r', info := CancelAllRead(r, fd), InfoOf(r, fd);
            && InfoOf(r', fd) == OpInfo(None, info.write) && fd !in r'.kernel && Spares(r, r', fd)
            && r'.ran == r.ran + Callbacks(info.read, -1002)
            && r'.unwinding == r.unwinding + (if info == OpInfo(None, None) then [] else [fd])
  {
    assert Agrees(r, fd) || Detached(r, fd);
    Seqs.NoMore(r.unwinding);
    Seqs.NoMore(r.ran);
  }

  /** The second half tells whatever write operation it finds, and leaves the kernel alone. */
  lemma CancelAllWriteDoes(r: Reactor, fd: int)
    requires r.unwinding != [] && fd == r.unwinding[|r.unwinding| - 1]
    ensures var r', info := CancelAllWrite(r), InfoOf(r, fd);
            && InfoOf(r', fd) == OpInfo(info.read, None) && Spares(r, r', fd) && r'.kernel == r.kernel
            && r'.ran == r.ran + Callbacks(info.write, -1002)
            && r'.unwinding + [fd] == r.unwinding
  {
    Seqs.NoMore(r.ran);
    assert r.unwinding == r.unwinding[..|r.unwinding| - 1] + [fd];
  }

  // ---------------------------------------------------------------- runs

  datatype Step =
    | DoRegister(fd: int, d: Dir, op: nat, denied: int)
    | DoRemove(fd: int, d: Dir)
    | DoCancel(fd: int, d: Dir)
    | DoRemoveAll(fd: int)
    | DoCancelAllRead(fd: int)
    | DoCancelAllWrite
    | DoFire(fd: int, d: Dir, code: int)

  predicate Enabled(r: Reactor, step: Step) {
    step == DoCancelAllWrite ==> r.unwinding != []
  }

  function Apply(r: Reactor, step: Step): Reactor
    requires Enabled(r, step)
  {
    match step
    case DoRegister(fd, d, op, denied) => Register(r, fd, d, op, denied)
    case DoRemove(fd, d) => Remove(r, fd, d)
    case DoCancel(fd, d) => Cancel(r, fd, d)
    case DoRemoveAll(fd) => RemoveAll(r, fd)
    case DoCancelAllRead(fd) => CancelAllRead(r, fd)
    case DoCancelAllWrite => CancelAllWrite(r)
    case DoFire(fd, d, code) => Fire(r, fd, d, code)
  }

  /** A run in which no cancellation of all operations finishes on a re-armed descriptor. */
  predicate Runs(r: Reactor, steps: seq<Step>)
    decreases |steps|
  {
    steps == []
    || (Enabled(r, steps[0]) && (steps[0] == DoCancelAllWrite ==> !Rearmed(r)) && Runs(Apply(r, steps[0]), steps[1..]))
  }

  function After(r: Reactor, steps: seq<Step>): Reactor
    requires Runs(r, steps)
    decreases |steps|
  {
    if steps == [] then r else After(Apply(r, steps[0]), steps[1..])
  }

  lemma StepKeeps(r: Reactor, step: Step)
    requires Inv(r) && Enabled(r, step) && (step == DoCancelAllWrite ==> !Rearmed(r))
    ensures Inv(Apply(r, step))
  {
    match step
    case DoRegister(fd, d, op, denied) => RegisterKeeps(r, fd, d, op, denied);
    case DoRemove(fd, d) => RemoveKeeps(r, fd, d);
    case DoCancel(fd, d) => CancelKeeps(r, fd, d);
    case DoRemoveAll(fd) => RemoveAllKeeps(r, fd);
    case DoCancelAllRead(fd) => CancelAllReadKeeps(r, fd);
    case DoCancelAllWrite => CancelAllWriteExact(r);
    case DoFire(fd, d, code) => FireKeeps(r, fd, d, code);
  }

  lemma {:induction false} RunKeeps(r: Reactor, steps: seq<Step>)
    requires Inv(r) && Runs(r, steps)
    ensures Inv(After(r, steps))
    decreases |steps|
  {
    if steps != [] {
      StepKeeps(r, steps[0]);
      RunKeeps(Apply(r, steps[0]), steps[1..]);
    }
  }

  /** In every such run, whatever its callbacks register, remove or cancel: outside a pending
      cancellation, kernel and operations agree on every descriptor. */
  lemma KernelAgrees(steps: seq<Step>, fd: int)
    requires Runs(IDLE, steps)
    ensures var r := After(IDLE, steps);
            Agrees(r, fd) || Detached(r, fd)
    ensures After(IDLE, steps).unwinding == [] ==> Agrees(After(IDLE, steps), fd)
  {
    RunKeeps(IDLE, steps);
    var r := After(IDLE, steps);
    assert Agrees(r, fd) || Detached(r, fd);
  }

  /** The failure: a read callback that removes and re-registers the write operation during the
      cancellation of all leaves an interest in the kernel with no operation behind it. */
  lemma RearmDuringCancelAll()
    ensures var r1 := CancelAllRead(Register(Register(IDLE, 3, READ, 0, SUCCESS), 3, WRITE, 1, SUCCESS), 3);
            var r2 := Register(Remove(r1, 3, WRITE), 3, WRITE, 2, SUCCESS);
            var r3 := CancelAllWrite(r2);
            && Rearmed(r2)
            && r3.kernel == map[3 := {WRITE}] && InfoOf(r3, 3) == NONE
            && r3.ran == [Ran(0, EOPCANCELED), Ran(2, EOPCANCELED)]
  {
    var r0 := Register(Register(IDLE, 3, READ, 0, SUCCESS), 3, WRITE, 1, SUCCESS);
    assert InfoOf(r0, 3) == OpInfo(Some(0), Some(1));
    var r1 := CancelAllRead(r0, 3);
    assert InfoOf(r1, 3) == OpInfo(None, Some(1)) && r1.kernel == map[];
    var r2 := Register(Remove(r1, 3, WRITE), 3, WRITE, 2, SUCCESS);
    assert InfoOf(r2, 3) == OpInfo(None, Some(2)) && r2.kernel == map[3 := {WRITE}];
  }

  /** And such an interest stays: nothing can be registered on the descriptor any more, each attempt is told
      that it exists. */
  lemma StaleInterestRefuses(r: Reactor, fd: int, op: nat)
    requires fd in r.kernel && InfoOf(r, fd) == OpInfo(None, None)
    ensures var r' := Register(r, fd, READ, op, SUCCESS); Unchanged(r, r') && r'.ran == r.ran + [Ran(op, 17)]
    ensures var r' := Register(r, fd, WRITE, op, SUCCESS); Unchanged(r, r') && r'.ran == r.ran + [Ran(op, 17)]
  {
  }
}
