/** Handing tasks to the reactor's thread: any thread appends to a list under a lock and bumps an
    event counter; the reactor's thread, woken by the counter, clears it and takes the list under
    the same lock, then runs what it took without it. A step is one action of one thread. */
module BridgeModel {
  import Seqs

  /** A task, and the tasks that running it pushes. */
  datatype Task = Task(id: int, pushes: seq<Task>)

  /** The largest value an event counter holds; a write beyond it fails and changes nothing. */
  const FULL: nat := 0xffff_ffff_ffff_fffe

  function Bump(counter: nat): (c: nat)
    ensures counter <= FULL ==> 0 < c <= FULL
  {
    if counter >= FULL then counter else counter + 1
  }

  /** Who holds the mutex, and how far it has come. */
  datatype Lock =
    | Free
    | Pushing(left: seq<Task>)
    | Pushed
    | Clearing
    | Taking
    | Taken

  /** `running` is what the reactor's thread has taken and not begun; `ran` and `pushed` are
      histories, `pushed` in the order in which the lock was given out. */
  datatype State = State(lock: Lock, queue: seq<Task>, counter: nat,
                         running: seq<Task>, ran: seq<Task>, pushed: seq<Task>)

  datatype Step =
    | StartPush(tasks: seq<Task>)
    | Append
    | Wake
    | Unlock
    | StartExecute
    | Clear
    | Take
    | RunNext

  function Start(): State {
    State(Free, [], 0, [], [], [])
  }

  /** A step its thread cannot take now leaves everything as it is. */
  function Next(s: State, step: Step): State {
    match step
    case StartPush(tasks) =>
      if s.lock == Free then s.(lock := Pushing(tasks), pushed := s.pushed + tasks) else s
    case Append =>
      if s.lock.Pushing? && s.lock.left != [] then
        s.(lock := Pushing(s.lock.left[1..]), queue := s.queue + [s.lock.left[0]])
      else s
    case Wake =>
      if s.lock == Pushing([]) then s.(lock := Pushed, counter := Bump(s.counter)) else s
    case Unlock =>
      if s.lock == Pushed || s.lock == Taken then s.(lock := Free) else s
    case StartExecute =>
      if s.lock == Free && s.running == [] then s.(lock := Clearing) else s
    case Clear =>
      if s.lock == Clearing then s.(lock := Taking, counter := 0) else s
    case Take =>
      if s.lock == Taking then s.(lock := Taken, running := s.queue, queue := []) else s
    case RunNext =>
      if s.running != [] && s.lock != Taken then
        s.(running := s.running[1..], ran := s.ran + [s.running[0]])
      else s
  }

  function Run(s: State, steps: seq<Step>): State
    decreases |steps|
  {
    if steps == [] then s else Run(Next(s, steps[0]), steps[1..])
  }

  /** What the lock's holder has still to append. */
  function Pending(l: Lock): seq<Task> {
    if l.Pushing? then l.left else []
  }

  predicate Conserved(s: State) {
    s.ran + s.running + s.queue + Pending(s.lock) == s.pushed
  }

  predicate Inv(s: State) {
    && Conserved(s)
    && s.counter <= FULL
    && (s.queue != [] && !s.lock.Pushing? && s.lock != Taking ==> s.counter > 0)
    && (s.lock == Clearing || s.lock == Taking ==> s.running == [])
  }

  lemma KeepsConserved(s: State, step: Step)
    requires Conserved(s)
    requires s.lock == Taking ==> s.running == []
    ensures Conserved(Next(s, step))
  {
    var n := Next(s, step);
    match step
    case StartPush(tasks) =>
      if s.lock == Free {
        assert n.pushed == (s.ran + s.running + s.queue) + tasks;
      }
    case Append =>
      if n != s {
        var left := s.lock.left;
        assert left == [left[0]] + left[1..];
        assert n.ran + n.running + n.queue + left[1..] == s.ran + s.running + s.queue + left;
      }
    case Take =>
      if n != s {
        assert n.ran + n.running + n.queue == s.ran + s.running + s.queue;
      }
    case RunNext =>
      if n != s {
        assert s.running == [s.running[0]] + s.running[1..];
        assert n.ran + n.running == s.ran + s.running;
      }
    case Wake =>
    case Unlock =>
    case StartExecute =>
    case Clear =>
  }

  lemma Keeps(s: State, step: Step)
    requires Inv(s)
    ensures Inv(Next(s, step))
    ensures s.ran <= Next(s, step).ran && s.pushed <= Next(s, step).pushed
  {
    KeepsConserved(s, step);
  }

  lemma {:induction false} RunKeeps(s: State, steps: seq<Step>)
    requires Inv(s)
    ensures Inv(Run(s, steps))
    ensures s.ran <= Run(s, steps).ran && s.pushed <= Run(s, steps).pushed
    decreases |steps|
  {
    if steps != [] {
      Keeps(s, steps[0]);
      RunKeeps(Next(s, steps[0]), steps[1..]);
    }
  }

  /** After any interleaving: outside the lock, tasks in the list mean the counter is up, so the
      reactor's thread will be woken; and a thread with nothing to wake it has run everything. */
  lemma NoLostWakeup(steps: seq<Step>)
    ensures var s := Run(Start(), steps);
            s.lock == Free ==> (s.queue != [] ==> s.counter > 0)
                               && (s.counter == 0 && s.running == [] ==> s.ran == s.pushed)
  {
    RunKeeps(Start(), steps);
    var s := Run(Start(), steps);
    if s.lock == Free && s.counter == 0 && s.running == [] {
      assert s.ran + s.running + s.queue + Pending(s.lock) == s.ran;
    }
  }

  /** Tasks run in the order in which their pushers got the lock, each once: what has run, what has
      been taken, what is in the list and what is being appended make up what was pushed. */
  lemma RunsInOrder(steps: seq<Step>)
    ensures var s := Run(Start(), steps);
            s.ran + s.running + s.queue + Pending(s.lock) == s.pushed
    ensures Run(Start(), steps).ran <= Run(Start(), steps).pushed
  {
    RunKeeps(Start(), steps);
    var s := Run(Start(), steps);
    assert s.pushed == s.ran + (s.running + s.queue + Pending(s.lock));
  }

  // ---------------------------------------------------------------- whole calls

  function Times(n: nat, step: Step): seq<Step> {
    if n == 0 then [] else [step] + Times(n - 1, step)
  }

  function PushSteps(tasks: seq<Task>): seq<Step> {
    [StartPush(tasks)] + (Times(|tasks|, Append) + [Wake, Unlock])
  }

  const TAKE_STEPS: seq<Step> := [StartExecute, Clear, Take, Unlock]

  lemma {:induction false} RunAppend(s: State, a: seq<Step>, b: seq<Step>)
    ensures Run(s, a + b) == Run(Run(s, a), b)
    decreases |a|
  {
    if a == [] {
      assert a + b == b;
    } else {
      assert (a + b)[1..] == a[1..] + b;
      RunAppend(Next(s, a[0]), a[1..], b);
    }
  }

  lemma RunCons(s: State, step: Step, steps: seq<Step>)
    ensures Run(s, [step] + steps) == Run(Next(s, step), steps)
  {
    assert ([step] + steps)[1..] == steps;
  }

  lemma {:induction false} AppendsRun(s: State)
    requires s.lock.Pushing?
    ensures Run(s, Times(|s.lock.left|, Append)) == s.(lock := Pushing([]), queue := s.queue + s.lock.left)
    decreases |s.lock.left|
  {
    var left := s.lock.left;
    if left == [] {
      assert s.queue + left == s.queue;
    } else {
      RunCons(s, Append, Times(|left| - 1, Append));
      AppendsRun(Next(s, Append));
      assert (s.queue + [left[0]]) + left[1..] == s.queue + left;
    }
  }

  function AfterPush(s: State, tasks: seq<Task>): State {
    s.(queue := s.queue + tasks, counter := Bump(s.counter), pushed := s.pushed + tasks)
  }

  function AfterTake(s: State): State {
    s.(queue := [], counter := 0, running := s.queue)
  }

  lemma PushRun(s: State, tasks: seq<Task>)
    requires s.lock == Free
    ensures Run(s, PushSteps(tasks)) == AfterPush(s, tasks)
  {
    var appends := Times(|tasks|, Append);
    var s1 := Next(s, StartPush(tasks));
    var s2 := s1.(lock := Pushing([]), queue := s.queue + tasks);
    RunCons(s, StartPush(tasks), appends + [Wake, Unlock]);
    RunAppend(s1, appends, [Wake, Unlock]);
    AppendsRun(s1);
    assert [Wake, Unlock] == [Wake] + [Unlock];
    RunCons(s2, Wake, [Unlock]);
    RunCons(Next(s2, Wake), Unlock, []);
    assert [Unlock] + [] == [Unlock];
  }

  /** What `n` writes of 1 leave of an event counter, which stops at its greatest value. */
  function Counted(counter: nat, n: nat): nat {
    if counter + n >= 0xffff_ffff_ffff_fffe then 0xffff_ffff_ffff_fffe else counter + n
  }

  /** One push, of one task or of a range: the tasks behind those in the list, and one wake-up. */
  lemma PushCounts(s: State, tasks: seq<Task>)
    requires s.lock == Free && s.counter <= FULL
    ensures Run(s, PushSteps(tasks))
         == s.(queue := s.queue + tasks, pushed := s.pushed + tasks, counter := Counted(s.counter, 1))
  {
    PushRun(s, tasks);
  }

  lemma TakeRun(s: State)
    requires s.lock == Free && s.running == []
    ensures Run(s, TAKE_STEPS) == AfterTake(s)
  {
    assert TAKE_STEPS == [StartExecute] + ([Clear] + ([Take] + ([Unlock] + [])));
    RunCons(s, StartExecute, [Clear] + ([Take] + ([Unlock] + [])));
    var s1 := Next(s, StartExecute);
    RunCons(s1, Clear, [Take] + ([Unlock] + []));
    RunCons(Next(s1, Clear), Take, [Unlock] + []);
    RunCons(Next(Next(s1, Clear), Take), Unlock, []);
  }

  /** The pushes that running some tasks makes, one call each. */
  function PushedBy(tasks: seq<Task>): seq<Task> {
    if tasks == [] then [] else tasks[0].pushes + PushedBy(tasks[1..])
  }

  function PushEach(tasks: seq<Task>): seq<Step> {
    if tasks == [] then [] else PushSteps([tasks[0]]) + PushEach(tasks[1..])
  }

  function RunSteps(tasks: seq<Task>): seq<Step> {
    if tasks == [] then [] else ([RunNext] + PushEach(tasks[0].pushes)) + RunSteps(tasks[1..])
  }

  lemma {:induction false} PushEachRuns(s: State, tasks: seq<Task>)
    requires s.lock == Free && s.counter <= FULL
    ensures Run(s, PushEach(tasks))
         == s.(counter := Counted(s.counter, |tasks|), queue := s.queue + tasks, pushed := s.pushed + tasks)
    decreases |tasks|
  {
    if tasks == [] {
      assert s.queue + tasks == s.queue && s.pushed + tasks == s.pushed;
    } else {
      var n := AfterPush(s, [tasks[0]]);
      RunAppend(s, PushSteps([tasks[0]]), PushEach(tasks[1..]));
      PushCounts(s, [tasks[0]]);
      PushEachRuns(n, tasks[1..]);
      assert tasks == [tasks[0]] + tasks[1..];
      assert n.queue + tasks[1..] == s.queue + tasks;
      assert n.pushed + tasks[1..] == s.pushed + tasks;
    }
  }

  lemma {:induction false} RunStepsRun(s: State)
    requires s.lock == Free && s.counter <= FULL
    ensures var p := PushedBy(s.running);
            Run(s, RunSteps(s.running))
            == s.(counter := Counted(s.counter, |p|), running := [], ran := s.ran + s.running,
                    queue := s.queue + p, pushed := s.pushed + p)
    decreases |s.running|
  {
    var r := s.running;
    if r == [] {
      assert s.ran + r == s.ran && s.queue + PushedBy(r) == s.queue && s.pushed + PushedBy(r) == s.pushed;
    } else {
      hide Run;
      hide PushEach;
      var first, more := r[0].pushes, RunSteps(r[1..]);
      var s1 := Next(s, RunNext);
      RunAppend(s, [RunNext] + PushEach(first), more);
      RunCons(s, RunNext, PushEach(first));
      PushEachRuns(s1, first);
      var s2 := Run(s1, PushEach(first));
      RunStepsRun(s2);
      var p := PushedBy(r[1..]);
      Seqs.Assoc(s.queue, first, p);
      Seqs.Assoc(s.pushed, first, p);
      Seqs.MoveOver(s.ran, r);
    }
  }

  /** One call of the reactor's thread, undisturbed, runs everything pushed before it and leaves in
      the list exactly what those tasks pushed, and the counter at their number, for the next wake-up. */
  lemma OneCallDrains(s: State)
    requires Inv(s) && s.lock == Free && s.running == []
    ensures var n := Run(s, TAKE_STEPS + RunSteps(s.queue));
            n.lock == Free && n.ran == s.pushed && n.running == [] && n.queue == PushedBy(s.queue)
            && n.counter == Counted(0, |n.queue|)
  {
    RunAppend(s, TAKE_STEPS, RunSteps(s.queue));
    TakeRun(s);
    RunStepsRun(AfterTake(s));
    RunKeeps(s, TAKE_STEPS + RunSteps(s.queue));
    assert s.ran + s.running + s.queue + Pending(s.lock) == s.ran + s.queue;
  }
}
