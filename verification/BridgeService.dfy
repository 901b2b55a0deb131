/** The task bridge as an object: each call does what its run of locked steps does. */
module BridgeServices {
  import opened BridgeModel

  class BridgeService {
    var taskList: seq<Task>
    var counter: nat
    var taken: seq<Task>
    ghost var ran: seq<Task>
    ghost var pushed: seq<Task>

    ghost function Now(): State
      reads this
    {
      State(Free, taskList, counter, taken, ran, pushed)
    }

    constructor ()
      ensures Now() == Start()
    {
      taskList, counter, taken, ran, pushed := [], 0, [], [], [];
    }

    method WriteEvent()
      modifies this`counter
      ensures counter == Bump(old(counter))
    {
      if counter < FULL {
        counter := counter + 1;
      }
    }

    method Push(task: Task)
      modifies `taskList, `counter, `pushed
      ensures Now() == Run(old(Now()), PushSteps([task]))
    {
      PushRun(Now(), [task]);
      taskList := taskList + [task];
      pushed := pushed + [task];
      WriteEvent();
    }

    /** One wake-up for the whole range, even an empty one. */
    method Batch(tasks: seq<Task>)
      modifies `taskList, `counter, `pushed
      ensures Now() == Run(old(Now()), PushSteps(tasks))
    {
      PushRun(Now(), tasks);
      var i := 0;
      while i < |tasks|
        invariant i <= |tasks|
        invariant taskList == old(taskList) + tasks[..i]
        invariant Now() == old(Now()).(queue := taskList)
      {
        taskList := taskList + [tasks[i]];
        i := i + 1;
      }
      pushed := pushed + tasks;
      WriteEvent();
    }

    method PushAll(tasks: seq<Task>)
      modifies `taskList, `counter, `pushed
      ensures Now() == Run(old(Now()), PushEach(tasks))
    {
      var i := 0;
      while i < |tasks|
        invariant i <= |tasks|
        invariant Run(Now(), PushEach(tasks[i..])) == Run(old(Now()), PushEach(tasks))
      {
        RunAppend(Now(), PushSteps([tasks[i]]), PushEach(tasks[i..][1..]));
        assert tasks[i..][1..] == tasks[i + 1..];
        Push(tasks[i]);
        i := i + 1;
      }
    }

    /** A task may push; what it pushes waits in the list for the next call. */
    method RunTaken()
      modifies this
      ensures Now() == Run(old(Now()), RunSteps(old(taken))) && taken == []
    {
      while taken != []
        invariant Run(Now(), RunSteps(taken)) == Run(old(Now()), RunSteps(old(taken)))
        decreases |taken|
      {
        var task := taken[0];
        RunAppend(Now(), [RunNext] + PushEach(task.pushes), RunSteps(taken[1..]));
        RunCons(Now(), RunNext, PushEach(task.pushes));
        taken, ran := taken[1..], ran + [task];
        PushAll(task.pushes);
      }
    }

    /** Called by the reactor's thread, which is done with what it took before. */
    method Execute(ec: bool)
      requires taken == []
      modifies this
      ensures ec ==> Now() == old(Now())
      ensures !ec ==> Now() == Run(old(Now()), TAKE_STEPS + RunSteps(old(taskList)))
      ensures taken == []
    {
      if ec {
        return;
      }
      RunAppend(Now(), TAKE_STEPS, RunSteps(taskList));
      TakeRun(Now());
      counter, taken, taskList := 0, taskList, [];
      RunTaken();
    }
  }
}
