/** The queue as an object: each method is one thread's critical section, or its
    notification, and takes the step of that name. */
module TaskQueueObject {
  import opened Bytes
  import opened TaskQueue

  class Queue<T> {
    var state: Mode
    var runnables: seq<T>
    var worker: Worker
    var tasks: seq<T>
    var current: Option<T>
    var owing: set<Thread>
    ghost var accepted: seq<T>
    ghost var finished: seq<T>

    ghost function View(): State<T>
      reads this
    {
      State(state, runnables, worker, tasks, current, owing, accepted, finished)
    }

    constructor ()
      ensures View() == Apply(Init<T>(), Construct) && Inv(View())
    {
      state, runnables, worker, tasks, current, owing := Running, [], AtLock, [], None, {};
      accepted, finished := [], [];
    }

    predicate StopIsPending()
      reads this
      ensures StopIsPending() == IsStopPending(View().mode)
    {
      state == Stopping || state == Canceling
    }

    predicate ShouldExit()
      reads this
      ensures ShouldExit() == ShouldQueueExit(View())
    {
      match state
      case Stopping => |runnables| == 0
      case Canceling => true
      case _ => false
    }

    /** False stands for the exception thrown to a poster once a stop is pending. */
    method Post(tid: Thread, task: T) returns (posted: bool)
      requires Inv(View()) && Enabled(View(), Step.Post(tid, task))
      modifies this
      ensures View() == Apply(old(View()), Step.Post(tid, task)) && Inv(View())
      ensures posted == !(old(state) == Stopping || old(state) == Canceling)
      ensures runnables == old(runnables) + (if posted then [task] else [])
      ensures owing == old(owing) + (if posted && old(runnables) == [] then {tid} else {})
    {
      ghost var before := View();
      if StopIsPending() {
        posted := false;
      } else {
        var wasEmpty := |runnables| == 0;
        runnables := runnables + [task];
        accepted := accepted + [task];
        if wasEmpty {
          owing := owing + {tid};
        }
        posted := true;
      }
      StepKeepsInv(before, Step.Post(tid, task));
    }

    method Stop(tid: Thread, action: PendingAction)
      requires Inv(View()) && Enabled(View(), Step.Stop(tid, action))
      modifies this
      ensures View() == Apply(old(View()), Step.Stop(tid, action)) && Inv(View())
      ensures state == if action == CancelPending then Canceling else Stopping
    {
      ghost var before := View();
      match action {
        case CancelPending => state := Canceling;
        case _ => state := Stopping;
      }
      owing := owing + {tid};
      StepKeepsInv(before, Step.Stop(tid, action));
    }

    method NotifyAll(tid: Thread)
      requires Inv(View()) && Enabled(View(), Step.Notify(tid))
      modifies this
      ensures View() == Apply(old(View()), Step.Notify(tid)) && Inv(View())
    {
      ghost var before := View();
      owing := owing - {tid};
      if worker == Asleep {
        worker := AtLock;
      }
      StepKeepsInv(before, Step.Notify(tid));
    }

    /** From taking the mutex to giving it back: wait, exit, or take the whole queue. */
    method LockAndTake()
      requires Inv(View()) && Enabled(View(), Step.Lock)
      modifies this
      ensures View() == Apply(old(View()), Step.Lock) && Inv(View())
    {
      ghost var before := View();
      if |runnables| == 0 && !ShouldExit() {
        worker := Asleep;
      } else if ShouldExit() {
        worker := Exited;
      } else {
        tasks := runnables;
        runnables := [];
        worker := Notifying;
      }
      StepKeepsInv(before, Step.Lock);
    }

    /** What another thread does while the worker runs a batch. A thread that has yet to
        notify cannot begin anything else, so its turn passes. */
    method TakeTurn(turn: Step<T>, ghost start: State<T>, ghost sofar: seq<Step<T>>)
      returns (ghost steps: seq<Step<T>>)
      requires Inv(View()) && worker == Draining && IsOthers(turn)
      requires ValidRun(start, sofar) && View() == Run(start, sofar)
      modifies this
      ensures ValidRun(start, steps) && View() == Run(start, steps) && Inv(View())
      ensures steps == sofar + (if Enabled(old(View()), turn) then [turn] else [])
      ensures OwnSteps(steps) == OwnSteps(sofar)
      ensures worker == Draining && current == old(current) && tasks == old(tasks) && finished == old(finished)
    {
      steps := sofar;
      if Enabled(State(state, runnables, worker, tasks, current, owing, [], []), turn) {
        RunSnoc(start, sofar, turn);
        steps := sofar + [turn];
        match turn {
          case Post(tid, task) => var _ := Post(tid, task);
          case Stop(tid, action) => Stop(tid, action);
          case Notify(tid) => NotifyAll(tid);
        }
      }
    }

    method TakeTurns(turns: seq<Step<T>>, ghost start: State<T>, ghost sofar: seq<Step<T>>)
      returns (ghost steps: seq<Step<T>>)
      requires Inv(View()) && worker == Draining
      requires forall turn <- turns :: IsOthers(turn)
      requires ValidRun(start, sofar) && View() == Run(start, sofar)
      modifies this
      ensures ValidRun(start, steps) && View() == Run(start, steps) && Inv(View())
      ensures OwnSteps(steps) == OwnSteps(sofar)
      ensures worker == Draining && current == old(current) && tasks == old(tasks) && finished == old(finished)
    {
      hide *;
      steps := sofar;
      for i := 0 to |turns|
        invariant ValidRun(start, steps) && View() == Run(start, steps) && Inv(View())
        invariant OwnSteps(steps) == OwnSteps(sofar)
        invariant worker == Draining && current == old(current) && tasks == old(tasks) && finished == old(finished)
      {
        steps := TakeTurn(turns[i], start, steps);
      }
    }

    method BeginTask() returns (task: T)
      requires Inv(View()) && Enabled(View(), Step.Begin)
      modifies this`current, this`tasks
      ensures View() == Apply(old(View()), Step.Begin) && Inv(View())
      ensures task == old(tasks)[0]
    {
      StepKeepsInv(View(), Step.Begin);
      hide Inv;
      task := tasks[0];
      current := Some(task);
      tasks := tasks[1..];
    }

    method EndTask()
      requires Inv(View()) && Enabled(View(), Step.End)
      modifies this`current, this`finished
      ensures View() == Apply(old(View()), Step.End) && Inv(View())
    {
      StepKeepsInv(View(), Step.End);
      hide Inv;
      finished := finished + [current.value];
      current := None;
    }

    /** One task of the batch, with the turns others take while it runs. */
    method RunFront(turns: seq<Step<T>>, ghost start: State<T>, ghost sofar: seq<Step<T>>)
      returns (ghost steps: seq<Step<T>>)
      requires Inv(View()) && worker == Draining && current == None && |tasks| != 0
      requires forall turn <- turns :: IsOthers(turn)
      requires ValidRun(start, sofar) && View() == Run(start, sofar)
      modifies this
      ensures ValidRun(start, steps) && View() == Run(start, steps) && Inv(View())
      ensures OwnSteps(steps) == OwnSteps(sofar) + [Begin] + [End]
      ensures worker == Draining && current == None
      ensures tasks == old(tasks)[1..] && finished == old(finished) + [old(tasks)[0]]
    {
      hide ValidRun, Run, Inv, OwnSteps;
      RunSnoc(start, sofar, Begin);
      var _ := BeginTask();
      steps := TakeTurns(turns, start, sofar + [Begin]);
      RunSnoc(start, steps, End);
      EndTask();
      steps := steps + [End];
    }

    method LeaveBatch(ghost start: State<T>, ghost sofar: seq<Step<T>>) returns (ghost steps: seq<Step<T>>)
      requires Inv(View()) && worker == Draining && current == None && tasks == []
      requires ValidRun(start, sofar) && View() == Run(start, sofar)
      modifies this`worker
      ensures ValidRun(start, steps) && View() == Run(start, steps) && Inv(View())
      ensures OwnSteps(steps) == OwnSteps(sofar) + [LoopTop]
      ensures worker == AtLock
    {
      RunSnoc(start, sofar, LoopTop);
      StepKeepsInv(View(), LoopTop);
      worker := AtLock;
      steps := sofar + [LoopTop];
    }

    /** Runs the batch to its end, while others take the turns given: what they post is not
        run with this batch, and what they stop does not shorten it. */
    method RunTasks(turns: seq<seq<Step<T>>>) returns (ghost steps: seq<Step<T>>)
      requires Inv(View()) && worker == Draining && current == None
      requires forall some <- turns, turn <- some :: IsOthers(turn)
      modifies this
      ensures ValidRun(old(View()), steps) && View() == Run(old(View()), steps) && Inv(View())
      ensures OwnSteps(steps) == Rounds(|old(tasks)|)
      ensures worker == AtLock && current == None && tasks == []
      ensures finished == old(finished) + old(tasks)
    {
      ghost var start := View();
      steps := [];
      var ran := 0;
      assert OwnSteps(steps) + Rounds<T>(|tasks|) == Rounds<T>(|tasks|);
      assert Run(start, steps) == start;
      assert Rounds<T>(0) == [LoopTop];
      hide *;
      while |tasks| != 0
        invariant Inv(View()) && worker == Draining && current == None
        invariant ValidRun(start, steps) && View() == Run(start, steps)
        invariant finished + tasks == old(finished) + old(tasks)
        invariant OwnSteps(steps) + Rounds(|tasks|) == Rounds(|old(tasks)|)
        decreases |tasks|
      {
        OneRoundMore(OwnSteps(steps), |tasks| - 1);
        NextOfBatch(finished, tasks);
        steps := RunFront(if ran < |turns| then turns[ran] else [], start, steps);
        ran := ran + 1;
      }
      assert finished + [] == finished;
      steps := LeaveBatch(start, steps);
    }
  }

  lemma {:induction false} NextOfBatch<T>(finished: seq<T>, tasks: seq<T>)
    requires |tasks| > 0
    ensures finished + [tasks[0]] + tasks[1..] == finished + tasks
  {
  }
}
