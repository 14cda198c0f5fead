/** The serialized task queue: any number of posting and stopping threads, and one
    worker that takes everything pending in one batch. A step is what one thread does
    without letting go of the queue's mutex, or one action outside of it. */
module TaskQueue {
  import opened Bytes

  datatype Mode = Stopped | Running | Stopping | Canceling

  datatype PendingAction = RunPending | CancelPending

  /** Where the worker is: about to take the mutex, waiting on the condition variable,
      past the critical section but before its own notification, draining, or gone. */
  datatype Worker = AtLock | Asleep | Notifying | Draining | Exited

  type Thread = nat

  /** `owing` are the threads that have left their critical section and have yet to
      notify the condition variable. `accepted` and `finished` are history. */
  datatype State<T> = State(
    mode: Mode, runnables: seq<T>, worker: Worker, tasks: seq<T>, current: Option<T>,
    owing: set<Thread>, accepted: seq<T>, finished: seq<T>)

  datatype Step<T> =
    | Construct
    | Post(tid: Thread, task: T)
    | Stop(tid: Thread, action: PendingAction)
    | Notify(tid: Thread)
    | Lock
    | WakeSpuriously
    | NotifyTaken
    | Begin
    | End
    | LoopTop

  function Init<T>(): State<T> {
    State(Stopped, [], AtLock, [], None, {}, [], [])
  }

  predicate IsStopPending(mode: Mode) {
    mode.Stopping? || mode.Canceling?
  }

  predicate ShouldQueueExit<T>(s: State<T>) {
    (s.mode.Stopping? && |s.runnables| == 0) || s.mode.Canceling?
  }

  /** The predicate of the worker's wait. */
  predicate WaitIsOver<T>(s: State<T>) {
    |s.runnables| != 0 || ShouldQueueExit(s)
  }

  /** The mode before construction is over is visible to the worker only. */
  predicate Enabled<T>(s: State<T>, step: Step<T>) {
    match step
    case Construct => s.mode.Stopped?
    case Post(tid, _) => !s.mode.Stopped? && tid !in s.owing
    case Stop(tid, _) => !s.mode.Stopped? && tid !in s.owing
    case Notify(tid) => tid in s.owing
    case Lock => s.worker.AtLock?
    case WakeSpuriously => s.worker.Asleep?
    case NotifyTaken => s.worker.Notifying?
    case Begin => s.worker.Draining? && s.current.None? && |s.tasks| != 0
    case End => s.worker.Draining? && s.current.Some?
    case LoopTop => s.worker.Draining? && s.current.None? && |s.tasks| == 0
  }

  function Woken(w: Worker): Worker {
    if w.Asleep? then AtLock else w
  }

  function Apply<T>(s: State<T>, step: Step<T>): State<T>
    requires Enabled(s, step)
  {
    match step
    case Construct => s.(mode := Running)
    case Post(tid, task) => AfterPost(s, tid, task)
    case Stop(tid, action) =>
      s.(mode := if action.CancelPending? then Canceling else Stopping, owing := s.owing + {tid})
    case Notify(tid) => s.(owing := s.owing - {tid}, worker := Woken(s.worker))
    case Lock => AfterLock(s)
    case WakeSpuriously => s.(worker := AtLock)
    case NotifyTaken => s.(worker := Draining)
    case Begin => s.(current := Some(s.tasks[0]), tasks := s.tasks[1..])
    case End => s.(current := None, finished := s.finished + [s.current.value])
    case LoopTop => s.(worker := AtLock)
  }

  /** A post is refused once a stop is pending; otherwise only the post that found the
      queue empty goes on to notify. */
  function AfterPost<T>(s: State<T>, tid: Thread, task: T): State<T> {
    if IsStopPending(s.mode) then s
    else s.(runnables := s.runnables + [task], accepted := s.accepted + [task],
            owing := if |s.runnables| == 0 then s.owing + {tid} else s.owing)
  }

  /** Under the mutex the worker goes to sleep, exits, or takes everything pending. */
  function AfterLock<T>(s: State<T>): State<T> {
    if !WaitIsOver(s) then s.(worker := Asleep)
    else if ShouldQueueExit(s) then s.(worker := Exited)
    else s.(worker := Notifying, tasks := s.runnables, runnables := [])
  }

  predicate ValidRun<T>(s: State<T>, steps: seq<Step<T>>)
    decreases |steps|
  {
    steps == [] || (Enabled(s, steps[0]) && ValidRun(Apply(s, steps[0]), steps[1..]))
  }

  function Run<T>(s: State<T>, steps: seq<Step<T>>): State<T>
    requires ValidRun(s, steps)
    decreases |steps|
  {
    if steps == [] then s else Run(Apply(s, steps[0]), steps[1..])
  }

  lemma {:induction false} RunConcat<T>(s: State<T>, a: seq<Step<T>>, b: seq<Step<T>>)
    requires ValidRun(s, a) && ValidRun(Run(s, a), b)
    ensures ValidRun(s, a + b) && Run(s, a + b) == Run(Run(s, a), b)
    decreases |a|
  {
    if a == [] {
      assert a + b == b;
    } else {
      RunConcat(Apply(s, a[0]), a[1..], b);
      assert (a + b)[1..] == a[1..] + b;
    }
  }

  lemma {:induction false} RunSplit<T>(s: State<T>, a: seq<Step<T>>, b: seq<Step<T>>)
    requires ValidRun(s, a + b)
    ensures ValidRun(s, a) && ValidRun(Run(s, a), b) && Run(s, a + b) == Run(Run(s, a), b)
    decreases |a|
  {
    if a == [] {
      assert a + b == b;
    } else {
      assert (a + b)[1..] == a[1..] + b;
      RunSplit(Apply(s, a[0]), a[1..], b);
    }
  }

  /** The steps of the threads that post and stop. */
  predicate IsOthers<T>(step: Step<T>) {
    step.Post? || step.Stop? || step.Notify?
  }

  function OwnSteps<T>(steps: seq<Step<T>>): seq<Step<T>> {
    if steps == [] then []
    else (if IsOthers(steps[0]) then [] else [steps[0]]) + OwnSteps(steps[1..])
  }

  lemma {:induction false} OwnStepsConcat<T>(a: seq<Step<T>>, b: seq<Step<T>>)
    ensures OwnSteps(a + b) == OwnSteps(a) + OwnSteps(b)
    decreases |a|
  {
    if a == [] {
      assert a + b == b;
    } else {
      OwnStepsConcat(a[1..], b);
      assert (a + b)[1..] == a[1..] + b && (a + b)[0] == a[0];
      hide IsOthers;
      Associative(if IsOthers(a[0]) then [] else [a[0]], OwnSteps(a[1..]), OwnSteps(b));
    }
  }

  lemma {:induction false} Associative<T>(a: seq<T>, b: seq<T>, c: seq<T>)
    ensures a + b + c == a + (b + c)
  {
  }

  lemma {:induction false} RunSnoc<T>(s: State<T>, steps: seq<Step<T>>, step: Step<T>)
    requires ValidRun(s, steps) && Enabled(Run(s, steps), step)
    ensures ValidRun(s, steps + [step]) && Run(s, steps + [step]) == Apply(Run(s, steps), step)
    ensures OwnSteps(steps + [step]) == OwnSteps(steps) + (if IsOthers(step) then [] else [step])
  {
    RunConcat(s, steps, [step]);
    OwnStepsConcat(steps, [step]);
  }

  /** The worker's own steps over a batch of n tasks. */
  function Rounds<T>(n: nat): seq<Step<T>> {
    if n == 0 then [LoopTop] else [Begin, End] + Rounds(n - 1)
  }

  lemma {:induction false} OneRoundMore<T>(own: seq<Step<T>>, n: nat)
    ensures own + [Begin] + [End] + Rounds(n) == own + Rounds(n + 1)
  {
  }

  // ---- What every step keeps

  function InHand<T>(s: State<T>): seq<T> {
    if s.current.Some? then [s.current.value] else []
  }

  /** First in, first out, at most once, one at a time. */
  predicate InOrder<T(==)>(s: State<T>) {
    s.accepted == s.finished + InHand(s) + s.tasks + s.runnables
  }

  predicate WorkerHoldsTasksOnlyWhileDraining<T>(s: State<T>) {
    && (s.current.Some? ==> s.worker.Draining?)
    && (|s.tasks| != 0 ==> s.worker.Notifying? || s.worker.Draining?)
  }

  /** A worker asleep with its wait over has a notification coming. */
  predicate NoLostWakeup<T>(s: State<T>) {
    s.worker.Asleep? && WaitIsOver(s) ==> s.owing != {}
  }

  ghost predicate Inv<T>(s: State<T>) {
    && InOrder(s)
    && WorkerHoldsTasksOnlyWhileDraining(s)
    && NoLostWakeup(s)
    && (s.mode.Stopped? ==> s.owing == {} && s.accepted == [])
    && (s.worker.Exited? ==> IsStopPending(s.mode))
  }

  lemma {:induction false} StepKeepsOrder<T>(s: State<T>, step: Step<T>)
    requires Enabled(s, step) && InOrder(s) && WorkerHoldsTasksOnlyWhileDraining(s)
    ensures InOrder(Apply(s, step))
  {
    var s' := Apply(s, step);
    match step
    case Post(_, task) =>
      if !IsStopPending(s.mode) {
        assert s'.finished + InHand(s') + s'.tasks + s'.runnables
            == s.finished + InHand(s) + s.tasks + s.runnables + [task];
      }
    case Lock =>
      if s'.worker.Notifying? {
        assert s.finished + InHand(s) + s.tasks + s.runnables == s.finished + s.runnables;
        assert s'.finished + InHand(s') + s'.tasks + s'.runnables == s.finished + s.runnables;
      }
    case Begin =>
      assert s.tasks == [s.tasks[0]] + s.tasks[1..];
    case End =>
      assert s'.finished + [] + s'.tasks == s.finished + InHand(s) + s.tasks;
    case _ =>
  }

  lemma {:induction false} StepKeepsInv<T>(s: State<T>, step: Step<T>)
    requires Enabled(s, step) && Inv(s)
    ensures Inv(Apply(s, step))
  {
    StepKeepsOrder(s, step);
    var s' := Apply(s, step);
    match step
    case Post(tid, _) =>
      if s'.owing != s.owing { assert tid in s'.owing; }
    case Stop(tid, _) => assert tid in s'.owing;
    case _ =>
  }

  /** Safety over whole runs: order, no lost wakeup and the rest hold in every reachable state. */
  lemma {:induction false} RunKeepsInv<T>(s: State<T>, steps: seq<Step<T>>)
    requires ValidRun(s, steps) && Inv(s)
    ensures Inv(Run(s, steps))
    decreases |steps|
  {
    if steps != [] {
      StepKeepsInv(s, steps[0]);
      RunKeepsInv(Apply(s, steps[0]), steps[1..]);
    }
  }

  lemma {:induction false} ReachableInv<T>(steps: seq<Step<T>>)
    requires ValidRun(Init<T>(), steps)
    ensures Inv(Run(Init<T>(), steps))
  {
    RunKeepsInv(Init<T>(), steps);
  }

  // ---- Which posts are accepted

  /** The tasks posted before the first stop, in the order of their posts. */
  function PostedBeforeStop<T>(steps: seq<Step<T>>): seq<T> {
    if steps == [] || steps[0].Stop? then []
    else (if steps[0].Post? then [steps[0].task] else []) + PostedBeforeStop(steps[1..])
  }

  lemma {:induction false} AcceptedFrom<T>(s: State<T>, steps: seq<Step<T>>)
    requires ValidRun(s, steps)
    ensures Run(s, steps).accepted
         == s.accepted + (if IsStopPending(s.mode) then [] else PostedBeforeStop(steps))
    ensures IsStopPending(s.mode) ==> IsStopPending(Run(s, steps).mode)
    decreases |steps|
  {
    if steps == [] {
      assert s.accepted + [] == s.accepted;
    } else {
      var s' := Apply(s, steps[0]);
      AcceptedFrom(s', steps[1..]);
      var later := PostedBeforeStop(steps[1..]);
      if IsStopPending(s.mode) || steps[0].Stop? {
        assert s'.accepted == s.accepted == s.accepted + [];
      } else if steps[0].Post? {
        assert s.accepted + ([steps[0].task] + later) == s.accepted + [steps[0].task] + later;
      } else {
        assert [] + later == later;
      }
    }
  }

  /** In every run, what was accepted is what was posted before the first stop, and it is
      what has been run, then what is running, then the batch, then the queue. */
  lemma {:induction false} FirstInFirstOut<T>(steps: seq<Step<T>>)
    requires ValidRun(Init<T>(), steps)
    ensures var s := Run(Init<T>(), steps);
            PostedBeforeStop(steps) == s.accepted == s.finished + InHand(s) + s.tasks + s.runnables
  {
    ReachableInv(steps);
    AcceptedFrom(Init<T>(), steps);
    assert [] + PostedBeforeStop(steps) == PostedBeforeStop(steps);
  }

  // ---- What the calls so far have made of the queue

  /** The mode that construction and the last stop leave. */
  function ModeAfter<T>(mode: Mode, steps: seq<Step<T>>): Mode {
    if steps == [] then mode
    else
      var last := steps[|steps| - 1];
      if last.Construct? then Running
      else if last.Stop? then if last.action.CancelPending? then Canceling else Stopping
      else ModeAfter(mode, steps[..|steps| - 1])
  }

  lemma {:induction false} LastStep<T>(s: State<T>, steps: seq<Step<T>>)
    requires ValidRun(s, steps) && steps != []
    ensures var k := |steps| - 1;
            && ValidRun(s, steps[..k]) && Enabled(Run(s, steps[..k]), steps[k])
            && Run(s, steps) == Apply(Run(s, steps[..k]), steps[k])
  {
    var k := |steps| - 1;
    assert steps[..k] + [steps[k]] == steps;
    RunSplit(s, steps[..k], [steps[k]]);
    hide Apply, Enabled;
    assert [steps[k]][1..] == [];
  }

  /** In every run the mode is the one that construction and the last stop have set. */
  lemma {:induction false} ModeByHistory<T>(s: State<T>, steps: seq<Step<T>>)
    requires ValidRun(s, steps)
    ensures Run(s, steps).mode == ModeAfter(s.mode, steps)
    decreases |steps|
  {
    if steps != [] {
      LastStep(s, steps);
      ModeByHistory(s, steps[..|steps| - 1]);
      hide ValidRun, Run;
    }
  }

  /** A thread that has notified owes nothing until it posts or stops again. */
  lemma {:induction false} NotifiedOwesNothing<T>(s: State<T>, steps: seq<Step<T>>, tid: Thread)
    requires ValidRun(s, steps) && tid !in s.owing
    requires forall step <- steps :: step.Post? || step.Stop? ==> step.tid != tid
    ensures tid !in Run(s, steps).owing
    decreases |steps|
  {
    if steps != [] {
      NotifiedOwesNothing(Apply(s, steps[0]), steps[1..], tid);
    }
  }

  /** What a step makes its thread owe: a stop always, and a post that is accepted into an
      empty queue; a notification is owed once. */
  lemma {:induction false} OwedAfter<T>(s: State<T>, step: Step<T>, tid: Thread)
    requires Enabled(s, step)
    ensures tid in Apply(s, step).owing
       <==> match step
            case Post(t, _) => tid in s.owing || (t == tid && s.runnables == [] && (s.mode.Stopped? || s.mode.Running?))
            case Stop(t, _) => tid in s.owing || t == tid
            case Notify(t) => tid in s.owing && t != tid
            case _ => tid in s.owing
  {
  }

  // ---- Progress

  function Rank(w: Worker): nat {
    match w
    case Exited => 0
    case AtLock => 1
    case Asleep => 2
    case Draining => 3
    case Notifying => 4
  }

  /** What the worker still has to do before it can exit. */
  function Measure<T>(s: State<T>): nat {
    6 * |s.runnables| + 2 * |s.tasks| + |InHand(s)| + Rank(s.worker)
  }

  /** The worker's own steps, and a notification that wakes it. */
  predicate IsWork<T>(s: State<T>, step: Step<T>) {
    match step
    case Construct | Post(_, _) | Stop(_, _) => false
    case Notify(_) => s.worker.Asleep?
    case _ => true
  }

  lemma {:induction false} WorkDecreases<T>(s: State<T>, step: Step<T>)
    requires Inv(s) && IsStopPending(s.mode) && Enabled(s, step)
    ensures IsStopPending(Apply(s, step).mode)
    ensures Measure(Apply(s, step)) + (if IsWork(s, step) then 1 else 0) <= Measure(s)
  {
  }

  function WorkIn<T>(s: State<T>, steps: seq<Step<T>>): nat
    requires ValidRun(s, steps)
    decreases |steps|
  {
    if steps == [] then 0
    else (if IsWork(s, steps[0]) then 1 else 0) + WorkIn(Apply(s, steps[0]), steps[1..])
  }

  /** After a stop the worker takes at most Measure(s) more steps, whatever others do. */
  lemma {:induction false} WorkIsBounded<T>(s: State<T>, steps: seq<Step<T>>)
    requires ValidRun(s, steps) && Inv(s) && IsStopPending(s.mode)
    ensures WorkIn(s, steps) + Measure(Run(s, steps)) <= Measure(s)
    decreases |steps|
  {
    if steps != [] {
      WorkDecreases(s, steps[0]);
      StepKeepsInv(s, steps[0]);
      WorkIsBounded(Apply(s, steps[0]), steps[1..]);
    }
  }

  /** Until it has exited after a stop, or while something accepted has not run, there is
      always work that can be done. */
  lemma {:induction false} NeverStuck<T>(s: State<T>) returns (step: Step<T>)
    requires Inv(s) && !s.worker.Exited?
    requires IsStopPending(s.mode) || (s.mode.Running? && s.finished != s.accepted)
    ensures Enabled(s, step) && IsWork(s, step) && !step.WakeSpuriously?
  {
    match s.worker
    case AtLock => step := Lock;
    case Asleep =>
      assert s.finished + [] + [] + [] == s.finished;
      assert WaitIsOver(s);
      var tid :| tid in s.owing;
      step := Notify(tid);
    case Notifying => step := NotifyTaken;
    case Draining => step := if s.current.Some? then End else if |s.tasks| != 0 then Begin else LoopTop;
  }

  /** A run that does all the work there is ends with the worker gone. */
  lemma {:induction false} EventuallyExits<T>(s: State<T>) returns (steps: seq<Step<T>>)
    requires Inv(s) && IsStopPending(s.mode)
    ensures ValidRun(s, steps) && Run(s, steps).worker.Exited?
    ensures forall step <- steps :: !step.Post? && !step.Stop? && !step.WakeSpuriously?
    decreases Measure(s)
  {
    if s.worker.Exited? {
      steps := [];
    } else {
      var step := NeverStuck(s);
      WorkDecreases(s, step);
      StepKeepsInv(s, step);
      var others := EventuallyExits(Apply(s, step));
      steps := [step] + others;
      assert steps[1..] == others;
    }
  }

  // ---- Coming to rest

  /** The most steps the worker can take before it sleeps or has gone: five for a task in
      the queue, two for one in the batch. */
  function ToRest<T>(s: State<T>): nat {
    6 * |s.runnables| + 2 * |s.tasks| + |InHand(s)|
    + match s.worker
      case Exited => 0
      case Asleep => 0
      case AtLock => 1
      case Draining => 2
      case Notifying => 3
  }

  /** What gets a sleeping worker up, or gives it a task. */
  predicate Rouses<T>(s: State<T>, step: Step<T>) {
    match step
    case Post(_, _) => !IsStopPending(s.mode)
    case Notify(_) => s.worker.Asleep?
    case WakeSpuriously => true
    case _ => false
  }

  predicate IsOwn<T>(step: Step<T>) {
    step.Lock? || step.NotifyTaken? || step.Begin? || step.End? || step.LoopTop?
  }

  lemma {:induction false} RestComesNearer<T>(s: State<T>, step: Step<T>)
    requires Inv(s) && Enabled(s, step)
    ensures ToRest(Apply(s, step)) + (if IsOwn(step) then 1 else 0) <= ToRest(s) + (if Rouses(s, step) then 6 else 0)
  {
    hide InOrder;
  }

  function OwnIn<T>(steps: seq<Step<T>>): nat {
    if steps == [] then 0 else (if IsOwn(steps[0]) then 1 else 0) + OwnIn(steps[1..])
  }

  function RousedIn<T>(s: State<T>, steps: seq<Step<T>>): nat
    requires ValidRun(s, steps)
    decreases |steps|
  {
    if steps == [] then 0
    else (if Rouses(s, steps[0]) then 1 else 0) + RousedIn(Apply(s, steps[0]), steps[1..])
  }

  /** In every run, stopped or not, the worker takes no more steps than it has work for, and
      six more each time it is roused: it sleeps when there is nothing to do. */
  lemma {:induction false} OwnStepsBounded<T>(s: State<T>, steps: seq<Step<T>>)
    requires ValidRun(s, steps) && Inv(s)
    ensures OwnIn(steps) + ToRest(Run(s, steps)) <= ToRest(s) + 6 * RousedIn(s, steps)
    decreases |steps|
  {
    if steps != [] {
      RestComesNearer(s, steps[0]);
      StepKeepsInv(s, steps[0]);
      hide Inv, ToRest, Apply, Enabled, Rouses;
      OwnStepsBounded(Apply(s, steps[0]), steps[1..]);
    }
  }

  // ---- While the queue is running

  /** Of the first n tasks accepted, those not yet taken from the queue. */
  function LeftInQueue<T>(s: State<T>, n: nat): nat {
    var taken := |s.finished| + |InHand(s)| + |s.tasks|;
    if n > taken then n - taken else 0
  }

  function LeftInBatch<T>(s: State<T>, n: nat): nat {
    var begun := |s.finished| + |InHand(s)|;
    if n > begun + |s.tasks| then |s.tasks| else if n > begun then n - begun else 0
  }

  function LeftInHand<T>(s: State<T>, n: nat): nat {
    if n > |s.finished| then |InHand(s)| else 0
  }

  /** What the worker still has to do before the first n tasks have run. */
  function Left<T>(s: State<T>, n: nat): nat {
    6 * LeftInQueue(s, n) + 2 * LeftInBatch(s, n) + LeftInHand(s, n) + Rank(s.worker)
  }

  lemma {:induction false} LengthsAddUp<T>(s: State<T>)
    requires InOrder(s)
    ensures |s.accepted| == |s.finished| + |InHand(s)| + |s.tasks| + |s.runnables|
  {
  }

  /** While a task among the first n has not run, each step of work brings the end of them
      nearer, and no step of anybody else, a post included, takes it further away. */
  lemma {:induction false} WorkDecreasesLeft<T>(s: State<T>, step: Step<T>, n: nat)
    requires Inv(s) && s.mode.Running? && Enabled(s, step) && !step.Stop?
    requires |s.finished| < n <= |s.accepted|
    ensures Apply(s, step).mode.Running? && |s.accepted| <= |Apply(s, step).accepted|
    ensures Left(Apply(s, step), n) + (if IsWork(s, step) then 1 else 0) <= Left(s, n)
  {
    LengthsAddUp(s);
    hide InOrder;
  }

  /** Whatever others post: as long as the queue is not stopped, the tasks accepted so far
      have all run once more than Left(s, n) steps of work are done. */
  lemma {:induction false} AcceptedTasksRun<T>(s: State<T>, steps: seq<Step<T>>, n: nat)
    requires ValidRun(s, steps) && Inv(s) && s.mode.Running? && n <= |s.accepted|
    requires forall step <- steps :: !step.Stop?
    ensures WorkIn(s, steps) > Left(s, n) ==> |Run(s, steps).finished| >= n
    decreases |steps|
  {
    if steps != [] && |s.finished| < n {
      WorkDecreasesLeft(s, steps[0], n);
      StepKeepsInv(s, steps[0]);
      AcceptedTasksRun(Apply(s, steps[0]), steps[1..], n);
    } else if steps != [] {
      StepKeepsInv(s, steps[0]);
      FinishedGrows(s, steps);
    }
  }

  lemma {:induction false} FinishedGrows<T>(s: State<T>, steps: seq<Step<T>>)
    requires ValidRun(s, steps)
    ensures s.finished <= Run(s, steps).finished
    decreases |steps|
  {
    if steps != [] {
      FinishedGrows(Apply(s, steps[0]), steps[1..]);
    }
  }

  lemma {:induction false} AllRanIff<T>(s: State<T>)
    requires InOrder(s)
    ensures |s.finished| <= |s.accepted|
    ensures s.finished == s.accepted <==> |s.finished| == |s.accepted|
  {
    assert s.finished == s.accepted[..|s.finished|];
  }

  /** A run of the worker and of the notifications still owed at the end of which everything
      accepted has run. */
  lemma {:induction false} EventuallyRuns<T>(s: State<T>) returns (steps: seq<Step<T>>)
    requires Inv(s) && s.mode.Running?
    ensures ValidRun(s, steps) && Run(s, steps).finished == s.accepted
    ensures forall step <- steps :: !step.Post? && !step.Stop? && !step.WakeSpuriously?
    decreases Left(s, |s.accepted|)
  {
    if s.finished == s.accepted {
      steps := [];
    } else {
      LengthsAddUp(s);
      AllRanIff(s);
      var step := NeverStuck(s);
      WorkDecreasesLeft(s, step, |s.accepted|);
      StepKeepsInv(s, step);
      hide Inv;
      var others := EventuallyRuns(Apply(s, step));
      steps := [step] + others;
      assert steps[1..] == others;
    }
  }

  // ---- Stopping and canceling

  predicate NoCancel<T(==)>(steps: seq<Step<T>>) {
    forall step <- steps :: step.Stop? ==> step.action.RunPending?
  }

  predicate ExitsDrained<T>(s: State<T>) {
    !s.mode.Canceling? && (s.worker.Exited? ==> |s.runnables| == 0)
  }

  lemma {:induction false} ExitsDrainedWithoutCancel<T>(s: State<T>, steps: seq<Step<T>>)
    requires ValidRun(s, steps) && Inv(s) && ExitsDrained(s) && NoCancel(steps)
    ensures ExitsDrained(Run(s, steps))
    decreases |steps|
  {
    if steps != [] {
      StepKeepsInv(s, steps[0]);
      ExitsDrainedWithoutCancel(Apply(s, steps[0]), steps[1..]);
    }
  }

  /** When the worker has gone, everything it took has run: what has not run was never
      taken from the queue, and that happens only if a cancel was asked for. */
  lemma {:induction false} AtExit<T>(steps: seq<Step<T>>)
    requires ValidRun(Init<T>(), steps) && Run(Init<T>(), steps).worker.Exited?
    ensures var s := Run(Init<T>(), steps);
            && PostedBeforeStop(steps) == s.finished + s.runnables
            && (NoCancel(steps) ==> s.finished == PostedBeforeStop(steps))
  {
    var s := Run(Init<T>(), steps);
    ReachableInv(steps);
    FirstInFirstOut(steps);
    assert s.finished + [] + [] + s.runnables == s.finished + s.runnables;
    if NoCancel(steps) {
      ExitsDrainedWithoutCancel(Init<T>(), steps);
      assert s.finished + [] == s.finished;
    }
  }

  predicate NoPlainStop<T(==)>(steps: seq<Step<T>>) {
    forall step <- steps :: step.Stop? ==> step.action.CancelPending?
  }

  /** While no later stop overrides a cancel, no task is taken from the queue any more,
      and the tasks already taken run on in their order. */
  lemma {:induction false} CancelHolds<T>(s: State<T>, steps: seq<Step<T>>)
    requires ValidRun(s, steps) && Inv(s) && s.mode.Canceling? && NoPlainStop(steps)
    ensures var s' := Run(s, steps);
            s'.mode.Canceling? && s'.runnables == s.runnables && s'.accepted == s.accepted
    decreases |steps|
  {
    if steps != [] {
      StepKeepsInv(s, steps[0]);
      CancelHolds(Apply(s, steps[0]), steps[1..]);
    }
  }

  /** The tasks that the worker has taken from the queue. */
  function Taken<T>(s: State<T>): seq<T> {
    s.finished + InHand(s) + s.tasks
  }

  lemma {:induction false} SameTaken<T>(s: State<T>, s': State<T>)
    requires InOrder(s) && InOrder(s') && s'.accepted == s.accepted && s'.runnables == s.runnables
    ensures Taken(s') == Taken(s)
  {
    var n := |s.accepted| - |s.runnables|;
    assert Taken(s) == s.accepted[..n] && Taken(s') == s'.accepted[..n];
  }

  /** A cancel at any point of any run: unless a plain stop comes later, whatever was in the
      queue then is in it at the end, and what has run or is running by then is the beginning
      of what the worker had taken before the cancel. */
  lemma {:induction false} CancelDrops<T>(a: seq<Step<T>>, tid: Thread, b: seq<Step<T>>)
    requires ValidRun(Init<T>(), a + ([Stop(tid, CancelPending)] + b)) && NoPlainStop(b)
    ensures ValidRun(Init<T>(), a)
    ensures var s, s' := Run(Init<T>(), a), Run(Init<T>(), a + ([Stop(tid, CancelPending)] + b));
            && s'.runnables == s.runnables
            && Taken(s') == Taken(s)
            && s'.finished + InHand(s') <= s.finished + InHand(s) + s.tasks
  {
    var cancel := [Stop(tid, CancelPending)];
    RunSplit(Init<T>(), a, cancel + b);
    var s := Run(Init<T>(), a);
    RunSplit(s, cancel, b);
    var s1 := Run(s, cancel);
    assert cancel[1..] == [];
    assert s1 == Apply(s, Stop(tid, CancelPending));
    ReachableInv(a);
    StepKeepsInv(s, Stop(tid, CancelPending));
    CancelHolds(s1, b);
    RunKeepsInv(s1, b);
    SameTaken(s, Run(s1, b));
  }

  /** So when the worker then exits, the tasks still in the queue at the cancel never ran, and
      all the others did. */
  lemma {:induction false} CancelAtExit<T>(a: seq<Step<T>>, tid: Thread, b: seq<Step<T>>)
    requires ValidRun(Init<T>(), a + ([Stop(tid, CancelPending)] + b)) && NoPlainStop(b)
    requires Run(Init<T>(), a + ([Stop(tid, CancelPending)] + b)).worker.Exited?
    ensures ValidRun(Init<T>(), a)
    ensures Run(Init<T>(), a + ([Stop(tid, CancelPending)] + b)).finished == Taken(Run(Init<T>(), a))
  {
    var all := a + ([Stop(tid, CancelPending)] + b);
    CancelDrops(a, tid, b);
    ReachableInv(all);
    var s' := Run(Init<T>(), all);
    assert s'.finished + [] + [] == s'.finished;
  }

  /** But a cancel is not final: as long as the worker has not exited, a later plain stop,
      such as the destructor's, lets it run everything the cancel should have dropped. */
  lemma {:induction false} CancelOverridden<T>(s: State<T>, tid: Thread) returns (steps: seq<Step<T>>)
    requires Inv(s) && s.mode.Canceling? && !s.worker.Exited? && tid !in s.owing
    ensures ValidRun(s, [Stop(tid, RunPending)] + steps)
    ensures var s' := Run(s, [Stop(tid, RunPending)] + steps);
            s'.worker.Exited? && s'.finished == s.accepted
  {
    var stop := Stop(tid, RunPending);
    var s1 := Apply(s, stop);
    StepKeepsInv(s, stop);
    steps := EventuallyExits(s1);
    ExitsDrainedWithoutCancel(s1, steps);
    RunKeepsInv(s1, steps);
    AcceptedFrom(s1, steps);
    assert ([stop] + steps)[1..] == steps;
    var s' := Run(s1, steps);
    assert s'.finished + [] + [] + [] == s'.finished;
    assert s.accepted + [] == s.accepted;
  }

  lemma {:induction false} ExitedStays<T>(s: State<T>, steps: seq<Step<T>>)
    requires ValidRun(s, steps) && s.worker.Exited? && IsStopPending(s.mode)
    ensures Run(s, steps).worker.Exited? && Run(s, steps).runnables == s.runnables
    decreases |steps|
  {
    if steps != [] {
      ExitedStays(Apply(s, steps[0]), steps[1..]);
    }
  }

  lemma {:induction false} AnotherThread(threads: set<Thread>) returns (tid: Thread)
    ensures forall t <- threads :: t < tid
    decreases threads
  {
    if threads == {} {
      tid := 0;
    } else {
      var t :| t in threads;
      var above := AnotherThread(threads - {t});
      tid := if above <= t then t + 1 else above;
      assert forall u <- threads :: u == t || u in threads - {t};
    }
  }

  /** So a cancel is final, that is, in every run what it left in the queue stays there,
      exactly when the worker has exited. */
  lemma {:induction false} CancelFinalIff<T>(s: State<T>)
    requires Inv(s) && s.mode.Canceling? && s.runnables != []
    ensures (forall steps: seq<Step<T>> | ValidRun(s, steps) :: Run(s, steps).runnables == s.runnables)
       <==> s.worker.Exited?
  {
    if s.worker.Exited? {
      forall steps: seq<Step<T>> | ValidRun(s, steps) ensures Run(s, steps).runnables == s.runnables {
        ExitedStays(s, steps);
      }
    } else {
      var tid := AnotherThread(s.owing);
      var others := CancelOverridden(s, tid);
      var steps := [Stop(tid, RunPending)] + others;
      RunKeepsInv(s, steps);
      AcceptedFrom(s, steps);
      AllRunLeavesNone(Run(s, steps));
      hide *;
      assert s.accepted + [] == s.accepted;
    }
  }

  lemma {:induction false} AllRunLeavesNone<T>(s: State<T>)
    requires InOrder(s) && s.finished == s.accepted
    ensures s.runnables == []
  {
    LengthsAddUp(s);
  }
}
