/** The simulator's per-file event queue: i/o requests wait in a framework queue for
    notifications that wait in a queue of the driver, and one thread pairs them. A step is
    one look at, or one change of, what the threads share; a request may be canceled
    between any two of them, since the framework does that under a lock of its own. */
module EventQueue {
  import opened Bytes

  datatype Request = Request(id: nat, outputSize: nat)

  type Notification = seq<byte>

  datatype Status = Success | Pending | InvalidDeviceState | ForwardFailed | BufferTooSmall | BufferOverflow

  /** What a request gave back to its caller. */
  datatype Completion = Completion(request: Request, notification: Notification, status: Status, output: seq<byte>)

  /** Where the processing thread is: about to take the gate and test for a request, or for
      data; asleep on either condition variable; holding the gate, with the first or with
      both tests passed; or, without the gate, holding what it took. */
  datatype Worker =
    | WantsRequest | AwaitsRequest | SawRequest
    | WantsData | AwaitsData | SawBoth
    | Holding(request: Request, notification: Notification)
    | Exited

  /** `pushers` have queued their data and have yet to notify. `pushed`, `pended`, `canceled`
      and `completed` are history. */
  datatype State = State(
    fixedSize: nat, requests: seq<Request>, notifications: seq<Notification>, worker: Worker, stopRequested: bool,
    pushers: nat, pushed: seq<Notification>, pended: seq<Request>, canceled: seq<Request>,
    completed: seq<Completion>)

  datatype Step =
    | EnqueueRequest(request: Request, forwards: bool)
    | PushNotification(notification: Notification)
    | NotifyData
    | Cancel(index: nat)
    | RequestStop
    | TestRequest
    | TestData
    | Retrieve
    | Complete
    | WakeSpuriously

  function Init(fixedSize: nat): State {
    State(fixedSize, [], [], WantsRequest, false, 0, [], [], [], [])
  }

  predicate GateHeld(s: State) {
    s.worker.SawRequest? || s.worker.SawBoth?
  }

  predicate Enabled(s: State, step: Step) {
    match step
    case EnqueueRequest(_, _) => !GateHeld(s)
    case PushNotification(_) => !GateHeld(s)
    case NotifyData => s.pushers > 0
    case Cancel(index) => index < |s.requests|
    case RequestStop => true
    case TestRequest => s.worker.WantsRequest?
    case TestData => s.worker.SawRequest? || s.worker.WantsData?
    case Retrieve => s.worker.SawBoth? && s.notifications != []
    case Complete => s.worker.Holding?
    case WakeSpuriously => s.worker.AwaitsRequest? || s.worker.AwaitsData?
  }

  function Woken(w: Worker): Worker {
    match w
    case AwaitsRequest => WantsRequest
    case AwaitsData => WantsData
    case _ => w
  }

  function Apply(s: State, step: Step): State
    requires Enabled(s, step)
  {
    match step
    case EnqueueRequest(request, forwards) =>
      if EnqueueStatus(s, forwards) != Pending then s
      else s.(requests := s.requests + [request], pended := s.pended + [request],
              worker := if s.worker.AwaitsRequest? then WantsRequest else s.worker)
    case PushNotification(n) =>
      s.(notifications := s.notifications + [n], pushed := s.pushed + [n], pushers := s.pushers + 1)
    case NotifyData =>
      s.(pushers := s.pushers - 1, worker := if s.worker.AwaitsData? then WantsData else s.worker)
    case Cancel(index) =>
      s.(requests := s.requests[..index] + s.requests[index + 1..], canceled := s.canceled + [s.requests[index]])
    case RequestStop => s.(stopRequested := true, worker := Woken(s.worker))
    case TestRequest =>
      s.(worker := if s.requests != [] then SawRequest else if s.stopRequested then Exited else AwaitsRequest)
    case TestData =>
      s.(worker := if s.notifications != [] then SawBoth else if s.stopRequested then Exited else AwaitsData)
    case Retrieve => AfterRetrieve(s)
    case Complete =>
      s.(worker := WantsRequest, completed := s.completed + [Completed(s.fixedSize, s.worker.request, s.worker.notification)])
    case WakeSpuriously => s.(worker := Woken(s.worker))
  }

  /** One request at a time may be pending; the framework may refuse to forward it. */
  function EnqueueStatus(s: State, forwards: bool): Status {
    if s.requests != [] then InvalidDeviceState else if !forwards then ForwardFailed else Pending
  }

  /** The request seen earlier may be gone: then nothing is taken and the loop starts over. */
  function AfterRetrieve(s: State): State
    requires s.notifications != []
  {
    if s.requests == [] then s.(worker := WantsRequest)
    else s.(worker := Holding(s.requests[0], s.notifications[0]),
            requests := s.requests[1..], notifications := s.notifications[1..])
  }

  /** Copies what fits; with no room for the fixed part nothing is copied. */
  function Completed(fixedSize: nat, request: Request, n: Notification): Completion {
    if request.outputSize < fixedSize then Completion(request, n, BufferTooSmall, [])
    else if request.outputSize < |n| then Completion(request, n, BufferOverflow, n[..request.outputSize])
    else Completion(request, n, Success, n)
  }

  function HandedOver(cs: seq<Completion>): seq<Notification> {
    if cs == [] then [] else HandedOver(cs[..|cs| - 1]) + [cs[|cs| - 1].notification]
  }

  function Served(cs: seq<Completion>): seq<Request> {
    if cs == [] then [] else Served(cs[..|cs| - 1]) + [cs[|cs| - 1].request]
  }

  function HeldNotification(s: State): seq<Notification> {
    if s.worker.Holding? then [s.worker.notification] else []
  }

  function HeldRequest(s: State): seq<Request> {
    if s.worker.Holding? then [s.worker.request] else []
  }

  // ---- What every step keeps

  /** Notifications go to requests in the order pushed, none lost, none twice. */
  predicate NotificationsInOrder(s: State) {
    s.pushed == HandedOver(s.completed) + HeldNotification(s) + s.notifications
  }

  function Count(xs: seq<Request>, r: Request): nat {
    multiset(xs)[r]
  }

  /** Every request ever pended is completed, canceled, held or still queued, once. */
  ghost predicate RequestsAccountedFor(s: State) {
    forall r: Request ::
      Count(s.pended, r) == Count(Served(s.completed), r) + Count(s.canceled, r)
                          + Count(HeldRequest(s), r) + Count(s.requests, r)
  }

  predicate NoLostWakeup(s: State) {
    && (s.worker.AwaitsRequest? ==> s.requests == [] && !s.stopRequested)
    && (s.worker.AwaitsData? ==> (s.notifications == [] || s.pushers > 0) && !s.stopRequested)
  }

  ghost predicate Inv(s: State) {
    && NotificationsInOrder(s)
    && RequestsAccountedFor(s)
    && NoLostWakeup(s)
    && |s.requests| <= 1
    && (s.worker.SawBoth? ==> s.notifications != [])
    && (s.worker.Exited? ==> s.stopRequested)
    && forall c <- s.completed :: c == Completed(s.fixedSize, c.request, c.notification)
  }

  lemma {:induction false} CompletedSnoc(cs: seq<Completion>, c: Completion)
    ensures HandedOver(cs + [c]) == HandedOver(cs) + [c.notification]
    ensures Served(cs + [c]) == Served(cs) + [c.request]
  {
    assert (cs + [c])[..|cs|] == cs;
  }

  lemma {:induction false} StepKeepsNotifications(s: State, step: Step)
    requires NotificationsInOrder(s) && Enabled(s, step)
    ensures NotificationsInOrder(Apply(s, step))
  {
    hide HandedOver, EnqueueStatus, Completed;
    var front := HandedOver(s.completed);
    match step
    case PushNotification(n) =>
      Associative(front + HeldNotification(s), s.notifications, [n]);
    case Retrieve =>
      if s.requests != [] {
        FirstTaken(front, s.notifications);
      }
    case Complete =>
      CompletedSnoc(s.completed, Completed(s.fixedSize, s.worker.request, s.worker.notification));
      CompletedFields(s.fixedSize, s.worker.request, s.worker.notification);
      NothingHeld(front + [s.worker.notification]);
    case _ =>
  }

  lemma {:induction false} Associative(a: seq<Notification>, b: seq<Notification>, c: seq<Notification>)
    ensures a + b + c == a + (b + c)
  {
  }

  lemma {:induction false} FirstTaken(front: seq<Notification>, rest: seq<Notification>)
    requires rest != []
    ensures front + [] + rest == front + [rest[0]] + rest[1..]
  {
  }

  lemma {:induction false} NothingHeld(front: seq<Notification>)
    ensures front + [] == front
  {
  }

  lemma {:induction false} CompletedFields(fixedSize: nat, request: Request, n: Notification)
    ensures Completed(fixedSize, request, n).request == request
    ensures Completed(fixedSize, request, n).notification == n
    ensures var c := Completed(fixedSize, request, n);
            && c.output <= n
            && (c.status == Success <==> fixedSize <= request.outputSize && |n| <= request.outputSize)
            && (c.status == Success ==> c.output == n)
            && (c.status == BufferTooSmall <==> request.outputSize < fixedSize)
            && (c.status == BufferOverflow <==> fixedSize <= request.outputSize < |n|)
            && (c.status == BufferTooSmall ==> c.output == [])
            && (c.status == BufferOverflow ==> |c.output| == request.outputSize)
  {
  }

  lemma {:induction false} CountSnoc(xs: seq<Request>, x: Request, r: Request)
    ensures Count(xs + [x], r) == Count(xs, r) + Count([x], r)
  {
  }

  lemma {:induction false} CountWithout(xs: seq<Request>, i: nat, r: Request)
    requires i < |xs|
    ensures Count(xs, r) == Count(xs[..i] + xs[i + 1..], r) + Count([xs[i]], r)
  {
    assert xs == xs[..i] + [xs[i]] + xs[i + 1..];
  }

  lemma {:induction false} StepKeepsRequests(s: State, step: Step)
    requires RequestsAccountedFor(s) && Enabled(s, step)
    ensures RequestsAccountedFor(Apply(s, step))
  {
    hide Served, Count;
    var s' := Apply(s, step);
    forall r: Request
      ensures Count(s'.pended, r) == Count(Served(s'.completed), r) + Count(s'.canceled, r)
                                   + Count(HeldRequest(s'), r) + Count(s'.requests, r)
    {
      CountNone(r);
      match step
      case EnqueueRequest(request, _) =>
        CountSnoc(s.requests, request, r);
        CountSnoc(s.pended, request, r);
      case Cancel(index) =>
        CountWithout(s.requests, index, r);
        CountSnoc(s.canceled, s.requests[index], r);
      case Retrieve =>
        if s.requests != [] {
          CountWithout(s.requests, 0, r);
          assert s.requests[..0] + s.requests[1..] == s.requests[1..];
        }
      case Complete =>
        var c := Completed(s.fixedSize, s.worker.request, s.worker.notification);
        CompletedSnoc(s.completed, c);
        CountSnoc(Served(s.completed), c.request, r);
      case _ =>
    }
  }

  lemma {:induction false} CountNone(r: Request)
    ensures Count([], r) == 0
  {
  }

  lemma {:induction false} StepKeepsInv(s: State, step: Step)
    requires Inv(s) && Enabled(s, step)
    ensures Inv(Apply(s, step))
  {
    hide NotificationsInOrder, RequestsAccountedFor;
    StepKeepsNotifications(s, step);
    StepKeepsRequests(s, step);
  }

  // ---- Whole runs

  predicate ValidRun(s: State, steps: seq<Step>)
    decreases |steps|
  {
    steps == [] || (Enabled(s, steps[0]) && ValidRun(Apply(s, steps[0]), steps[1..]))
  }

  function Run(s: State, steps: seq<Step>): State
    requires ValidRun(s, steps)
    decreases |steps|
  {
    if steps == [] then s else Run(Apply(s, steps[0]), steps[1..])
  }

  /** What the pushers pushed in a run, whatever the others did. */
  function PushedIn(steps: seq<Step>): seq<Notification> {
    if steps == [] then []
    else (if steps[0].PushNotification? then [steps[0].notification] else []) + PushedIn(steps[1..])
  }

  lemma {:induction false} RunKeepsInv(s: State, steps: seq<Step>)
    requires ValidRun(s, steps) && Inv(s)
    ensures Inv(Run(s, steps))
    ensures Run(s, steps).pushed == s.pushed + PushedIn(steps)
    decreases |steps|
  {
    if steps == [] {
      assert s.pushed + [] == s.pushed;
    } else {
      StepKeepsInv(s, steps[0]);
      PushedBy(s, steps[0]);
      hide Inv, Apply, Enabled;
      RunKeepsInv(Apply(s, steps[0]), steps[1..]);
      Associative(s.pushed, if steps[0].PushNotification? then [steps[0].notification] else [], PushedIn(steps[1..]));
    }
  }

  lemma {:induction false} PushedBy(s: State, step: Step)
    requires Enabled(s, step)
    ensures Apply(s, step).pushed == s.pushed + (if step.PushNotification? then [step.notification] else [])
  {
    assert s.pushed + [] == s.pushed;
  }

  /** In every interleaving the k-th request served got the k-th notification pushed, and what
      was pushed but not handed over is held or still queued, in order. */
  lemma {:induction false} PairedInOrder(fixedSize: nat, steps: seq<Step>)
    requires ValidRun(Init(fixedSize), steps)
    ensures var s := Run(Init(fixedSize), steps);
            && PushedIn(steps) == HandedOver(s.completed) + HeldNotification(s) + s.notifications
            && (forall r: Request ::
                  Count(s.pended, r) == Count(Served(s.completed), r) + Count(s.canceled, r)
                                      + Count(HeldRequest(s), r) + Count(s.requests, r))
            && |s.requests| <= 1
  {
    RunKeepsInv(Init(fixedSize), steps);
    assert [] + PushedIn(steps) == PushedIn(steps);
  }

  lemma {:induction false} HandedOverAt(cs: seq<Completion>, k: nat)
    requires k < |cs|
    ensures |HandedOver(cs)| == |cs| && HandedOver(cs)[k] == cs[k].notification
    decreases |cs|
  {
    var front := cs[..|cs| - 1];
    if k < |front| {
      HandedOverAt(front, k);
    } else if |front| != 0 {
      HandedOverAt(front, 0);
    }
  }

  lemma {:induction false} PrefixAt(front: seq<Notification>, rest: seq<Notification>, k: nat)
    requires k < |front|
    ensures (front + rest)[k] == front[k]
  {
  }

  /** In every interleaving, whatever was canceled: the k-th request completed got the k-th
      notification pushed, from its start and as much of it as fits, all of it exactly when
      it reports success, nothing exactly when it reports a buffer too small for the part of
      fixed size, and as much as fits exactly when it reports an overflow. */
  lemma {:induction false} KthCompletion(fixedSize: nat, steps: seq<Step>, k: nat)
    requires ValidRun(Init(fixedSize), steps) && k < |Run(Init(fixedSize), steps).completed|
    ensures var c := Run(Init(fixedSize), steps).completed[k];
            && k < |PushedIn(steps)| && c.notification == PushedIn(steps)[k]
            && c.output <= c.notification
            && (c.status == Success <==> fixedSize <= c.request.outputSize && |c.notification| <= c.request.outputSize)
            && (c.status == Success ==> c.output == c.notification)
            && (c.status == BufferTooSmall <==> c.request.outputSize < fixedSize)
            && (c.status == BufferOverflow <==> fixedSize <= c.request.outputSize < |c.notification|)
            && (c.status == BufferTooSmall ==> c.output == [])
            && (c.status == BufferOverflow ==> |c.output| == c.request.outputSize)
  {
    hide *;
    var s := Run(Init(fixedSize), steps);
    KthIsCompleted(fixedSize, steps, k);
    CompletedFields(fixedSize, s.completed[k].request, s.completed[k].notification);
    HandedOverAt(s.completed, k);
    PairedInOrder(fixedSize, steps);
    PrefixAt(HandedOver(s.completed), HeldNotification(s) + s.notifications, k);
    assert PushedIn(steps) == HandedOver(s.completed) + (HeldNotification(s) + s.notifications);
  }

  lemma {:induction false} KthIsCompleted(fixedSize: nat, steps: seq<Step>, k: nat)
    requires ValidRun(Init(fixedSize), steps) && k < |Run(Init(fixedSize), steps).completed|
    ensures var c := Run(Init(fixedSize), steps).completed[k]; c == Completed(fixedSize, c.request, c.notification)
  {
    RunKeepsInv(Init(fixedSize), steps);
    SameFixedSize(Init(fixedSize), steps);
    assert Init(fixedSize).fixedSize == fixedSize;
    hide Run, ValidRun, Completed, NotificationsInOrder, RequestsAccountedFor, NoLostWakeup, Init, PushedIn;
  }

  lemma {:induction false} SameFixedSize(s: State, steps: seq<Step>)
    requires ValidRun(s, steps)
    ensures Run(s, steps).fixedSize == s.fixedSize
    decreases |steps|
  {
    if steps != [] {
      SameFixedSize(Apply(s, steps[0]), steps[1..]);
    }
  }

  /** What is handed over depends on the pushes alone: of two runs with the same pushes,
      however different in their requests, cancellations and wakeups, the one that completed
      fewer requests handed over the beginning of what the other did. */
  lemma {:induction false} OnlyPushesMatter(fixedSize: nat, a: seq<Step>, b: seq<Step>)
    requires ValidRun(Init(fixedSize), a) && ValidRun(Init(fixedSize), b) && PushedIn(a) == PushedIn(b)
    requires |Run(Init(fixedSize), a).completed| <= |Run(Init(fixedSize), b).completed|
    ensures HandedOver(Run(Init(fixedSize), a).completed) <= HandedOver(Run(Init(fixedSize), b).completed)
  {
    var s, t := Run(Init(fixedSize), a), Run(Init(fixedSize), b);
    PairedInOrder(fixedSize, a);
    PairedInOrder(fixedSize, b);
    HandedOverLength(s.completed);
    HandedOverLength(t.completed);
    hide *;
    assert PushedIn(a) == HandedOver(s.completed) + (HeldNotification(s) + s.notifications);
    assert PushedIn(a) == HandedOver(t.completed) + (HeldNotification(t) + t.notifications);
    PrefixesOfOne(HandedOver(s.completed), HeldNotification(s) + s.notifications,
                  HandedOver(t.completed), HeldNotification(t) + t.notifications);
  }

  lemma {:induction false} HandedOverLength(cs: seq<Completion>)
    ensures |HandedOver(cs)| == |cs|
  {
    if cs != [] {
      HandedOverAt(cs, 0);
    }
  }

  lemma {:induction false} PrefixesOfOne(a: seq<Notification>, restA: seq<Notification>,
                                         b: seq<Notification>, restB: seq<Notification>)
    requires a + restA == b + restB && |a| <= |b|
    ensures a <= b
  {
    assert a == (a + restA)[..|a|] == (b + restB)[..|a|] == b[..|a|];
  }

  // ---- Progress

  /** Steps of the thread, and of a pusher waking it, to the next completion. */
  function Distance(w: Worker): nat {
    match w
    case AwaitsData => 4
    case WantsRequest => 4
    case SawRequest => 3
    case WantsData => 3
    case SawBoth => 2
    case Holding(_, _) => 1
    case _ => 0
  }

  /** The thread's own steps, and whatever wakes it from waiting for data. */
  predicate IsWork(s: State, step: Step) {
    match step
    case TestRequest | TestData | Retrieve | Complete | WakeSpuriously => true
    case NotifyData => s.worker.AwaitsData?
    case _ => false
  }

  function WorkIn(s: State, steps: seq<Step>): nat
    requires ValidRun(s, steps)
    decreases |steps|
  {
    if steps == [] then 0
    else (if IsWork(s, steps[0]) then 1 else 0) + WorkIn(Apply(s, steps[0]), steps[1..])
  }

  /** A request waits with its notification: in their queues, or in the thread's hands. */
  predicate PairWaits(s: State) {
    s.worker.Holding? || (!s.worker.Exited? && s.requests != [] && s.notifications != [])
  }

  function NextCompletion(s: State): Completion
    requires PairWaits(s)
  {
    if s.worker.Holding? then Completed(s.fixedSize, s.worker.request, s.worker.notification)
    else Completed(s.fixedSize, s.requests[0], s.notifications[0])
  }

  /** Nothing but a completion or a cancellation changes which pair is the next one. */
  lemma {:induction false} WorkGetsNearer(s: State, step: Step)
    requires Inv(s) && PairWaits(s) && Enabled(s, step) && !step.Complete? && !step.Cancel?
    ensures var s' := Apply(s, step);
            && PairWaits(s') && NextCompletion(s') == NextCompletion(s) && s'.completed == s.completed
            && Distance(s'.worker) + (if IsWork(s, step) then 1 else 0) <= Distance(s.worker)
  {
    hide NotificationsInOrder, RequestsAccountedFor, Completed;
  }

  lemma {:induction false} CompletedGrows(s: State, steps: seq<Step>)
    requires ValidRun(s, steps)
    ensures s.completed <= Run(s, steps).completed
    decreases |steps|
  {
    if steps != [] {
      CompletedGrows(Apply(s, steps[0]), steps[1..]);
    }
  }

  /** In every run in which nobody cancels, whatever is pushed, requested or asked to stop
      meanwhile, the waiting pair is served after at most four steps of work. */
  lemma {:induction false} ServedInTime(s: State, steps: seq<Step>)
    requires ValidRun(s, steps) && Inv(s) && PairWaits(s)
    requires forall step <- steps :: !step.Cancel?
    ensures Distance(s.worker) <= 4
    ensures WorkIn(s, steps) >= Distance(s.worker) ==> s.completed + [NextCompletion(s)] <= Run(s, steps).completed
    decreases |steps|
  {
    if steps == [] {
      assert Distance(s.worker) > 0;
    } else {
      var s' := Apply(s, steps[0]);
      if steps[0].Complete? {
        CompletedGrows(s', steps[1..]);
      } else {
        WorkGetsNearer(s, steps[0]);
        StepKeepsInv(s, steps[0]);
        hide Inv, PairWaits, NextCompletion, Enabled, Apply;
        ServedInTime(s', steps[1..]);
      }
    }
  }

  /** With a request and a notification waiting, and no stop, the thread gets to serve one of
      the waiting requests with the oldest notification if nobody cancels it meanwhile. */
  lemma {:induction false} GetsServed(s: State) returns (steps: seq<Step>)
    requires Inv(s) && !s.worker.Holding? && !s.worker.Exited?
    requires s.requests != [] && s.notifications != []
    ensures ValidRun(s, steps) && |steps| <= Distance(s.worker)
    ensures forall step <- steps ::
              step.NotifyData? || step.TestRequest? || step.TestData? || step.Retrieve? || step.Complete?
    ensures Run(s, steps).completed == s.completed + [Completed(s.fixedSize, s.requests[0], s.notifications[0])]
    decreases Distance(s.worker)
  {
    hide NotificationsInOrder, RequestsAccountedFor, Completed;
    if s.worker.SawBoth? {
      steps := ServesNow(s);
    } else {
      var step := if s.worker.AwaitsData? then NotifyData
                  else if s.worker.WantsRequest? then TestRequest else TestData;
      StepKeepsInv(s, step);
      var others := GetsServed(Apply(s, step));
      RunOf(s, step, others);
      steps := [step] + others;
    }
  }

  lemma {:induction false} ServesNow(s: State) returns (steps: seq<Step>)
    requires s.worker.SawBoth? && s.requests != [] && s.notifications != []
    ensures steps == [Retrieve, Complete] && ValidRun(s, steps)
    ensures Run(s, steps).completed == s.completed + [Completed(s.fixedSize, s.requests[0], s.notifications[0])]
  {
    hide Completed;
    var s1 := Apply(s, Retrieve);
    RunOf(s1, Complete, []);
    RunOf(s, Retrieve, [Complete] + []);
    steps := [Retrieve] + ([Complete] + []);
  }

  lemma {:induction false} RunOf(s: State, step: Step, others: seq<Step>)
    requires Enabled(s, step) && ValidRun(Apply(s, step), others)
    ensures ValidRun(s, [step] + others) && Run(s, [step] + others) == Run(Apply(s, step), others)
  {
    assert ([step] + others)[1..] == others;
  }

  // ---- Requests coming in

  /** A request is pended exactly when none is and the framework forwards it; it is then the
      one that waits. The other answers say which of the two was the matter. */
  lemma {:induction false} EnqueueEffect(s: State, request: Request, forwards: bool)
    requires Enabled(s, EnqueueRequest(request, forwards))
    ensures var s', status := Apply(s, EnqueueRequest(request, forwards)), EnqueueStatus(s, forwards);
            && (s.requests == [] && forwards ==>
                  status == Pending && s'.requests == [request] && s'.pended == s.pended + [request])
            && (s.requests != [] ==> status == InvalidDeviceState && s' == s)
            && (s.requests == [] && !forwards ==> status == ForwardFailed && s' == s)
  {
  }

  function NotifiesIn(steps: seq<Step>): nat {
    if steps == [] then 0 else (if steps[0].NotifyData? then 1 else 0) + NotifiesIn(steps[1..])
  }

  /** Every push owes one notify. */
  lemma {:induction false} NotifiesOwed(s: State, steps: seq<Step>)
    requires ValidRun(s, steps)
    ensures Run(s, steps).pushers + NotifiesIn(steps) == s.pushers + |PushedIn(steps)|
    decreases |steps|
  {
    if steps != [] {
      NotifiesOwed(Apply(s, steps[0]), steps[1..]);
    }
  }

  // ---- Coming to rest, and stopping

  /** The thread's own steps. */
  predicate IsOwn(step: Step) {
    step.TestRequest? || step.TestData? || step.Retrieve? || step.Complete?
  }

  /** What gets a sleeping thread up, or gives it a request to serve. */
  predicate Rouses(s: State, step: Step) {
    match step
    case EnqueueRequest(_, forwards) => EnqueueStatus(s, forwards) == Pending
    case NotifyData => s.worker.AwaitsData?
    case RequestStop => s.worker.AwaitsRequest? || s.worker.AwaitsData?
    case WakeSpuriously => true
    case _ => false
  }

  /** The most steps the thread can take before it sleeps or has gone: four for a request
      that is served, and one more look. */
  function ToRest(s: State): nat {
    var served := |s.requests|;
    match s.worker
    case AwaitsRequest => 0
    case AwaitsData => 0
    case Exited => 0
    case WantsRequest => 4 * served + 1
    case SawRequest => if served > 0 then 4 * served else 3
    case WantsData => if served > 0 then 4 * served else 3
    case SawBoth => if served > 0 then 4 * served - 1 else 2
    case Holding(_, _) => 4 * served + 2
  }

  lemma {:induction false} RestComesNearer(s: State, step: Step)
    requires Inv(s) && Enabled(s, step)
    ensures ToRest(s) <= 6
    ensures ToRest(Apply(s, step)) + (if IsOwn(step) then 1 else 0) <= ToRest(s) + (if Rouses(s, step) then 6 else 0)
  {
    assert |s.requests| <= 1 && (s.worker.SawBoth? ==> s.notifications != []);
    hide Inv;
    if IsOwn(step) {
      OwnStepNearer(s, step);
    } else {
      OtherStepNoFarther(s, step);
    }
  }

  lemma {:induction false} OwnStepNearer(s: State, step: Step)
    requires |s.requests| <= 1 && Enabled(s, step) && IsOwn(step)
    ensures ToRest(Apply(s, step)) < ToRest(s) <= 6
  {
    hide Completed;
  }

  lemma {:induction false} OtherStepNoFarther(s: State, step: Step)
    requires |s.requests| <= 1 && Enabled(s, step) && !IsOwn(step)
    ensures ToRest(Apply(s, step)) <= ToRest(s) + (if Rouses(s, step) then 6 else 0)
    ensures ToRest(s) <= 6
  {
    match step {
      case EnqueueRequest(request, forwards) =>
        if EnqueueStatus(s, forwards) == Pending { assert |s.requests + [request]| == 1; }
      case Cancel(index) => assert |s.requests[..index] + s.requests[index + 1..]| == |s.requests| - 1;
      case _ =>
    }
  }

  function OwnIn(steps: seq<Step>): nat {
    if steps == [] then 0 else (if IsOwn(steps[0]) then 1 else 0) + OwnIn(steps[1..])
  }

  function RousedIn(s: State, steps: seq<Step>): nat
    requires ValidRun(s, steps)
    decreases |steps|
  {
    if steps == [] then 0
    else (if Rouses(s, steps[0]) then 1 else 0) + RousedIn(Apply(s, steps[0]), steps[1..])
  }

  /** In every run the thread takes at most six steps, and six more each time it is roused: it
      never spins. */
  lemma {:induction false} OwnStepsBounded(s: State, steps: seq<Step>)
    requires ValidRun(s, steps) && Inv(s)
    ensures OwnIn(steps) + ToRest(Run(s, steps)) <= ToRest(s) + 6 * RousedIn(s, steps)
    ensures ToRest(s) <= 6
    decreases |steps|
  {
    if steps == [] {
      RestComesNearer(s, RequestStop);
    } else {
      RestComesNearer(s, steps[0]);
      StepKeepsInv(s, steps[0]);
      hide Inv, ToRest, Apply, Enabled, Rouses;
      OwnStepsBounded(Apply(s, steps[0]), steps[1..]);
    }
  }

  /** A thread that is not asleep and has not gone can take a step of its own. */
  lemma {:induction false} OwnStepEnabled(s: State) returns (step: Step)
    requires Inv(s) && ToRest(s) > 0
    ensures IsOwn(step) && Enabled(s, step)
  {
    hide NotificationsInOrder, RequestsAccountedFor;
    match s.worker
    case WantsRequest => step := TestRequest;
    case SawRequest | WantsData => step := TestData;
    case SawBoth => step := Retrieve;
    case Holding(_, _) => step := Complete;
    case _ =>
  }

  lemma {:induction false} StopStays(s: State, steps: seq<Step>)
    requires ValidRun(s, steps) && Inv(s) && s.stopRequested
    requires forall step <- steps :: !step.EnqueueRequest?
    ensures Run(s, steps).stopRequested && RousedIn(s, steps) == 0
    decreases |steps|
  {
    if steps != [] {
      StepKeepsInv(s, steps[0]);
      assert NoLostWakeup(s);
      hide Inv;
      StopStays(Apply(s, steps[0]), steps[1..]);
    }
  }

  /** After a stop was requested: in every run without new requests, whatever is pushed or
      canceled, the thread takes at most six steps, and it has gone exactly when no step of
      its own is left. */
  lemma {:induction false} StopsInTime(s: State, steps: seq<Step>)
    requires ValidRun(s, steps) && Inv(s) && s.stopRequested
    requires forall step <- steps :: !step.EnqueueRequest?
    ensures OwnIn(steps) <= ToRest(s) <= 6
    ensures OwnIn(steps) == ToRest(s) ==> Run(s, steps).worker.Exited?
    ensures Run(s, steps).worker.Exited? <==> forall step: Step :: IsOwn(step) ==> !Enabled(Run(s, steps), step)
  {
    OwnStepsBounded(s, steps);
    StopStays(s, steps);
    RunKeepsInv(s, steps);
    var s' := Run(s, steps);
    assert NoLostWakeup(s');
    if !s'.worker.Exited? {
      var step := OwnStepEnabled(s');
    }
    hide ValidRun, Run, OwnIn, RousedIn, Inv;
  }

  lemma {:induction false} StopsEventually(s: State) returns (steps: seq<Step>)
    requires Inv(s) && s.stopRequested
    ensures ValidRun(s, steps) && Run(s, steps).worker.Exited? && forall step <- steps :: IsOwn(step)
    decreases ToRest(s)
  {
    if s.worker.Exited? {
      steps := [];
    } else {
      assert NoLostWakeup(s);
      var step := OwnStepEnabled(s);
      RestComesNearer(s, step);
      StepKeepsInv(s, step);
      assert Apply(s, step).stopRequested && !Rouses(s, step);
      hide Inv, ToRest, Apply, Enabled, Rouses;
      var others := StopsEventually(Apply(s, step));
      RunOf(s, step, others);
      steps := [step] + others;
    }
  }

  /** A stop is pending exactly when one was requested, and only then can the thread go. */
  lemma {:induction false} StopRequestedIff(s: State, steps: seq<Step>)
    requires ValidRun(s, steps)
    ensures Run(s, steps).stopRequested <==> s.stopRequested || RequestStop in steps
    decreases |steps|
  {
    if steps != [] {
      StopRequestedIff(Apply(s, steps[0]), steps[1..]);
      assert steps == [steps[0]] + steps[1..];
    }
  }
}
