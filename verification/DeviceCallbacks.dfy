/** One of the connector's two vectors of device callbacks, over whole runs. */
module DeviceCallbacks {
  import opened CallbackRegistry

  datatype Step =
    | Push(token: Token)
    | Dispatch(outcomes: seq<Outcome>)
    | Deregister(token: Token)

  /** The last three are history. */
  datatype State = State(
    tokens: seq<Token>, registered: seq<Token>, dropped: set<Token>, deregistered: set<Token>)

  function Init(): State {
    State.State([], [], {}, {})
  }

  /** A token object is made for its registration, so it is new, and only a token that has
      been made can be deregistered. */
  predicate Enabled(s: State, step: Step) {
    match step
    case Push(token) => token !in s.registered
    case Dispatch(outcomes) => |outcomes| == |s.tokens|
    case Deregister(token) => token in s.registered
  }

  function Apply(s: State, step: Step): State
    requires Enabled(s, step)
  {
    match step
    case Push(token) => s.(tokens := s.tokens + [token], registered := s.registered + [token])
    case Dispatch(outcomes) =>
      s.(tokens := Kept(s.tokens, outcomes), dropped := s.dropped + Droppable(s.tokens, outcomes))
    case Deregister(token) =>
      s.(tokens := Erased(s.tokens, token), deregistered := s.deregistered + {token})
  }

  predicate ValidRun(s: State, steps: seq<Step>)
    decreases |steps|
  {
    steps == [] || (Enabled(s, steps[0]) && ValidRun(Apply(s, steps[0]), steps[1..]))
  }

  function Run(s: State, steps: seq<Step>): State
    requires ValidRun(s, steps)
    decreases |steps|
  {
    if steps == [] then s else Run(Apply(s, steps[0]), steps[1..])
  }

  function Gone(s: State): set<Token> {
    s.dropped + s.deregistered
  }

  predicate Inv(s: State) {
    && Distinct(s.registered)
    && (forall t <- Gone(s) :: t in s.registered)
    && s.tokens == Without(s.registered, Gone(s))
  }

  lemma {:induction false} PushKeepsInv(s: State, token: Token)
    requires Inv(s) && Enabled(s, Push(token))
    ensures Inv(Apply(s, Push(token)))
  {
    var s' := Apply(s, Push(token));
    assert s'.registered[..|s.registered|] == s.registered;
    assert token !in Gone(s');
  }

  /** Taking listed tokens out keeps the invariant. */
  lemma {:induction false} TakingOutKeepsInv(s: State, more: set<Token>, s': State)
    requires Inv(s) && (forall t <- more :: t in s.registered)
    requires s'.registered == s.registered && Gone(s') == Gone(s) + more && s'.tokens == Without(s.tokens, more)
    ensures Inv(s')
  {
    WithoutTwice(s.registered, Gone(s), more);
    hide Without, Distinct;
  }

  lemma {:induction false} TokensAreDistinct(s: State)
    requires Inv(s)
    ensures Distinct(s.tokens)
    ensures forall t <- s.tokens :: t in s.registered
  {
    hide Without, Distinct, Gone;
    WithoutDistinct(s.registered, Gone(s));
    forall t <- s.tokens ensures t in s.registered {
      WithoutExactly(s.registered, Gone(s), t);
    }
  }

  lemma {:induction false} StepKeepsInv(s: State, step: Step)
    requires Inv(s) && Enabled(s, step)
    ensures Inv(Apply(s, step))
  {
    var s' := Apply(s, step);
    TokensAreDistinct(s);
    hide Without, Kept, Erased, Distinct, Inv;
    match step
    case Push(token) =>
      PushKeepsInv(s, token);
    case Dispatch(outcomes) =>
      KeptIsWithout(s.tokens, outcomes);
      TakingOutKeepsInv(s, Droppable(s.tokens, outcomes), s');
    case Deregister(token) =>
      ErasedIsWithout(s.tokens, token);
      TakingOutKeepsInv(s, {token}, s');
  }

  lemma {:induction false} RunKeepsInv(s: State, steps: seq<Step>)
    requires ValidRun(s, steps) && Inv(s)
    ensures Inv(Run(s, steps))
    decreases |steps|
  {
    if steps != [] {
      StepKeepsInv(s, steps[0]);
      hide Inv, Enabled, Apply;
      RunKeepsInv(Apply(s, steps[0]), steps[1..]);
    }
  }

  /** The tokens pushed, in order. */
  function Pushed(steps: seq<Step>): seq<Token> {
    if steps == [] then []
    else (if steps[0].Push? then [steps[0].token] else []) + Pushed(steps[1..])
  }

  function Deregistrations(steps: seq<Step>): set<Token> {
    set step <- steps | step.Deregister? :: step.token
  }

  lemma {:induction false} HistoryFrom(s: State, steps: seq<Step>)
    requires ValidRun(s, steps)
    ensures Run(s, steps).registered == s.registered + Pushed(steps)
    ensures Run(s, steps).deregistered == s.deregistered + Deregistrations(steps)
    decreases |steps|
  {
    if steps == [] {
      assert s.registered + [] == s.registered;
    } else {
      var later := Pushed(steps[1..]);
      HistoryFrom(Apply(s, steps[0]), steps[1..]);
      assert steps == [steps[0]] + steps[1..];
      if steps[0].Push? {
        assert s.registered + ([steps[0].token] + later) == s.registered + [steps[0].token] + later;
      } else {
        assert [] + later == later;
      }
    }
  }

  /** In every run of registrations, dispatches and deregistrations the vector is what was
      registered, in that order and each once, without what was deregistered and without
      what a visit dropped. */
  lemma {:induction false} ListedUntilGone(steps: seq<Step>)
    requires ValidRun(Init(), steps)
    ensures var s := Run(Init(), steps);
            && Distinct(Pushed(steps))
            && s.tokens == Without(Pushed(steps), s.dropped + Deregistrations(steps))
  {
    RunKeepsInv(Init(), steps);
    HistoryFrom(Init(), steps);
    hide ValidRun, Run, Without, Distinct;
    assert [] + Pushed(steps) == Pushed(steps);
    assert {} + Deregistrations(steps) == Deregistrations(steps);
  }

  /** So a dispatch visits a token exactly when it was registered and neither a visit dropped
      it nor it was deregistered. */
  lemma {:induction false} VisitedUntilGone(steps: seq<Step>, t: Token)
    requires ValidRun(Init(), steps)
    ensures t in Run(Init(), steps).tokens
       <==> t in Pushed(steps) && t !in Run(Init(), steps).dropped && t !in Deregistrations(steps)
  {
    ListedUntilGone(steps);
    WithoutExactly(Pushed(steps), Run(Init(), steps).dropped + Deregistrations(steps), t);
    hide *;
  }
}
