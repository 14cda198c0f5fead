/** The connector's callback tokens: vectors that dispatch erases from while it iterates, and
    maps from session ids to such vectors. */
module CallbackRegistry {
  import opened FiraDevice

  type Id = nat

  /** A token is known by its address. */
  type Token = nat

  /** What the visit to one token finds: the weak callback has expired; it holds an empty
      function; or it is called, and asks to stay or to be removed. A callback may change
      what later visits find. */
  datatype Outcome = Expired | Empty | Stays | AsksRemoval

  predicate IsCalled(o: Outcome) {
    o == Stays || o == AsksRemoval
  }

  /** The tokens that a dispatch leaves in the vector. */
  function Kept(tokens: seq<Token>, outcomes: seq<Outcome>): (r: seq<Token>)
    requires |tokens| == |outcomes|
    ensures |r| <= |tokens|
  {
    if tokens == [] then []
    else
      var k := |tokens| - 1;
      Kept(tokens[..k], outcomes[..k]) + (if outcomes[k] == Stays then [tokens[k]] else [])
  }

  /** The tokens whose callback a dispatch calls. */
  function Called(tokens: seq<Token>, outcomes: seq<Outcome>): seq<Token>
    requires |tokens| == |outcomes|
  {
    if tokens == [] then []
    else
      var k := |tokens| - 1;
      Called(tokens[..k], outcomes[..k]) + (if IsCalled(outcomes[k]) then [tokens[k]] else [])
  }

  predicate Distinct(tokens: seq<Token>) {
    forall i, j :: 0 <= i < j < |tokens| ==> tokens[i] != tokens[j]
  }

  /** Each occurrence of x in `sub` can be given its own place in `tokens`, in order. */
  ghost predicate InOrderAt(sub: seq<Token>, tokens: seq<Token>, places: seq<nat>) {
    && |places| == |sub|
    && (forall i :: 0 <= i < |sub| ==> places[i] < |tokens| && tokens[places[i]] == sub[i])
    && (forall i, j :: 0 <= i < j < |sub| ==> places[i] < places[j])
  }

  /** Called exactly once, in registration order: the places of the live tokens, ascending. */
  lemma {:induction false} CalledOnceInOrder(tokens: seq<Token>, outcomes: seq<Outcome>) returns (places: seq<nat>)
    requires |tokens| == |outcomes|
    ensures InOrderAt(Called(tokens, outcomes), tokens, places)
    ensures forall p :: p in places <==> 0 <= p < |tokens| && (outcomes[p] == Stays || outcomes[p] == AsksRemoval)
  {
    places := [];
    if tokens != [] {
      var k := |tokens| - 1;
      var front := CalledOnceInOrder(tokens[..k], outcomes[..k]);
      places := front + if IsCalled(outcomes[k]) then [k] else [];
      forall i | 0 <= i < |front| ensures front[i] < k && IsCalled(outcomes[front[i]]) {
        assert front[i] in front;
      }
    }
  }

  /** Exactly the tokens whose callback is live and did not ask for removal stay, in order. */
  lemma {:induction false} KeptInOrder(tokens: seq<Token>, outcomes: seq<Outcome>) returns (places: seq<nat>)
    requires |tokens| == |outcomes|
    ensures InOrderAt(Kept(tokens, outcomes), tokens, places)
    ensures forall p :: p in places <==> 0 <= p < |tokens| && outcomes[p] == Stays
  {
    places := [];
    if tokens != [] {
      var k := |tokens| - 1;
      var front := KeptInOrder(tokens[..k], outcomes[..k]);
      places := front + if outcomes[k] == Stays then [k] else [];
      forall i | 0 <= i < |front| ensures front[i] < k && outcomes[front[i]] == Stays {
        assert front[i] in front;
      }
    }
  }

  // ---- Maps of vectors

  type Registry = map<Id, seq<Token>>

  function ListOf(m: Registry, id: Id): seq<Token> {
    if id in m then m[id] else []
  }

  /** The entry is taken out for the dispatch and put back unless nothing is left of it. */
  function Dispatched(m: Registry, id: Id, outcomes: seq<Outcome>): Registry
    requires |outcomes| == |ListOf(m, id)|
  {
    if id !in m then m
    else
      var kept := Kept(m[id], outcomes);
      if kept == [] then m - {id} else m[id := kept]
  }

  function Inserted(m: Registry, id: Id, token: Token): Registry {
    m[id := ListOf(m, id) + [token]]
  }

  predicate NoEmptyList(m: Registry) {
    forall id <- m :: m[id] != []
  }

  /** The list of the session becomes the kept tokens, every other list is untouched, and
      there is an entry exactly for the sessions with tokens. */
  lemma {:induction false} DispatchedLists(m: Registry, id: Id, outcomes: seq<Outcome>, other: Id)
    requires |outcomes| == |ListOf(m, id)| && NoEmptyList(m)
    ensures var m' := Dispatched(m, id, outcomes);
            && NoEmptyList(m')
            && ListOf(m', other) == (if other == id then Kept(ListOf(m, id), outcomes) else ListOf(m, other))
            && (other in m' <==> ListOf(m', other) != [])
  {
  }

  // ---- What is left without some tokens

  function Without(tokens: seq<Token>, more: set<Token>): seq<Token> {
    if tokens == [] then []
    else
      var k := |tokens| - 1;
      Without(tokens[..k], more) + (if tokens[k] in more then [] else [tokens[k]])
  }

  function Droppable(tokens: seq<Token>, outcomes: seq<Outcome>): set<Token>
    requires |tokens| == |outcomes|
  {
    set i | 0 <= i < |tokens| && outcomes[i] != Stays :: tokens[i]
  }

  lemma {:induction false} DroppingIsKeeping(tokens: seq<Token>, outcomes: seq<Outcome>, more: set<Token>)
    requires |tokens| == |outcomes| && Distinct(tokens)
    requires forall i :: 0 <= i < |tokens| ==> (tokens[i] in more <==> outcomes[i] != Stays)
    ensures Kept(tokens, outcomes) == Without(tokens, more)
  {
    if tokens != [] {
      var k := |tokens| - 1;
      DroppingIsKeeping(tokens[..k], outcomes[..k], more);
    }
  }

  lemma {:induction false} DroppableIff(tokens: seq<Token>, outcomes: seq<Outcome>, i: nat)
    requires |tokens| == |outcomes| && Distinct(tokens) && i < |tokens|
    ensures tokens[i] in Droppable(tokens, outcomes) <==> outcomes[i] != Stays
  {
  }

  /** Dropping what a dispatch drops leaves what it keeps. */
  lemma {:induction false} KeptIsWithout(tokens: seq<Token>, outcomes: seq<Outcome>)
    requires |tokens| == |outcomes| && Distinct(tokens)
    ensures Kept(tokens, outcomes) == Without(tokens, Droppable(tokens, outcomes))
  {
    hide *;
    forall i | 0 <= i < |tokens| ensures tokens[i] in Droppable(tokens, outcomes) <==> outcomes[i] != Stays {
      DroppableIff(tokens, outcomes, i);
    }
    DroppingIsKeeping(tokens, outcomes, Droppable(tokens, outcomes));
  }

  lemma {:induction false} WithoutTwice(tokens: seq<Token>, a: set<Token>, b: set<Token>)
    ensures Without(Without(tokens, a), b) == Without(tokens, a + b)
  {
    if tokens != [] {
      var k := |tokens| - 1;
      WithoutTwice(tokens[..k], a, b);
      var front := Without(tokens[..k], a);
      if tokens[k] in a {
        assert front + [] == front;
      } else {
        assert (front + [tokens[k]])[..|front|] == front;
      }
    }
  }

  lemma {:induction false} WithoutExactly(tokens: seq<Token>, more: set<Token>, t: Token)
    ensures t in Without(tokens, more) <==> t in tokens && t !in more
  {
    if tokens != [] {
      var k := |tokens| - 1;
      WithoutExactly(tokens[..k], more, t);
      assert tokens == tokens[..k] + [tokens[k]];
    }
  }

  lemma {:induction false} WithoutDistinct(tokens: seq<Token>, more: set<Token>)
    requires Distinct(tokens)
    ensures Distinct(Without(tokens, more))
  {
    if tokens != [] {
      var k := |tokens| - 1;
      var front := Without(tokens[..k], more);
      WithoutDistinct(tokens[..k], more);
      forall i | 0 <= i < |front| ensures front[i] != tokens[k] {
        WithoutExactly(tokens[..k], more, front[i]);
        assert front[i] in front;
        var j :| 0 <= j < k && tokens[..k][j] == front[i];
      }
    }
  }

  lemma {:induction false} WithoutAllOrNothing(tokens: seq<Token>, more: set<Token>)
    ensures (forall t <- tokens :: t !in more) ==> Without(tokens, more) == tokens
    ensures (forall t <- tokens :: t in more) ==> Without(tokens, more) == []
  {
    if tokens != [] {
      var k := |tokens| - 1;
      WithoutAllOrNothing(tokens[..k], more);
      assert tokens[k] in tokens;
    }
  }

  // ---- Deregistration

  /** The vector without the first occurrence of the token. */
  function Erased(tokens: seq<Token>, token: Token): seq<Token> {
    if tokens == [] then []
    else if tokens[0] == token then tokens[1..]
    else [tokens[0]] + Erased(tokens[1..], token)
  }

  lemma {:induction false} WithoutFirst(first: Token, rest: seq<Token>, more: set<Token>)
    ensures Without([first] + rest, more) == (if first in more then [] else [first]) + Without(rest, more)
  {
    if rest == [] {
      assert [first] + rest == [first];
      assert Without([], more) == [];
    } else {
      var k := |rest| - 1;
      WithoutFirst(first, rest[..k], more);
      var all := [first] + rest;
      assert all[..k + 1] == [first] + rest[..k] && all[k + 1] == rest[k];
    }
  }

  /** Deregistering a device callback takes out that token and no other. */
  lemma {:induction false} ErasedIsWithout(tokens: seq<Token>, token: Token)
    requires Distinct(tokens)
    ensures Erased(tokens, token) == Without(tokens, {token})
  {
    if tokens != [] {
      var first, rest := tokens[0], tokens[1..];
      assert tokens == [first] + rest;
      WithoutFirst(first, rest, {token});
      if first == token {
        forall t <- rest ensures t != token {
          var i :| 0 <= i < |rest| && rest[i] == t;
          assert tokens[i + 1] == t;
        }
        WithoutAllOrNothing(rest, {token});
      } else {
        ErasedIsWithout(rest, token);
      }
    }
  }

  /** For a session callback the code takes the entry out of the map and, if the token is in
      its list, erases it from a copy and puts the entry back as it was; otherwise it returns
      with the entry still out. */
  function SessionDeregistered(m: Registry, id: Id, token: Token): Registry {
    if id !in m then m else if token in m[id] then m else m - {id}
  }

  /** That takes out the token and leaves everything else exactly when the session has no
      tokens at all. */
  lemma {:induction false} SessionDeregisteredIff(m: Registry, id: Id, token: Token)
    requires NoEmptyList(m)
    ensures (forall other :: ListOf(SessionDeregistered(m, id, token), other)
                          == if other == id then Without(ListOf(m, id), {token}) else ListOf(m, other))
       <==> id !in m
  {
    var m' := SessionDeregistered(m, id, token);
    if id in m {
      if token in m[id] {
        WithoutShrinks(m[id], token);
      } else {
        WithoutAllOrNothing(m[id], {token});
      }
      assert ListOf(m', id) != Without(ListOf(m, id), {token});
    }
  }

  lemma {:induction false} WithoutShrinks(tokens: seq<Token>, token: Token)
    ensures |Without(tokens, {token})| <= |tokens|
    ensures token in tokens ==> |Without(tokens, {token})| < |tokens|
  {
    if tokens != [] {
      WithoutShrinks(tokens[..|tokens| - 1], token);
    }
  }

  // ---- Over whole runs

  datatype Step =
    | Insert(id: Id, token: Token)
    | Dispatch(id: Id, outcomes: seq<Outcome>)
    | Deregister(id: Id, token: Token)

  datatype Registration = Registration(id: Id, token: Token)

  /** The last three are history: every registration; every token that some visit found
      expired, empty or asking for removal; and every token whose entry was taken out by the
      deregistration of another one. */
  datatype State = State(lists: Registry, registered: seq<Registration>, dropped: set<Token>, lost: set<Token>)

  function Init(): State {
    State(map[], [], {}, {})
  }

  function Gone(s: State): set<Token> {
    s.dropped + s.lost
  }

  /** A token object is made for its registration, so it is new, and it carries the session
      it was made for to its deregistration. */
  predicate Enabled(s: State, step: Step) {
    match step
    case Insert(_, token) => forall r <- s.registered :: r.token != token
    case Dispatch(id, outcomes) => |outcomes| == |ListOf(s.lists, id)|
    case Deregister(id, token) => Registration(id, token) in s.registered
  }

  function Apply(s: State, step: Step): State
    requires Enabled(s, step)
  {
    match step
    case Insert(id, token) =>
      s.(lists := Inserted(s.lists, id, token), registered := s.registered + [Registration(id, token)])
    case Dispatch(id, outcomes) =>
      s.(lists := Dispatched(s.lists, id, outcomes), dropped := s.dropped + Droppable(ListOf(s.lists, id), outcomes))
    case Deregister(id, token) =>
      s.(lists := SessionDeregistered(s.lists, id, token), lost := s.lost + TakenAlong(s.lists, id, token))
  }

  /** What a deregistration takes out: never the token itself. */
  function TakenAlong(m: Registry, id: Id, token: Token): set<Token> {
    if token in ListOf(m, id) then {} else set t | t in ListOf(m, id)
  }

  ghost predicate IsRun(s: State, steps: seq<Step>, s': State)
    decreases |steps|
  {
    if steps == [] then s == s'
    else
      var k := |steps| - 1;
      exists mid :: IsRun(s, steps[..k], mid) && Enabled(mid, steps[k]) && s' == Apply(mid, steps[k])
  }

  /** The tokens registered for a session and not gone, in registration order. */
  function Remaining(registered: seq<Registration>, id: Id, gone: set<Token>): seq<Token> {
    if registered == [] then []
    else
      var k := |registered| - 1;
      Remaining(registered[..k], id, gone)
      + (if registered[k].id == id && registered[k].token !in gone then [registered[k].token] else [])
  }

  predicate DistinctTokens(registered: seq<Registration>) {
    forall i, j :: 0 <= i < j < |registered| ==> registered[i].token != registered[j].token
  }

  ghost predicate Inv(s: State) {
    && NoEmptyList(s.lists)
    && DistinctTokens(s.registered)
    && (forall t <- Gone(s) :: exists r <- s.registered :: r.token == t)
    && (forall id :: ListOf(s.lists, id) == Remaining(s.registered, id, Gone(s)))
  }

  lemma {:induction false} RemainingExactly(registered: seq<Registration>, id: Id, gone: set<Token>, t: Token)
    ensures t in Remaining(registered, id, gone) <==> Registration(id, t) in registered && t !in gone
  {
    if registered != [] {
      var k := |registered| - 1;
      RemainingExactly(registered[..k], id, gone, t);
      assert registered == registered[..k] + [registered[k]];
    }
  }

  lemma {:induction false} SameToken(registered: seq<Registration>, a: Registration, b: Registration)
    requires DistinctTokens(registered) && a in registered && b in registered && a.token == b.token
    ensures a == b
  {
    var i :| 0 <= i < |registered| && registered[i] == a;
    var j :| 0 <= j < |registered| && registered[j] == b;
    assert i == j;
  }

  lemma {:induction false} TakingFromOthers(registered: seq<Registration>, id: Id, gone: set<Token>, more: set<Token>)
    requires forall t <- more :: Registration(id, t) !in registered
    ensures Remaining(registered, id, gone + more) == Remaining(registered, id, gone)
  {
    if registered != [] {
      var k := |registered| - 1;
      TakingFromOthers(registered[..k], id, gone, more);
      assert registered[k] in registered;
    }
  }

  lemma {:induction false} RemainingWithout(registered: seq<Registration>, id: Id, gone: set<Token>,
                                            more: set<Token>)
    ensures Remaining(registered, id, gone + more) == Without(Remaining(registered, id, gone), more)
  {
    if registered != [] {
      var k := |registered| - 1;
      RemainingWithout(registered[..k], id, gone, more);
      var front := Remaining(registered[..k], id, gone);
      if registered[k].id == id && registered[k].token !in gone {
        assert (front + [registered[k].token])[..|front|] == front;
      } else {
        assert front + [] == front;
      }
    }
  }

  lemma {:induction false} RemainingDistinct(registered: seq<Registration>, id: Id, gone: set<Token>)
    requires DistinctTokens(registered)
    ensures Distinct(Remaining(registered, id, gone))
  {
    if registered != [] {
      var k := |registered| - 1;
      var front := Remaining(registered[..k], id, gone);
      RemainingDistinct(registered[..k], id, gone);
      forall i | 0 <= i < |front| ensures front[i] != registered[k].token {
        RemainingExactly(registered[..k], id, gone, front[i]);
        assert front[i] in front;
        var j :| 0 <= j < k && registered[..k][j] == Registration(id, front[i]);
      }
    }
  }

  lemma {:induction false} InsertKeepsInv(s: State, id: Id, token: Token)
    requires Inv(s) && Enabled(s, Insert(id, token))
    ensures Inv(Apply(s, Insert(id, token)))
  {
    var s' := Apply(s, Insert(id, token));
    assert token !in Gone(s);
    assert s'.registered[..|s.registered|] == s.registered;
    forall other ensures ListOf(s'.lists, other) == Remaining(s'.registered, other, Gone(s')) { }
  }

  /** What is taken from the list of one session is registered for it and for no other. */
  lemma {:induction false} ListedForOne(s: State, id: Id, t: Token, other: Id)
    requires Inv(s) && t in ListOf(s.lists, id)
    ensures Registration(id, t) in s.registered
    ensures other != id ==> Registration(other, t) !in s.registered
  {
    assert DistinctTokens(s.registered);
    RemainingExactly(s.registered, id, Gone(s), t);
    hide Remaining, DistinctTokens, NoEmptyList;
    if Registration(other, t) in s.registered {
      SameToken(s.registered, Registration(id, t), Registration(other, t));
    }
  }

  lemma {:induction false} TakenOut(s: State, id: Id, more: set<Token>, other: Id)
    requires Inv(s) && forall t <- more :: t in ListOf(s.lists, id)
    ensures Remaining(s.registered, other, Gone(s) + more)
         == if other == id then Without(ListOf(s.lists, id), more) else ListOf(s.lists, other)
  {
    assert ListOf(s.lists, other) == Remaining(s.registered, other, Gone(s));
    hide *;
    if other == id {
      RemainingWithout(s.registered, id, Gone(s), more);
    } else {
      forall t <- more ensures Registration(other, t) !in s.registered {
        ListedForOne(s, id, t, other);
      }
      TakingFromOthers(s.registered, other, Gone(s), more);
    }
  }

  /** Taking tokens out of one list, and nothing else, keeps the invariant. */
  lemma {:induction false} TakingOutKeepsInv(s: State, id: Id, more: set<Token>, s': State)
    requires Inv(s) && forall t <- more :: t in ListOf(s.lists, id)
    requires s'.registered == s.registered && Gone(s') == Gone(s) + more && NoEmptyList(s'.lists)
    requires forall other :: ListOf(s'.lists, other)
                          == if other == id then Without(ListOf(s.lists, id), more) else ListOf(s.lists, other)
    ensures Inv(s')
  {
    hide Remaining, Without, ListOf, NoEmptyList, DistinctTokens, Gone;
    forall other ensures ListOf(s'.lists, other) == Remaining(s'.registered, other, Gone(s')) {
      TakenOut(s, id, more, other);
    }
    forall t <- Gone(s') ensures exists r <- s'.registered :: r.token == t {
      if t in more {
        ListedForOne(s, id, t, id);
        assert Registration(id, t).token == t;
      }
    }
  }

  lemma {:induction false} ListIsDistinct(s: State, id: Id)
    requires Inv(s)
    ensures Distinct(ListOf(s.lists, id))
  {
    RemainingDistinct(s.registered, id, Gone(s));
    hide Remaining, Distinct, DistinctTokens, NoEmptyList;
  }

  lemma {:induction false} DispatchKeepsInv(s: State, id: Id, outcomes: seq<Outcome>)
    requires Inv(s) && Enabled(s, Dispatch(id, outcomes))
    ensures Inv(Apply(s, Dispatch(id, outcomes)))
  {
    var s' := Apply(s, Dispatch(id, outcomes));
    var more := Droppable(ListOf(s.lists, id), outcomes);
    ListIsDistinct(s, id);
    KeptIsWithout(ListOf(s.lists, id), outcomes);
    DispatchedLists(s.lists, id, outcomes, id);
    hide Remaining, Without, Kept, Dispatched, ListOf, Inv, Distinct;
    forall other ensures ListOf(s'.lists, other)
                      == if other == id then Without(ListOf(s.lists, id), more) else ListOf(s.lists, other) {
      DispatchedLists(s.lists, id, outcomes, other);
    }
    TakingOutKeepsInv(s, id, more, s');
  }

  lemma {:induction false} DeregisterKeepsInv(s: State, id: Id, token: Token)
    requires Inv(s) && Enabled(s, Deregister(id, token))
    ensures Inv(Apply(s, Deregister(id, token)))
  {
    var s' := Apply(s, Deregister(id, token));
    var more := TakenAlong(s.lists, id, token);
    WithoutAllOrNothing(ListOf(s.lists, id), more);
    hide Remaining, Without, Inv;
    TakingOutKeepsInv(s, id, more, s');
  }

  /** Every run of registrations, dispatches and deregistrations: a session's list is exactly
      its registered tokens that are not gone, in registration order and each once, and no
      entry is empty. */
  lemma {:induction false} ReachableInv(steps: seq<Step>, s: State)
    requires IsRun(Init(), steps, s)
    ensures Inv(s)
    decreases |steps|
  {
    if steps != [] {
      var k := |steps| - 1;
      var mid :| IsRun(Init(), steps[..k], mid) && Enabled(mid, steps[k]) && s == Apply(mid, steps[k]);
      ReachableInv(steps[..k], mid);
      match steps[k] {
        case Insert(id, token) => InsertKeepsInv(mid, id, token);
        case Dispatch(id, outcomes) => DispatchKeepsInv(mid, id, outcomes);
        case Deregister(id, token) => DeregisterKeepsInv(mid, id, token);
      }
    }
  }

  /** So in any run a dispatch visits a token exactly when it was registered for that session
      and neither an earlier visit dropped it nor the deregistration of another token took it
      along; its own deregistration makes no difference. */
  lemma {:induction false} VisitedUntilDropped(steps: seq<Step>, s: State, id: Id, t: Token)
    requires IsRun(Init(), steps, s)
    ensures t in ListOf(s.lists, id) <==> Registration(id, t) in s.registered && t !in s.dropped && t !in s.lost
  {
    ReachableInv(steps, s);
    RemainingExactly(s.registered, id, Gone(s), t);
  }

  /** Deregistering a token that is still listed changes nothing; deregistering one that is
      gone takes along whatever the session still has. */
  lemma {:induction false} DeregisteredAfter(steps: seq<Step>, s: State, id: Id, t: Token)
    requires IsRun(Init(), steps, s) && Enabled(s, Deregister(id, t))
    ensures var s' := Apply(s, Deregister(id, t));
            && (t !in Gone(s) ==> s' == s)
            && (t in Gone(s) ==> ListOf(s'.lists, id) == [])
            && (forall other :: other != id ==> ListOf(s'.lists, other) == ListOf(s.lists, other))
  {
    VisitedUntilDropped(steps, s, id, t);
    hide IsRun;
  }

  // ---- The connector

  datatype Notification =
    | GeneralStatus
    | DeviceStatus
    | SessionStatus(id: Id, state: SessionState)
    | MulticastListStatus(id: Id)
    | RangingData(id: Id)

  datatype Connector = Connector(
    onStatus: seq<Token>, onDeviceStatus: seq<Token>, onSessionEnded: Registry, onSessionStatus: Registry,
    onMembership: Registry, onPeerProperties: Registry)

  function FirstList(c: Connector, n: Notification): seq<Token> {
    match n
    case GeneralStatus => c.onStatus
    case DeviceStatus => c.onDeviceStatus
    case SessionStatus(id, _) => ListOf(c.onSessionStatus, id)
    case MulticastListStatus(id) => ListOf(c.onMembership, id)
    case RangingData(id) => ListOf(c.onPeerProperties, id)
  }

  predicate EndsSession(n: Notification) {
    n.SessionStatus? && n.state == Deinitialized
  }

  function SecondList(c: Connector, n: Notification): seq<Token> {
    if EndsSession(n) then ListOf(c.onSessionEnded, n.id) else []
  }

  /** What the visits of one notification find, on its own list and on the ended list. */
  predicate Answers(c: Connector, n: Notification, first: seq<Outcome>, second: seq<Outcome>) {
    |first| == |FirstList(c, n)| && |second| == |SecondList(c, n)|
  }

  function Notified(c: Connector, n: Notification, first: seq<Outcome>, second: seq<Outcome>): Connector
    requires Answers(c, n, first, second)
  {
    match n
    case GeneralStatus => c.(onStatus := Kept(c.onStatus, first))
    case DeviceStatus => c.(onDeviceStatus := Kept(c.onDeviceStatus, first))
    case SessionStatus(id, state) =>
      var c1 := c.(onSessionStatus := Dispatched(c.onSessionStatus, id, first));
      if state == Deinitialized then c1.(onSessionEnded := Dispatched(c1.onSessionEnded, id, second)) else c1
    case MulticastListStatus(id) => c.(onMembership := Dispatched(c.onMembership, id, first))
    case RangingData(id) => c.(onPeerProperties := Dispatched(c.onPeerProperties, id, first))
  }

  predicate NoEmptyLists(c: Connector) {
    NoEmptyList(c.onSessionEnded) && NoEmptyList(c.onSessionStatus)
    && NoEmptyList(c.onMembership) && NoEmptyList(c.onPeerProperties)
  }

  /** Each notification is dispatched to the one list for its kind and session, and one that
      says a session is Deinitialized also to that session's ended callbacks; no other list
      changes. */
  lemma {:induction false} NotifiedFrame(c: Connector, n: Notification, first: seq<Outcome>, second: seq<Outcome>,
                                         id: Id)
    requires NoEmptyLists(c) && Answers(c, n, first, second)
    ensures var c' := Notified(c, n, first, second);
            && NoEmptyLists(c')
            && c'.onStatus == (if n.GeneralStatus? then Kept(c.onStatus, first) else c.onStatus)
            && c'.onDeviceStatus == (if n.DeviceStatus? then Kept(c.onDeviceStatus, first) else c.onDeviceStatus)
            && ListOf(c'.onSessionStatus, id)
               == (if n.SessionStatus? && n.id == id then Kept(ListOf(c.onSessionStatus, id), first)
                   else ListOf(c.onSessionStatus, id))
            && ListOf(c'.onSessionEnded, id)
               == (if n.SessionStatus? && n.id == id && n.state == Deinitialized
                   then Kept(ListOf(c.onSessionEnded, id), second) else ListOf(c.onSessionEnded, id))
            && ListOf(c'.onMembership, id)
               == (if n.MulticastListStatus? && n.id == id then Kept(ListOf(c.onMembership, id), first)
                   else ListOf(c.onMembership, id))
            && ListOf(c'.onPeerProperties, id)
               == (if n.RangingData? && n.id == id then Kept(ListOf(c.onPeerProperties, id), first)
                   else ListOf(c.onPeerProperties, id))
  {
    match n {
      case SessionStatus(i, state) =>
        DispatchedLists(c.onSessionStatus, i, first, id);
        if state == Deinitialized {
          DispatchedLists(c.onSessionEnded, i, second, id);
        }
      case MulticastListStatus(i) => DispatchedLists(c.onMembership, i, first, id);
      case RangingData(i) => DispatchedLists(c.onPeerProperties, i, first, id);
      case _ =>
    }
    hide Kept, Dispatched;
  }
}
