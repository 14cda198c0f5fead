/** The device's cache of weak session references: look up, else ask the driver, look again
    under the exclusive lock, else publish. Threads interleave between their critical
    sections, and callers drop their references at any time. */
module SessionCache {
  import opened Bytes

  type Id = nat
  type Thread = nat

  /** Sessions are numbered in the order they are made. */
  type Ref = nat

  /** Where a call stands: about to look up; asking the driver, without a lock; about to look
      again, holding the session the driver gave it; or about to publish one it created. */
  datatype Call =
    | Finding(id: Id)
    | Resolving(id: Id)
    | Rechecking(id: Id, made: Ref)
    | Creating(id: Id, made: Ref)

  /** `made[r]` is the id of session r. `clients` counts the strong references that callers
      hold; the calls under way hold the sessions they made. */
  datatype State = State(cache: map<Id, Ref>, made: seq<Id>, clients: multiset<Ref>, calls: map<Thread, Call>)

  datatype Step =
    | GetSession(tid: Thread, id: Id)
    | Find(tid: Thread)
    | ResolveFails(tid: Thread)
    | Resolves(tid: Thread)
    | Recheck(tid: Thread)
    | CreateSession(tid: Thread, id: Id)
    | Publish(tid: Thread)
    | Share(session: Ref)
    | Release(session: Ref)

  function Init(): State {
    State(map[], [], multiset{}, map[])
  }

  predicate HoldsSession(c: Call) {
    c.Rechecking? || c.Creating?
  }

  function Locals(s: State): set<Ref> {
    set t | t in s.calls && HoldsSession(s.calls[t]) :: s.calls[t].made
  }

  /** A weak reference locks while anybody holds a strong one. */
  predicate Alive(s: State, r: Ref) {
    r in s.clients || r in Locals(s)
  }

  function FindSessionLocked(s: State, id: Id): Option<Ref> {
    if id in s.cache && Alive(s, s.cache[id]) then Some(s.cache[id]) else None
  }

  predicate Enabled(s: State, step: Step) {
    match step
    case GetSession(t, _) => t !in s.calls
    case CreateSession(t, _) => t !in s.calls
    case Find(t) => t in s.calls && s.calls[t].Finding?
    case ResolveFails(t) => t in s.calls && s.calls[t].Resolving?
    case Resolves(t) => t in s.calls && s.calls[t].Resolving?
    case Recheck(t) => t in s.calls && s.calls[t].Rechecking?
    case Publish(t) => t in s.calls && s.calls[t].Creating?
    case Share(r) => r in s.clients
    case Release(r) => r in s.clients
  }

  /** The call is over and its caller holds the session. */
  function Returned(s: State, t: Thread, r: Ref): State {
    s.(calls := s.calls - {t}, clients := s.clients + multiset{r})
  }

  function Apply(s: State, step: Step): State
    requires Enabled(s, step)
  {
    match step
    case GetSession(t, id) => s.(calls := s.calls[t := Finding(id)])
    case Find(t) =>
      (match FindSessionLocked(s, s.calls[t].id)
       case Some(r) => Returned(s, t, r)
       case None => s.(calls := s.calls[t := Resolving(s.calls[t].id)]))
    case ResolveFails(t) => s.(calls := s.calls - {t})
    case Resolves(t) =>
      s.(made := s.made + [s.calls[t].id], calls := s.calls[t := Rechecking(s.calls[t].id, |s.made|)])
    case Recheck(t) =>
      (match FindSessionLocked(s, s.calls[t].id)
       case Some(r) => Returned(s, t, r)
       case None => Returned(s.(cache := s.cache[s.calls[t].id := s.calls[t].made]), t, s.calls[t].made))
    case CreateSession(t, id) =>
      s.(made := s.made + [id], calls := s.calls[t := Creating(id, |s.made|)])
    case Publish(t) =>
      Returned(s.(cache := s.cache[s.calls[t].id := s.calls[t].made]), t, s.calls[t].made)
    case Share(r) => s.(clients := s.clients + multiset{r})
    case Release(r) => s.(clients := s.clients - multiset{r})
  }

  // ---- One live session per id

  /** Any two sessions for one id that callers hold at the same time are the same. */
  ghost predicate Unique(s: State) {
    forall r1, r2 :: r1 in s.clients && r2 in s.clients && r1 < |s.made| && r2 < |s.made| && s.made[r1] == s.made[r2]
      ==> r1 == r2
  }

  /** What a caller holds is what the cache has for its id. */
  predicate HeldAreCached(s: State) {
    forall r <- s.clients :: r < |s.made| && s.made[r] in s.cache && s.cache[s.made[r]] == r
  }

  predicate CacheKnowsIds(s: State) {
    forall id <- s.cache :: s.cache[id] < |s.made| && s.made[s.cache[id]] == id
  }

  /** A session under way belongs to one call alone, and nobody else can reach it. */
  ghost predicate LocalsAreFresh(s: State) {
    && (forall t <- s.calls | HoldsSession(s.calls[t]) ::
          && s.calls[t].made < |s.made| && s.made[s.calls[t].made] == s.calls[t].id
          && s.calls[t].made !in s.clients)
    && (forall t <- s.calls, id <- s.cache | HoldsSession(s.calls[t]) :: s.cache[id] != s.calls[t].made)
    && (forall t <- s.calls, u <- s.calls | HoldsSession(s.calls[t]) && HoldsSession(s.calls[u]) && t != u ::
          s.calls[t].made != s.calls[u].made)
  }

  ghost predicate Inv(s: State) {
    HeldAreCached(s) && CacheKnowsIds(s) && LocalsAreFresh(s)
  }

  /** Publishing a created session while callers hold the one that is cached for its id. */
  predicate Overwrites(s: State, step: Step)
    requires Enabled(s, step)
  {
    step.Publish? &&
    var id := s.calls[step.tid].id;
    id in s.cache && s.cache[id] in s.clients
  }

  lemma {:induction false} InvMeansUnique(s: State)
    requires Inv(s)
    ensures Unique(s)
  {
  }

  lemma {:induction false} ReturnedKeepsInv(s: State, t: Thread, r: Ref)
    requires Inv(s) && t in s.calls
    requires r in s.cache.Values || (HoldsSession(s.calls[t]) && r == s.calls[t].made)
    requires r < |s.made| && s.made[r] in s.cache && s.cache[s.made[r]] == r
    ensures Inv(Returned(s, t, r))
  {
    var s' := Returned(s, t, r);
    forall u <- s'.calls | HoldsSession(s'.calls[u]) ensures s'.calls[u].made !in s'.clients {
      assert u in s.calls && s.calls[u] == s'.calls[u];
    }
  }

  lemma {:induction false} PublishKeepsInv(s: State, t: Thread)
    requires Inv(s) && t in s.calls && HoldsSession(s.calls[t])
    requires s.calls[t].id in s.cache ==> s.cache[s.calls[t].id] !in s.clients
    ensures Inv(Returned(s.(cache := s.cache[s.calls[t].id := s.calls[t].made]), t, s.calls[t].made))
  {
    PublishedIsCached(s, t);
    PublishedIsNotLocal(s, t);
    assert CacheKnowsIds(s) && s.made[s.calls[t].made] == s.calls[t].id;
    hide HeldAreCached, LocalsAreFresh;
  }

  lemma {:induction false} PublishedIsCached(s: State, t: Thread)
    requires Inv(s) && t in s.calls && HoldsSession(s.calls[t])
    requires s.calls[t].id in s.cache ==> s.cache[s.calls[t].id] !in s.clients
    ensures HeldAreCached(Returned(s.(cache := s.cache[s.calls[t].id := s.calls[t].made]), t, s.calls[t].made))
  {
    var id, r := s.calls[t].id, s.calls[t].made;
    var s' := Returned(s.(cache := s.cache[id := r]), t, r);
    assert HeldAreCached(s) && r < |s.made| && s.made[r] == id;
    hide LocalsAreFresh, CacheKnowsIds;
    forall q <- s'.clients ensures q < |s'.made| && s'.made[q] in s'.cache && s'.cache[s'.made[q]] == q {
      if q != r {
        assert q in s.clients;
      }
    }
  }

  lemma {:induction false} PublishedIsNotLocal(s: State, t: Thread)
    requires Inv(s) && t in s.calls && HoldsSession(s.calls[t])
    ensures LocalsAreFresh(Returned(s.(cache := s.cache[s.calls[t].id := s.calls[t].made]), t, s.calls[t].made))
  {
    hide HeldAreCached, CacheKnowsIds;
    var id, r := s.calls[t].id, s.calls[t].made;
    var s' := Returned(s.(cache := s.cache[id := r]), t, r);
    forall u <- s'.calls | HoldsSession(s'.calls[u]) ensures s'.calls[u].made !in s'.clients {
      assert u in s.calls && s.calls[u] == s'.calls[u];
    }
  }

  lemma {:induction false} MadeKnowsIds(s: State, t: Thread, id: Id, c: Call)
    requires HeldAreCached(s) && CacheKnowsIds(s)
    ensures HeldAreCached(s.(made := s.made + [id], calls := s.calls[t := c]))
    ensures CacheKnowsIds(s.(made := s.made + [id], calls := s.calls[t := c]))
    ensures |s.made| !in s.clients && |s.made| !in s.cache.Values
  {
  }

  lemma {:induction false} MakeKeepsInv(s: State, t: Thread, id: Id, c: Call)
    requires Inv(s) && HoldsSession(c) && c.id == id && c.made == |s.made|
    ensures Inv(s.(made := s.made + [id], calls := s.calls[t := c]))
  {
    var s' := s.(made := s.made + [id], calls := s.calls[t := c]);
    MadeKnowsIds(s, t, id, c);
    hide HeldAreCached, CacheKnowsIds;
    forall u <- s'.calls | HoldsSession(s'.calls[u]) && u != t
      ensures u in s.calls && s'.calls[u] == s.calls[u]
    {
    }
  }

  lemma {:induction false} CallsKeepInv(s: State, calls: map<Thread, Call>)
    requires Inv(s) && forall t <- calls | HoldsSession(calls[t]) :: t in s.calls && calls[t] == s.calls[t]
    ensures Inv(s.(calls := calls))
  {
  }

  lemma {:induction false} ClientsKeepInv(s: State, clients: multiset<Ref>)
    requires Inv(s) && forall r <- clients :: r in s.clients
    ensures Inv(s.(clients := clients))
  {
  }

  lemma {:induction false} StepKeepsInv(s: State, step: Step)
    requires Inv(s) && Enabled(s, step) && !Overwrites(s, step)
    ensures Inv(Apply(s, step))
  {
    match step {
      case Find(t) => LookUpKeepsInv(s, t);
      case Recheck(t) => RecheckKeepsInv(s, t);
      case Publish(t) => PublishKeepsInv(s, t);
      case Resolves(t) => MakeKeepsInv(s, t, s.calls[t].id, Rechecking(s.calls[t].id, |s.made|));
      case CreateSession(t, id) => MakeKeepsInv(s, t, id, Creating(id, |s.made|));
      case GetSession(t, id) => CallsKeepInv(s, s.calls[t := Finding(id)]);
      case ResolveFails(t) => CallsKeepInv(s, s.calls - {t});
      case Share(r) => ClientsKeepInv(s, s.clients + multiset{r});
      case Release(r) => ClientsKeepInv(s, s.clients - multiset{r});
    }
    hide Inv, FindSessionLocked;
  }

  lemma {:induction false} LookUpKeepsInv(s: State, t: Thread)
    requires Inv(s) && Enabled(s, Find(t))
    ensures Inv(Apply(s, Find(t)))
  {
    var id := s.calls[t].id;
    match FindSessionLocked(s, id) {
      case Some(r) => ReturnedKeepsInv(s, t, r);
      case None => CallsKeepInv(s, s.calls[t := Resolving(id)]);
    }
  }

  lemma {:induction false} RecheckKeepsInv(s: State, t: Thread)
    requires Inv(s) && Enabled(s, Recheck(t))
    ensures Inv(Apply(s, Recheck(t)))
  {
    match FindSessionLocked(s, s.calls[t].id) {
      case Some(r) => ReturnedKeepsInv(s, t, r);
      case None => PublishKeepsInv(s, t);
    }
  }

  /** What a recheck returns is a session of the id asked for. */
  lemma {:induction false} RecheckGets(s: State, t: Thread)
    requires Inv(s) && Enabled(s, Recheck(t))
    ensures var id, own, cached := s.calls[t].id, s.calls[t].made, FindSessionLocked(s, s.calls[t].id);
            && own < |s.made| && s.made[own] == id
            && (cached.Some? ==> cached.value < |s.made| && s.made[cached.value] == id)
            && Apply(s, Recheck(t))
               == if cached.Some? then Returned(s, t, cached.value) else Returned(s.(cache := s.cache[id := own]), t, own)
  {
    hide HeldAreCached, Alive;
  }

  /** Overwriting leaves two live sessions for one id. */
  lemma {:induction false} OverwritingBreaks(s: State, step: Step)
    requires Inv(s) && Enabled(s, step) && Overwrites(s, step)
    ensures !Unique(Apply(s, step))
  {
    var call := s.calls[step.tid];
    var cached, s' := s.cache[call.id], Apply(s, step);
    assert cached in s'.clients && call.made in s'.clients;
    assert s'.made[cached] == s'.made[call.made] && cached != call.made;
  }

  /** The states of a run, first to last, with the steps between them. */
  ghost predicate IsTrace(states: seq<State>, steps: seq<Step>) {
    && |states| == |steps| + 1
    && states[0] == Init()
    && forall k :: 0 <= k < |steps| ==> Enabled(states[k], steps[k]) && states[k + 1] == Apply(states[k], steps[k])
  }

  ghost predicate NoOverwriteBefore(states: seq<State>, steps: seq<Step>, k: nat)
    requires IsTrace(states, steps) && k <= |steps|
  {
    forall j :: 0 <= j < k ==> !Overwrites(states[j], steps[j])
  }

  lemma {:induction false} TraceInv(states: seq<State>, steps: seq<Step>, k: nat)
    requires IsTrace(states, steps) && k <= |steps| && NoOverwriteBefore(states, steps, k)
    ensures Inv(states[k])
  {
    if k > 0 {
      TraceInv(states, steps, k - 1);
      StepKeepsInv(states[k - 1], steps[k - 1]);
    }
  }

  /** While no creation overwrites a live session, whatever callers hold is the cached one. */
  lemma {:induction false} HeldIsCached(states: seq<State>, steps: seq<Step>, k: nat, r: Ref)
    requires IsTrace(states, steps) && k <= |steps| && NoOverwriteBefore(states, steps, k)
    requires r in states[k].clients
    ensures r < |states[k].made| && FindSessionLocked(states[k], states[k].made[r]) == Some(r)
  {
    TraceInv(states, steps, k);
  }

  lemma {:induction false} UniqueSoFar(states: seq<State>, steps: seq<Step>, k: nat)
    requires IsTrace(states, steps) && k <= |steps|
    requires forall j :: 0 <= j <= k ==> Unique(states[j])
    ensures NoOverwriteBefore(states, steps, k)
  {
    if k > 0 {
      var j := k - 1;
      UniqueSoFar(states, steps, j);
      TraceInv(states, steps, j);
      assert states[j + 1] == Apply(states[j], steps[j]) && Unique(states[j + 1]);
      hide Unique, Overwrites, Apply, Inv;
      if Overwrites(states[j], steps[j]) {
        OverwritingBreaks(states[j], steps[j]);
      }
    }
  }

  /** In every run: there is never more than one live session for an id exactly when no
      creation overwrites a session that callers still hold. */
  lemma {:induction false} UniqueIff(states: seq<State>, steps: seq<Step>)
    requires IsTrace(states, steps)
    ensures (forall k :: 0 <= k < |states| ==> Unique(states[k])) <==> NoOverwriteBefore(states, steps, |steps|)
  {
    if NoOverwriteBefore(states, steps, |steps|) {
      forall k | 0 <= k < |states| ensures Unique(states[k]) {
        TraceInv(states, steps, k);
        InvMeansUnique(states[k]);
      }
    } else if forall k :: 0 <= k < |states| ==> Unique(states[k]) {
      UniqueSoFar(states, steps, |steps|);
    }
  }

  /** It does happen: two creations of the same id, one after the other. */
  lemma {:induction false} OverwritingHappens() returns (states: seq<State>, steps: seq<Step>)
    ensures IsTrace(states, steps) && !Unique(states[|steps|])
  {
    var s1 := Apply(Init(), CreateSession(1, 7));
    var s2 := Apply(s1, Publish(1));
    var s3 := Apply(s2, CreateSession(2, 7));
    var s4 := Apply(s3, Publish(2));
    steps := [CreateSession(1, 7), Publish(1), CreateSession(2, 7), Publish(2)];
    states := [Init(), s1, s2, s3, s4];
    assert 0 in s4.clients && 1 in s4.clients && s4.made == [7, 7];
    assert s4.made[0] == s4.made[1];
  }

  // ---- Calls come to an end

  /** What is left of a call, at most three critical sections. */
  function StepsLeft(s: State, t: Thread): nat {
    if t !in s.calls then 0
    else match s.calls[t] case Finding(_) => 3 case Resolving(_) => 2 case Rechecking(_, _) => 1 case Creating(_, _) => 1
  }

  predicate IsOwn(step: Step, t: Thread) {
    step in {Find(t), ResolveFails(t), Resolves(t), Recheck(t), Publish(t)}
  }

  /** Each step of a call brings its end nearer, and no other step touches it. */
  lemma {:induction false} CallsEnd(s: State, step: Step, t: Thread)
    requires Enabled(s, step) && t in s.calls
    ensures IsOwn(step, t) ==> StepsLeft(Apply(s, step), t) < StepsLeft(s, t)
    ensures !IsOwn(step, t) ==> t in Apply(s, step).calls && Apply(s, step).calls[t] == s.calls[t]
    ensures exists own :: IsOwn(own, t) && Enabled(s, own)
  {
    hide FindSessionLocked;
    var own := match s.calls[t] case Finding(_) => Find(t) case Resolving(_) => Resolves(t)
                                case Rechecking(_, _) => Recheck(t) case Creating(_, _) => Publish(t);
    assert IsOwn(own, t) && Enabled(s, own);
  }

  predicate Starts(step: Step, t: Thread) {
    (step.GetSession? || step.CreateSession?) && step.tid == t
  }

  /** In every run a call under way asks for the id it was started with. */
  lemma {:induction false} AskedFor(states: seq<State>, steps: seq<Step>, k: nat, t: Thread) returns (j: nat)
    requires IsTrace(states, steps) && k <= |steps| && t in states[k].calls
    ensures j < k && Starts(steps[j], t) && steps[j].id == states[k].calls[t].id
    ensures forall i :: j < i < k ==> !Starts(steps[i], t)
  {
    assert k > 0;
    var s, step := states[k - 1], steps[k - 1];
    KeepsId(s, step, t);
    if Starts(step, t) {
      j := k - 1;
    } else {
      j := AskedFor(states, steps, k - 1, t);
    }
  }

  lemma {:induction false} KeepsId(s: State, step: Step, t: Thread)
    requires Enabled(s, step) && t in Apply(s, step).calls
    ensures Starts(step, t) ==> step.id == Apply(s, step).calls[t].id
    ensures !Starts(step, t) ==> t in s.calls && s.calls[t].id == Apply(s, step).calls[t].id
  {
    hide FindSessionLocked;
  }

  /** The sessions made are, in the order they were made, those of the calls that made them. */
  lemma {:induction false} MadeGrows(s: State, step: Step)
    requires Enabled(s, step)
    ensures Apply(s, step).made
         == s.made + match step
                     case Resolves(t) => [s.calls[t].id]
                     case CreateSession(_, id) => [id]
                     case _ => []
  {
    hide FindSessionLocked;
    assert s.made + [] == s.made;
  }

  /** References are counted: one more for the session a call returns and for one that is
      shared, one less for one that is released. */
  lemma {:induction false} ReferencesCounted(s: State, step: Step, r: Ref)
    requires Enabled(s, step)
    ensures Apply(s, step).clients[r]
         == s.clients[r]
            + (match step
               case Find(t) => if FindSessionLocked(s, s.calls[t].id) == Some(r) then 1 else 0
               case Recheck(t) =>
                 if FindSessionLocked(s, s.calls[t].id) == Some(r)
                    || (FindSessionLocked(s, s.calls[t].id) == None && s.calls[t].made == r) then 1 else 0
               case Publish(t) => if s.calls[t].made == r then 1 else 0
               case Share(q) => if q == r then 1 else 0
               case Release(q) => if q == r then -1 else 0
               case _ => 0)
  {
    hide FindSessionLocked;
  }

  // ---- Only sessions that somebody holds

  /** A strong reference exists: a caller counts for it, or a call under way made it. */
  predicate Held(s: State, r: Ref) {
    s.clients[r] > 0 || exists t :: t in s.calls && (s.calls[t].Rechecking? || s.calls[t].Creating?) && s.calls[t].made == r
  }

  /** A look-up finds a session exactly when that is cached for the id and somebody holds it. */
  lemma {:induction false} LookUpIff(s: State, id: Id, r: Ref)
    ensures FindSessionLocked(s, id) == Some(r) <==> id in s.cache && s.cache[id] == r && Held(s, r)
  {
    if r in Locals(s) {
      var t :| t in s.calls && HoldsSession(s.calls[t]) && s.calls[t].made == r;
    }
  }

  /** No step brings back a session that nobody holds any more. */
  lemma {:induction false} NotHeldStays(s: State, step: Step, r: Ref)
    requires Enabled(s, step) && r < |s.made| && !Held(s, r)
    ensures !Held(Apply(s, step), r) && |s.made| <= |Apply(s, step).made|
  {
    if step.Find? || step.Recheck? {
      LookUpIff(s, s.calls[step.tid].id, r);
    }
    hide FindSessionLocked;
  }

  /** In every run a session that nobody holds any more, though it may still be in the cache,
      is never handed to a caller again. */
  lemma {:induction false} NeverResurrected(states: seq<State>, steps: seq<Step>, j: nat, k: nat, r: Ref)
    requires IsTrace(states, steps) && j <= k <= |steps|
    requires r < |states[j].made| && !Held(states[j], r)
    ensures r < |states[k].made| && !Held(states[k], r) && r !in states[k].clients
    decreases k
  {
    if j < k {
      NeverResurrected(states, steps, j, k - 1, r);
      NotHeldStays(states[k - 1], steps[k - 1], r);
    }
  }

  /** It can come to that: a session that was released is in the cache and is not found. */
  lemma {:induction false} ExpiredIsNotFound() returns (states: seq<State>, steps: seq<Step>)
    ensures IsTrace(states, steps)
    ensures var s := states[|steps|]; 7 in s.cache && s.cache[7] == 0 && s.calls == map[2 := Resolving(7)]
  {
    var s1 := Apply(Init(), CreateSession(1, 7));
    var s2 := Apply(s1, Publish(1));
    var s3 := Apply(s2, Release(0));
    var s4 := Apply(s3, GetSession(2, 7));
    assert s4 == State(map[7 := 0], [7], multiset{}, map[2 := Finding(7)]);
    ReleasedIsNotHeld(s4);
    hide Held, Alive, FindSessionLocked;
    LookUpIff(s4, 7, 0);
    var s5 := Apply(s4, Find(2));
    steps := [CreateSession(1, 7), Publish(1), Release(0), GetSession(2, 7), Find(2)];
    states := [Init(), s1, s2, s3, s4, s5];
  }

  lemma {:induction false} ReleasedIsNotHeld(s: State)
    requires s == State(map[7 := 0], [7], multiset{}, map[2 := Finding(7)])
    ensures FindSessionLocked(s, 7) == None
  {
  }

  /** A call gets a session of the id it asked for, and one that was cached when it returned. */
  lemma {:induction false} ReturnsAsked(s: State, t: Thread, step: Step)
    requires Inv(s) && Enabled(s, step) && step in {Find(t), Recheck(t), Publish(t)}
    ensures var s' := Apply(s, step);
            t !in s'.calls ==>
              exists r: Ref :: s'.clients == s.clients + multiset{r} && r < |s'.made|
                       && s'.made[r] == s.calls[t].id && s'.cache[s.calls[t].id] == r
  {
    var s', call := Apply(s, step), s.calls[t];
    if t !in s'.calls {
      var r := s'.cache[call.id];
      assert s'.clients == s.clients + multiset{r};
    }
  }

  /** A race, step by step: two callers resolve the same id, and the one that comes second
      to the recheck drops its own session for the first one's. */
  lemma {:induction false} LoserTakesWinners(s: State, t: Thread, u: Thread)
    requires Inv(s) && t != u && Enabled(s, Recheck(t)) && Enabled(s, Recheck(u))
    requires s.calls[t].id == s.calls[u].id
    requires FindSessionLocked(s, s.calls[t].id) == None
    ensures var s1 := Apply(s, Recheck(t));
            && Enabled(s1, Recheck(u))
            && var s2 := Apply(s1, Recheck(u));
               && s2.clients == s.clients + multiset{s.calls[t].made, s.calls[t].made}
               && !Alive(s2, s.calls[u].made)
  {
    var s1 := Apply(s, Recheck(t));
    assert s1.calls[u] == s.calls[u];
    var s2 := Apply(s1, Recheck(u));
    assert s2.clients == s.clients + multiset{s.calls[t].made} + multiset{s.calls[t].made};
  }
}
