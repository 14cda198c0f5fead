/** A session's membership list and ranging flag, and the events it posts about them.
    Each change is made, and its event posted, while one mutex of the session is held;
    the event is delivered later, by the task queue's worker. */
module NearObjectSession {
  import opened Bytes
  import Q = TaskQueue

  type Thread = Q.Thread

  /** A shared pointer: which object it points to, and what that object holds. */
  datatype NearObject = NearObject(address: nat, content: nat)

  datatype Event =
    | MembershipChanged(added: seq<NearObject>, removed: seq<NearObject>)
    | PropertiesChanged(changed: NearObject)
    | RangingStarted
    | RangingStopped
    | SessionEnded

  // ---- Membership lists

  predicate HasContent(members: seq<NearObject>, o: NearObject) {
    exists m <- members :: m.content == o.content
  }

  predicate HasAddress(members: seq<NearObject>, o: NearObject) {
    exists m <- members :: m.address == o.address
  }

  /** The objects to add that no member equals by value; duplicates among them stay. */
  function Pruned(members: seq<NearObject>, toAdd: seq<NearObject>): seq<NearObject> {
    if toAdd == [] then []
    else
      var k := |toAdd| - 1;
      Pruned(members, toAdd[..k]) + (if HasContent(members, toAdd[k]) then [] else [toAdd[k]])
  }

  /** A stable partition by pointer: the members to keep, and the ones to remove. */
  function Kept(members: seq<NearObject>, toRemove: seq<NearObject>): seq<NearObject> {
    if members == [] then []
    else
      var k := |members| - 1;
      Kept(members[..k], toRemove) + (if HasAddress(toRemove, members[k]) then [] else [members[k]])
  }

  function Removed(members: seq<NearObject>, toRemove: seq<NearObject>): seq<NearObject> {
    if members == [] then []
    else
      var k := |members| - 1;
      Removed(members[..k], toRemove) + (if HasAddress(toRemove, members[k]) then [members[k]] else [])
  }

  /** The objects of one list, in the order of their places in another, each place once. */
  ghost predicate AtPlaces(some: seq<NearObject>, all: seq<NearObject>, places: seq<nat>) {
    && |places| == |some|
    && (forall i :: 0 <= i < |some| ==> places[i] < |all| && all[places[i]] == some[i])
    && (forall i, j :: 0 <= i < j < |some| ==> places[i] < places[j])
  }

  /** One more place at the end. */
  lemma {:induction false} OneMorePlace(some: seq<NearObject>, all: seq<NearObject>, places: seq<nat>, n: nat)
    requires AtPlaces(some, all, places) && n < |all|
    requires forall p <- places :: p < n
    ensures AtPlaces(some + [all[n]], all, places + [n])
  {
    assert forall i | 0 <= i < |places| :: places[i] in places;
  }

  lemma {:induction false} NextPruned(members: seq<NearObject>, toAdd: seq<NearObject>, n: nat)
    requires n < |toAdd|
    ensures Pruned(members, toAdd[..n + 1])
            == Pruned(members, toAdd[..n]) + (if !HasContent(members, toAdd[n]) then [toAdd[n]] else [])
  {
    assert toAdd[..n + 1][..n] == toAdd[..n];
  }

  lemma {:induction false} PrunedPlacesUpTo(members: seq<NearObject>, toAdd: seq<NearObject>, n: nat) returns (places: seq<nat>)
    requires n <= |toAdd|
    ensures AtPlaces(Pruned(members, toAdd[..n]), toAdd, places)
    ensures forall p :: p in places <==> 0 <= p < n && !HasContent(members, toAdd[p])
  {
    places := [];
    if n > 0 {
      hide *;
      places := PrunedPlacesUpTo(members, toAdd, n - 1);
      NextPruned(members, toAdd, n - 1);
      if !HasContent(members, toAdd[n - 1]) {
        OneMorePlace(Pruned(members, toAdd[..n - 1]), toAdd, places, n - 1);
        places := places + [n - 1];
      }
    }
  }

  /** Adding takes the objects at exactly the places where none of the members has the same
      value, in the order given. */
  lemma {:induction false} PrunedPlaces(members: seq<NearObject>, toAdd: seq<NearObject>) returns (places: seq<nat>)
    ensures AtPlaces(Pruned(members, toAdd), toAdd, places)
    ensures forall p :: p in places
              <==> 0 <= p < |toAdd| && forall m <- members :: m.content != toAdd[p].content
  {
    places := PrunedPlacesUpTo(members, toAdd, |toAdd|);
    assert toAdd[..|toAdd|] == toAdd;
    hide AtPlaces, Pruned;
  }

  lemma {:induction false} NextKept(members: seq<NearObject>, toRemove: seq<NearObject>, n: nat)
    requires n < |members|
    ensures Kept(members[..n + 1], toRemove)
            == Kept(members[..n], toRemove) + (if !HasAddress(toRemove, members[n]) then [members[n]] else [])
  {
    assert members[..n + 1][..n] == members[..n];
  }

  lemma {:induction false} KeptPlacesUpTo(members: seq<NearObject>, toRemove: seq<NearObject>, n: nat) returns (places: seq<nat>)
    requires n <= |members|
    ensures AtPlaces(Kept(members[..n], toRemove), members, places)
    ensures forall p :: p in places <==> 0 <= p < n && !HasAddress(toRemove, members[p])
  {
    places := [];
    if n > 0 {
      hide *;
      places := KeptPlacesUpTo(members, toRemove, n - 1);
      NextKept(members, toRemove, n - 1);
      if !HasAddress(toRemove, members[n - 1]) {
        OneMorePlace(Kept(members[..n - 1], toRemove), members, places, n - 1);
        places := places + [n - 1];
      }
    }
  }

  /** Removing keeps the members at exactly the places where no object to remove is the same
      object, in their order. */
  lemma {:induction false} KeptPlaces(members: seq<NearObject>, toRemove: seq<NearObject>) returns (places: seq<nat>)
    ensures AtPlaces(Kept(members, toRemove), members, places)
    ensures forall p :: p in places
              <==> 0 <= p < |members| && forall o <- toRemove :: o.address != members[p].address
  {
    places := KeptPlacesUpTo(members, toRemove, |members|);
    assert members[..|members|] == members;
    hide AtPlaces, Kept;
  }

  lemma {:induction false} NextRemoved(members: seq<NearObject>, toRemove: seq<NearObject>, n: nat)
    requires n < |members|
    ensures Removed(members[..n + 1], toRemove)
            == Removed(members[..n], toRemove) + (if HasAddress(toRemove, members[n]) then [members[n]] else [])
  {
    assert members[..n + 1][..n] == members[..n];
  }

  lemma {:induction false} RemovedPlacesUpTo(members: seq<NearObject>, toRemove: seq<NearObject>, n: nat) returns (places: seq<nat>)
    requires n <= |members|
    ensures AtPlaces(Removed(members[..n], toRemove), members, places)
    ensures forall p :: p in places <==> 0 <= p < n && HasAddress(toRemove, members[p])
  {
    places := [];
    if n > 0 {
      hide *;
      places := RemovedPlacesUpTo(members, toRemove, n - 1);
      NextRemoved(members, toRemove, n - 1);
      if HasAddress(toRemove, members[n - 1]) {
        OneMorePlace(Removed(members[..n - 1], toRemove), members, places, n - 1);
        places := places + [n - 1];
      }
    }
  }

  /** What it announces as removed are the members at all the other places, in their order. */
  lemma {:induction false} RemovedPlaces(members: seq<NearObject>, toRemove: seq<NearObject>) returns (places: seq<nat>)
    ensures AtPlaces(Removed(members, toRemove), members, places)
    ensures forall p :: p in places
              <==> 0 <= p < |members| && exists o <- toRemove :: o.address == members[p].address
  {
    places := RemovedPlacesUpTo(members, toRemove, |members|);
    assert members[..|members|] == members;
    hide AtPlaces, Removed;
  }

  /** What a client does with one membership event: append, then filter out by pointer. */
  function Replayed(members: seq<NearObject>, delta: Event): seq<NearObject> {
    if delta.MembershipChanged? then Kept(members + delta.added, delta.removed) else members
  }

  function Replay(members: seq<NearObject>, deltas: seq<Event>): seq<NearObject> {
    if deltas == [] then members
    else Replayed(Replay(members, deltas[..|deltas| - 1]), deltas[|deltas| - 1])
  }

  function Memberships(events: seq<Event>): (r: seq<Event>)
    ensures |r| <= |events|
  {
    if events == [] then []
    else Memberships(events[..|events| - 1])
         + (if events[|events| - 1].MembershipChanged? then [events[|events| - 1]] else [])
  }

  /** Whether ranging is on after these events; None if a start or a stop is out of turn. */
  function RangingAfter(events: seq<Event>): Option<bool> {
    if events == [] then Some(false)
    else
      match (RangingAfter(events[..|events| - 1]), events[|events| - 1])
      case (Some(on), RangingStarted) => if on then None else Some(true)
      case (Some(on), RangingStopped) => if on then Some(false) else None
      case (r, _) => r
  }

  lemma {:induction false} KeptAll(members: seq<NearObject>)
    ensures Kept(members, []) == members
  {
    if members != [] {
      var k := |members| - 1;
      KeptAll(members[..k]);
      assert members == members[..k] + [members[k]];
    }
  }

  lemma {:induction false} RemovedHas(members: seq<NearObject>, toRemove: seq<NearObject>, o: NearObject)
    ensures o in Removed(members, toRemove) <==> o in members && HasAddress(toRemove, o)
  {
    if members != [] {
      var k := |members| - 1;
      RemovedHas(members[..k], toRemove, o);
      assert members == members[..k] + [members[k]];
    }
  }

  lemma {:induction false} SameAddress(o: NearObject, toRemove: seq<NearObject>, all: seq<NearObject>)
    requires o in all
    ensures HasAddress(Removed(all, toRemove), o) <==> HasAddress(toRemove, o)
  {
    if HasAddress(toRemove, o) {
      RemovedHas(all, toRemove, o);
    } else if m :| m in Removed(all, toRemove) && m.address == o.address {
      RemovedHas(all, toRemove, m);
    }
  }

  /** Filtering by the members actually removed is filtering by the ones asked for. */
  lemma {:induction false} KeptByRemoved(members: seq<NearObject>, toRemove: seq<NearObject>, all: seq<NearObject>)
    requires forall o <- members :: o in all
    ensures Kept(members, Removed(all, toRemove)) == Kept(members, toRemove)
  {
    if members != [] {
      KeptByRemoved(members[..|members| - 1], toRemove, all);
      SameAddress(members[|members| - 1], toRemove, all);
    }
  }

  /** A delta replayed on the list it was made from gives the list it was made for. */
  lemma {:induction false} ReplayedAdd(members: seq<NearObject>, toAdd: seq<NearObject>)
    ensures var added := Pruned(members, toAdd);
            Replayed(members, MembershipChanged(added, [])) == members + added
  {
    KeptAll(members + Pruned(members, toAdd));
  }

  lemma {:induction false} ReplayedRemove(members: seq<NearObject>, toRemove: seq<NearObject>)
    ensures Replayed(members, MembershipChanged([], Removed(members, toRemove))) == Kept(members, toRemove)
  {
    assert members + [] == members;
    KeptByRemoved(members, toRemove, members);
  }

  lemma {:induction false} MembershipsSnoc(events: seq<Event>, e: Event)
    ensures Memberships(events + [e]) == Memberships(events) + (if e.MembershipChanged? then [e] else [])
  {
    assert (events + [e])[..|events|] == events;
  }

  lemma {:induction false} RangingAfterSnoc(events: seq<Event>, e: Event)
    ensures RangingAfter(events + [e])
         == match (RangingAfter(events), e)
            case (Some(on), RangingStarted) => if on then None else Some(true)
            case (Some(on), RangingStopped) => if on then Some(false) else None
            case (r, _) => r
  {
    assert (events + [e])[..|events|] == events;
  }

  lemma {:induction false} ReplaySnoc(members: seq<NearObject>, deltas: seq<Event>, e: Event)
    ensures Replay(members, deltas + [e]) == Replayed(Replay(members, deltas), e)
  {
    assert (deltas + [e])[..|deltas|] == deltas;
  }

  lemma {:induction false} MembershipsPrefix(events: seq<Event>, k: nat)
    requires k <= |events|
    ensures Memberships(events[..k]) <= Memberships(events)
    decreases |events|
  {
    if k < |events| {
      MembershipsPrefix(events[..|events| - 1], k);
      assert events[..|events| - 1][..k] == events[..k];
    } else {
      assert events[..k] == events;
    }
  }

  // ---- The session as a state machine

  /** A thread that holds one of the session's mutexes has an event yet to post. */
  datatype Holder = Free | Holding(tid: Thread, event: Event)

  /** `versions` is history: the membership list after each change. */
  datatype Session = Session(
    queue: Q.State<Event>, nearObjects: seq<NearObject>, ranging: bool,
    membershipGate: Holder, rangingGate: Holder, supportsRanging: bool,
    closing: bool, callbacksAlive: bool, delivered: seq<Event>, versions: seq<seq<NearObject>>)

  datatype Step =
    | AddNearObjects(tid: Thread, toAdd: seq<NearObject>)
    | RemoveNearObjects(tid: Thread, toRemove: seq<NearObject>)
    | PostMembership
    | StartRanging(tid: Thread)
    | StopRanging(tid: Thread)
    | PostRanging
    | PostProperties(tid: Thread, changed: NearObject)
    | PostEnded(tid: Thread, destroying: bool)
    | QueueStep(step: Q.Step<Event>)
    | CallbacksExpire

  ghost function Init(nearObjects: seq<NearObject>, supportsRanging: bool, callbacksAlive: bool): (s: Session)
    ensures Inv(s)
  {
    Q.StepKeepsInv(Q.Init<Event>(), Q.Construct);
    assert RangingAfter([] + []) == Some(false);
    Session(Q.Apply(Q.Init<Event>(), Q.Construct), nearObjects, false, Free, Free, supportsRanging,
            false, callbacksAlive, [], [nearObjects])
  }

  /** A thread in the middle of a post does nothing else. */
  predicate Idle(s: Session, tid: Thread) {
    && tid !in s.queue.owing
    && (s.membershipGate.Holding? ==> s.membershipGate.tid != tid)
    && (s.rangingGate.Holding? ==> s.rangingGate.tid != tid)
  }

  /** The destructor runs alone: it ends the session, and only then stops the queue. */
  predicate Enabled(s: Session, step: Step) {
    match step
    case AddNearObjects(tid, _) => !s.closing && s.membershipGate.Free? && Idle(s, tid)
    case RemoveNearObjects(tid, _) => !s.closing && s.membershipGate.Free? && Idle(s, tid)
    case PostMembership => s.membershipGate.Holding?
    case StartRanging(tid) => !s.closing && s.rangingGate.Free? && Idle(s, tid)
    case StopRanging(tid) => !s.closing && s.rangingGate.Free? && Idle(s, tid)
    case PostRanging => s.rangingGate.Holding?
    case PostProperties(tid, _) => !s.closing && Idle(s, tid)
    case PostEnded(tid, destroying) =>
      && !s.closing && Idle(s, tid)
      && (destroying ==> s.membershipGate.Free? && s.rangingGate.Free? && !s.ranging)
    case QueueStep(step) =>
      && Q.Enabled(s.queue, step) && !step.Post?
      && (step.Stop? ==> s.closing && step.action.RunPending?)
    case CallbacksExpire => s.callbacksAlive
  }

  ghost predicate Inv(s: Session) {
    && Q.Inv(s.queue)
    && (s.queue.mode.Running? || (s.closing && s.queue.mode.Stopping?))
    && Gates(s)
    && Journal(s)
    && RangingAfter(s.queue.accepted + Pending(s.rangingGate)) == Some(s.ranging)
    && s.delivered <= Begun(s.queue)
    && (s.callbacksAlive ==> s.delivered == Begun(s.queue))
    && Q.ExitsDrained(s.queue)
  }

  predicate Gates(s: Session) {
    && (s.membershipGate.Holding? ==>
          s.membershipGate.event.MembershipChanged? && s.membershipGate.tid !in s.queue.owing)
    && (s.rangingGate.Holding? ==>
          (s.rangingGate.event.RangingStarted? || s.rangingGate.event.RangingStopped?)
          && s.rangingGate.tid !in s.queue.owing)
    && (s.membershipGate.Holding? && s.rangingGate.Holding? ==> s.membershipGate.tid != s.rangingGate.tid)
    && (s.closing ==>
          && s.membershipGate.Free? && s.rangingGate.Free? && !s.ranging
          && |s.queue.accepted| > 0 && s.queue.accepted[|s.queue.accepted| - 1].SessionEnded?)
  }

  function Pending(gate: Holder): seq<Event> {
    if gate.Holding? then [gate.event] else []
  }

  /** The tasks the worker has started, in order. */
  function Begun(q: Q.State<Event>): seq<Event> {
    q.finished + Q.InHand(q)
  }

  /** The membership events posted so far, and the one about to be. */
  function Deltas(s: Session): seq<Event> {
    Memberships(s.queue.accepted) + Pending(s.membershipGate)
  }

  /** Every version of the list is the first one with the deltas so far replayed on it. */
  ghost predicate Journal(s: Session) {
    && |s.versions| == |Deltas(s)| + 1
    && s.versions[|Deltas(s)|] == s.nearObjects
    && forall k :: 0 <= k <= |Deltas(s)| ==> s.versions[k] == Replay(s.versions[0], Deltas(s)[..k])
  }

  function Posted(s: Session, tid: Thread, e: Event): Session
    requires Q.Enabled(s.queue, Q.Post(tid, e))
  {
    s.(queue := Q.Apply(s.queue, Q.Post(tid, e)))
  }

  function Changed(s: Session, tid: Thread, nearObjects: seq<NearObject>, e: Event): Session {
    s.(nearObjects := nearObjects, membershipGate := Holding(tid, e), versions := s.versions + [nearObjects])
  }

  function Apply(s: Session, step: Step): Session
    requires Inv(s) && Enabled(s, step)
  {
    match step
    case AddNearObjects(tid, toAdd) =>
      var added := Pruned(s.nearObjects, toAdd);
      Changed(s, tid, s.nearObjects + added, MembershipChanged(added, []))
    case RemoveNearObjects(tid, toRemove) =>
      var removed := Removed(s.nearObjects, toRemove);
      Changed(s, tid, Kept(s.nearObjects, toRemove), MembershipChanged([], removed))
    case PostMembership =>
      Posted(s, s.membershipGate.tid, s.membershipGate.event).(membershipGate := Free)
    case StartRanging(tid) =>
      if s.ranging || !s.supportsRanging then s
      else s.(ranging := true, rangingGate := Holding(tid, RangingStarted))
    case StopRanging(tid) =>
      if !s.ranging then s
      else s.(ranging := false, rangingGate := Holding(tid, RangingStopped))
    case PostRanging => Posted(s, s.rangingGate.tid, s.rangingGate.event).(rangingGate := Free)
    case PostProperties(tid, changed) => Posted(s, tid, PropertiesChanged(changed))
    case PostEnded(tid, destroying) => Posted(s, tid, SessionEnded).(closing := destroying)
    case QueueStep(q) =>
      s.(queue := Q.Apply(s.queue, q),
         delivered := if q.Begin? && s.callbacksAlive then s.delivered + [s.queue.tasks[0]] else s.delivered)
    case CallbacksExpire => s.(callbacksAlive := false)
  }

  // ---- What every step keeps

  function PostedBy(s: Session, step: Step): seq<Event>
    requires Enabled(s, step)
  {
    match step
    case PostMembership => [s.membershipGate.event]
    case PostRanging => [s.rangingGate.event]
    case PostProperties(_, changed) => [PropertiesChanged(changed)]
    case PostEnded(_, _) => [SessionEnded]
    case _ => []
  }

  function BegunBy(s: Session, step: Step): seq<Event>
    requires Enabled(s, step)
  {
    if step.QueueStep? && step.step.Begin? then [s.queue.tasks[0]] else []
  }

  /** The thread that a step leaves owing a notification, if it leaves one. */
  predicate Poster(s: Session, step: Step, tid: Thread) {
    match step
    case PostMembership => s.membershipGate.Holding? && tid == s.membershipGate.tid
    case PostRanging => s.rangingGate.Holding? && tid == s.rangingGate.tid
    case PostProperties(t, _) => tid == t
    case PostEnded(t, _) => tid == t
    case QueueStep(q) => q.Stop?
    case _ => false
  }

  ghost predicate QueueSound(s: Session) {
    && Q.Inv(s.queue) && Q.ExitsDrained(s.queue)
    && (s.queue.mode.Running? || (s.closing && s.queue.mode.Stopping?))
  }

  /** While the session is open no post is refused, and it goes to the end of the queue. */
  lemma {:induction false} PostAccepted(s: Session, tid: Thread, e: Event)
    requires QueueSound(s) && !s.closing && Q.Enabled(s.queue, Q.Post(tid, e))
    ensures var q := Q.Apply(s.queue, Q.Post(tid, e));
            && Q.Inv(q) && Q.ExitsDrained(q) && q.mode.Running?
            && q.accepted == s.queue.accepted + [e]
            && Begun(q) == Begun(s.queue)
            && q.owing <= s.queue.owing + {tid}
  {
    Q.StepKeepsInv(s.queue, Q.Post(tid, e));
  }

  /** A queue step posts nothing; only the start of a task adds to what has begun. */
  lemma {:induction false} QueueStepEffect(s: Session, step: Q.Step<Event>)
    requires QueueSound(s) && Enabled(s, QueueStep(step))
    ensures var q := Q.Apply(s.queue, step);
            && Q.Inv(q) && Q.ExitsDrained(q) && (q.mode.Running? || (s.closing && q.mode.Stopping?))
            && q.accepted == s.queue.accepted
            && Begun(q) == Begun(s.queue) + BegunBy(s, QueueStep(step))
            && (!step.Stop? ==> q.owing <= s.queue.owing)
  {
    Q.StepKeepsInv(s.queue, step);
    var q := Q.Apply(s.queue, step);
    if step.Begin? {
      assert s.queue.finished + [] + [s.queue.tasks[0]] == s.queue.finished + [s.queue.tasks[0]];
    } else if step.End? {
      assert s.queue.finished + [s.queue.current.value] + [] == s.queue.finished + [s.queue.current.value];
    }
    assert Begun(s.queue) + [] == Begun(s.queue);
  }

  lemma {:induction false} QueueEffect(s: Session, step: Step)
    requires Inv(s) && Enabled(s, step)
    ensures var s' := Apply(s, step);
            && QueueSound(s')
            && s'.queue.accepted == s.queue.accepted + PostedBy(s, step)
            && Begun(s'.queue) == Begun(s.queue) + BegunBy(s, step)
            && forall tid <- s'.queue.owing :: tid in s.queue.owing || Poster(s, step, tid)
  {
    hide Q.Apply, Q.Inv, Journal, RangingAfter, Begun;
    assert Begun(s.queue) + [] == Begun(s.queue);
    assert s.queue.accepted + [] == s.queue.accepted;
    match step
    case PostMembership => PostAccepted(s, s.membershipGate.tid, s.membershipGate.event);
    case PostRanging => PostAccepted(s, s.rangingGate.tid, s.rangingGate.event);
    case PostProperties(tid, changed) => PostAccepted(s, tid, PropertiesChanged(changed));
    case PostEnded(tid, _) => PostAccepted(s, tid, SessionEnded);
    case QueueStep(q) => QueueStepEffect(s, q);
    case _ =>
  }

  lemma {:induction false} JournalGrows(s: Session, tid: Thread, nearObjects: seq<NearObject>, e: Event)
    requires Journal(s) && s.membershipGate.Free? && nearObjects == Replayed(s.nearObjects, e)
    ensures Journal(Changed(s, tid, nearObjects, e))
  {
    var s' := Changed(s, tid, nearObjects, e);
    var deltas := Deltas(s);
    assert deltas == Memberships(s.queue.accepted);
    assert Deltas(s') == deltas + [e];
    ReplaySnoc(s.versions[0], deltas, e);
    assert deltas[..|deltas|] == deltas;
    forall k | 0 <= k <= |Deltas(s')| ensures s'.versions[k] == Replay(s'.versions[0], Deltas(s')[..k]) {
      if k <= |deltas| {
        assert Deltas(s')[..k] == deltas[..k];
      } else {
        assert Deltas(s')[..k] == deltas + [e];
      }
    }
  }

  lemma {:induction false} JournalSame(s: Session, s': Session)
    requires Journal(s)
    requires s'.versions == s.versions && s'.nearObjects == s.nearObjects && Deltas(s') == Deltas(s)
    ensures Journal(s')
  {
  }

  lemma {:induction false} MembershipsGrow(events: seq<Event>, more: seq<Event>)
    requires |more| <= 1
    ensures Memberships(events + more)
         == Memberships(events) + (if more != [] && more[0].MembershipChanged? then more else [])
  {
    hide Memberships;
    if more == [] {
      assert events + [] == events;
      assert Memberships(events) + [] == Memberships(events);
    } else {
      assert more == [more[0]];
      MembershipsSnoc(events, more[0]);
    }
  }

  lemma {:induction false} StepKeepsJournal(s: Session, step: Step)
    requires Inv(s) && Enabled(s, step)
    ensures Journal(Apply(s, step))
  {
    var s' := Apply(s, step);
    match step
    case AddNearObjects(tid, toAdd) =>
      ReplayedAdd(s.nearObjects, toAdd);
      JournalGrows(s, tid, s'.nearObjects, s'.membershipGate.event);
    case RemoveNearObjects(tid, toRemove) =>
      ReplayedRemove(s.nearObjects, toRemove);
      JournalGrows(s, tid, s'.nearObjects, s'.membershipGate.event);
    case _ =>
      StepKeepsDeltas(s, step);
      JournalSame(s, s');
  }

  lemma {:induction false} StepKeepsDeltas(s: Session, step: Step)
    requires Inv(s) && Enabled(s, step) && !step.AddNearObjects? && !step.RemoveNearObjects?
    ensures Deltas(Apply(s, step)) == Deltas(s)
  {
    hide Q.Apply, Q.Inv, Journal, RangingAfter, Begun, Memberships;
    QueueEffect(s, step);
    MembershipsGrow(s.queue.accepted, PostedBy(s, step));
    assert Memberships(s.queue.accepted) + [] == Memberships(s.queue.accepted);
  }

  lemma {:induction false} StepKeepsRanging(s: Session, step: Step)
    requires Inv(s) && Enabled(s, step)
    ensures var s' := Apply(s, step);
            RangingAfter(s'.queue.accepted + Pending(s'.rangingGate)) == Some(s'.ranging)
  {
    hide Q.Apply, Q.Inv, Journal, Begun, RangingAfter;
    var s' := Apply(s, step);
    var events, gate := s.queue.accepted, Pending(s.rangingGate);
    QueueEffect(s, step);
    assert events + [] == events;
    match step
    case PostMembership => InsertedBefore(events, s.membershipGate.event, gate);
    case PostProperties(_, changed) => InsertedBefore(events, PropertiesChanged(changed), gate);
    case PostEnded(_, _) => InsertedBefore(events, SessionEnded, gate);
    case StartRanging(_) => RangingAfterSnoc(events, RangingStarted);
    case StopRanging(_) => RangingAfterSnoc(events, RangingStopped);
    case PostRanging => assert s'.queue.accepted + [] == events + gate;
    case _ =>
  }

  /** An event of another kind posted ahead of a pending ranging event does not matter. */
  lemma {:induction false} InsertedBefore(events: seq<Event>, e: Event, gate: seq<Event>)
    requires |gate| <= 1 && !e.RangingStarted? && !e.RangingStopped?
    ensures RangingAfter(events + [e] + gate) == RangingAfter(events + gate)
  {
    RangingAfterSnoc(events, e);
    if gate == [] {
      assert events + [e] + [] == events + [e] && events + [] == events;
    } else {
      assert gate == [gate[0]];
      RangingAfterSnoc(events + [e], gate[0]);
      RangingAfterSnoc(events, gate[0]);
    }
  }

  lemma {:induction false} StepKeepsDelivered(s: Session, step: Step)
    requires Inv(s) && Enabled(s, step)
    ensures var s' := Apply(s, step);
            && s'.delivered <= Begun(s'.queue)
            && (s'.callbacksAlive ==> s'.delivered == Begun(s'.queue))
  {
    hide Q.Apply, Q.Inv, Journal, RangingAfter, Begun;
    QueueEffect(s, step);
    assert s.delivered + [] == s.delivered;
  }

  lemma {:induction false} StepKeepsGates(s: Session, step: Step)
    requires Inv(s) && Enabled(s, step)
    ensures Gates(Apply(s, step))
  {
    hide Q.Apply, Q.Inv, Journal, RangingAfter, Begun;
    QueueEffect(s, step);
  }

  lemma {:induction false} StepKeepsInv(s: Session, step: Step)
    requires Inv(s) && Enabled(s, step)
    ensures Inv(Apply(s, step))
  {
    hide Apply, Journal, RangingAfter, Gates, Begun, Q.Inv, Q.ExitsDrained;
    QueueEffect(s, step);
    StepKeepsJournal(s, step);
    StepKeepsRanging(s, step);
    StepKeepsDelivered(s, step);
    StepKeepsGates(s, step);
  }

  // ---- Whole runs

  ghost predicate ValidRun(s: Session, steps: seq<Step>)
    requires Inv(s)
    decreases |steps|
  {
    steps == [] || (Enabled(s, steps[0]) && (StepKeepsInv(s, steps[0]); ValidRun(Apply(s, steps[0]), steps[1..])))
  }

  ghost function Run(s: Session, steps: seq<Step>): (s': Session)
    requires Inv(s) && ValidRun(s, steps)
    ensures Inv(s')
    decreases |steps|
  {
    if steps == [] then s else (StepKeepsInv(s, steps[0]); Run(Apply(s, steps[0]), steps[1..]))
  }

  lemma {:induction false} VersionsStep(s: Session, step: Step)
    requires Inv(s) && Enabled(s, step)
    ensures s.versions <= Apply(s, step).versions
  {
    hide Inv, Q.Apply;
  }

  lemma {:induction false} VersionsGrow(s: Session, steps: seq<Step>)
    requires Inv(s) && ValidRun(s, steps)
    ensures s.versions <= Run(s, steps).versions
    decreases |steps|
  {
    hide Inv, Apply, Enabled;
    if steps != [] {
      StepKeepsInv(s, steps[0]);
      VersionsStep(s, steps[0]);
      VersionsGrow(Apply(s, steps[0]), steps[1..]);
    }
  }

  /** Nothing posted is still waiting to be started, and nothing is about to be posted. */
  predicate Drained(s: Session) {
    && s.queue.tasks == [] && s.queue.runnables == []
    && s.membershipGate.Free? && s.rangingGate.Free?
  }

  /** In every run, under every interleaving, what a client has been told is a prefix of what
      was posted, and replaying it over the first list gives the list as it was after exactly
      that many changes; once everything is delivered that is the current list, order included. */
  lemma {:induction false} DeliveredJournal(nearObjects: seq<NearObject>, ranging: bool, alive: bool, steps: seq<Step>)
    requires ValidRun(Init(nearObjects, ranging, alive), steps)
    ensures var s := Run(Init(nearObjects, ranging, alive), steps);
            var told := Memberships(s.delivered);
            && s.delivered <= s.queue.accepted
            && |told| < |s.versions|
            && Replay(nearObjects, told) == s.versions[|told|]
            && s.versions[|s.versions| - 1] == s.nearObjects
            && (s.callbacksAlive && Drained(s) ==>
                  s.delivered == s.queue.accepted && Replay(nearObjects, told) == s.nearObjects)
  {
    hide *;
    var s0 := Init(nearObjects, ranging, alive);
    var s := Run(s0, steps);
    FirstVersion(nearObjects, ranging, alive);
    VersionsGrow(s0, steps);
    assert s.versions[0] == s0.versions[0];
    DeliveredIsPrefix(s);
    ToldVersion(s);
    if s.callbacksAlive && Drained(s) {
      AllTold(s);
    }
  }

  lemma {:induction false} FirstVersion(nearObjects: seq<NearObject>, ranging: bool, alive: bool)
    ensures Init(nearObjects, ranging, alive).versions == [nearObjects]
  {
  }

  /** What was told, replayed, is the version after as many changes. */
  lemma {:induction false} ToldVersion(s: Session)
    requires Inv(s)
    ensures var told := Memberships(s.delivered);
            && |told| < |s.versions|
            && Replay(s.versions[0], told) == s.versions[|told|]
            && s.versions[|s.versions| - 1] == s.nearObjects
  {
    var posted, k, told, deltas := s.queue.accepted, |s.delivered|, Memberships(s.delivered), Deltas(s);
    DeliveredIsPrefix(s);
    MembershipsPrefix(posted, k);
    assert posted[..k] == s.delivered;
    assert Journal(s) && told <= deltas;
    hide Replay, Memberships, RangingAfter, Inv, Gates, Deltas;
    assert deltas[..|told|] == told;
  }

  lemma {:induction false} AllTold(s: Session)
    requires Inv(s) && s.callbacksAlive && Drained(s)
    ensures s.delivered == s.queue.accepted && Memberships(s.delivered) == Deltas(s)
    ensures |s.versions| == |Memberships(s.delivered)| + 1
  {
    assert Begun(s.queue) + [] + [] == Begun(s.queue);
    assert Memberships(s.queue.accepted) + [] == Memberships(s.queue.accepted);
    hide Replay, Memberships, RangingAfter;
  }

  lemma {:induction false} DeliveredIsPrefix(s: Session)
    requires Inv(s)
    ensures s.delivered <= s.queue.accepted
  {
    var q := s.queue;
    assert q.accepted == Begun(q) + (q.tasks + q.runnables);
  }

  lemma {:induction false} RangingPrefix(events: seq<Event>, k: nat)
    requires k <= |events| && RangingAfter(events).Some?
    ensures RangingAfter(events[..k]).Some?
    decreases |events|
  {
    if k < |events| {
      RangingPrefix(events[..|events| - 1], k);
      assert events[..|events| - 1][..k] == events[..k];
    } else {
      assert events[..k] == events;
    }
  }

  /** Ranging is on when the last event about it is a start, and off when that is a stop or
      there is none. */
  lemma {:induction false} OnMeans(events: seq<Event>)
    requires RangingAfter(events).Some?
    ensures RangingAfter(events).value ==> exists i :: LastAbout(events, i) && events[i].RangingStarted?
    ensures !RangingAfter(events).value ==>
              (forall i :: 0 <= i < |events| ==> !AboutRanging(events[i]))
              || exists i :: LastAbout(events, i) && events[i].RangingStopped?
  {
    if events != [] {
      var k := |events| - 1;
      var front := events[..k];
      OnMeans(front);
      if AboutRanging(events[k]) {
        assert LastAbout(events, k);
      } else if i :| LastAbout(front, i) {
        assert LastAbout(events, i);
        hide RangingAfter;
        forall j | LastAbout(front, j) ensures LastAbout(events, j) && events[j] == front[j] { }
      } else {
        assert forall i :: 0 <= i < k ==> events[i] == front[i];
      }
    }
  }

  predicate AboutRanging(e: Event) {
    e.RangingStarted? || e.RangingStopped?
  }

  ghost predicate LastAbout(events: seq<Event>, i: int) {
    0 <= i < |events| && AboutRanging(events[i]) && forall j :: i < j < |events| ==> !AboutRanging(events[j])
  }

  /** Between two starts there is a stop, and between two stops a start. */
  lemma {:induction false} OtherBetween(events: seq<Event>, i: nat, j: nat)
    requires RangingAfter(events).Some? && i < j < |events|
    requires AboutRanging(events[i]) && events[j] == events[i]
    ensures exists k :: i < k < j && AboutRanging(events[k]) && events[k] != events[i]
    decreases |events|
  {
    var front := events[..|events| - 1];
    if j < |front| {
      OtherBetween(front, i, j);
      var k :| i < k < j && AboutRanging(front[k]) && front[k] != front[i];
      assert events[k] == front[k];
    } else {
      OnMeans(front);
      assert AboutRanging(front[i]);
      var k :| LastAbout(front, k) && front[k] != events[j];
      assert i < k && events[k] == front[k];
    }
  }

  /** In whatever a client was told, between two starts of ranging there is a stop, between two
      stops a start, and the first of either is a start. */
  lemma {:induction false} RangingAlternates(s: Session)
    requires Inv(s)
    ensures forall i, j :: 0 <= i < j < |s.delivered| && AboutRanging(s.delivered[i]) && s.delivered[j] == s.delivered[i]
              ==> exists k :: i < k < j && AboutRanging(s.delivered[k]) && s.delivered[k] != s.delivered[i]
    ensures forall j :: 0 <= j < |s.delivered| && s.delivered[j].RangingStopped?
              ==> exists i :: 0 <= i < j && s.delivered[i].RangingStarted?
  {
    var events := s.delivered;
    DeliveredAlternate(s);
    forall i, j | 0 <= i < j < |events| && AboutRanging(events[i]) && events[j] == events[i]
      ensures exists k :: i < k < j && AboutRanging(events[k]) && events[k] != events[i]
    {
      OtherBetween(events, i, j);
    }
    forall j | 0 <= j < |events| && events[j].RangingStopped?
      ensures exists i :: 0 <= i < j && events[i].RangingStarted?
    {
      StartBefore(events, j);
    }
  }

  lemma {:induction false} StartBefore(events: seq<Event>, j: nat)
    requires RangingAfter(events).Some? && j < |events| && events[j].RangingStopped?
    ensures exists i :: 0 <= i < j && events[i].RangingStarted?
  {
    RangingPrefix(events, j + 1);
    assert events[..j + 1][..j] == events[..j];
    OnMeans(events[..j]);
    var i :| LastAbout(events[..j], i) && events[..j][i].RangingStarted?;
    assert events[i].RangingStarted?;
  }

  lemma {:induction false} DeliveredAlternate(s: Session)
    requires Inv(s)
    ensures RangingAfter(s.delivered).Some?
  {
    var all := s.queue.accepted + Pending(s.rangingGate);
    DeliveredIsPrefix(s);
    assert all[..|s.delivered|] == s.delivered;
    RangingPrefix(all, |s.delivered|);
  }

  /** Once its callbacks have expired a client is told nothing more, in any run. */
  lemma {:induction false} ToldNothingMore(s: Session, steps: seq<Step>)
    requires Inv(s) && ValidRun(s, steps) && !s.callbacksAlive
    ensures !Run(s, steps).callbacksAlive && Run(s, steps).delivered == s.delivered
    decreases |steps|
  {
    if steps != [] {
      StepKeepsInv(s, steps[0]);
      ExpiredStep(s, steps[0]);
      hide Inv, Apply, Enabled;
      ToldNothingMore(Apply(s, steps[0]), steps[1..]);
    }
  }

  lemma {:induction false} ExpiredStep(s: Session, step: Step)
    requires Inv(s) && Enabled(s, step) && !s.callbacksAlive
    ensures !Apply(s, step).callbacksAlive && Apply(s, step).delivered == s.delivered
  {
    hide Inv, Q.Apply;
  }

  /** When the destructor's wait for the worker is over, a client whose callbacks are still
      alive has been told everything, the end of the session last of all. */
  lemma {:induction false} AfterDestruction(s: Session)
    requires Inv(s) && s.queue.worker.Exited? && s.callbacksAlive
    ensures s.delivered == s.queue.accepted && Drained(s)
    ensures s.delivered != [] && s.delivered[|s.delivered| - 1] == SessionEnded
    ensures RangingAfter(s.delivered) == Some(false)
  {
    assert Begun(s.queue) + [] + [] == Begun(s.queue);
    assert s.queue.accepted + [] == s.queue.accepted;
  }

  // ---- What the calls so far have made of the session

  /** Whether the last call that starts or stops ranging starts it. */
  function RangingAsked(on: bool, steps: seq<Step>): bool
    decreases |steps|
  {
    if steps == [] then on
    else
      RangingAsked(if steps[0].StartRanging? then true else if steps[0].StopRanging? then false else on, steps[1..])
  }

  lemma {:induction false} FlagsAfter(s: Session, step: Step)
    requires Inv(s) && Enabled(s, step)
    ensures var s' := Apply(s, step);
            && s'.supportsRanging == s.supportsRanging
            && s'.ranging == (if step.StartRanging? then s.ranging || s.supportsRanging
                              else if step.StopRanging? then false else s.ranging)
            && s'.closing == (if step.PostEnded? then step.destroying else s.closing)
            && s'.callbacksAlive == (s.callbacksAlive && !step.CallbacksExpire?)
            && (step.PostEnded? ==> !s.closing)
  {
    hide Inv, Q.Apply;
  }

  /** In every run: ranging is on exactly when it is supported and the last call about it asked
      for it; the session is closing exactly when its destructor has ended it; and the
      callbacks are alive until they expire. */
  lemma {:induction false} FlagsByHistory(s: Session, steps: seq<Step>)
    requires Inv(s) && ValidRun(s, steps) && (s.ranging ==> s.supportsRanging)
    ensures var s' := Run(s, steps);
            && s'.supportsRanging == s.supportsRanging
            && s'.ranging == (s.supportsRanging && RangingAsked(s.ranging, steps))
            && s'.closing == (s.closing || exists step <- steps :: step.PostEnded? && step.destroying)
            && s'.callbacksAlive == (s.callbacksAlive && CallbacksExpire !in steps)
    decreases |steps|
  {
    if steps != [] {
      StepKeepsInv(s, steps[0]);
      FlagsAfter(s, steps[0]);
      hide Inv, Apply, Enabled;
      var s1 := Apply(s, steps[0]);
      FlagsByHistory(s1, steps[1..]);
      assert steps == [steps[0]] + steps[1..];
    }
  }

  // ---- Distinct members

  predicate Distinct(members: seq<NearObject>) {
    forall i, j :: 0 <= i < j < |members| ==> members[i].content != members[j].content
  }

  lemma {:induction false} PrunedIsNew(members: seq<NearObject>, toAdd: seq<NearObject>)
    ensures forall o <- Pruned(members, toAdd) :: o in toAdd && !HasContent(members, o)
    ensures forall o <- toAdd :: !HasContent(members, o) ==> o in Pruned(members, toAdd)
  {
    if toAdd != [] {
      var k := |toAdd| - 1;
      PrunedIsNew(members, toAdd[..k]);
      assert toAdd == toAdd[..k] + [toAdd[k]];
    }
  }

  /** No two of the objects given are equal to each other and to none of the members. */
  predicate NoNewDuplicates(members: seq<NearObject>, toAdd: seq<NearObject>) {
    forall i, j :: 0 <= i < j < |toAdd| && toAdd[i].content == toAdd[j].content ==> HasContent(members, toAdd[i])
  }

  lemma {:induction false} PrunedDistinctIff(members: seq<NearObject>, toAdd: seq<NearObject>)
    ensures Distinct(Pruned(members, toAdd)) <==> NoNewDuplicates(members, toAdd)
  {
    if toAdd != [] {
      var k := |toAdd| - 1;
      var front, last := toAdd[..k], toAdd[k];
      PrunedDistinctIff(members, front);
      NoNewDuplicatesStep(members, toAdd);
      if HasContent(members, last) {
        assert Pruned(members, toAdd) == Pruned(members, front) + [] == Pruned(members, front);
      } else {
        assert Pruned(members, toAdd) == Pruned(members, front) + [last];
        LastIsNewIff(Pruned(members, front), last);
        SameContentAmongPruned(members, front, last);
      }
      hide Pruned, HasContent, Distinct, NoNewDuplicates;
    }
  }

  lemma {:induction false} LastIsNewIff(objects: seq<NearObject>, last: NearObject)
    ensures Distinct(objects + [last]) <==> Distinct(objects) && !HasContent(objects, last)
  {
    var all, n := objects + [last], |objects|;
    assert forall i :: 0 <= i < n ==> all[i] == objects[i];
    if Distinct(all) {
      forall i, j | 0 <= i < j < n ensures objects[i].content != objects[j].content {
        assert all[i].content != all[j].content;
      }
      forall o <- objects ensures o.content != last.content {
        var i :| 0 <= i < n && objects[i] == o;
        assert all[i].content != all[n].content;
      }
    } else {
      var i, j :| 0 <= i < j < |all| && all[i].content == all[j].content;
      assert all[i] == objects[i] && objects[i] in objects;
    }
  }

  lemma {:induction false} SameContentAmongPruned(members: seq<NearObject>, toAdd: seq<NearObject>, o: NearObject)
    requires !HasContent(members, o)
    ensures HasContent(Pruned(members, toAdd), o) <==> HasContent(toAdd, o)
  {
    PrunedIsNew(members, toAdd);
    hide Pruned;
    if p :| p in toAdd && p.content == o.content {
      assert !HasContent(members, p);
    }
  }

  lemma {:induction false} NoNewDuplicatesStep(members: seq<NearObject>, toAdd: seq<NearObject>)
    requires toAdd != []
    ensures var front, last := toAdd[..|toAdd| - 1], toAdd[|toAdd| - 1];
            NoNewDuplicates(members, toAdd)
              == (NoNewDuplicates(members, front) && (HasContent(members, last) || !HasContent(front, last)))
  {
    var k := |toAdd| - 1;
    var front, last := toAdd[..k], toAdd[k];
    if NoNewDuplicates(members, toAdd) {
      forall i, j | 0 <= i < j < k && front[i].content == front[j].content ensures HasContent(members, front[i]) {
        assert toAdd[i].content == toAdd[j].content;
      }
      if HasContent(front, last) {
        var i :| 0 <= i < k && front[i].content == last.content;
        assert toAdd[i].content == toAdd[k].content && HasContent(members, toAdd[i]);
      }
    } else {
      var i, j :| 0 <= i < j < |toAdd| && toAdd[i].content == toAdd[j].content && !HasContent(members, toAdd[i]);
      assert front[i] == toAdd[i];
      if j < k {
        assert front[i].content == front[j].content;
      } else {
        assert front[i] in front;
      }
    }
  }

  /** Adding keeps the members different in value exactly when they were, and no two of the
      objects given are equal to each other and new: they are compared with the list only. */
  lemma {:induction false} AddKeepsDistinct(members: seq<NearObject>, toAdd: seq<NearObject>)
    ensures Distinct(members + Pruned(members, toAdd)) <==> Distinct(members) && NoNewDuplicates(members, toAdd)
  {
    PrunedDistinctIff(members, toAdd);
    AddedDistinct(members, toAdd);
  }

  lemma {:induction false} AddedDistinct(members: seq<NearObject>, toAdd: seq<NearObject>)
    ensures var added := Pruned(members, toAdd);
            Distinct(members + added) <==> Distinct(members) && Distinct(added)
  {
    var added := Pruned(members, toAdd);
    var all, n := members + added, |members|;
    PrunedIsNew(members, toAdd);
    if Distinct(members) && Distinct(added) {
      forall i, j | 0 <= i < j < |all| ensures all[i].content != all[j].content {
        if i < n <= j {
          assert !HasContent(members, added[j - n]);
          assert members[i] in members;
        }
      }
    }
    if Distinct(all) {
      forall i, j | 0 <= i < j < |members| ensures members[i].content != members[j].content {
        assert all[i] == members[i] && all[j] == members[j];
      }
      forall i, j | 0 <= i < j < |added| ensures added[i].content != added[j].content {
        assert all[n + i] == added[i] && all[n + j] == added[j];
      }
    }
  }

  /** Two equal objects given in one call are both added. */
  lemma {:induction false} DuplicatesInOneCall(a: NearObject, b: NearObject)
    requires a.content == b.content
    ensures Pruned([], [a, b]) == [a, b] && !Distinct([] + Pruned([], [a, b]))
  {
    assert [a, b][..1] == [a] && [a][..0] == [];
    assert Pruned([], [a]) == [a];
    assert [] + [a, b] == [a, b] && [a, b][0].content == [a, b][1].content;
  }
}
