/** The simulator driver's session table behind the DDI calls, and the status
    notifications it raises. Calls are taken one at a time. */
module SimulatorSessions {
  import opened Bytes
  import opened AppConfig
  import opened FiraDevice

  newtype Id = x: int | 0 <= x < UINT32_LIMIT

  datatype Reason = NoReason | StateChangeWithSessionManagementCommands

  datatype Notification = Notification(id: Id, state: SessionState, reason: Reason)

  datatype Session = Session(typ: nat, state: SessionState, rangingCount: nat,
                             controlees: set<MacAddress>, parameters: seq<Parameter>)

  /** `present` is false once the device object has expired. `raised` is history. */
  datatype Device = Device(present: bool, sessions: map<Id, Session>, raised: seq<Notification>)

  datatype Status = Ok | Rejected | NotExist | Duplicate | InvalidParameter

  datatype MulticastAction = AddShortAddress | DeleteShortAddress | OtherAction

  /** `SetParameters` carries the order in which the partition of the request left it. */
  datatype Call =
    | SessionInitialize(id: Id, typ: nat)
    | SessionDeinitialize(id: Id)
    | SetParameters(id: Id, requested: seq<Parameter>, allowed: seq<Parameter>, refused: seq<Parameter>)
    | UpdateMulticastList(id: Id, action: MulticastAction, addresses: set<MacAddress>)
    | StartRanging(id: Id)
    | StopRanging(id: Id)
    | Expire

  function Init(): Device {
    Device(true, map[], [])
  }

  predicate Named(call: Call, id: Id) {
    !call.Expire? && call.id == id
  }

  /** The one freedom a call has is the partition, which must be one of its request. */
  ghost predicate Possible(entry: Option<Session>, call: Call) {
    call.SetParameters? && entry.Some? ==>
      IsPartition(entry.value.state == Active, call.requested, call.allowed, call.refused)
  }

  function Entry(d: Device, id: Id): Option<Session> {
    if id in d.sessions then Some(d.sessions[id]) else None
  }

  /** What a call does to the entry of the session it names, what it raises, what it answers. */
  datatype Effect = Effect(entry: Option<Session>, raised: seq<Notification>, status: Status)

  function NewSession(typ: nat): Session {
    Session(typ, Deinitialized, 0, {}, [])
  }

  function EffectOn(entry: Option<Session>, call: Call): Effect
    requires !call.Expire?
  {
    match (call, entry)
    case (SessionInitialize(id, typ), None) =>
      Effect(Some(NewSession(typ).(state := Initialized)), [Notification(id, Initialized, NoReason)], Ok)
    case (SessionInitialize(_, _), Some(_)) => Effect(entry, [], Duplicate)
    case (_, None) => Effect(None, [], NotExist)
    case (SessionDeinitialize(id), Some(_)) =>
      Effect(None, [Notification(id, Deinitialized, NoReason)], Ok)
    case (SetParameters(_, _, allowed, _), Some(s)) =>
      if s.state == Deinitialized then Effect(entry, [], NotExist)
      else Effect(Some(s.(parameters := UpdatedAll(s.parameters, allowed))), [], Ok)
    case (UpdateMulticastList(_, AddShortAddress, addresses), Some(s)) =>
      Effect(Some(s.(controlees := s.controlees + addresses)), [], Ok)
    case (UpdateMulticastList(_, DeleteShortAddress, addresses), Some(s)) =>
      Effect(Some(s.(controlees := s.controlees - addresses)), [], Ok)
    case (UpdateMulticastList(_, OtherAction, _), Some(_)) => Effect(entry, [], InvalidParameter)
    case (StartRanging(_), Some(s)) =>
      Effect(Some(s.(rangingCount := (s.rangingCount + 1) % UINT32_LIMIT)), [], Ok)
    case (StopRanging(id), Some(s)) =>
      Effect(Some(s.(state := Idle)), [Notification(id, Idle, StateChangeWithSessionManagementCommands)], Ok)
  }

  function WithEntry(sessions: map<Id, Session>, id: Id, entry: Option<Session>): map<Id, Session> {
    match entry
    case None => sessions - {id}
    case Some(s) => sessions[id := s]
  }

  function StatusOf(d: Device, call: Call): Status
    requires !call.Expire?
  {
    if !d.present then Rejected else EffectOn(Entry(d, call.id), call).status
  }

  function Apply(d: Device, call: Call): Device {
    if call.Expire? then d.(present := false)
    else if !d.present then d
    else
      var e := EffectOn(Entry(d, call.id), call);
      d.(sessions := WithEntry(d.sessions, call.id, e.entry), raised := d.raised + e.raised)
  }

  ghost predicate Enabled(d: Device, call: Call) {
    d.present && !call.Expire? ==> Possible(Entry(d, call.id), call)
  }

  ghost predicate IsRun(d: Device, calls: seq<Call>, d': Device)
    decreases |calls|
  {
    if calls == [] then d == d'
    else
      var k := |calls| - 1;
      exists mid :: IsRun(d, calls[..k], mid) && Enabled(mid, calls[k]) && d' == Apply(mid, calls[k])
  }

  // ---- What the notifications say

  /** The states notified for one session, oldest first. */
  function History(raised: seq<Notification>, id: Id): seq<SessionState> {
    if raised == [] then []
    else
      var k := |raised| - 1;
      History(raised[..k], id) + (if raised[k].id == id then [raised[k].state] else [])
  }

  predicate OpenAtEnd(h: seq<SessionState>) {
    h != [] && h[|h| - 1] != Deinitialized
  }

  predicate MayFollow(h: seq<SessionState>, state: SessionState) {
    if OpenAtEnd(h) then state in {Idle, Deinitialized} else state == Initialized
  }

  /** Blocks of Initialized, any number of Idle, Deinitialized; the last may be open. */
  predicate InBlocks(h: seq<SessionState>) {
    forall i :: 0 <= i < |h| ==> MayFollow(h[..i], h[i])
  }

  function CountOf(raised: seq<Notification>, state: SessionState): nat {
    if raised == [] then 0
    else
      var k := |raised| - 1;
      CountOf(raised[..k], state) + (if raised[k].state == state then 1 else 0)
  }

  /** One session: in the table exactly while its last block is open, in the last state
      notified, with one entry per parameter type and a counter of 32 bits. */
  predicate Agrees(entry: Option<Session>, h: seq<SessionState>) {
    && InBlocks(h)
    && (entry.Some? <==> OpenAtEnd(h))
    && (entry.Some? ==>
          && entry.value.state == h[|h| - 1]
          && Ordered(entry.value.parameters)
          && entry.value.rangingCount < UINT32_LIMIT)
  }

  ghost predicate Inv(d: Device) {
    && (forall id :: Agrees(Entry(d, id), History(d.raised, id)))
    && |d.sessions| + CountOf(d.raised, Deinitialized) == CountOf(d.raised, Initialized)
  }

  lemma {:induction false} HistoryAppended(raised: seq<Notification>, more: seq<Notification>, id: Id)
    requires |more| <= 1
    ensures History(raised + more, id)
         == History(raised, id) + (if more != [] && more[0].id == id then [more[0].state] else [])
  {
    if more == [] {
      assert raised + more == raised;
    } else {
      assert (raised + more)[..|raised|] == raised;
    }
  }

  lemma {:induction false} CountAppended(raised: seq<Notification>, more: seq<Notification>, state: SessionState)
    requires |more| <= 1
    ensures CountOf(raised + more, state)
         == CountOf(raised, state) + (if more != [] && more[0].state == state then 1 else 0)
  {
    if more == [] {
      assert raised + more == raised;
    } else {
      assert (raised + more)[..|raised|] == raised;
    }
  }

  lemma {:induction false} InBlocksAppended(h: seq<SessionState>, state: SessionState)
    requires InBlocks(h) && MayFollow(h, state)
    ensures InBlocks(h + [state])
  {
    var after := h + [state];
    forall i | 0 <= i < |after| ensures MayFollow(after[..i], after[i]) {
      assert after[..i] == h[..i];
      assert h[..|h|] == h;
    }
  }

  lemma {:induction false} AgreesMeans(entry: Option<Session>, h: seq<SessionState>)
    requires Agrees(entry, h)
    ensures InBlocks(h)
    ensures entry.None? ==> MayFollow(h, Initialized)
    ensures entry.Some? ==>
              && MayFollow(h, Idle) && MayFollow(h, Deinitialized)
              && entry.value.state != Deinitialized
              && Ordered(entry.value.parameters) && entry.value.rangingCount < UINT32_LIMIT
  {
    hide InBlocks, Ordered;
  }

  lemma {:induction false} AgreesOnceMore(entry: Option<Session>, h: seq<SessionState>, state: SessionState)
    requires InBlocks(h) && MayFollow(h, state)
    requires entry.Some? <==> state != Deinitialized
    requires entry.Some? ==>
               && entry.value.state == state
               && Ordered(entry.value.parameters) && entry.value.rangingCount < UINT32_LIMIT
    ensures Agrees(entry, h + [state])
  {
    InBlocksAppended(h, state);
    hide InBlocks, Ordered, MayFollow;
  }

  lemma {:induction false} AgreesStill(entry: Session, after: Session, h: seq<SessionState>)
    requires Agrees(Some(entry), h) && after.state == entry.state
    requires Ordered(after.parameters) && after.rangingCount < UINT32_LIMIT
    ensures Agrees(Some(after), h)
  {
    hide InBlocks, Ordered, OpenAtEnd;
  }

  /** A call names one session, and raises notifications for it only. */
  lemma {:induction false} EffectKeepsAgreement(entry: Option<Session>, h: seq<SessionState>, call: Call)
    requires Agrees(entry, h) && !call.Expire?
    ensures var e := EffectOn(entry, call);
            && |e.raised| <= 1 && (e.raised != [] ==> e.raised[0].id == call.id)
            && Agrees(e.entry, h + (if e.raised != [] then [e.raised[0].state] else []))
            && (entry.Some? ==> entry.value.state != Deinitialized)
  {
    AgreesMeans(entry, h);
    if call.SetParameters? && entry.Some? {
      UpdatedAllOrdered(entry.value.parameters, call.allowed);
    }
    assert Ordered([]);
    hide Agrees, UpdatedAll, Ordered, InBlocks, MayFollow, OpenAtEnd;
    var e := EffectOn(entry, call);
    assert h + [] == h;
    if e.raised != [] {
      AgreesOnceMore(e.entry, h, e.raised[0].state);
    } else if entry.Some? {
      AgreesStill(entry.value, e.entry.value, h);
    }
  }

  lemma {:induction false} EffectRaisesOwn(entry: Option<Session>, call: Call)
    requires !call.Expire?
    ensures var e := EffectOn(entry, call); |e.raised| <= 1 && (e.raised != [] ==> e.raised[0].id == call.id)
  {
  }

  lemma {:induction false} EffectOnCount(entry: Option<Session>, call: Call)
    requires !call.Expire? && (entry.Some? ==> entry.value.state != Deinitialized)
    ensures var e := EffectOn(entry, call);
            && (e.raised != [] && e.raised[0].state == Initialized <==> entry.None? && e.entry.Some?)
            && (e.raised != [] && e.raised[0].state == Deinitialized <==> entry.Some? && e.entry.None?)
  {
  }

  lemma {:induction false} CountWithEntry(sessions: map<Id, Session>, id: Id, entry: Option<Session>)
    ensures |WithEntry(sessions, id, entry)|
         == |sessions| - (if id in sessions then 1 else 0) + (if entry.Some? then 1 else 0)
  {
    var after := WithEntry(sessions, id, entry);
    match entry {
      case None => assert after.Keys == sessions.Keys - {id};
      case Some(_) => assert after.Keys == sessions.Keys + {id};
    }
    assert |sessions.Keys + {id}| == |sessions.Keys| + (if id in sessions then 0 else 1);
  }

  lemma {:induction false} AfterCall(d: Device, call: Call, id: Id)
    requires d.present && !call.Expire?
    ensures var e := EffectOn(Entry(d, call.id), call);
            && Entry(Apply(d, call), id) == (if id == call.id then e.entry else Entry(d, id))
            && Apply(d, call).raised == d.raised + e.raised
  {
    hide EffectOn;
  }

  lemma {:induction false} StepKeepsAgreement(d: Device, call: Call, id: Id)
    requires Agrees(Entry(d, id), History(d.raised, id))
    requires d.present && !call.Expire?
    ensures Agrees(Entry(Apply(d, call), id), History(Apply(d, call).raised, id))
  {
    hide *;
    var e := EffectOn(Entry(d, call.id), call);
    AfterCall(d, call, id);
    EffectRaisesOwn(Entry(d, call.id), call);
    HistoryAppended(d.raised, e.raised, id);
    if id == call.id {
      EffectKeepsAgreement(Entry(d, id), History(d.raised, id), call);
    } else {
      assert History(d.raised, id) + [] == History(d.raised, id);
    }
  }

  lemma {:induction false} StepKeepsCount(d: Device, call: Call)
    requires d.present && !call.Expire?
    requires Entry(d, call.id).Some? ==> Entry(d, call.id).value.state != Deinitialized
    requires |d.sessions| + CountOf(d.raised, Deinitialized) == CountOf(d.raised, Initialized)
    ensures var d' := Apply(d, call);
            |d'.sessions| + CountOf(d'.raised, Deinitialized) == CountOf(d'.raised, Initialized)
  {
    var e := EffectOn(Entry(d, call.id), call);
    EffectRaisesOwn(Entry(d, call.id), call);
    EffectOnCount(Entry(d, call.id), call);
    CountWithEntry(d.sessions, call.id, e.entry);
    CountAppended(d.raised, e.raised, Initialized);
    CountAppended(d.raised, e.raised, Deinitialized);
    hide CountOf, EffectOn, WithEntry;
  }

  lemma {:induction false} UnchangedKeepsInv(d: Device, d': Device)
    requires Inv(d) && d'.sessions == d.sessions && d'.raised == d.raised
    ensures Inv(d')
  {
    hide Agrees, History, CountOf;
    forall id ensures Entry(d', id) == Entry(d, id) { }
  }

  lemma {:induction false} StepKeepsInv(d: Device, call: Call)
    requires Inv(d) && Enabled(d, call)
    ensures Inv(Apply(d, call))
  {
    if d.present && !call.Expire? {
      EffectKeepsAgreement(Entry(d, call.id), History(d.raised, call.id), call);
      hide Agrees, History, CountOf, Apply, EffectOn, Entry;
      StepKeepsCount(d, call);
      forall id ensures Agrees(Entry(Apply(d, call), id), History(Apply(d, call).raised, id)) {
        StepKeepsAgreement(d, call, id);
      }
    } else {
      hide Inv;
      UnchangedKeepsInv(d, Apply(d, call));
    }
  }

  /** Every run: the table and the notification history agree, session by session. */
  lemma {:induction false} ReachableInv(calls: seq<Call>, d: Device)
    requires IsRun(Init(), calls, d)
    ensures Inv(d)
    decreases |calls|
  {
    if calls != [] {
      var k := |calls| - 1;
      var mid :| IsRun(Init(), calls[..k], mid) && Enabled(mid, calls[k]) && d == Apply(mid, calls[k]);
      ReachableInv(calls[..k], mid);
      StepKeepsInv(mid, calls[k]);
    }
  }

  /** A session in the table is Initialized or Idle, and nothing else. */
  lemma {:induction false} NeverActive(calls: seq<Call>, d: Device, id: Id)
    requires IsRun(Init(), calls, d) && id in d.sessions
    ensures d.sessions[id].state in {Initialized, Idle}
  {
    ReachableInv(calls, d);
    var h := History(d.raised, id);
    assert Agrees(Entry(d, id), h);
    var last := |h| - 1;
    assert MayFollow(h[..last], h[last]);
  }

  lemma {:induction false} FirstIsMember<T>(xs: seq<T>)
    ensures xs != [] ==> xs[0] in xs
  {
  }

  lemma {:induction false} NothingRefusedUnlessActive(requested: seq<Parameter>, allowed: seq<Parameter>,
                                                      refused: seq<Parameter>)
    requires IsPartition(false, requested, allowed, refused)
    ensures refused == [] && multiset(allowed) == multiset(requested)
  {
    FirstIsMember(refused);
    assert allowed + [] == allowed;
  }

  /** So no parameter that is set is ever refused, and setting parameters fails only for
      want of a session. */
  lemma {:induction false} NothingIsRefused(calls: seq<Call>, d: Device, call: Call)
    requires IsRun(Init(), calls, d) && call.SetParameters? && Enabled(d, call)
    ensures StatusOf(d, call) == if !d.present then Rejected else if call.id in d.sessions then Ok else NotExist
    ensures StatusOf(d, call) == Ok ==> call.refused == [] && multiset(call.allowed) == multiset(call.requested)
  {
    if call.id in d.sessions {
      NeverActive(calls, d, call.id);
      hide IsRun, IsPartition;
      if d.present {
        NothingRefusedUnlessActive(call.requested, call.allowed, call.refused);
      }
    }
  }

  /** A get after a set, whatever order the partition chose: a type that was requested and
      not refused is found with one of the values requested for it, any other type as it
      was before. */
  lemma {:induction false} SetThenGet(entry: Session, call: Call, types: seq<ParameterType>, t: ParameterType)
    requires call.SetParameters? && entry.state != Deinitialized && Ordered(entry.parameters)
    requires Possible(Some(entry), call) && t in types
    ensures var after := EffectOn(Some(entry), call).entry;
            && after.Some?
            && var found := Lookup(Selected(after.value.parameters, types), t);
               if t in Types(call.requested) && Allowed(entry.state == Active, Parameter(t, []))
               then found.Some? && Parameter(t, found.value) in call.requested
               else found == Lookup(entry.parameters, t)
  {
    SetEffect(entry.state == Active, entry.parameters, call.requested, call.allowed, call.refused, t);
    hide UpdatedAll, Selected, Lookup, IsPartition, Types;
    LookupSelected(UpdatedAll(entry.parameters, call.allowed), types, t);
  }

  // ---- What a session holds

  function StartsIn(calls: seq<Call>, id: Id): nat {
    if calls == [] then 0
    else
      var k := |calls| - 1;
      StartsIn(calls[..k], id) + (if calls[k] == StartRanging(id) then 1 else 0)
  }

  predicate Stops(calls: seq<Call>, id: Id) {
    StopRanging(id) in calls
  }

  /** Whether the last call that added or deleted the address added it. */
  function LastMention(calls: seq<Call>, id: Id, a: MacAddress): Option<bool> {
    if calls == [] then None
    else
      var k := |calls| - 1;
      var c := calls[k];
      if c.UpdateMulticastList? && c.id == id && !c.action.OtherAction? && a in c.addresses
      then Some(c.action.AddShortAddress?)
      else LastMention(calls[..k], id, a)
  }

  /** The last value that a call had allowed for the type. */
  function LastSet(calls: seq<Call>, id: Id, t: ParameterType): Option<seq<byte>> {
    if calls == [] then None
    else
      var k := |calls| - 1;
      var c := calls[k];
      if c.SetParameters? && c.id == id && LastOf(c.allowed, t).Some? then LastOf(c.allowed, t)
      else LastSet(calls[..k], id, t)
  }

  predicate LeavesOpen(calls: seq<Call>, id: Id) {
    forall c <- calls :: c != SessionDeinitialize(id) && !c.Expire?
  }

  /** What calls that leave a session open make of it. */
  ghost predicate Amounts(s: Session, calls: seq<Call>, id: Id, s': Session) {
    && s'.typ == s.typ
    && s'.state == (if Stops(calls, id) then Idle else s.state)
    && s'.rangingCount == (s.rangingCount + StartsIn(calls, id)) % UINT32_LIMIT
    && (forall a :: a in s'.controlees
               <==> match LastMention(calls, id, a) case Some(added) => added case None => a in s.controlees)
    && Ordered(s'.parameters)
    && (forall t :: Lookup(s'.parameters, t)
                 == match LastSet(calls, id, t) case Some(v) => Some(v) case None => Lookup(s.parameters, t))
  }

  lemma {:induction false} AmountsMore(s: Session, calls: seq<Call>, id: Id, mid: Session, call: Call)
    requires Amounts(s, calls, id, mid) && mid.state != Deinitialized
    requires Named(call, id) && call != SessionDeinitialize(id)
    ensures var e := EffectOn(Some(mid), call).entry; e.Some? && Amounts(s, calls + [call], id, e.value)
  {
    hide UpdatedAll, LastOf, Lookup, Ordered;
    var all, s' := calls + [call], EffectOn(Some(mid), call).entry.value;
    assert all[..|calls|] == calls;
    assert Stops(all, id) <==> Stops(calls, id) || call == StopRanging(id);
    if call.StartRanging? {
      CountOneMore(s.rangingCount, StartsIn(calls, id));
    }
    if call.SetParameters? {
      UpdatedAllOrdered(mid.parameters, call.allowed);
      forall t ensures Lookup(s'.parameters, t)
                    == match LastSet(all, id, t) case Some(v) => Some(v) case None => Lookup(s.parameters, t)
      {
        LookupUpdatedAll(mid.parameters, call.allowed, t);
      }
    }
    hide Stops;
  }

  lemma {:induction false} CountOneMore(n: nat, k: nat)
    ensures ((n + k) % UINT32_LIMIT + 1) % UINT32_LIMIT == (n + (k + 1)) % UINT32_LIMIT
  {
  }

  lemma {:induction false} NothingMore(calls: seq<Call>, id: Id, call: Call)
    requires !Named(call, id)
    ensures StartsIn(calls + [call], id) == StartsIn(calls, id)
    ensures Stops(calls + [call], id) == Stops(calls, id)
    ensures forall a :: LastMention(calls + [call], id, a) == LastMention(calls, id, a)
    ensures forall t :: LastSet(calls + [call], id, t) == LastSet(calls, id, t)
  {
    assert (calls + [call])[..|calls|] == calls;
    hide LastOf;
  }

  lemma {:induction false} AmountsSame(s: Session, calls: seq<Call>, id: Id, mid: Session, call: Call)
    requires Amounts(s, calls, id, mid) && !Named(call, id)
    ensures Amounts(s, calls + [call], id, mid)
  {
    NothingMore(calls, id, call);
    hide Lookup, Ordered, Stops, StartsIn, LastMention, LastSet, Named;
  }

  lemma {:induction false} AmountsNothing(s: Session, id: Id)
    requires Ordered(s.parameters) && s.rangingCount < UINT32_LIMIT
    ensures Amounts(s, [], id, s)
  {
  }

  /** While a session stays open, it keeps its type; its counter has counted the starts, up
      to 32 bits; it is Idle once it was stopped; it has the controlees last added and not
      deleted since; and each parameter type has the last value that was allowed for it. */
  lemma {:induction false} WhileOpen(d: Device, calls: seq<Call>, d': Device, id: Id)
    requires IsRun(d, calls, d') && LeavesOpen(calls, id)
    requires d.present && id in d.sessions && d.sessions[id].state != Deinitialized
    requires Ordered(d.sessions[id].parameters) && d.sessions[id].rangingCount < UINT32_LIMIT
    ensures d'.present && id in d'.sessions && Amounts(d.sessions[id], calls, id, d'.sessions[id])
    decreases |calls|
  {
    var s := d.sessions[id];
    if calls == [] {
      AmountsNothing(s, id);
    } else {
      var k := |calls| - 1;
      var call := calls[k];
      var mid :| IsRun(d, calls[..k], mid) && Enabled(mid, call) && d' == Apply(mid, call);
      assert calls == calls[..k] + [call] && call in calls;
      WhileOpen(d, calls[..k], mid, id);
      hide Amounts, Ordered, IsRun, Enabled;
      if call.id == id {
        assert mid.sessions[id].state != Deinitialized by { AmountsState(s, calls[..k], id, mid.sessions[id]); }
        AmountsMore(s, calls[..k], id, mid.sessions[id], call);
      } else {
        AmountsSame(s, calls[..k], id, mid.sessions[id], call);
      }
    }
  }

  lemma {:induction false} AmountsState(s: Session, calls: seq<Call>, id: Id, s': Session)
    requires Amounts(s, calls, id, s') && s.state != Deinitialized
    ensures s'.state != Deinitialized
  {
  }

  // ---- Sessions do not interfere

  predicate Concerns(call: Call, id: Id) {
    call.Expire? || call.id == id
  }

  function OnlyFor(calls: seq<Call>, id: Id): seq<Call>
    decreases |calls|
  {
    if calls == [] then []
    else
      var k := |calls| - 1;
      OnlyFor(calls[..k], id) + (if Concerns(calls[k], id) then [calls[k]] else [])
  }

  /** What one session can see of the device. */
  predicate SameFor(d1: Device, d2: Device, id: Id) {
    d1.present == d2.present && Entry(d1, id) == Entry(d2, id) && History(d1.raised, id) == History(d2.raised, id)
  }

  lemma {:induction false} SameStep(d1: Device, d2: Device, id: Id, call: Call)
    requires SameFor(d1, d2, id) && Concerns(call, id)
    ensures SameFor(Apply(d1, call), Apply(d2, call), id)
    ensures Enabled(d1, call) == Enabled(d2, call)
    ensures !call.Expire? ==> StatusOf(d1, call) == StatusOf(d2, call)
  {
    if d1.present && !call.Expire? {
      var e := EffectOn(Entry(d1, id), call);
      EffectRaisesOwn(Entry(d1, id), call);
      HistoryAppended(d1.raised, e.raised, id);
      HistoryAppended(d2.raised, e.raised, id);
    }
  }

  lemma {:induction false} OthersStep(d1: Device, d2: Device, id: Id, call: Call)
    requires SameFor(d1, d2, id) && !Concerns(call, id)
    ensures SameFor(Apply(d1, call), d2, id)
  {
    if d1.present {
      var e := EffectOn(Entry(d1, call.id), call);
      EffectRaisesOwn(Entry(d1, call.id), call);
      HistoryAppended(d1.raised, e.raised, id);
    }
  }

  /** Leaving out every call for other sessions changes neither a session's entry nor the
      notifications for it. */
  lemma {:induction false} Isolation(calls: seq<Call>, d: Device, id: Id) returns (alone: Device)
    requires IsRun(Init(), calls, d)
    ensures IsRun(Init(), OnlyFor(calls, id), alone)
    ensures SameFor(d, alone, id)
    decreases |calls|
  {
    if calls == [] {
      alone := Init();
    } else {
      var k := |calls| - 1;
      var mid :| IsRun(Init(), calls[..k], mid) && Enabled(mid, calls[k]) && d == Apply(mid, calls[k]);
      var before := Isolation(calls[..k], mid, id);
      var own := OnlyFor(calls[..k], id);
      if Concerns(calls[k], id) {
        SameStep(mid, before, id, calls[k]);
        alone := Apply(before, calls[k]);
        hide Apply, Enabled, SameFor, Concerns;
        OneMoreCall(own, before, calls[k]);
      } else {
        OthersStep(mid, before, id, calls[k]);
        alone := before;
        hide Apply, Enabled, SameFor, IsRun, Concerns;
        assert own + [] == own;
      }
    }
  }

  lemma {:induction false} OneMoreCall(calls: seq<Call>, d: Device, call: Call)
    requires IsRun(Init(), calls, d) && Enabled(d, call)
    ensures IsRun(Init(), calls + [call], Apply(d, call))
  {
    hide Apply, Enabled;
    assert (calls + [call])[..|calls|] == calls;
  }
}
