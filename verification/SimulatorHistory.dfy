/** The session table told from the calls alone: which calls find a session open, what each
    of them answers and announces, and what an open session holds, without the table. */
module SimulatorHistory {
  import opened Bytes
  import opened AppConfig
  import opened FiraDevice
  import opened SimulatorSessions

  predicate Opens(call: Call, id: Id) {
    call.SessionInitialize? && call.id == id
  }

  /** Some call opened the session, and none after it closed it. */
  ghost predicate OpenAfter(calls: seq<Call>, id: Id) {
    exists i :: 0 <= i < |calls| && Opens(calls[i], id) && NeverClosed(calls, i + 1, id)
  }

  predicate NeverClosed(calls: seq<Call>, from: nat, id: Id) {
    forall j :: from <= j < |calls| ==> calls[j] != SessionDeinitialize(id)
  }

  /** What a call after the given ones announces: the first opening, a closing, and every stop
      of a session that is open, be it Idle already or not. */
  ghost function Announced(calls: seq<Call>, call: Call): seq<Notification> {
    if Expire in calls then []
    else
      match call
      case SessionInitialize(id, _) => if OpenAfter(calls, id) then [] else [Notification(id, Initialized, NoReason)]
      case SessionDeinitialize(id) => if OpenAfter(calls, id) then [Notification(id, Deinitialized, NoReason)] else []
      case StopRanging(id) =>
        if OpenAfter(calls, id) then [Notification(id, Idle, StateChangeWithSessionManagementCommands)] else []
      case _ => []
  }

  ghost function AllAnnounced(calls: seq<Call>): seq<Notification> {
    if calls == [] then []
    else
      var k := |calls| - 1;
      AllAnnounced(calls[..k]) + Announced(calls[..k], calls[k])
  }

  ghost function Answered(calls: seq<Call>, call: Call): Status
    requires !call.Expire?
  {
    if Expire in calls then Rejected
    else if call.SessionInitialize? then if OpenAfter(calls, call.id) then Duplicate else Ok
    else if !OpenAfter(calls, call.id) then NotExist
    else if call.UpdateMulticastList? && call.action.OtherAction? then InvalidParameter
    else Ok
  }

  lemma {:induction false} OpenAfterOneMore(calls: seq<Call>, call: Call, id: Id)
    ensures OpenAfter(calls + [call], id)
       <==> Opens(call, id) || (OpenAfter(calls, id) && call != SessionDeinitialize(id))
  {
    var all, k := calls + [call], |calls|;
    if OpenAfter(all, id) {
      var i :| 0 <= i < |all| && Opens(all[i], id) && NeverClosed(all, i + 1, id);
      if i < k {
        assert all[k] != SessionDeinitialize(id);
        forall j | i + 1 <= j < k ensures calls[j] != SessionDeinitialize(id) { assert all[j] == calls[j]; }
        assert Opens(calls[i], id) && NeverClosed(calls, i + 1, id);
      }
    }
    if OpenAfter(calls, id) && call != SessionDeinitialize(id) {
      var i :| 0 <= i < k && Opens(calls[i], id) && NeverClosed(calls, i + 1, id);
      assert Opens(all[i], id) && NeverClosed(all, i + 1, id);
    }
    if Opens(call, id) {
      assert Opens(all[k], id) && NeverClosed(all, k + 1, id);
    }
  }

  /** The device agrees with the calls made so far. */
  ghost predicate Told(calls: seq<Call>, d: Device) {
    && (d.present <==> Expire !in calls)
    && (d.present ==> forall id :: id in d.sessions <==> OpenAfter(calls, id))
    && (forall id :: id in d.sessions ==> d.sessions[id].state != Deinitialized)
    && d.raised == AllAnnounced(calls)
  }

  /** One call answers and announces as told. */
  lemma {:induction false} CallAsTold(calls: seq<Call>, d: Device, call: Call)
    requires Told(calls, d) && !call.Expire?
    ensures StatusOf(d, call) == Answered(calls, call)
    ensures Apply(d, call).raised == d.raised + Announced(calls, call)
  {
    hide OpenAfter, AllAnnounced, UpdatedAll;
    assert d.raised + [] == d.raised;
  }

  lemma {:induction false} OpenAsTold(calls: seq<Call>, d: Device, call: Call, id: Id)
    requires Told(calls, d) && !call.Expire? && d.present
    ensures id in Apply(d, call).sessions <==> OpenAfter(calls + [call], id)
    ensures id in Apply(d, call).sessions ==> Apply(d, call).sessions[id].state != Deinitialized
  {
    OpenAfterOneMore(calls, call, id);
    AfterCall(d, call, id);
    hide OpenAfter, AllAnnounced, UpdatedAll, Apply;
  }

  lemma {:induction false} CallKeepsTold(calls: seq<Call>, d: Device, call: Call)
    requires Told(calls, d)
    ensures Told(calls + [call], Apply(d, call))
  {
    var d' := Apply(d, call);
    assert (calls + [call])[..|calls|] == calls;
    assert AllAnnounced(calls + [call]) == AllAnnounced(calls) + Announced(calls, call);
    if call.Expire? {
      hide OpenAfter, AllAnnounced;
      assert d.raised + [] == d.raised;
    } else {
      CallAsTold(calls, d, call);
      if d.present {
        forall id
          ensures id in d'.sessions <==> OpenAfter(calls + [call], id)
          ensures id in d'.sessions ==> d'.sessions[id].state != Deinitialized
        {
          OpenAsTold(calls, d, call, id);
        }
      }
      hide OpenAfter, AllAnnounced, EffectOn, Announced;
    }
  }

  lemma {:induction false} RunAsTold(calls: seq<Call>, d: Device)
    requires IsRun(Init(), calls, d)
    ensures Told(calls, d)
    decreases |calls|
  {
    if calls == [] {
      hide Answered;
    } else {
      var k := |calls| - 1;
      var mid :| IsRun(Init(), calls[..k], mid) && Enabled(mid, calls[k]) && d == Apply(mid, calls[k]);
      RunAsTold(calls[..k], mid);
      CallKeepsTold(calls[..k], mid, calls[k]);
      assert calls == calls[..k] + [calls[k]];
    }
  }

  /** In every run the notifications raised, for all sessions together and in their order, are
      the ones the calls announce, and a call is answered as the calls before it say. */
  lemma {:induction false} AsTheCallsTell(calls: seq<Call>, d: Device, call: Call)
    requires IsRun(Init(), calls, d) && !call.Expire?
    ensures d.raised == AllAnnounced(calls)
    ensures StatusOf(d, call) == Answered(calls, call)
    ensures Apply(d, call).raised == d.raised + Announced(calls, call)
    ensures Expire !in calls ==> forall id :: id in d.sessions <==> OpenAfter(calls, id)
  {
    hide *;
    RunAsTold(calls, d);
    CallAsTold(calls, d, call);
    ToldMeans(calls, d);
  }

  lemma {:induction false} ToldMeans(calls: seq<Call>, d: Device)
    requires Told(calls, d)
    ensures d.raised == AllAnnounced(calls)
    ensures Expire !in calls ==> forall id :: id in d.sessions <==> OpenAfter(calls, id)
  {
    hide OpenAfter, AllAnnounced;
  }

  // ---- Stops are counted

  /** The stops of a session that were made while it was open. */
  ghost function StopsTaken(calls: seq<Call>, id: Id): nat {
    if calls == [] then 0
    else
      var k := |calls| - 1;
      StopsTaken(calls[..k], id)
      + (if calls[k] == StopRanging(id) && OpenAfter(calls[..k], id) && Expire !in calls[..k] then 1 else 0)
  }

  function IdleIn(h: seq<SessionState>): nat {
    if h == [] then 0 else IdleIn(h[..|h| - 1]) + (if h[|h| - 1] == Idle then 1 else 0)
  }

  lemma {:induction false} IdleInOneMore(h: seq<SessionState>, more: seq<SessionState>)
    requires |more| <= 1
    ensures IdleIn(h + more) == IdleIn(h) + (if more == [Idle] then 1 else 0)
  {
    if more == [] {
      assert h + more == h;
    } else {
      assert (h + more)[..|h|] == h;
    }
  }

  lemma {:induction false} LastCall(calls: seq<Call>, d: Device) returns (mid: Device)
    requires calls != [] && IsRun(Init(), calls, d)
    ensures IsRun(Init(), calls[..|calls| - 1], mid) && d == Apply(mid, calls[|calls| - 1])
  {
    var k := |calls| - 1;
    mid :| IsRun(Init(), calls[..k], mid) && Enabled(mid, calls[k]) && d == Apply(mid, calls[k]);
    hide Apply, Enabled;
  }

  lemma {:induction false} RaisedNext(calls: seq<Call>, d: Device, call: Call)
    requires IsRun(Init(), calls, d)
    ensures Apply(d, call).raised == d.raised + Announced(calls, call)
  {
    if call.Expire? {
      assert d.raised + [] == d.raised;
      hide IsRun;
    } else {
      hide *;
      AsTheCallsTell(calls, d, call);
    }
  }

  lemma {:induction false} OwnStop(calls: seq<Call>, call: Call, id: Id)
    ensures |Announced(calls, call)| <= 1
    ensures var more := Announced(calls, call);
            (more != [] && more[0].id == id && more[0].state == Idle
             <==> call == StopRanging(id) && OpenAfter(calls, id) && Expire !in calls)
  {
    hide OpenAfter;
  }

  lemma {:induction false} StopsTakenLast(calls: seq<Call>, id: Id)
    requires calls != []
    ensures var front, call := calls[..|calls| - 1], calls[|calls| - 1];
            StopsTaken(calls, id) == StopsTaken(front, id)
              + (if call == StopRanging(id) && OpenAfter(front, id) && Expire !in front then 1 else 0)
  {
    hide OpenAfter;
  }

  /** Each stop of an open session is notified, once. */
  lemma {:induction false} StopsAreNotified(calls: seq<Call>, d: Device, id: Id)
    requires IsRun(Init(), calls, d)
    ensures IdleIn(History(d.raised, id)) == StopsTaken(calls, id)
    decreases |calls|
  {
    if calls == [] {
      hide Apply;
    } else {
      hide *;
      var k := |calls| - 1;
      var mid := LastCall(calls, d);
      var more := Announced(calls[..k], calls[k]);
      StopsAreNotified(calls[..k], mid, id);
      RaisedNext(calls[..k], mid, calls[k]);
      OwnStop(calls[..k], calls[k], id);
      HistoryAppended(mid.raised, more, id);
      IdleInOneMore(History(mid.raised, id), if more != [] && more[0].id == id then [more[0].state] else []);
      StopsTakenLast(calls, id);
    }
  }

  // ---- What an open session holds

  /** In every run, an open session is what the calls since the one that opened it have made of
      a new session: Initialized, with a count of 0, no controlees and no parameters. */
  lemma {:induction false} OpenSessionHolds(calls: seq<Call>, d: Device, id: Id) returns (i: nat)
    requires IsRun(Init(), calls, d) && Expire !in calls && id in d.sessions
    ensures i < |calls| && Opens(calls[i], id) && !OpenAfter(calls[..i], id) && NeverClosed(calls, i + 1, id)
    ensures Amounts(Session(calls[i].typ, Initialized, 0, {}, []), calls[i + 1..], id, d.sessions[id])
    decreases |calls|
  {
    NotYetOpen(calls, d, id);
    hide *;
    var k := |calls| - 1;
    var mid := LastCall(calls, d);
    RunAsTold(calls[..k], mid);
    PresentBefore(calls, mid);
    if Opens(calls[k], id) && !OpenAfter(calls[..k], id) {
      i := k;
      Opened(calls[..k], mid, calls[k], id);
      LastOpens(calls, id);
    } else {
      StaysOpen(calls[..k], mid, calls[k], id);
      i := OpenSessionHolds(calls[..k], mid, id);
      HoldsOneMore(Session(calls[i].typ, Initialized, 0, {}, []), calls[..k][i + 1..], calls[..k], mid, calls[k], id);
      SinceOneMore(calls, i, id);
    }
  }

  lemma {:induction false} NotYetOpen(calls: seq<Call>, d: Device, id: Id)
    requires IsRun(Init(), calls, d) && id in d.sessions
    ensures calls != []
  {
  }

  lemma {:induction false} PresentBefore(calls: seq<Call>, mid: Device)
    requires calls != [] && Expire !in calls && Told(calls[..|calls| - 1], mid)
    ensures mid.present && Expire !in calls[..|calls| - 1] && calls[|calls| - 1] != Expire
  {
    hide OpenAfter, AllAnnounced;
  }

  lemma {:induction false} LastOpens(calls: seq<Call>, id: Id)
    requires calls != []
    ensures calls[|calls|..] == [] && NeverClosed(calls, |calls|, id)
  {
  }

  lemma {:induction false} SinceOneMore(calls: seq<Call>, i: nat, id: Id)
    requires i < |calls| - 1 && calls[|calls| - 1] != SessionDeinitialize(id)
    ensures var front := calls[..|calls| - 1];
            && front[..i] == calls[..i] && front[i] == calls[i]
            && front[i + 1..] + [calls[|calls| - 1]] == calls[i + 1..]
            && (NeverClosed(front, i + 1, id) ==> NeverClosed(calls, i + 1, id))
  {
  }

  lemma {:induction false} Opened(calls: seq<Call>, d: Device, call: Call, id: Id)
    requires Told(calls, d) && d.present && Opens(call, id) && !OpenAfter(calls, id)
    ensures id in Apply(d, call).sessions
    ensures Amounts(Session(call.typ, Initialized, 0, {}, []), [], id, Apply(d, call).sessions[id])
  {
    AmountsNothing(Session(call.typ, Initialized, 0, {}, []), id);
    hide Amounts, OpenAfter, AllAnnounced;
  }

  lemma {:induction false} StaysOpen(calls: seq<Call>, d: Device, call: Call, id: Id)
    requires Told(calls, d) && d.present && !call.Expire? && id in Apply(d, call).sessions
    requires !(Opens(call, id) && !OpenAfter(calls, id))
    ensures id in d.sessions && call != SessionDeinitialize(id)
  {
    OpenAsTold(calls, d, call, id);
    OpenAfterOneMore(calls, call, id);
    hide OpenAfter, AllAnnounced, Apply;
  }

  lemma {:induction false} HoldsOneMore(s: Session, since: seq<Call>, calls: seq<Call>, d: Device, call: Call, id: Id)
    requires Told(calls, d) && d.present && !call.Expire? && call != SessionDeinitialize(id)
    requires id in d.sessions && Amounts(s, since, id, d.sessions[id])
    ensures var d' := Apply(d, call); id in d'.sessions && Amounts(s, since + [call], id, d'.sessions[id])
  {
    assert d.sessions[id].state != Deinitialized;
    AfterCall(d, call, id);
    hide Told, Amounts, Apply, EffectOn;
    if call.id == id {
      AmountsMore(s, since, id, d.sessions[id], call);
    } else {
      AmountsSame(s, since, id, d.sessions[id], call);
    }
  }
}
