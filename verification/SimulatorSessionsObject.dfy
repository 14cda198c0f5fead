/** The session table as objects: a map from ids to sessions that the DDI calls look up and
    then change through the reference they found. */
module SimulatorSessionsObject {
  import opened Bytes
  import opened AppConfig
  import opened FiraDevice
  import opened SimulatorSessions

  class SimulatorSession {
    const id: Id
    const typ: nat
    var state: SessionState
    var rangingCount: nat
    var controlees: set<MacAddress>
    var parameters: seq<Parameter>

    constructor (id: Id, typ: nat)
      ensures this.id == id && View() == NewSession(typ)
    {
      this.id, this.typ := id, typ;
      state, rangingCount, controlees, parameters := Deinitialized, 0, {}, [];
    }

    ghost function View(): Session
      reads this
    {
      Session(typ, state, rangingCount, controlees, parameters)
    }

    /** Each change in turn takes the old entry of its type out and puts the new one in. */
    method ChangeParameters(changes: seq<Parameter>,
                            earlier: seq<ParameterStatus>) returns (statuses: seq<ParameterStatus>)
      modifies this`parameters
      ensures parameters == UpdatedAll(old(parameters), changes)
      ensures statuses == earlier + StatusesOf(changes, Accepted)
    {
      statuses := earlier;
      for i := 0 to |changes|
        invariant parameters == UpdatedAll(old(parameters), changes[..i])
        invariant statuses == earlier + StatusesOf(changes[..i], Accepted)
      {
        hide UpdatedAll, StatusesOf, Updated;
        OneMoreChange(old(parameters), changes, i);
        OneMoreStatus(changes, i);
        parameters := Updated(parameters, changes[i]);
        statuses := statuses + [ParameterStatus(Accepted, changes[i].typ)];
      }
      assert changes[..|changes|] == changes;
    }

    /** The partition is computed on the request itself; what fails it is reported first. */
    method SetParametersOf(requested: seq<Parameter>)
      returns (statuses: seq<ParameterStatus>, allowed: seq<Parameter>, refused: seq<Parameter>)
      modifies this`parameters
      ensures IsPartition(state == Active, requested, allowed, refused)
      ensures parameters == UpdatedAll(old(parameters), allowed)
      ensures statuses == Statuses(allowed, refused)
    {
      allowed, refused := Partition(state == Active, requested);
      statuses := ChangeParameters(allowed, StatusesOf(refused, RefusedWhileActive));
    }
  }

  class SimulatorDevice {
    var expired: bool
    var sessions: map<Id, SimulatorSession>
    ghost var raised: seq<Notification>

    constructor ()
      ensures Valid() && View() == Init() && fresh(sessions.Values)
    {
      expired, sessions, raised := false, map[], [];
    }

    /** Each session knows the id it is filed under, so no object is filed twice. */
    ghost predicate Valid()
      reads this, sessions.Values
    {
      forall id <- sessions :: sessions[id].id == id
    }

    ghost function View(): Device
      reads this, sessions.Values
    {
      Device(!expired, map id | id in sessions :: sessions[id].View(), raised)
    }

    method SessionGet(id: Id) returns (status: Status, session: SimulatorSession?)
      ensures status == if expired then Rejected else if id in sessions then Ok else NotExist
      ensures session == if status == Ok then sessions[id] else null
    {
      if expired {
        return Rejected, null;
      }
      if id !in sessions {
        return NotExist, null;
      }
      return Ok, sessions[id];
    }

    method UpdateState(session: SimulatorSession, state: SessionState, reason: Reason)
      modifies session`state, this`raised
      ensures session.state == state
      ensures raised == old(raised) + [Notification(session.id, state, reason)]
    {
      session.state := state;
      raised := raised + [Notification(session.id, state, reason)];
    }

    method Initialize(id: Id, typ: nat) returns (status: Status)
      requires Valid()
      modifies this
      ensures Valid() && fresh(sessions.Values - old(sessions.Values))
      ensures View() == Apply(old(View()), SessionInitialize(id, typ))
      ensures status == StatusOf(old(View()), SessionInitialize(id, typ))
    {
      if expired {
        return Rejected;
      }
      var session := new SimulatorSession(id, typ);
      if id in sessions {
        return Duplicate;
      }
      sessions := sessions[id := session];
      UpdateState(session, Initialized, NoReason);
      status := Ok;
      assert View().sessions == old(View()).sessions[id := session.View()];
    }

    method Deinitialize(id: Id) returns (status: Status)
      requires Valid()
      modifies this, sessions.Values
      ensures Valid() && sessions.Values <= old(sessions.Values)
      ensures View() == Apply(old(View()), SessionDeinitialize(id))
      ensures status == StatusOf(old(View()), SessionDeinitialize(id))
    {
      var session;
      status, session := SessionGet(id);
      if status != Ok {
        assert View().sessions == old(View()).sessions - {id} || expired;
        return;
      }
      UpdateState(session, Deinitialized, NoReason);
      sessions := sessions - {id};
      assert View().sessions == old(View()).sessions - {id};
    }

    /** `allowed` and `refused` are the two parts in which the partition left the request. */
    method SetApplicationConfigurationParameters(id: Id, requested: seq<Parameter>)
      returns (status: Status, statuses: seq<ParameterStatus>, ghost allowed: seq<Parameter>, ghost refused: seq<Parameter>)
      requires Valid()
      modifies sessions.Values
      ensures Valid() && Enabled(old(View()), SetParameters(id, requested, allowed, refused))
      ensures View() == Apply(old(View()), SetParameters(id, requested, allowed, refused))
      ensures status == StatusOf(old(View()), SetParameters(id, requested, allowed, refused))
      ensures statuses == if status == Ok then Statuses(allowed, refused) else []
    {
      statuses, allowed, refused := [], [], [];
      var session;
      status, session := SessionGet(id);
      if status != Ok {
        assert View().sessions - {id} == View().sessions || expired;
        return;
      }
      if session.state == Deinitialized {
        allowed, refused := Partition(false, requested);
        assert View().sessions[id := session.View()] == View().sessions;
        return NotExist, [], allowed, refused;
      }
      statuses, allowed, refused := session.SetParametersOf(requested);
      assert View().sessions == old(View()).sessions[id := session.View()];
    }

    method GetApplicationConfigurationParameters(id: Id, types: seq<ParameterType>)
      returns (status: Status, found: seq<Parameter>)
      ensures status == if expired then Rejected else if id in sessions then Ok else NotExist
      ensures found == if status == Ok then Selected(sessions[id].parameters, types) else []
    {
      found := [];
      var session;
      status, session := SessionGet(id);
      if status != Ok {
        return;
      }
      var entries := session.parameters;
      for i := 0 to |entries|
        invariant found == Selected(entries[..i], types)
      {
        if entries[i].typ in types {
          found := found + [entries[i]];
        }
        assert entries[..i + 1][..i] == entries[..i];
      }
      assert entries[..|entries|] == entries;
    }

    method UpdateMulticast(id: Id, action: MulticastAction, addresses: seq<MacAddress>) returns (status: Status)
      requires Valid()
      modifies sessions.Values
      ensures Valid()
      ensures View() == Apply(old(View()), UpdateMulticastList(id, action, set a | a in addresses))
      ensures status == StatusOf(old(View()), UpdateMulticastList(id, action, set a | a in addresses))
    {
      var session;
      status, session := SessionGet(id);
      if status != Ok {
        assert View().sessions - {id} == View().sessions || expired;
        return;
      }
      match action {
        case AddShortAddress =>
          for i := 0 to |addresses|
            invariant session.controlees == old(session.controlees) + set a | a in addresses[..i]
            invariant forall s <- sessions.Values :: s != session ==> unchanged(s)
            invariant session.View() == old(session.View()).(controlees := session.controlees)
          {
            session.controlees := session.controlees + {addresses[i]};
            assert addresses[..i + 1] == addresses[..i] + [addresses[i]];
          }
          assert addresses[..|addresses|] == addresses;
        case DeleteShortAddress =>
          session.controlees := set c | c in session.controlees && c !in addresses;
          assert session.controlees == old(session.controlees) - set a | a in addresses;
        case OtherAction =>
          status := InvalidParameter;
      }
      assert View().sessions == old(View()).sessions[id := session.View()];
    }

    method StartRangingOf(id: Id) returns (status: Status)
      requires Valid()
      modifies sessions.Values
      ensures Valid() && View() == Apply(old(View()), StartRanging(id))
      ensures status == StatusOf(old(View()), StartRanging(id))
    {
      var session;
      status, session := SessionGet(id);
      if status != Ok {
        assert View().sessions - {id} == View().sessions || expired;
        return;
      }
      session.rangingCount := (session.rangingCount + 1) % UINT32_LIMIT;
      assert View().sessions == old(View()).sessions[id := session.View()];
    }

    method StopRangingOf(id: Id) returns (status: Status)
      requires Valid()
      modifies this, sessions.Values
      ensures Valid() && sessions == old(sessions)
      ensures View() == Apply(old(View()), StopRanging(id))
      ensures status == StatusOf(old(View()), StopRanging(id))
    {
      var session;
      status, session := SessionGet(id);
      if status != Ok {
        assert View().sessions - {id} == View().sessions || expired;
        return;
      }
      UpdateState(session, Idle, StateChangeWithSessionManagementCommands);
      assert View().sessions == old(View()).sessions[id := session.View()];
    }

    /** The count is cut to 32 bits. */
    method GetSessionCount() returns (status: Status, count: nat)
      requires Valid()
      ensures status == if expired then Rejected else Ok
      ensures status == Ok ==> count == |View().sessions| % UINT32_LIMIT
    {
      if expired {
        return Rejected, 0;
      }
      assert View().sessions.Keys == sessions.Keys;
      assert |View().sessions| == |sessions|;
      return Ok, |sessions| % UINT32_LIMIT;
    }
  }
}
