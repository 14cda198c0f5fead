/** The cache as an object: each method is one critical section of a call, between which
    other calls run and callers drop references. */
module SessionCacheObject {
  import opened Bytes
  import opened SessionCache

  class UwbDevice {
    var sessions: map<Id, Ref>
    var made: seq<Id>
    var clients: multiset<Ref>
    var calls: map<Thread, Call>

    constructor ()
      ensures View() == Init() && Inv(View())
    {
      sessions, made, clients, calls := map[], [], multiset{}, map[];
    }

    ghost function View(): State
      reads this
    {
      State(sessions, made, clients, calls)
    }

    /** Looks at the cache only; the caller holds the gate, shared or exclusive. */
    method FindLocked(id: Id) returns (session: Option<Ref>)
      ensures session == FindSessionLocked(View(), id)
      ensures session.Some? <==> id in sessions && Held(View(), sessions[id])
      ensures session.Some? ==> session.value == sessions[id]
    {
      if id in sessions {
        LookUpIff(View(), id, sessions[id]);
      }
      if id !in sessions {
        return None;
      }
      var weak := sessions[id];
      if weak in clients || weak in (set t | t in calls && HoldsSession(calls[t]) :: calls[t].made) {
        return Some(weak);
      }
      return None;
    }

    /** The first look, under the shared lock: a hit ends the call. */
    method FindSession(tid: Thread) returns (session: Option<Ref>)
      requires Inv(View()) && Enabled(View(), Find(tid))
      modifies this
      ensures View() == Apply(old(View()), Find(tid)) && Inv(View())
      ensures session == FindSessionLocked(old(View()), old(calls[tid].id))
      ensures session.Some? ==> Held(old(View()), session.value) && session.value in clients
      ensures session.None? ==> tid in calls && calls[tid] == Resolving(old(calls[tid].id))
    {
      StepKeepsInv(View(), Find(tid));
      hide Inv, Held, FindSessionLocked;
      var id := calls[tid].id;
      session := FindLocked(id);
      match session {
        case Some(r) =>
          calls := calls - {tid};
          clients := clients + multiset{r};
        case None =>
          calls := calls[tid := Resolving(id)];
      }
    }

    /** The driver's answer, without a lock: no such session, or a new object for it. */
    method ResolveSession(tid: Thread, known: bool)
      requires Inv(View()) && Enabled(View(), Resolves(tid))
      modifies this
      ensures View() == Apply(old(View()), if known then Resolves(tid) else ResolveFails(tid)) && Inv(View())
    {
      StepKeepsInv(View(), if known then Resolves(tid) else ResolveFails(tid));
      if known {
        calls := calls[tid := Rechecking(calls[tid].id, |made|)];
        made := made + [calls[tid].id];
      } else {
        calls := calls - {tid};
      }
    }

    /** The second look, under the exclusive lock: the winner's session, or else our own. */
    method RecheckAndCache(tid: Thread) returns (session: Ref)
      requires Inv(View()) && Enabled(View(), Recheck(tid))
      modifies this
      ensures View() == Apply(old(View()), Recheck(tid)) && Inv(View())
      ensures session in clients && session < |made| && made[session] == old(calls[tid].id)
    {
      StepKeepsInv(View(), Recheck(tid));
      RecheckGets(View(), tid);
      var id, own := calls[tid].id, calls[tid].made;
      hide Inv, Apply, FindSessionLocked;
      var cached := FindLocked(id);
      if cached.Some? {
        session := cached.value;
      } else {
        session := own;
        sessions := sessions[id := own];
      }
      calls := calls - {tid};
      clients := clients + multiset{session};
    }

    /** Publishes a created session without a look, over whatever the cache has for its id. */
    method PublishCreated(tid: Thread) returns (session: Ref)
      requires Inv(View()) && Enabled(View(), Publish(tid))
      modifies this
      ensures View() == Apply(old(View()), Publish(tid))
      ensures if old(Overwrites(View(), Publish(tid))) then !Unique(View()) else Inv(View())
      ensures session == old(calls[tid].made)
    {
      if Overwrites(View(), Publish(tid)) {
        OverwritingBreaks(View(), Publish(tid));
      } else {
        StepKeepsInv(View(), Publish(tid));
      }
      hide Inv, Unique;
      session := calls[tid].made;
      sessions := sessions[calls[tid].id := session];
      calls := calls - {tid};
      clients := clients + multiset{session};
    }
  }
}
