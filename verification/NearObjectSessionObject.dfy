/** The session as an object on top of a task queue. A method takes one step, from one place
    where other threads can act to the next; the public operations are put together from
    those, as they run when no other thread comes in between. */
module NearObjectSessionObject {
  import opened NearObjectSession
  import Q = TaskQueue
  import TaskQueueObject

  datatype RangingStatus = Running | Error | NotSupported | MaximumSessionsReached

  class SessionObject {
    var nearObjects: seq<NearObject>
    var isRangingActive: bool
    var membershipGate: Holder
    var rangingGate: Holder
    const supportsRanging: bool
    const taskQueue: TaskQueueObject.Queue<Event>
    var closing: bool
    var callbacksAlive: bool
    ghost var delivered: seq<Event>
    ghost var versions: seq<seq<NearObject>>

    ghost function View(): Session
      reads this, taskQueue
    {
      Session(taskQueue.View(), nearObjects, isRangingActive, membershipGate, rangingGate, supportsRanging,
              closing, callbacksAlive, delivered, versions)
    }

    constructor (nearObjects: seq<NearObject>, supportsRanging: bool, callbacksAlive: bool)
      ensures fresh(taskQueue) && Inv(View())
      ensures View() == Init(nearObjects, supportsRanging, callbacksAlive)
    {
      this.nearObjects, isRangingActive, this.supportsRanging := nearObjects, false, supportsRanging;
      membershipGate, rangingGate := Free, Free;
      closing, this.callbacksAlive := false, callbacksAlive;
      delivered, versions := [], [nearObjects];
      taskQueue := new TaskQueueObject.Queue<Event>();
    }

    /** Compares by value, and with the list only. */
    method Prune(toAdd: seq<NearObject>) returns (added: seq<NearObject>)
      ensures added == Pruned(nearObjects, toAdd)
    {
      added := [];
      for i := 0 to |toAdd|
        invariant added == Pruned(nearObjects, toAdd[..i])
      {
        assert toAdd[..i + 1][..i] == toAdd[..i];
        if !(exists m <- nearObjects :: m.content == toAdd[i].content) {
          added := added + [toAdd[i]];
        }
      }
      assert toAdd[..|toAdd|] == toAdd;
    }

    /** Compares by pointer, and keeps the order of either part. */
    method StablePartition(toRemove: seq<NearObject>) returns (kept: seq<NearObject>, removed: seq<NearObject>)
      ensures kept == Kept(nearObjects, toRemove) && removed == Removed(nearObjects, toRemove)
    {
      kept, removed := [], [];
      for i := 0 to |nearObjects|
        invariant kept == Kept(nearObjects[..i], toRemove)
        invariant removed == Removed(nearObjects[..i], toRemove)
      {
        assert nearObjects[..i + 1][..i] == nearObjects[..i];
        if exists m <- toRemove :: m.address == nearObjects[i].address {
          removed := removed + [nearObjects[i]];
        } else {
          kept := kept + [nearObjects[i]];
        }
      }
      assert nearObjects[..|nearObjects|] == nearObjects;
    }

    method ChangeByAdding(tid: Thread, toAdd: seq<NearObject>)
      requires Inv(View()) && Enabled(View(), Step.AddNearObjects(tid, toAdd))
      modifies this`nearObjects, this`membershipGate, this`versions
      ensures View() == Apply(old(View()), Step.AddNearObjects(tid, toAdd)) && Inv(View())
    {
      StepKeepsInv(View(), Step.AddNearObjects(tid, toAdd));
      ChangeIs(View(), tid, toAdd);
      hide Inv, Enabled, Apply, Pruned;
      var added := Prune(toAdd);
      nearObjects := nearObjects + added;
      membershipGate := Holding(tid, MembershipChanged(added, []));
      versions := versions + [nearObjects];
    }

    method ChangeByRemoving(tid: Thread, toRemove: seq<NearObject>)
      requires Inv(View()) && Enabled(View(), Step.RemoveNearObjects(tid, toRemove))
      modifies this`nearObjects, this`membershipGate, this`versions
      ensures View() == Apply(old(View()), Step.RemoveNearObjects(tid, toRemove)) && Inv(View())
    {
      StepKeepsInv(View(), Step.RemoveNearObjects(tid, toRemove));
      ChangeIs(View(), tid, toRemove);
      hide Inv, Enabled, Apply, Kept, Removed;
      var kept, removed := StablePartition(toRemove);
      nearObjects := kept;
      membershipGate := Holding(tid, MembershipChanged([], removed));
      versions := versions + [nearObjects];
    }

    /** Posts the event of the change while the mutex is still held, and then gives it back. */
    method PostMembership()
      requires Inv(View()) && Enabled(View(), Step.PostMembership)
      modifies this`membershipGate, taskQueue
      ensures View() == Apply(old(View()), Step.PostMembership) && Inv(View())
    {
      hide Inv, Enabled, Apply, Q.Apply, Q.Inv, Q.Enabled;
      StepKeepsInv(View(), Step.PostMembership);
      PostMembershipIs(View());
      var Holding(tid, event) := membershipGate;
      var _ := taskQueue.Post(tid, event);
      membershipGate := Free;
    }

    method ChangeToRanging(tid: Thread) returns (status: RangingStatus)
      requires Inv(View()) && Enabled(View(), Step.StartRanging(tid))
      modifies this`isRangingActive, this`rangingGate
      ensures View() == Apply(old(View()), Step.StartRanging(tid)) && Inv(View())
      ensures status == if old(isRangingActive) then MaximumSessionsReached
                        else if supportsRanging then Running else NotSupported
    {
      StepKeepsInv(View(), Step.StartRanging(tid));
      FlagIs(View(), tid);
      hide Inv, Enabled, Apply;
      status := Error;
      if isRangingActive {
        status := MaximumSessionsReached;
      } else if !supportsRanging {
        status := NotSupported;
      } else {
        isRangingActive := true;
        rangingGate := Holding(tid, RangingStarted);
        status := Running;
      }
    }

    method ChangeToIdle(tid: Thread)
      requires Inv(View()) && Enabled(View(), Step.StopRanging(tid))
      modifies this`isRangingActive, this`rangingGate
      ensures View() == Apply(old(View()), Step.StopRanging(tid)) && Inv(View())
    {
      StepKeepsInv(View(), Step.StopRanging(tid));
      FlagIs(View(), tid);
      hide Inv, Enabled, Apply;
      if !isRangingActive {
        return;
      }
      isRangingActive := false;
      rangingGate := Holding(tid, RangingStopped);
    }

    method PostRanging()
      requires Inv(View()) && Enabled(View(), Step.PostRanging)
      modifies this`rangingGate, taskQueue
      ensures View() == Apply(old(View()), Step.PostRanging) && Inv(View())
    {
      hide Inv, Enabled, Apply, Q.Apply, Q.Inv, Q.Enabled;
      StepKeepsInv(View(), Step.PostRanging);
      PostRangingIs(View());
      var Holding(tid, event) := rangingGate;
      var _ := taskQueue.Post(tid, event);
      rangingGate := Free;
    }

    method NearObjectPropertiesChanged(tid: Thread, changed: NearObject)
      requires Inv(View()) && Enabled(View(), PostProperties(tid, changed))
      modifies taskQueue
      ensures View() == Apply(old(View()), PostProperties(tid, changed)) && Inv(View())
    {
      hide Inv, Enabled, Apply, Q.Apply, Q.Inv, Q.Enabled;
      StepKeepsInv(View(), PostProperties(tid, changed));
      PostPropertiesIs(View(), tid, changed);
      var _ := taskQueue.Post(tid, PropertiesChanged(changed));
    }

    method PostSessionEnded(tid: Thread, destroying: bool)
      requires Inv(View()) && Enabled(View(), PostEnded(tid, destroying))
      modifies this`closing, taskQueue
      ensures View() == Apply(old(View()), PostEnded(tid, destroying)) && Inv(View())
    {
      hide Inv, Enabled, Apply, Q.Apply, Q.Inv, Q.Enabled;
      StepKeepsInv(View(), PostEnded(tid, destroying));
      PostEndedIs(View(), tid, destroying);
      var _ := taskQueue.Post(tid, SessionEnded);
      closing := destroying;
    }

    /** The worker starts a task: the client is told if its callbacks are still there. */
    method InvokeNext() returns (told: bool)
      requires Inv(View()) && Enabled(View(), QueueStep(Q.Begin))
      modifies this`delivered, taskQueue
      ensures View() == Apply(old(View()), QueueStep(Q.Begin)) && Inv(View())
      ensures told == callbacksAlive
    {
      StepKeepsInv(View(), QueueStep(Q.Begin));
      BeginIs(View());
      hide Inv, Enabled, Apply, Q.Apply, Q.Inv;
      var event := taskQueue.BeginTask();
      told := callbacksAlive;
      if told {
        delivered := delivered + [event];
      }
    }

    /** The end of a post that found the queue empty. */
    method Notify(tid: Thread)
      requires Inv(View()) && Enabled(View(), QueueStep(Q.Notify(tid)))
      modifies taskQueue
      ensures View() == Apply(old(View()), QueueStep(Q.Notify(tid))) && Inv(View())
    {
      StepKeepsInv(View(), QueueStep(Q.Notify(tid)));
      assert Q.Inv(taskQueue.View());
      hide Inv, Q.Apply, Q.Inv;
      taskQueue.NotifyAll(tid);
    }

    // ---- The public operations, up to the notification

    /** The membership after the call is the one before with the posted event replayed on it. */
    method AddNearObjects(tid: Thread, toAdd: seq<NearObject>)
      requires Inv(View()) && Enabled(View(), Step.AddNearObjects(tid, toAdd))
      modifies this`nearObjects, this`membershipGate, this`versions, taskQueue
      ensures var steps := [Step.AddNearObjects(tid, toAdd), Step.PostMembership];
              ValidRun(old(View()), steps) && View() == Run(old(View()), steps) && Inv(View())
      ensures var event := MembershipChanged(Pruned(old(nearObjects), toAdd), []);
              && taskQueue.accepted == old(taskQueue.accepted) + [event]
              && nearObjects == Replayed(old(nearObjects), event)
    {
      ReplayedAdd(nearObjects, toAdd);
      ghost var before := View();
      ChangeByAdding(tid, toAdd);
      MembershipPosted(View());
      TwoSteps(before, Step.AddNearObjects(tid, toAdd), Step.PostMembership);
      hide Inv, ValidRun, Run;
      PostMembership();
    }

    method RemoveNearObjects(tid: Thread, toRemove: seq<NearObject>)
      requires Inv(View()) && Enabled(View(), Step.RemoveNearObjects(tid, toRemove))
      modifies this`nearObjects, this`membershipGate, this`versions, taskQueue
      ensures var steps := [Step.RemoveNearObjects(tid, toRemove), Step.PostMembership];
              ValidRun(old(View()), steps) && View() == Run(old(View()), steps) && Inv(View())
      ensures var event := MembershipChanged([], Removed(old(nearObjects), toRemove));
              && taskQueue.accepted == old(taskQueue.accepted) + [event]
              && nearObjects == Replayed(old(nearObjects), event)
    {
      ReplayedRemove(nearObjects, toRemove);
      ghost var before := View();
      ChangeByRemoving(tid, toRemove);
      MembershipPosted(View());
      TwoSteps(before, Step.RemoveNearObjects(tid, toRemove), Step.PostMembership);
      hide Inv, ValidRun, Run;
      PostMembership();
    }

    method StartRanging(tid: Thread) returns (status: RangingStatus)
      requires Inv(View()) && Enabled(View(), Step.StartRanging(tid))
      modifies this`isRangingActive, this`rangingGate, taskQueue
      ensures var steps := [Step.StartRanging(tid)] + (if status == Running then [Step.PostRanging] else []);
              ValidRun(old(View()), steps) && View() == Run(old(View()), steps) && Inv(View())
      ensures status == if old(isRangingActive) then MaximumSessionsReached
                        else if supportsRanging then Running else NotSupported
    {
      ghost var before := View();
      RangingGateTaken(before, tid);
      hide Inv, ValidRun, Run, Apply, Enabled, Q.Apply;
      status := ChangeToRanging(tid);
      if status == Running {
        TwoSteps(before, Step.StartRanging(tid), Step.PostRanging);
        PostRanging();
      } else {
        OneStep(before, Step.StartRanging(tid));
      }
    }

    method StopRanging(tid: Thread)
      requires Inv(View()) && Enabled(View(), Step.StopRanging(tid))
      modifies this`isRangingActive, this`rangingGate, taskQueue
      ensures var steps := [Step.StopRanging(tid)] + (if old(isRangingActive) then [Step.PostRanging] else []);
              ValidRun(old(View()), steps) && View() == Run(old(View()), steps) && Inv(View())
    {
      ghost var before := View();
      var wasActive := isRangingActive;
      RangingGateTaken(before, tid);
      hide Inv, ValidRun, Run, Apply, Enabled, Q.Apply;
      ChangeToIdle(tid);
      if wasActive {
        TwoSteps(before, Step.StopRanging(tid), Step.PostRanging);
        PostRanging();
      } else {
        OneStep(before, Step.StopRanging(tid));
      }
    }
  }

  lemma {:induction false} ChangeIs(s: Session, tid: Thread, objects: seq<NearObject>)
    requires Inv(s)
    ensures Enabled(s, Step.AddNearObjects(tid, objects)) ==>
              Apply(s, Step.AddNearObjects(tid, objects))
              == (var added := Pruned(s.nearObjects, objects);
                  Changed(s, tid, s.nearObjects + added, MembershipChanged(added, [])))
    ensures Enabled(s, Step.RemoveNearObjects(tid, objects)) ==>
              Apply(s, Step.RemoveNearObjects(tid, objects))
              == Changed(s, tid, Kept(s.nearObjects, objects), MembershipChanged([], Removed(s.nearObjects, objects)))
  {
    hide Inv, Kept, Removed, Pruned;
  }

  lemma {:induction false} FlagIs(s: Session, tid: Thread)
    requires Inv(s)
    ensures Enabled(s, Step.StartRanging(tid)) ==>
              Apply(s, Step.StartRanging(tid))
              == if s.ranging || !s.supportsRanging then s
                 else s.(ranging := true, rangingGate := Holding(tid, RangingStarted))
    ensures Enabled(s, Step.StopRanging(tid)) ==>
              Apply(s, Step.StopRanging(tid))
              == if s.ranging then s.(ranging := false, rangingGate := Holding(tid, RangingStopped)) else s
  {
    hide Inv;
  }

  lemma {:induction false} BeginIs(s: Session)
    requires Inv(s) && Enabled(s, QueueStep(Q.Begin))
    ensures Q.Inv(s.queue) && Q.Enabled(s.queue, Q.Begin)
    ensures Apply(s, QueueStep(Q.Begin))
         == s.(queue := Q.Apply(s.queue, Q.Begin),
               delivered := if s.callbacksAlive then s.delivered + [s.queue.tasks[0]] else s.delivered)
  {
    hide Q.Apply, Q.Inv;
  }

  lemma {:induction false} PostMembershipIs(s: Session)
    requires Inv(s) && Enabled(s, Step.PostMembership)
    ensures s.membershipGate.Holding?
    ensures var Holding(tid, event) := s.membershipGate;
            && Q.Inv(s.queue) && Q.Enabled(s.queue, Q.Post(tid, event))
            && Apply(s, Step.PostMembership) == Posted(s, tid, event).(membershipGate := Free)
  {
    hide Q.Apply, Q.Inv, Journal, RangingAfter;
  }

  lemma {:induction false} PostRangingIs(s: Session)
    requires Inv(s) && Enabled(s, Step.PostRanging)
    ensures s.rangingGate.Holding?
    ensures var Holding(tid, event) := s.rangingGate;
            && Q.Inv(s.queue) && Q.Enabled(s.queue, Q.Post(tid, event))
            && Apply(s, Step.PostRanging) == Posted(s, tid, event).(rangingGate := Free)
  {
    hide Q.Apply, Q.Inv, Journal, RangingAfter;
  }

  lemma {:induction false} PostPropertiesIs(s: Session, tid: Thread, changed: NearObject)
    requires Inv(s) && Enabled(s, PostProperties(tid, changed))
    ensures Q.Inv(s.queue) && Q.Enabled(s.queue, Q.Post(tid, PropertiesChanged(changed)))
    ensures Apply(s, PostProperties(tid, changed)) == Posted(s, tid, PropertiesChanged(changed))
  {
    hide Q.Apply, Q.Inv, Journal, RangingAfter;
  }

  lemma {:induction false} PostEndedIs(s: Session, tid: Thread, destroying: bool)
    requires Inv(s) && Enabled(s, PostEnded(tid, destroying))
    ensures Q.Inv(s.queue) && Q.Enabled(s.queue, Q.Post(tid, SessionEnded))
    ensures Apply(s, PostEnded(tid, destroying)) == Posted(s, tid, SessionEnded).(closing := destroying)
  {
    hide Q.Apply, Q.Inv, Journal, RangingAfter;
  }

  lemma {:induction false} OneStep(s: Session, a: Step)
    requires Inv(s) && Enabled(s, a)
    ensures ValidRun(s, [a] + []) && Run(s, [a] + []) == Apply(s, a)
  {
    StepKeepsInv(s, a);
    hide Inv, Apply, Enabled;
    assert [a] + [] == [a] && [a][1..] == [];
  }

  lemma {:induction false} TwoSteps(s: Session, a: Step, b: Step)
    requires Inv(s) && Enabled(s, a) && Inv(Apply(s, a)) && Enabled(Apply(s, a), b)
    ensures ValidRun(s, [a, b]) && Run(s, [a, b]) == Apply(Apply(s, a), b)
    ensures [a] + [b] == [a, b]
  {
    hide Inv, Apply, Enabled;
    OneStep(Apply(s, a), b);
    assert [a, b][1..] == [b] + [];
  }

  /** A change of the ranging flag leaves its event to post, and makes the flag what was asked. */
  lemma {:induction false} RangingGateTaken(s: Session, tid: Thread)
    requires Inv(s)
    ensures Enabled(s, Step.StartRanging(tid)) && !s.ranging && s.supportsRanging ==>
              Enabled(Apply(s, Step.StartRanging(tid)), Step.PostRanging)
    ensures Enabled(s, Step.StopRanging(tid)) && s.ranging ==>
              Enabled(Apply(s, Step.StopRanging(tid)), Step.PostRanging)
  {
    hide Inv;
  }

  /** The post that ends a change of the membership is not refused. */
  lemma {:induction false} MembershipPosted(s: Session)
    requires Inv(s) && s.membershipGate.Holding?
    ensures Enabled(s, Step.PostMembership)
    ensures Apply(s, Step.PostMembership).queue.accepted == s.queue.accepted + [s.membershipGate.event]
  {
    QueueEffect(s, Step.PostMembership);
  }
}
