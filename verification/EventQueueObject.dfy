/** The event queue as an object: the entry points of the driver, and the pieces of the
    processing thread's loop between the places where it lets go of the gate. */
module EventQueueObject {
  import opened Bytes
  import opened EventQueue

  class IoEventQueue {
    const fixedSize: nat
    var requests: seq<Request>
    var notifications: seq<Notification>
    var worker: Worker
    var stopRequested: bool
    var pushers: nat
    ghost var pushed: seq<Notification>
    ghost var pended: seq<Request>
    ghost var canceled: seq<Request>
    ghost var completed: seq<Completion>

    ghost function View(): State
      reads this
    {
      State(fixedSize, requests, notifications, worker, stopRequested, pushers, pushed, pended, canceled, completed)
    }

    constructor (fixedSize: nat)
      ensures View() == Init(fixedSize) && Inv(View())
    {
      this.fixedSize := fixedSize;
      requests, notifications, worker, stopRequested, pushers := [], [], WantsRequest, false, 0;
      pushed, pended, canceled, completed := [], [], [], [];
    }

    method EnqueueRequest(request: Request, forwards: bool) returns (status: Status)
      requires Inv(View()) && Enabled(View(), Step.EnqueueRequest(request, forwards))
      modifies this
      ensures View() == Apply(old(View()), Step.EnqueueRequest(request, forwards)) && Inv(View())
      ensures status == Pending <==> old(requests) == [] && forwards
      ensures status == InvalidDeviceState <==> old(requests) != []
      ensures status == ForwardFailed <==> old(requests) == [] && !forwards
      ensures status == Pending ==> requests == [request]
      ensures status != Pending ==> View() == old(View())
    {
      ghost var before := View();
      if requests != [] {
        status := InvalidDeviceState;
      } else if !forwards {
        status := ForwardFailed;
      } else {
        requests := requests + [request];
        pended := pended + [request];
        if worker == AwaitsRequest {
          worker := WantsRequest;
        }
        status := Pending;
      }
      StepKeepsInv(before, Step.EnqueueRequest(request, forwards));
    }

    method PushNotification(notification: Notification)
      requires Inv(View()) && Enabled(View(), Step.PushNotification(notification))
      modifies this
      ensures View() == Apply(old(View()), Step.PushNotification(notification)) && Inv(View())
    {
      ghost var before := View();
      notifications := notifications + [notification];
      pushed := pushed + [notification];
      pushers := pushers + 1;
      StepKeepsInv(before, Step.PushNotification(notification));
    }

    method NotifyDataAvailable()
      requires Inv(View()) && Enabled(View(), NotifyData)
      modifies this
      ensures View() == Apply(old(View()), NotifyData) && Inv(View())
    {
      ghost var before := View();
      pushers := pushers - 1;
      if worker == AwaitsData {
        worker := WantsData;
      }
      StepKeepsInv(before, NotifyData);
    }

    method WaitForRequest()
      requires Inv(View()) && Enabled(View(), TestRequest)
      modifies this`worker
      ensures View() == Apply(old(View()), TestRequest) && Inv(View())
    {
      ghost var before := View();
      if requests != [] {
        worker := SawRequest;
      } else if stopRequested {
        worker := Exited;
      } else {
        worker := AwaitsRequest;
      }
      StepKeepsInv(before, TestRequest);
    }

    method WaitForData()
      requires Inv(View()) && Enabled(View(), TestData)
      modifies this`worker
      ensures View() == Apply(old(View()), TestData) && Inv(View())
    {
      ghost var before := View();
      if notifications != [] {
        worker := SawBoth;
      } else if stopRequested {
        worker := Exited;
      } else {
        worker := AwaitsData;
      }
      StepKeepsInv(before, TestData);
    }

    method RetrieveNextRequest()
      requires Inv(View()) && Enabled(View(), Retrieve)
      modifies this`worker, this`requests, this`notifications
      ensures View() == Apply(old(View()), Retrieve) && Inv(View())
      ensures old(requests) == [] ==> notifications == old(notifications)
    {
      ghost var before := View();
      if requests == [] {
        worker := WantsRequest;
      } else {
        worker := Holding(requests[0], notifications[0]);
        requests := requests[1..];
        notifications := notifications[1..];
      }
      StepKeepsInv(before, Retrieve);
    }

    method CompleteRequest() returns (status: Status, output: seq<byte>)
      requires Inv(View()) && Enabled(View(), Complete)
      modifies this`worker, this`completed
      ensures View() == Apply(old(View()), Complete) && Inv(View())
      ensures completed == old(completed)
                + [Completion(old(worker).request, old(worker).notification, status, output)]
    {
      ghost var before := View();
      var Holding(request, notification) := worker;
      output := [];
      if request.outputSize < fixedSize {
        status := BufferTooSmall;
      } else {
        var outputSize := if request.outputSize < |notification| then request.outputSize else |notification|;
        output := notification[..outputSize];
        status := if outputSize < |notification| then BufferOverflow else Success;
      }
      assert notification[..|notification|] == notification;
      assert Completion(request, notification, status, output) == Completed(fixedSize, request, notification);
      completed := completed + [Completion(request, notification, status, output)];
      worker := WantsRequest;
      assert View() == Apply(before, Complete);
      StepKeepsInv(before, Complete);
    }
  }
}
