/** The registry's loops and maps as they are changed in place. */
module CallbackRegistryObject {
  import opened CallbackRegistry
  import DeviceCallbacks
  import opened FiraDevice

  /** Erases while iterating: an erase leaves the position on the next token. `outcomes` is
      what each visit finds, in the order of the visits. */
  method InvokeCallbacks(tokens: seq<Token>, outcomes: seq<Outcome>) returns (left: seq<Token>, called: seq<Token>)
    requires |tokens| == |outcomes|
    ensures left == Kept(tokens, outcomes)
    ensures called == Called(tokens, outcomes)
  {
    left, called := tokens, [];
    var it, visit := 0, 0;
    while it < |left|
      invariant visit <= |tokens| && it == |Kept(tokens[..visit], outcomes[..visit])|
      invariant left == Kept(tokens[..visit], outcomes[..visit]) + tokens[visit..]
      invariant called == Called(tokens[..visit], outcomes[..visit])
      decreases |left| - it
    {
      VisitOne(tokens, outcomes, visit);
      hide Kept, Called;
      Position(left[..it], left, tokens[visit..]);
      assert tokens[visit..][1..] == tokens[visit + 1..];
      var token, outcome := left[it], outcomes[visit];
      if IsCalled(outcome) {
        called := called + [token];
      }
      if outcome == Stays {
        it := it + 1;
      } else {
        left := left[..it] + left[it + 1..];
      }
      visit := visit + 1;
    }
    assert tokens[..visit] == tokens && outcomes[..visit] == outcomes;
  }

  lemma {:induction false} Position(done: seq<Token>, left: seq<Token>, rest: seq<Token>)
    requires |done| < |left| && left == done + rest
    ensures left[|done|] == rest[0]
    ensures left == done + [rest[0]] + rest[1..]
    ensures left[..|done|] + left[|done| + 1..] == done + rest[1..]
    ensures left[..|done|] == done
  {
  }

  lemma {:induction false} VisitOne(tokens: seq<Token>, outcomes: seq<Outcome>, k: nat)
    requires |tokens| == |outcomes| && k <= |tokens|
    ensures k < |tokens| ==>
              && Kept(tokens[..k + 1], outcomes[..k + 1])
                 == Kept(tokens[..k], outcomes[..k]) + (if outcomes[k] == Stays then [tokens[k]] else [])
              && Called(tokens[..k + 1], outcomes[..k + 1])
                 == Called(tokens[..k], outcomes[..k]) + (if IsCalled(outcomes[k]) then [tokens[k]] else [])
  {
    if k < |tokens| {
      assert tokens[..k + 1][..k] == tokens[..k] && outcomes[..k + 1][..k] == outcomes[..k];
    }
  }

  /** One of the connector's four maps. */
  class SessionTokens {
    var lists: Registry

    constructor ()
      ensures lists == map[] && NoEmptyList(lists)
    {
      lists := map[];
    }

    method InvokeSession(id: Id, outcomes: seq<Outcome>) returns (called: seq<Token>)
      requires |outcomes| == |ListOf(lists, id)|
      modifies this
      ensures lists == Dispatched(old(lists), id, outcomes)
      ensures called == Called(ListOf(old(lists), id), outcomes)
    {
      if id !in lists {
        called := [];
        return;
      }
      var tokens := lists[id];
      lists := lists - {id};
      tokens, called := InvokeCallbacks(tokens, outcomes);
      if |tokens| != 0 {
        lists := lists[id := tokens];
      }
    }

    /** The erase is from a copy of the vector: the node goes back as it was. */
    method Deregister(id: Id, token: Token)
      modifies this
      ensures lists == SessionDeregistered(old(lists), id, token)
    {
      if id !in lists {
        return;
      }
      var node := lists[id];
      lists := lists - {id};
      var tokens := node;
      var k := FindToken(tokens, token);
      if k == |tokens| {
        return;
      }
      tokens := tokens[..k] + tokens[k + 1..];
      lists := lists[id := node];
    }

    method InsertToken(id: Id, token: Token)
      modifies this
      ensures lists == Inserted(old(lists), id, token)
      ensures old(NoEmptyList(lists)) ==> NoEmptyList(lists)
    {
      if id in lists {
        var callbacks := lists[id];
        lists := lists - {id};
        callbacks := callbacks + [token];
        lists := lists[id := callbacks];
      } else {
        assert [] + [token] == [token];
        lists := lists[id := [token]];
      }
    }
  }

  /** The connector's handling of a session status: the ended callbacks follow the status
      callbacks when the session is Deinitialized, and are left alone otherwise. */
  class SessionStatusCallbacks {
    const onSessionStatus: SessionTokens
    const onSessionEnded: SessionTokens

    constructor ()
      ensures fresh(onSessionStatus) && fresh(onSessionEnded) && onSessionStatus != onSessionEnded
    {
      onSessionStatus := new SessionTokens();
      onSessionEnded := new SessionTokens();
    }

    method OnSessionStatusChanged(id: Id, state: SessionState, first: seq<Outcome>, second: seq<Outcome>)
      returns (called: seq<Token>)
      requires onSessionStatus != onSessionEnded
      requires |first| == |ListOf(onSessionStatus.lists, id)|
      requires |second| == if state == Deinitialized then |ListOf(onSessionEnded.lists, id)| else 0
      modifies onSessionStatus, onSessionEnded
      ensures onSessionStatus.lists == Dispatched(old(onSessionStatus.lists), id, first)
      ensures onSessionEnded.lists
           == if state == Deinitialized then Dispatched(old(onSessionEnded.lists), id, second) else old(onSessionEnded.lists)
      ensures called == Called(ListOf(old(onSessionStatus.lists), id), first)
                        + (if state == Deinitialized then Called(ListOf(old(onSessionEnded.lists), id), second) else [])
    {
      called := onSessionStatus.InvokeSession(id, first);
      if state == Deinitialized {
        var ended := onSessionEnded.InvokeSession(id, second);
        called := called + ended;
      }
    }
  }

  /** One of the connector's two vectors; each method takes the step of that name. */
  class DeviceTokens {
    var tokens: seq<Token>
    ghost var registered: seq<Token>
    ghost var dropped: set<Token>
    ghost var deregistered: set<Token>

    ghost function View(): DeviceCallbacks.State
      reads this
    {
      DeviceCallbacks.State(tokens, registered, dropped, deregistered)
    }

    constructor ()
      ensures View() == DeviceCallbacks.Init()
    {
      tokens, registered, dropped, deregistered := [], [], {}, {};
    }

    method Push(token: Token)
      requires DeviceCallbacks.Inv(View()) && token !in registered
      modifies this
      ensures View() == DeviceCallbacks.Apply(old(View()), DeviceCallbacks.Push(token))
      ensures DeviceCallbacks.Inv(View())
    {
      DeviceCallbacks.StepKeepsInv(View(), DeviceCallbacks.Push(token));
      tokens := tokens + [token];
      registered := registered + [token];
    }

    method Invoke(outcomes: seq<Outcome>) returns (called: seq<Token>)
      requires DeviceCallbacks.Inv(View()) && |outcomes| == |tokens|
      modifies this
      ensures View() == DeviceCallbacks.Apply(old(View()), DeviceCallbacks.Dispatch(outcomes))
      ensures called == Called(old(tokens), outcomes)
      ensures DeviceCallbacks.Inv(View())
    {
      DeviceCallbacks.StepKeepsInv(View(), DeviceCallbacks.Dispatch(outcomes));
      dropped := dropped + Droppable(tokens, outcomes);
      tokens, called := InvokeCallbacks(tokens, outcomes);
    }

    /** Finds the token and erases it there; does nothing when it is not found. */
    method Deregister(token: Token)
      requires DeviceCallbacks.Inv(View()) && token in registered
      modifies this
      ensures View() == DeviceCallbacks.Apply(old(View()), DeviceCallbacks.Deregister(token))
      ensures DeviceCallbacks.Inv(View())
    {
      DeviceCallbacks.StepKeepsInv(View(), DeviceCallbacks.Deregister(token));
      deregistered := deregistered + {token};
      var k := FindToken(tokens, token);
      ErasedAt(tokens, token, k);
      if k < |tokens| {
        tokens := tokens[..k] + tokens[k + 1..];
      }
    }
  }

  method FindToken(tokens: seq<Token>, token: Token) returns (k: nat)
    ensures k <= |tokens| && (k < |tokens| ==> tokens[k] == token)
    ensures forall j :: 0 <= j < k ==> tokens[j] != token
  {
    k := 0;
    while k < |tokens| && tokens[k] != token
      invariant k <= |tokens| && forall j :: 0 <= j < k ==> tokens[j] != token
    {
      k := k + 1;
    }
  }

  /** The first place of the token decides what erasing it leaves. */
  lemma {:induction false} ErasedAt(tokens: seq<Token>, token: Token, k: nat)
    requires k <= |tokens| && forall j :: 0 <= j < k ==> tokens[j] != token
    requires k < |tokens| ==> tokens[k] == token
    ensures Erased(tokens, token) == if k == |tokens| then tokens else tokens[..k] + tokens[k + 1..]
  {
    if k > 0 {
      ErasedAt(tokens[1..], token, k - 1);
      FirstInFront(tokens, k);
    }
  }

  lemma {:induction false} FirstInFront(tokens: seq<Token>, k: nat)
    requires 0 < k <= |tokens|
    ensures [tokens[0]] + tokens[1..] == tokens
    ensures k < |tokens| ==> [tokens[0]] + (tokens[1..][..k - 1] + tokens[1..][k..]) == tokens[..k] + tokens[k + 1..]
  {
  }
}
