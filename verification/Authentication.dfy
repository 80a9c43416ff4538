// Alamofire's AuthenticationInterceptor: what its methods do while they hold the lock
// of the mutable state, each method one step of AuthProtocol.
module Authentication {
  import opened Wrappers
  import opened AuthProtocol

  datatype AdaptResult<C> =
    | Adapt(credential: C)
    | DoNotAdapt(error: AuthError)
    | AdaptDeferred

  class AuthenticationInterceptor<C, R> {
    var credential: Option<C>
    var isRefreshing: bool
    var refreshTimestamps: seq<real>
    var refreshWindow: Option<RefreshWindow>
    var adaptOperations: seq<Operation<R>>
    var requestsToRetry: seq<nat>
    // Blocks dispatched to the serial queue, one item for each handler.
    var queue: seq<Work<C, R>>
    // Calls decided on inside the lock, to be made outside it, and those made.
    var due: seq<Call<C>>
    var called: seq<Call<C>>
    ghost var issued: set<nat>
    ghost var outstanding: nat

    ghost function Snapshot(): State<C, R>
      reads this
    {
      State(credential, isRefreshing, refreshTimestamps, refreshWindow, adaptOperations, requestsToRetry,
            outstanding, queue, due, called, issued)
    }

    constructor (credential: Option<C>, refreshWindow: Option<RefreshWindow>)
      ensures Initial(Snapshot())
      ensures this.credential == credential && this.refreshWindow == refreshWindow
    {
      this.credential, this.refreshWindow := credential, refreshWindow;
      isRefreshing, refreshTimestamps, adaptOperations, requestsToRetry := false, [], [], [];
      queue, due, called, issued, outstanding := [], [], [], {}, 0;
    }

    method IsRefreshExcessive(now: real) returns (excessive: bool)
      ensures excessive == AuthProtocol.IsRefreshExcessive(refreshTimestamps, refreshWindow, now)
    {
      if refreshWindow.None? { return false; }
      var refreshWindowMin := now - refreshWindow.value.interval;
      var attempts := 0;
      for i := 0 to |refreshTimestamps|
        invariant attempts == CountSince(refreshTimestamps[..i], refreshWindowMin)
      {
        assert refreshTimestamps[..i + 1][..i] == refreshTimestamps[..i];
        if refreshWindowMin <= refreshTimestamps[i] { attempts := attempts + 1; }
      }
      assert refreshTimestamps[..|refreshTimestamps|] == refreshTimestamps;
      excessive := attempts >= refreshWindow.value.maximumAttempts;
    }

    method HandleRefreshSuccess(newCredential: C)
      modifies this
      ensures Snapshot() == RefreshSucceeded(old(Snapshot()), newCredential)
    {
      credential := Some(newCredential);
      var operations, requests := adaptOperations, requestsToRetry;
      adaptOperations, requestsToRetry := [], [];
      isRefreshing := false;
      queue := queue + (AdaptAll(operations) + CompleteAll(requests, Outcome.Retry));
    }

    method HandleRefreshFailure(error: AuthError)
      modifies this
      ensures Snapshot() == RefreshFailed(old(Snapshot()), error)
    {
      var operations, requests := adaptOperations, requestsToRetry;
      adaptOperations, requestsToRetry := [], [];
      isRefreshing := false;
      queue := queue + (FailAll(operations, error) + CompleteAll(requests, DoNotRetryWithError(error)));
    }

    // The clock reads `checked` in isRefreshExcessive and `started` when the
    // timestamp is recorded.
    method Refresh(checked: real, started: real)
      modifies this
      ensures Snapshot() == AuthProtocol.Refresh(old(Snapshot()), checked, started)
    {
      var excessive := IsRefreshExcessive(checked);
      if excessive {
        HandleRefreshFailure(ExcessiveRefresh);
      } else {
        refreshTimestamps := refreshTimestamps + [started];
        isRefreshing := true;
        outstanding := outstanding + 1;
      }
    }

    // The locked part of adapt.
    method TryAdapt(op: Operation<R>, requiresRefresh: bool, checked: real, started: real)
      returns (result: AdaptResult<C>)
      modifies this
      ensures Snapshot().(due := Snapshot().due + Decided(op, result))
           == AuthProtocol.Adapt(old(Snapshot()), op, requiresRefresh, checked, started)
      ensures due == old(due) && issued == old(issued)
    {
      if isRefreshing {
        adaptOperations := adaptOperations + [op];
        return AdaptDeferred;
      }
      if credential.None? { return DoNotAdapt(MissingCredential); }
      if requiresRefresh {
        adaptOperations := adaptOperations + [op];
        Refresh(checked, started);
        return AdaptDeferred;
      }
      result := Adapt(credential.value);
    }

    function Decided(op: Operation<R>, result: AdaptResult<C>): seq<Call<C>> {
      match result
      case Adapt(credential) => [Call(op.completion, Adapted(credential))]
      case DoNotAdapt(error) => [Call(op.completion, AdaptFailed(error))]
      case AdaptDeferred => []
    }

    method AdaptRequest(op: Operation<R>, requiresRefresh: bool, checked: real, started: real)
      requires Enabled(Snapshot(), Action.AdaptRequest(op, requiresRefresh, checked, started))
      modifies this
      ensures Snapshot() == Step(old(Snapshot()), Action.AdaptRequest(op, requiresRefresh, checked, started))
    {
      issued := issued + {op.completion};
      var result := TryAdapt(op, requiresRefresh, checked, started);
      due := due + Decided(op, result);
    }

    // retry before it takes the lock: whether it answers at once, and what. The
    // credential is read under a lock of its own.
    method DecideRetry(completion: nat, hasResponse: bool, failedAuthentication: bool, authenticated: bool)
      returns (decided: bool)
      requires completion !in issued
      modifies this
      ensures decided <==> !(hasResponse && failedAuthentication && credential.Some? && authenticated)
      ensures !decided ==> Snapshot() == old(Snapshot())
      ensures decided ==> exists outcome: Outcome<C> ::
          && Snapshot() == Step(old(Snapshot()), Action.DecideRetry(completion, outcome))
          && (outcome.Retry? <==> hasResponse && failedAuthentication && credential.Some?)
          && (outcome == DoNotRetryWithError(MissingCredential)
              <==> hasResponse && failedAuthentication && credential.None?)
          && (outcome.DoNotRetry? <==> !hasResponse || !failedAuthentication)
    {
      var outcome: Outcome<C>;
      if !hasResponse || !failedAuthentication {
        outcome := DoNotRetry;
      } else if credential.None? {
        outcome := DoNotRetryWithError(MissingCredential);
      } else if !authenticated {
        outcome := Outcome.Retry;
      } else {
        return false;
      }
      ghost var before := Snapshot();
      issued := issued + {completion};
      due := due + [Call(completion, outcome)];
      decided := true;
      assert Snapshot() == Step(before, Action.DecideRetry(completion, outcome));
    }

    // The locked part of retry.
    method RetryRequest(completion: nat, checked: real, started: real)
      requires Enabled(Snapshot(), Action.RetryRequest(completion, checked, started))
      modifies this
      ensures Snapshot() == Step(old(Snapshot()), Action.RetryRequest(completion, checked, started))
    {
      issued := issued + {completion};
      requestsToRetry := requestsToRetry + [completion];
      if !isRefreshing { Refresh(checked, started); }
    }

    // What refresh asks the authenticator to do with its answer.
    method Answer(result: Option<C>)
      requires outstanding > 0
      modifies this
      ensures Snapshot() == Step(old(Snapshot()), if result.Some? then AnswerSuccess(result.value) else AnswerFailure)
    {
      outstanding := outstanding - 1;
      match result
      case Some(newCredential) => HandleRefreshSuccess(newCredential);
      case None => HandleRefreshFailure(RefreshError);
    }

    // The next item of the serial queue.
    method RunQueue(requiresRefresh: bool, checked: real, started: real)
      requires Enabled(Snapshot(), Action.RunQueue(requiresRefresh, checked, started))
      modifies this
      ensures Snapshot() == Step(old(Snapshot()), Action.RunQueue(requiresRefresh, checked, started))
    {
      var work := queue[0];
      queue := queue[1..];
      match work
      case AdaptAgain(op) =>
        var result := TryAdapt(op, requiresRefresh, checked, started);
        due := due + Decided(op, result);
      case Complete(call) =>
        due := due + [call];
    }

    // One of the calls decided on, in whatever order the threads get to it.
    method MakeCall(k: nat) returns (call: Call<C>)
      requires k < |due|
      modifies this
      ensures call == old(due)[k]
      ensures Snapshot() == Step(old(Snapshot()), Action.MakeCall(k))
    {
      call := due[k];
      due := due[..k] + due[k + 1..];
      called := called + [call];
    }

    // The setter of credential.
    method SetCredential(newValue: Option<C>)
      modifies this
      ensures Snapshot() == Step(old(Snapshot()), Action.SetCredential(newValue))
    {
      credential := newValue;
    }
  }
}
