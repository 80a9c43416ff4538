// What the requests are told: over whole runs of the protocol, the outcome each completion
// handler is called with, and when a refresh starts.
module AuthOutcomes {
  import opened Wrappers
  import opened AuthProtocol

  // The call has been decided on; it may still have to pass the dispatch queue.
  ghost predicate Decided<C, R>(s: State<C, R>, call: Call<C>) {
    Complete(call) in s.queue || call in s.due || call in s.called
  }

  // The handler is called with this outcome, if it has been, and with no other ever.
  ghost predicate Told<C, R>(s: State<C, R>, completion: nat, outcome: Outcome<C>) {
    && Decided(s, Call(completion, outcome))
    && (forall w :: w in s.queue && w.Complete? && w.call.completion == completion ==> w.call.outcome == outcome)
    && (forall call :: call in s.due && call.completion == completion ==> call.outcome == outcome)
    && (forall call :: call in s.called && call.completion == completion ==> call.outcome == outcome)
  }

  // ------------------------------------------------------------ decisions stand

  // How often a number occurs.
  lemma OccursTwice(ids: seq<nat>, i: nat, j: nat)
    requires i < j < |ids| && ids[i] == ids[j]
    ensures multiset(ids)[ids[i]] >= 2
  {
    assert ids == ids[..j] + [ids[j]] + ids[j + 1..];
    assert ids[i] in ids[..j];
  }

  lemma OneInQueue<C, R>(queue: seq<Work<C, R>>, a: Work<C, R>, b: Work<C, R>)
    requires a in queue && b in queue && WorkId(a) == WorkId(b) && multiset(WorkIds(queue))[WorkId(a)] <= 1
    ensures a == b
  {
    var i :| 0 <= i < |queue| && queue[i] == a;
    var j :| 0 <= j < |queue| && queue[j] == b;
    assert WorkIds(queue)[i] == WorkIds(queue)[j] == WorkId(a);
    if i < j {
      OccursTwice(WorkIds(queue), i, j);
    } else if j < i {
      OccursTwice(WorkIds(queue), j, i);
    }
  }

  lemma OneInCalls<C>(calls: seq<Call<C>>, a: Call<C>, b: Call<C>)
    requires a in calls && b in calls && a.completion == b.completion && multiset(CallIds(calls))[a.completion] <= 1
    ensures a == b
  {
    var i :| 0 <= i < |calls| && calls[i] == a;
    var j :| 0 <= j < |calls| && calls[j] == b;
    assert CallIds(calls)[i] == CallIds(calls)[j] == a.completion;
    if i < j {
      OccursTwice(CallIds(calls), i, j);
    } else if j < i {
      OccursTwice(CallIds(calls), j, i);
    }
  }

  lemma InQueue<C, R>(queue: seq<Work<C, R>>, call: Call<C>)
    requires Complete(call) in queue
    ensures multiset(WorkIds(queue))[call.completion] >= 1
  {
    var i :| 0 <= i < |queue| && queue[i] == Complete(call);
    assert WorkIds(queue)[i] == call.completion;
  }

  lemma InCalls<C>(calls: seq<Call<C>>, call: Call<C>)
    requires call in calls
    ensures multiset(CallIds(calls))[call.completion] >= 1
  {
    var i :| 0 <= i < |calls| && calls[i] == call;
    assert CallIds(calls)[i] == call.completion;
  }

  // For one handler there is never more than one decision.
  lemma OneDecision<C, R>(s: State<C, R>, a: Call<C>, b: Call<C>)
    requires Inv(s) && a.completion == b.completion && Decided(s, a) && Decided(s, b)
    ensures a == b
  {
    var id := a.completion;
    assert Whereabouts(s)[id]
      >= multiset(WorkIds(s.queue))[id] + multiset(CallIds(s.due))[id] + multiset(CallIds(s.called))[id];
    assert Whereabouts(s)[id] <= 1;
    if Complete(a) in s.queue { InQueue(s.queue, a); }
    if Complete(b) in s.queue { InQueue(s.queue, b); }
    if a in s.due { InCalls(s.due, a); }
    if b in s.due { InCalls(s.due, b); }
    if a in s.called { InCalls(s.called, a); }
    if b in s.called { InCalls(s.called, b); }
    if Complete(a) in s.queue && Complete(b) in s.queue {
      OneInQueue(s.queue, Complete(a), Complete(b));
    } else if a in s.due && b in s.due {
      OneInCalls(s.due, a, b);
    } else {
      OneInCalls(s.called, a, b);
    }
  }

  lemma StepKeepsDecision<C, R>(s: State<C, R>, a: Action<C, R>, call: Call<C>)
    requires Enabled(s, a) && Decided(s, call)
    ensures Decided(Step(s, a), call)
  {
    match a
    case RunQueue(requiresRefresh, checked, started) =>
      if Complete(call) in s.queue {
        assert s.queue == [s.queue[0]] + s.queue[1..];
      }
    case MakeCall(k) =>
      assert s.due == s.due[..k] + ([s.due[k]] + s.due[k + 1..]);
    case _ =>
  }

  lemma {:induction false} RunKeepsDecision<C, R>(from: State<C, R>, actions: seq<Action<C, R>>, to: State<C, R>,
                                                  call: Call<C>)
    requires Reaches(from, actions, to) && Decided(from, call)
    ensures Decided(to, call)
    decreases |actions|
  {
    if actions != [] {
      StepKeepsDecision(from, actions[0], call);
      RunKeepsDecision(Step(from, actions[0]), actions[1..], to, call);
    }
  }

  // A decision that a step takes holds for the rest of the run.
  lemma DecisionStands<C, R>(s: State<C, R>, a: Action<C, R>, after: seq<Action<C, R>>, to: State<C, R>, call: Call<C>)
    requires Inv(s) && Enabled(s, a) && Decided(Step(s, a), call) && Reaches(Step(s, a), after, to)
    ensures Told(to, call.completion, call.outcome)
  {
    StepKeeps(s, a);
    RunKeepsDecision(Step(s, a), after, to, call);
    RunKeeps(Step(s, a), after, to);
    forall w | w in to.queue && w.Complete? && w.call.completion == call.completion
      ensures w.call.outcome == call.outcome
    {
      OneDecision(to, call, w.call);
    }
    forall other | other in to.due + to.called && other.completion == call.completion
      ensures other.outcome == call.outcome
    {
      OneDecision(to, call, other);
    }
  }

  // ------------------------------------------------------- the end of a refresh

  lemma Appended<T>(a: seq<T>, b: seq<T>, c: seq<T>, k: nat)
    requires k < |b| + |c|
    ensures |a + (b + c)| == |a| + |b| + |c| && (a + (b + c))[..|a|] == a
    ensures (a + (b + c))[|a| + k] == if k < |b| then b[k] else c[k - |b|]
  {
  }

  // After a success every waiting request is adapted again or retried: behind what was
  // queued before, in the order of waiting, and adapts before retries.
  lemma WaitingServed<C, R>(s: State<C, R>, credential: C, k: nat)
    requires Enabled(s, AnswerSuccess(credential)) && k < |s.adaptOperations| + |s.requestsToRetry|
    ensures
      var queue, n := Step(s, AnswerSuccess(credential)).queue, |s.adaptOperations|;
      && |queue| == |s.queue| + n + |s.requestsToRetry| && queue[..|s.queue|] == s.queue
      && (k < n ==> queue[|s.queue| + k] == AdaptAgain(s.adaptOperations[k]))
      && (k >= n ==> queue[|s.queue| + k] == Complete(Call(s.requestsToRetry[k - n], Retry)))
  {
    Appended(s.queue, AdaptAll(s.adaptOperations), CompleteAll(s.requestsToRetry, Retry), k);
  }

  // After a failure each is told the error, in the same order.
  lemma WaitingRefused<C, R>(s: State<C, R>, error: AuthError, k: nat)
    requires k < |s.adaptOperations| + |s.requestsToRetry|
    ensures
      var queue, n := RefreshFailed(s, error).queue, |s.adaptOperations|;
      && |queue| == |s.queue| + n + |s.requestsToRetry| && queue[..|s.queue|] == s.queue
      && (k < n ==> queue[|s.queue| + k] == Complete(Call(s.adaptOperations[k].completion, AdaptFailed(error))))
      && (k >= n ==> queue[|s.queue| + k] == Complete(Call(s.requestsToRetry[k - n], DoNotRetryWithError(error))))
  {
    Appended(s.queue, FailAll(s.adaptOperations, error), CompleteAll(s.requestsToRetry, DoNotRetryWithError(error)), k);
  }

  lemma RefusedDecided<C, R>(s: State<C, R>, error: AuthError, k: nat)
    requires k < |s.adaptOperations| + |s.requestsToRetry|
    ensures
      var n := |s.adaptOperations|;
      && (k < n ==> Decided(RefreshFailed(s, error), Call(s.adaptOperations[k].completion, AdaptFailed(error))))
      && (k >= n ==> Decided(RefreshFailed(s, error), Call(s.requestsToRetry[k - n], DoNotRetryWithError(error))))
  {
    WaitingRefused(s, error, k);
    var queue := RefreshFailed(s, error).queue;
    assert queue[|s.queue| + k] in queue;
  }

  // A request that waits to be retried is retried once the refresh has succeeded, and
  // is told the error once it has failed: in every run, however it goes on.
  lemma RetryAnswered<C, R>(from: State<C, R>, before: seq<Action<C, R>>, s: State<C, R>, a: Action<C, R>,
                            after: seq<Action<C, R>>, to: State<C, R>, completion: nat)
    requires Initial(from) && Reaches(from, before, s) && completion in s.requestsToRetry
    requires Enabled(s, a) && Reaches(Step(s, a), after, to)
    ensures a.AnswerSuccess? ==> Told(to, completion, Retry)
    ensures a.AnswerFailure? ==> Told(to, completion, DoNotRetryWithError(RefreshError))
  {
    RunKeeps(from, before, s);
    var i :| 0 <= i < |s.requestsToRetry| && s.requestsToRetry[i] == completion;
    var k := |s.adaptOperations| + i;
    if a.AnswerSuccess? {
      WaitingServed(s, a.credential, k);
      var queue := Step(s, a).queue;
      assert queue[|s.queue| + k] in queue;
      DecisionStands(s, a, after, to, Call(completion, Retry));
    } else if a.AnswerFailure? {
      RefusedDecided(s.(outstanding := s.outstanding - 1), RefreshError, k);
      DecisionStands(s, a, after, to, Call(completion, DoNotRetryWithError(RefreshError)));
    }
  }

  // A request that waits to be adapted is adapted again, with the new credential in
  // place, or fails with the error.
  lemma AdaptAnswered<C, R>(from: State<C, R>, before: seq<Action<C, R>>, s: State<C, R>, a: Action<C, R>,
                            after: seq<Action<C, R>>, to: State<C, R>, op: Operation<R>)
    requires Initial(from) && Reaches(from, before, s) && op in s.adaptOperations
    requires Enabled(s, a) && Reaches(Step(s, a), after, to)
    ensures a.AnswerSuccess? ==> AdaptAgain(op) in Step(s, a).queue && Step(s, a).credential == Some(a.credential)
    ensures a.AnswerFailure? ==> Told(to, op.completion, AdaptFailed(RefreshError))
  {
    RunKeeps(from, before, s);
    var k :| 0 <= k < |s.adaptOperations| && s.adaptOperations[k] == op;
    if a.AnswerSuccess? {
      WaitingServed(s, a.credential, k);
      var queue := Step(s, a).queue;
      assert queue[|s.queue| + k] in queue;
    } else if a.AnswerFailure? {
      RefusedDecided(s.(outstanding := s.outstanding - 1), RefreshError, k);
      DecisionStands(s, a, after, to, Call(op.completion, AdaptFailed(RefreshError)));
    }
  }

  // Until the refresh ends, whoever waits goes on waiting.
  lemma WaitingGoesOn<C, R>(s: State<C, R>, a: Action<C, R>)
    requires Enabled(s, a) && s.isRefreshing && !a.AnswerSuccess? && !a.AnswerFailure?
    ensures Step(s, a).isRefreshing
    ensures s.adaptOperations <= Step(s, a).adaptOperations && s.requestsToRetry <= Step(s, a).requestsToRetry
  {
  }

  // ----------------------------------------------------- the start of a refresh

  // The refreshes started at or after the given time.
  ghost function Recent(timestamps: seq<real>, from: real): set<nat> {
    set k | 0 <= k < |timestamps| && from <= timestamps[k]
  }

  lemma {:induction false} RecentCounted(timestamps: seq<real>, from: real)
    ensures CountSince(timestamps, from) == |Recent(timestamps, from)|
  {
    if timestamps == [] {
      assert Recent(timestamps, from) == {};
    } else {
      var k := |timestamps| - 1;
      RecentCounted(timestamps[..k], from);
      assert Recent(timestamps, from) == Recent(timestamps[..k], from) + if from <= timestamps[k] then {k} else {};
    }
  }

  // Without a window, or with fewer refreshes in it than it allows, a refresh starts.
  ghost predicate MayStart<C, R>(s: State<C, R>, checked: real) {
    s.refreshWindow.Some? ==>
      |Recent(s.refreshTimestamps, checked - s.refreshWindow.value.interval)| < s.refreshWindow.value.maximumAttempts
  }

  // It does start then, and only then; else everyone waiting is told so.
  lemma RefreshStarts<C, R>(s: State<C, R>, checked: real, started: real)
    ensures
      var s' := Refresh(s, checked, started);
      if MayStart(s, checked) then
        && s'.isRefreshing && s'.outstanding == s.outstanding + 1
        && s'.refreshTimestamps == s.refreshTimestamps + [started]
        && s'.adaptOperations == s.adaptOperations && s'.requestsToRetry == s.requestsToRetry && s'.queue == s.queue
      else
        && !s'.isRefreshing && s'.outstanding == s.outstanding && s'.refreshTimestamps == s.refreshTimestamps
        && s' == RefreshFailed(s, ExcessiveRefresh)
  {
    if s.refreshWindow.Some? {
      RecentCounted(s.refreshTimestamps, checked - s.refreshWindow.value.interval);
    }
  }

  // ------------------------------------------------------- when a request comes

  // What the locked part of adapt decides at once; else the request waits.
  ghost function AdaptDecision<C, R>(s: State<C, R>, requiresRefresh: bool, checked: real): Option<Outcome<C>> {
    if s.isRefreshing then None
    else if s.credential.None? then Some(AdaptFailed(MissingCredential))
    else if !requiresRefresh then Some(Adapted(s.credential.value))
    else if MayStart(s, checked) then None
    else Some(AdaptFailed(ExcessiveRefresh))
  }

  lemma AdaptDecides<C, R>(s: State<C, R>, op: Operation<R>, requiresRefresh: bool, checked: real, started: real)
    requires NoneStranded(s)
    ensures
      var s', decision := Adapt(s, op, requiresRefresh, checked, started), AdaptDecision(s, requiresRefresh, checked);
      if decision.Some? then Decided(s', Call(op.completion, decision.value))
      else s'.isRefreshing && s'.adaptOperations == s.adaptOperations + [op]
  {
    var queued := s.(adaptOperations := s.adaptOperations + [op]);
    if !s.isRefreshing && s.credential.Some? && requiresRefresh {
      RefreshStarts(queued, checked, started);
      if !MayStart(s, checked) {
        RefusedDecided(queued, ExcessiveRefresh, |s.adaptOperations|);
      }
    }
  }

  // A new request to adapt, or one taken from the dispatch queue again, is told what the
  // state of the interceptor calls for, and never anything else.
  lemma AdaptTold<C, R>(s: State<C, R>, a: Action<C, R>, after: seq<Action<C, R>>, to: State<C, R>, op: Operation<R>)
    requires Inv(s) && Enabled(s, a) && Reaches(Step(s, a), after, to)
    requires if a.AdaptRequest? then a.operation == op else a.RunQueue? && s.queue[0] == AdaptAgain(op)
    ensures
      var decision := AdaptDecision(s, a.requiresRefresh, a.checked);
      if decision.Some? then Told(to, op.completion, decision.value)
      else Step(s, a).isRefreshing && op in Step(s, a).adaptOperations
  {
    var s0 := if a.AdaptRequest? then s.(issued := s.issued + {op.completion}) else s.(queue := s.queue[1..]);
    var decision := AdaptDecision(s, a.requiresRefresh, a.checked);
    assert decision == AdaptDecision(s0, a.requiresRefresh, a.checked);
    AdaptDecides(s0, op, a.requiresRefresh, a.checked, a.started);
    if decision.Some? {
      DecisionStands(s, a, after, to, Call(op.completion, decision.value));
    }
  }

  // A request to retry waits for the refresh, or is told that there were too many.
  lemma RetryTold<C, R>(s: State<C, R>, a: Action<C, R>, after: seq<Action<C, R>>, to: State<C, R>)
    requires Inv(s) && Enabled(s, a) && a.RetryRequest? && Reaches(Step(s, a), after, to)
    ensures
      if s.isRefreshing || MayStart(s, a.checked)
      then Step(s, a).isRefreshing && a.completion in Step(s, a).requestsToRetry
      else Told(to, a.completion, DoNotRetryWithError(ExcessiveRefresh))
  {
    if !s.isRefreshing {
      var queued := s.(issued := s.issued + {a.completion}, requestsToRetry := s.requestsToRetry + [a.completion]);
      RefreshStarts(queued, a.checked, a.started);
      if !MayStart(s, a.checked) {
        RefusedDecided(queued, ExcessiveRefresh, |s.adaptOperations| + |s.requestsToRetry|);
        DecisionStands(s, a, after, to, Call(a.completion, DoNotRetryWithError(ExcessiveRefresh)));
      }
    }
  }

  // The credential changes only by the setter and by a successful refresh.
  lemma CredentialAfter<C, R>(s: State<C, R>, a: Action<C, R>)
    requires Enabled(s, a)
    ensures Step(s, a).credential ==
      match a
      case AnswerSuccess(credential) => Some(credential)
      case SetCredential(newValue) => newValue
      case _ => s.credential
  {
  }

  // The dispatch queue is worked off from the front and filled at the back.
  lemma QueueInOrder<C, R>(s: State<C, R>, a: Action<C, R>)
    requires Enabled(s, a)
    ensures (if a.RunQueue? then s.queue[1..] else s.queue) <= Step(s, a).queue
  {
  }
}
