// Alamofire's AuthenticationInterceptor as a state machine: every step is what one
// thread does while it holds the lock, or one callback.
module AuthProtocol {
  import opened Wrappers

  // A completion handler is known by a number.
  datatype Operation<R> = Operation(request: R, completion: nat)

  datatype AuthError = MissingCredential | ExcessiveRefresh | RefreshError

  datatype Outcome<C> =
    | Adapted(credential: C)
    | AdaptFailed(error: AuthError)
    | Retry
    | DoNotRetry
    | DoNotRetryWithError(error: AuthError)

  // A completion handler about to be called, or called.
  datatype Call<C> = Call(completion: nat, outcome: Outcome<C>)

  // What the dispatch queue still has to do, in order.
  datatype Work<C, R> =
    | AdaptAgain(operation: Operation<R>)
    | Complete(call: Call<C>)

  datatype RefreshWindow = RefreshWindow(interval: real, maximumAttempts: int)

  datatype State<C, R> = State(
    // MutableState
    credential: Option<C>,
    isRefreshing: bool,
    refreshTimestamps: seq<real>,
    refreshWindow: Option<RefreshWindow>,
    adaptOperations: seq<Operation<R>>,
    requestsToRetry: seq<nat>,
    // The surroundings: refreshes the authenticator has not answered, the dispatch
    // queue, the calls that threads have decided on and those they have made, and
    // all completion handlers received.
    outstanding: nat,
    queue: seq<Work<C, R>>,
    due: seq<Call<C>>,
    called: seq<Call<C>>,
    issued: set<nat>)

  // ------------------------------------------------------------ inside the lock

  // The number of timestamps at or after the given time.
  function CountSince(timestamps: seq<real>, from: real): nat {
    if timestamps == [] then 0
    else CountSince(timestamps[..|timestamps| - 1], from) + (if from <= timestamps[|timestamps| - 1] then 1 else 0)
  }

  // isRefreshExcessive
  predicate IsRefreshExcessive(timestamps: seq<real>, window: Option<RefreshWindow>, now: real) {
    window.Some? && CountSince(timestamps, now - window.value.interval) >= window.value.maximumAttempts
  }

  function AdaptAll<C, R>(operations: seq<Operation<R>>): seq<Work<C, R>> {
    seq(|operations|, i requires 0 <= i < |operations| => AdaptAgain(operations[i]))
  }

  function FailAll<C, R>(operations: seq<Operation<R>>, error: AuthError): seq<Work<C, R>> {
    seq(|operations|, i requires 0 <= i < |operations| => Complete(Call(operations[i].completion, AdaptFailed(error))))
  }

  function CompleteAll<C, R>(completions: seq<nat>, outcome: Outcome<C>): seq<Work<C, R>> {
    seq(|completions|, i requires 0 <= i < |completions| => Complete(Call(completions[i], outcome)))
  }

  // handleRefreshSuccess
  function RefreshSucceeded<C, R>(s: State<C, R>, credential: C): State<C, R> {
    s.(credential := Some(credential), adaptOperations := [], requestsToRetry := [], isRefreshing := false,
       queue := s.queue + (AdaptAll(s.adaptOperations) + CompleteAll(s.requestsToRetry, Retry)))
  }

  // handleRefreshFailure
  function RefreshFailed<C, R>(s: State<C, R>, error: AuthError): State<C, R> {
    s.(adaptOperations := [], requestsToRetry := [], isRefreshing := false,
       queue := s.queue
         + (FailAll(s.adaptOperations, error) + CompleteAll(s.requestsToRetry, DoNotRetryWithError(error))))
  }

  // refresh: the clock is read once for the check and again for the timestamp.
  function Refresh<C, R>(s: State<C, R>, checked: real, started: real): State<C, R> {
    if IsRefreshExcessive(s.refreshTimestamps, s.refreshWindow, checked) then
      RefreshFailed(s, ExcessiveRefresh)
    else
      s.(refreshTimestamps := s.refreshTimestamps + [started], isRefreshing := true, outstanding := s.outstanding + 1)
  }

  // adapt
  function Adapt<C, R>(s: State<C, R>, op: Operation<R>, requiresRefresh: bool, checked: real, started: real)
    : State<C, R>
  {
    var queued := s.(adaptOperations := s.adaptOperations + [op]);
    if s.isRefreshing then queued
    else if s.credential.None? then s.(due := s.due + [Call(op.completion, AdaptFailed(MissingCredential))])
    else if requiresRefresh then Refresh(queued, checked, started)
    else s.(due := s.due + [Call(op.completion, Adapted(s.credential.value))])
  }

  // The locked part of retry.
  function QueueRetry<C, R>(s: State<C, R>, completion: nat, checked: real, started: real): State<C, R> {
    var queued := s.(requestsToRetry := s.requestsToRetry + [completion]);
    if s.isRefreshing then queued else Refresh(queued, checked, started)
  }

  // ------------------------------------------------------------------- steps

  datatype Action<C, R> =
    | AdaptRequest(operation: Operation<R>, requiresRefresh: bool, checked: real, started: real)
    | DecideRetry(completion: nat, outcome: Outcome<C>)       // retry's early exits
    | RetryRequest(completion: nat, checked: real, started: real)
    | AnswerSuccess(credential: C)                            // by the authenticator
    | AnswerFailure
    | RunQueue(requiresRefresh: bool, checked: real, started: real)
    | MakeCall(k: nat)
    | SetCredential(newValue: Option<C>)

  // Completion handlers are new, the clock does not go back between the two times
  // refresh reads it, and the authenticator
  // answers refreshes it was asked for, each once.
  predicate Enabled<C, R>(s: State<C, R>, a: Action<C, R>) {
    match a
    case AdaptRequest(op, _, checked, started) => op.completion !in s.issued && checked <= started
    case DecideRetry(completion, _) => completion !in s.issued
    case RetryRequest(completion, checked, started) => completion !in s.issued && checked <= started
    case AnswerSuccess(_) => s.outstanding > 0
    case AnswerFailure => s.outstanding > 0
    case RunQueue(_, checked, started) => s.queue != [] && checked <= started
    case MakeCall(k) => k < |s.due|
    case SetCredential(_) => true
  }

  function Step<C, R>(s: State<C, R>, a: Action<C, R>): State<C, R>
    requires Enabled(s, a)
  {
    match a
    case AdaptRequest(op, requiresRefresh, checked, started) =>
      Adapt(s.(issued := s.issued + {op.completion}), op, requiresRefresh, checked, started)
    case DecideRetry(completion, outcome) =>
      s.(issued := s.issued + {completion}, due := s.due + [Call(completion, outcome)])
    case RetryRequest(completion, checked, started) =>
      QueueRetry(s.(issued := s.issued + {completion}), completion, checked, started)
    case AnswerSuccess(credential) =>
      RefreshSucceeded(s.(outstanding := s.outstanding - 1), credential)
    case AnswerFailure =>
      RefreshFailed(s.(outstanding := s.outstanding - 1), RefreshError)
    case RunQueue(requiresRefresh, checked, started) =>
      var s' := s.(queue := s.queue[1..]);
      (match s.queue[0]
       case AdaptAgain(op) => Adapt(s', op, requiresRefresh, checked, started)
       case Complete(call) => s'.(due := s'.due + [call]))
    case MakeCall(k) =>
      s.(due := s.due[..k] + s.due[k + 1..], called := s.called + [s.due[k]])
    case SetCredential(newValue) =>
      s.(credential := newValue)
  }

  // ---------------------------------------------------------------- the invariant

  function OperationIds<R>(operations: seq<Operation<R>>): seq<nat> {
    seq(|operations|, i requires 0 <= i < |operations| => operations[i].completion)
  }

  function CallIds<C>(calls: seq<Call<C>>): seq<nat> {
    seq(|calls|, i requires 0 <= i < |calls| => calls[i].completion)
  }

  function WorkId<C, R>(w: Work<C, R>): nat {
    match w
    case AdaptAgain(op) => op.completion
    case Complete(call) => call.completion
  }

  function WorkIds<C, R>(queue: seq<Work<C, R>>): seq<nat> {
    seq(|queue|, i requires 0 <= i < |queue| => WorkId(queue[i]))
  }

  // Every place a completion handler can be in, with how often it is there.
  ghost function Whereabouts<C, R>(s: State<C, R>): multiset<nat> {
    multiset(OperationIds(s.adaptOperations)) + multiset(s.requestsToRetry) + multiset(WorkIds(s.queue))
    + multiset(CallIds(s.due)) + multiset(CallIds(s.called))
  }

  // Before the k-th refresh fewer than the maximum had started within the interval.
  ghost predicate RateKeptAt(timestamps: seq<real>, window: RefreshWindow, k: nat)
    requires k < |timestamps|
  {
    CountSince(timestamps[..k], timestamps[k] - window.interval) < window.maximumAttempts
  }

  ghost predicate RateKept(timestamps: seq<real>, window: Option<RefreshWindow>) {
    window.Some? ==> (forall k: nat :: k < |timestamps| ==> RateKeptAt(timestamps, window.value, k))
  }

  // At most one refresh is outstanding, and only while isRefreshing is set.
  ghost predicate OneRefresh<C, R>(s: State<C, R>) {
    && s.outstanding == (if s.isRefreshing then 1 else 0)
    && RateKept(s.refreshTimestamps, s.refreshWindow)
  }

  // Nothing is left in the pending queues when no refresh will empty them.
  ghost predicate NoneStranded<C, R>(s: State<C, R>) {
    !s.isRefreshing ==> s.adaptOperations == [] && s.requestsToRetry == []
  }

  // Every completion handler received is in exactly one place, exactly once.
  ghost predicate Inv<C, R>(s: State<C, R>) {
    OneRefresh(s) && NoneStranded(s) && Whereabouts(s) == multiset(s.issued)
  }

  ghost predicate Initial<C, R>(s: State<C, R>) {
    && !s.isRefreshing && s.refreshTimestamps == [] && s.adaptOperations == [] && s.requestsToRetry == []
    && s.outstanding == 0 && s.queue == [] && s.due == [] && s.called == [] && s.issued == {}
  }

  // ---------------------------------------------------------------- conservation

  lemma WorkAdded<C, R>(queue: seq<Work<C, R>>, more: seq<Work<C, R>>)
    ensures multiset(WorkIds(queue + more)) == multiset(WorkIds(queue)) + multiset(WorkIds(more))
  {
    assert WorkIds(queue + more) == WorkIds(queue) + WorkIds(more);
  }

  lemma OperationAdded<R>(operations: seq<Operation<R>>, op: Operation<R>)
    ensures multiset(OperationIds(operations + [op])) == multiset(OperationIds(operations)) + multiset{op.completion}
  {
    assert OperationIds(operations + [op]) == OperationIds(operations) + [op.completion];
  }

  lemma CallAdded<C>(calls: seq<Call<C>>, call: Call<C>)
    ensures multiset(CallIds(calls + [call])) == multiset(CallIds(calls)) + multiset{call.completion}
  {
    assert CallIds(calls + [call]) == CallIds(calls) + [call.completion];
  }

  lemma CallRemoved<C>(calls: seq<Call<C>>, k: nat)
    requires k < |calls|
    ensures multiset(CallIds(calls)) == multiset(CallIds(calls[..k] + calls[k + 1..])) + multiset{calls[k].completion}
  {
    var ids := CallIds(calls);
    assert CallIds(calls[..k] + calls[k + 1..]) == ids[..k] + ids[k + 1..];
    assert ids == ids[..k] + ([ids[k]] + ids[k + 1..]);
  }

  // However a refresh ends, the handlers in the pending queues all move to the
  // dispatch queue.
  lemma SuccessDispatches<C, R>(s: State<C, R>, credential: C)
    ensures Whereabouts(RefreshSucceeded(s, credential)) == Whereabouts(s)
  {
    var adapts: seq<Work<C, R>>, retries: seq<Work<C, R>> :=
      AdaptAll(s.adaptOperations), CompleteAll(s.requestsToRetry, Retry);
    WorkAdded(s.queue, adapts + retries);
    assert WorkIds(adapts + retries) == OperationIds(s.adaptOperations) + s.requestsToRetry;
  }

  lemma FailureDispatches<C, R>(s: State<C, R>, error: AuthError)
    ensures Whereabouts(RefreshFailed(s, error)) == Whereabouts(s)
  {
    var adapts: seq<Work<C, R>>, retries: seq<Work<C, R>> :=
      FailAll(s.adaptOperations, error), CompleteAll(s.requestsToRetry, DoNotRetryWithError(error));
    WorkAdded(s.queue, adapts + retries);
    assert WorkIds(adapts + retries) == OperationIds(s.adaptOperations) + s.requestsToRetry;
  }

  // ---------------------------------------------------------------- the refresh rate

  lemma {:induction false} CountLater(timestamps: seq<real>, from: real, later: real)
    requires from <= later
    ensures CountSince(timestamps, later) <= CountSince(timestamps, from)
  {
    if timestamps != [] { CountLater(timestamps[..|timestamps| - 1], from, later); }
  }

  // A refresh that was not excessive when checked keeps the rate when it starts.
  lemma RateStaysKept(timestamps: seq<real>, window: Option<RefreshWindow>, checked: real, started: real)
    requires RateKept(timestamps, window) && checked <= started && !IsRefreshExcessive(timestamps, window, checked)
    ensures RateKept(timestamps + [started], window)
  {
    if window.Some? {
      var after := timestamps + [started];
      forall k: nat | k < |after| ensures RateKeptAt(after, window.value, k) {
        if k < |timestamps| {
          assert RateKeptAt(timestamps, window.value, k);
          assert after[..k] == timestamps[..k];
        } else {
          CountLater(timestamps, checked - window.value.interval, started - window.value.interval);
          assert after[..k] == timestamps;
        }
      }
    }
  }

  // The number of refreshes started in a closed interval of time.
  function CountWithin(timestamps: seq<real>, from: real, to: real): nat {
    if timestamps == [] then 0
    else
      CountWithin(timestamps[..|timestamps| - 1], from, to)
      + (if from <= timestamps[|timestamps| - 1] <= to then 1 else 0)
  }

  lemma {:induction false} CountWithinSince(timestamps: seq<real>, from: real, to: real)
    ensures CountWithin(timestamps, from, to) <= CountSince(timestamps, from)
  {
    if timestamps != [] { CountWithinSince(timestamps[..|timestamps| - 1], from, to); }
  }

  lemma RateWasKept(timestamps: seq<real>, window: RefreshWindow, k: nat)
    requires k <= |timestamps| && RateKept(timestamps, Some(window))
    ensures RateKept(timestamps[..k], Some(window))
  {
    forall i: nat | i < k ensures RateKeptAt(timestamps[..k], window, i) {
      assert RateKeptAt(timestamps, window, i);
      assert timestamps[..k][..i] == timestamps[..i];
    }
  }

  // Wherever a closed interval as long as the window is laid, no more refreshes
  // start in it than the window allows.
  lemma {:induction false} RateBounded(timestamps: seq<real>, window: RefreshWindow, from: real)
    requires RateKept(timestamps, Some(window))
    ensures CountWithin(timestamps, from, from + window.interval)
         <= if window.maximumAttempts < 0 then 0 else window.maximumAttempts
  {
    if timestamps != [] {
      var k := |timestamps| - 1;
      var to := from + window.interval;
      if from <= timestamps[k] <= to {
        assert RateKeptAt(timestamps, window, k);
        CountWithinSince(timestamps[..k], from, to);
        CountLater(timestamps[..k], timestamps[k] - window.interval, from);
      } else {
        RateWasKept(timestamps, window, k);
        RateBounded(timestamps[..k], window, from);
      }
    }
  }

  // ---------------------------------------------------------------- every step

  lemma RefreshKeeps<C, R>(s: State<C, R>, checked: real, started: real)
    requires OneRefresh(s) && !s.isRefreshing && Whereabouts(s) == multiset(s.issued) && checked <= started
    ensures Inv(Refresh(s, checked, started))
  {
    if IsRefreshExcessive(s.refreshTimestamps, s.refreshWindow, checked) {
      FailureDispatches(s, ExcessiveRefresh);
    } else {
      RateStaysKept(s.refreshTimestamps, s.refreshWindow, checked, started);
    }
  }

  // adapt puts the one handler it holds into exactly one place.
  lemma AdaptKeeps<C, R>(s: State<C, R>, op: Operation<R>, requiresRefresh: bool, checked: real, started: real)
    requires OneRefresh(s) && NoneStranded(s) && checked <= started
    requires Whereabouts(s) + multiset{op.completion} == multiset(s.issued)
    ensures Inv(Adapt(s, op, requiresRefresh, checked, started))
  {
    OperationAdded(s.adaptOperations, op);
    if s.isRefreshing {
    } else if s.credential.None? {
      CallAdded(s.due, Call(op.completion, AdaptFailed(MissingCredential)));
    } else if requiresRefresh {
      RefreshKeeps(s.(adaptOperations := s.adaptOperations + [op]), checked, started);
    } else {
      CallAdded(s.due, Call(op.completion, Adapted(s.credential.value)));
    }
  }

  lemma RetryKeeps<C, R>(s: State<C, R>, completion: nat, checked: real, started: real)
    requires OneRefresh(s) && NoneStranded(s) && checked <= started
    requires Whereabouts(s) + multiset{completion} == multiset(s.issued)
    ensures Inv(QueueRetry(s, completion, checked, started))
  {
    if !s.isRefreshing { RefreshKeeps(s.(requestsToRetry := s.requestsToRetry + [completion]), checked, started); }
  }

  lemma WorkTaken<C, R>(queue: seq<Work<C, R>>)
    requires queue != []
    ensures multiset(WorkIds(queue)) == multiset{WorkId(queue[0])} + multiset(WorkIds(queue[1..]))
  {
    assert WorkIds(queue) == [WorkId(queue[0])] + WorkIds(queue[1..]);
  }

  lemma DecisionKeeps<C, R>(s: State<C, R>, call: Call<C>)
    requires OneRefresh(s) && NoneStranded(s)
    requires Whereabouts(s) + multiset{call.completion} == multiset(s.issued)
    ensures Inv(s.(due := s.due + [call]))
  {
    CallAdded(s.due, call);
  }

  lemma TakenOut<C, R>(s: State<C, R>)
    requires Inv(s) && s.queue != []
    ensures Whereabouts(s.(queue := s.queue[1..])) + multiset{WorkId(s.queue[0])} == multiset(s.issued)
  {
    WorkTaken(s.queue);
  }

  lemma QueueRunKeeps<C, R>(s: State<C, R>, requiresRefresh: bool, checked: real, started: real)
    requires Inv(s) && s.queue != [] && checked <= started
    ensures Inv(Step(s, RunQueue(requiresRefresh, checked, started)))
  {
    TakenOut(s);
    var s' := s.(queue := s.queue[1..]);
    if s.queue[0].AdaptAgain? {
      AdaptKeeps(s', s.queue[0].operation, requiresRefresh, checked, started);
    } else {
      DecisionKeeps(s', s.queue[0].call);
    }
  }

  lemma MakeCallKeeps<C, R>(s: State<C, R>, k: nat)
    requires Inv(s) && k < |s.due|
    ensures Inv(Step(s, MakeCall(k)))
  {
    CallRemoved(s.due, k);
    CallAdded(s.called, s.due[k]);
  }

  lemma HandedOver<C, R>(s: State<C, R>, completion: nat)
    requires Inv(s) && completion !in s.issued
    ensures Whereabouts(s.(issued := s.issued + {completion})) + multiset{completion}
         == multiset(s.issued + {completion})
  {
  }

  lemma ArrivalKeeps<C, R>(s: State<C, R>, a: Action<C, R>)
    requires Inv(s) && Enabled(s, a) && (a.AdaptRequest? || a.DecideRetry? || a.RetryRequest?)
    ensures Inv(Step(s, a))
  {
    var completion := if a.AdaptRequest? then a.operation.completion else a.completion;
    HandedOver(s, completion);
    var s' := s.(issued := s.issued + {completion});
    if a.AdaptRequest? {
      AdaptKeeps(s', a.operation, a.requiresRefresh, a.checked, a.started);
    } else if a.DecideRetry? {
      DecisionKeeps(s', Call(completion, a.outcome));
    } else {
      RetryKeeps(s', completion, a.checked, a.started);
    }
  }

  lemma AnswerKeeps<C, R>(s: State<C, R>, a: Action<C, R>)
    requires Inv(s) && Enabled(s, a) && (a.AnswerSuccess? || a.AnswerFailure?)
    ensures Inv(Step(s, a))
  {
    var s' := s.(outstanding := s.outstanding - 1);
    match a
    case AnswerSuccess(credential) => SuccessDispatches(s', credential);
    case AnswerFailure => FailureDispatches(s', RefreshError);
  }

  lemma StepKeeps<C, R>(s: State<C, R>, a: Action<C, R>)
    requires Inv(s) && Enabled(s, a)
    ensures Inv(Step(s, a))
  {
    match a
    case RunQueue(requiresRefresh, checked, started) => QueueRunKeeps(s, requiresRefresh, checked, started);
    case MakeCall(k) => MakeCallKeeps(s, k);
    case SetCredential(_) =>
    case AnswerSuccess(_) => AnswerKeeps(s, a);
    case AnswerFailure => AnswerKeeps(s, a);
    case _ => ArrivalKeeps(s, a);
  }

  lemma WindowFixed<C, R>(s: State<C, R>, a: Action<C, R>)
    requires Enabled(s, a)
    ensures Step(s, a).refreshWindow == s.refreshWindow
  {
  }

  // ------------------------------------------------------------------ whole runs

  ghost predicate Reaches<C, R>(from: State<C, R>, actions: seq<Action<C, R>>, to: State<C, R>)
    decreases |actions|
  {
    if actions == [] then from == to
    else Enabled(from, actions[0]) && Reaches(Step(from, actions[0]), actions[1..], to)
  }

  lemma {:induction false} RunKeeps<C, R>(from: State<C, R>, actions: seq<Action<C, R>>, to: State<C, R>)
    requires Inv(from) && Reaches(from, actions, to)
    ensures Inv(to) && to.refreshWindow == from.refreshWindow
    decreases |actions|
  {
    if actions != [] {
      StepKeeps(from, actions[0]);
      WindowFixed(from, actions[0]);
      RunKeeps(Step(from, actions[0]), actions[1..], to);
    }
  }

  // Whenever the lock is free in any run: at most one refresh is outstanding; with
  // none, no handler waits for one; a handler is in one place at most once, so none
  // is called twice; and when nothing is left to do, exactly the handlers received
  // have been called.
  lemma EveryRunSafe<C, R>(from: State<C, R>, actions: seq<Action<C, R>>, to: State<C, R>)
    requires Initial(from) && Reaches(from, actions, to)
    ensures to.outstanding <= 1 && (to.isRefreshing <==> to.outstanding == 1)
    ensures !to.isRefreshing ==> to.adaptOperations == [] && to.requestsToRetry == []
    ensures forall id: nat :: Whereabouts(to)[id] == if id in to.issued then 1 else 0
    ensures forall id: nat :: multiset(CallIds(to.called))[id] <= 1
    ensures to.outstanding == 0 && to.queue == [] && to.due == [] ==>
        multiset(CallIds(to.called)) == multiset(to.issued)
  {
    RunKeeps(from, actions, to);
    forall id: nat
      ensures multiset(CallIds(to.called))[id] <= 1
    {
      assert multiset(to.issued)[id] <= 1;
    }
  }

  // In any run, any closed interval as long as the refresh window holds at most the
  // allowed number of refresh starts, though the check and the timestamp read the
  // clock separately.
  lemma EveryRunRateBounded<C, R>(s: State<C, R>, actions: seq<Action<C, R>>, to: State<C, R>, from: real)
    requires Initial(s) && Reaches(s, actions, to) && s.refreshWindow.Some?
    ensures var window := s.refreshWindow.value;
      CountWithin(to.refreshTimestamps, from, from + window.interval)
      <= if window.maximumAttempts < 0 then 0 else window.maximumAttempts
  {
    RunKeeps(s, actions, to);
    RateBounded(to.refreshTimestamps, s.refreshWindow.value, from);
  }
}
