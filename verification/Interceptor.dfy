/** The authentication interceptor as a protocol: every locked section and every entry of
    a job on its serial queue is one atomic step, in any interleaving. */
module Interceptor {
  import opened Options

  type Credential = nat
  datatype Call = AdaptCall(id: nat) | RetryCall(id: nat)
  datatype Failure = MissingCredential | ExcessiveRefresh | RefreshFailed(code: nat)
  datatype Completion =
    | Adapted(using: Credential) | NotAdapted(error: Failure)
    | Retry | DoNotRetry | DoNotRetryWithError(error: Failure)

  datatype RefreshWindow = RefreshWindow(interval: real, maximumAttempts: int)

  /** Work on the serial queue: start a refresh, or resume or fail the calls drained by one. */
  datatype Job =
    | StartRefresh(credential: Credential)
    | Resume(adapts: seq<Call>, retries: seq<Call>)
    | Abort(adapts: seq<Call>, retries: seq<Call>, error: Failure)

  /** The locked state, and around it: the serial queue, the refreshes the authenticator
      has not completed yet, the retry calls between reading the credential and taking
      the lock, and the completions that have run. */
  datatype State = State(
    credential: Option<Credential>, isRefreshing: bool, refreshTimestamps: seq<real>, window: Option<RefreshWindow>,
    adaptOperations: seq<Call>, requestsToRetry: seq<Call>,
    queue: seq<Job>, running: nat, entering: seq<(Call, Credential)>, completed: seq<(Call, Completion)>, uptime: real)

  function Initial(credential: Option<Credential>, window: Option<RefreshWindow>, uptime: real): State {
    State(credential, false, [], window, [], [], [], 0, [], [], uptime)
  }

  // ----- the locked sections -----

  /** Number of timestamps in the closed interval [from, to]. */
  function CountIn(ts: seq<real>, from: real, to: real): nat {
    if ts == [] then 0
    else CountIn(ts[..|ts| - 1], from, to) + (if from <= ts[|ts| - 1] <= to then 1 else 0)
  }

  function CountSince(ts: seq<real>, from: real): nat {
    if ts == [] then 0
    else CountSince(ts[..|ts| - 1], from) + (if from <= ts[|ts| - 1] then 1 else 0)
  }

  predicate Excessive(s: State, now: real) {
    s.window.Some? && CountSince(s.refreshTimestamps, now - s.window.value.interval) >= s.window.value.maximumAttempts
  }

  function AfterSuccess(s: State, credential: Credential): State {
    s.(credential := Some(credential), adaptOperations := [], requestsToRetry := [], isRefreshing := false,
       queue := s.queue + [Resume(s.adaptOperations, s.requestsToRetry)])
  }

  function AfterFailure(s: State, error: Failure): State {
    s.(adaptOperations := [], requestsToRetry := [], isRefreshing := false,
       queue := s.queue + [Abort(s.adaptOperations, s.requestsToRetry, error)])
  }

  /** `checked` and `stamped` are the two readings of the clock. */
  function AfterRefresh(s: State, credential: Credential, checked: real, stamped: real): State {
    if Excessive(s, checked) then AfterFailure(s, ExcessiveRefresh)
    else s.(refreshTimestamps := s.refreshTimestamps + [stamped], isRefreshing := true,
            queue := s.queue + [StartRefresh(credential)])
  }

  function Complete(s: State, call: Call, c: Completion): State {
    s.(completed := s.completed + [(call, c)])
  }

  function AfterAdapt(s: State, call: Call, requiresRefresh: bool, checked: real, stamped: real): State {
    if s.isRefreshing then s.(adaptOperations := s.adaptOperations + [call])
    else if s.credential.None? then Complete(s, call, NotAdapted(MissingCredential))
    else if requiresRefresh then
      AfterRefresh(s.(adaptOperations := s.adaptOperations + [call]), s.credential.value, checked, stamped)
    else Complete(s, call, Adapted(s.credential.value))
  }

  /** The part of retry before the lock; the credential is read outside of it. */
  function AfterGuards(s: State, call: Call, hasResponse: bool, isAuthenticationError: bool, isCurrent: bool): State {
    if !hasResponse || !isAuthenticationError then Complete(s, call, DoNotRetry)
    else if s.credential.None? then Complete(s, call, DoNotRetryWithError(MissingCredential))
    else if !isCurrent then Complete(s, call, Retry)
    else s.(entering := s.entering + [(call, s.credential.value)])
  }

  function AfterRetry(s: State, k: nat, checked: real, stamped: real): State
    requires k < |s.entering|
  {
    var (call, credential) := s.entering[k];
    var s1 := s.(entering := s.entering[..k] + s.entering[k + 1..], requestsToRetry := s.requestsToRetry + [call]);
    if s1.isRefreshing then s1 else AfterRefresh(s1, credential, checked, stamped)
  }

  /** One entry of the job at the head of the serial queue. */
  function AfterEntry(s: State, requiresRefresh: bool, checked: real, stamped: real): State
    requires s.queue != []
  {
    match s.queue[0]
    case StartRefresh(_) => s.(queue := s.queue[1..], running := s.running + 1)
    case Resume(adapts, retries) =>
      if adapts != [] then
        AfterAdapt(s.(queue := [Resume(adapts[1..], retries)] + s.queue[1..]), adapts[0], requiresRefresh, checked, stamped)
      else if retries != [] then
        Complete(s.(queue := [Resume([], retries[1..])] + s.queue[1..]), retries[0], Retry)
      else s.(queue := s.queue[1..])
    case Abort(adapts, retries, error) =>
      if adapts != [] then
        Complete(s.(queue := [Abort(adapts[1..], retries, error)] + s.queue[1..]), adapts[0], NotAdapted(error))
      else if retries != [] then
        Complete(s.(queue := [Abort([], retries[1..], error)] + s.queue[1..]), retries[0], DoNotRetryWithError(error))
      else s.(queue := s.queue[1..])
  }

  /** The authenticator completes a refresh, with a new credential or an error code. */
  function AfterAuthenticator(s: State, credential: Option<Credential>, code: nat): State
    requires s.running > 0
  {
    var s1 := s.(running := s.running - 1);
    if credential.Some? then AfterSuccess(s1, credential.value)
    else AfterFailure(s1, RefreshFailed(code))
  }

  // ----- runs -----

  datatype Action =
    | DoAdapt(call: Call, requiresRefresh: bool)
    | DoRetry(call: Call, hasResponse: bool, isAuthenticationError: bool, isCurrent: bool)
    | DoRetryLocked(k: nat)
    | DoRunQueue(requiresRefresh: bool)
    | DoRefreshDone(result: Option<Credential>, code: nat)
    | DoSetCredential(credential: Option<Credential>)

  /** An action with the two clock readings it may take. */
  datatype Event = Event(action: Action, checked: real, stamped: real)

  /** The action is possible, each refresh is completed once, and the clock does not go back. */
  predicate Enabled(s: State, e: Event) {
    && s.uptime <= e.checked <= e.stamped
    && match e.action
       case DoAdapt(call, _) => call.AdaptCall?
       case DoRetry(call, _, _, _) => call.RetryCall?
       case DoRetryLocked(k) => k < |s.entering|
       case DoRunQueue(_) => s.queue != []
       case DoRefreshDone(_, _) => s.running > 0
       case DoSetCredential(_) => true
  }

  function Step(s: State, e: Event): State
    requires Enabled(s, e)
  {
    var s' :=
      match e.action
      case DoAdapt(call, requiresRefresh) => AfterAdapt(s, call, requiresRefresh, e.checked, e.stamped)
      case DoRetry(call, hasResponse, authError, isCurrent) => AfterGuards(s, call, hasResponse, authError, isCurrent)
      case DoRetryLocked(k) => AfterRetry(s, k, e.checked, e.stamped)
      case DoRunQueue(requiresRefresh) => AfterEntry(s, requiresRefresh, e.checked, e.stamped)
      case DoRefreshDone(result, code) => AfterAuthenticator(s, result, code)
      case DoSetCredential(credential) => s.(credential := credential);
    s'.(uptime := e.stamped)
  }

  predicate Possible(s: State, events: seq<Event>)
    decreases |events|
  {
    events == [] || (Enabled(s, events[0]) && Possible(Step(s, events[0]), events[1..]))
  }

  function Run(s: State, events: seq<Event>): State
    requires Possible(s, events)
    decreases |events|
  {
    if events == [] then s else Run(Step(s, events[0]), events[1..])
  }

  /** Whether the action is a client handing in this call. */
  function Issues(a: Action, c: Call): nat {
    if (a.DoAdapt? || a.DoRetry?) && a.call == c then 1 else 0
  }

  /** How often a run hands in this call. */
  function Issued(events: seq<Event>, c: Call): nat {
    if events == [] then 0 else Issues(events[0].action, c) + Issued(events[1..], c)
  }

  // ----- conservation -----

  function Sum<T>(xs: seq<T>, weight: T -> nat): nat {
    if xs == [] then 0 else weight(xs[0]) + Sum(xs[1..], weight)
  }

  lemma {:induction false} SumConcat<T>(xs: seq<T>, ys: seq<T>, weight: T -> nat)
    ensures Sum(xs + ys, weight) == Sum(xs, weight) + Sum(ys, weight)
  {
    if xs == [] {
      assert xs + ys == ys;
    } else {
      assert (xs + ys)[1..] == xs[1..] + ys;
      SumConcat(xs[1..], ys, weight);
    }
  }

  lemma SumAppend<T>(xs: seq<T>, x: T, weight: T -> nat)
    ensures Sum(xs + [x], weight) == Sum(xs, weight) + weight(x)
  {
    SumConcat(xs, [x], weight);
    assert [x][1..] == [];
  }

  lemma SumHead<T>(x: T, xs: seq<T>, weight: T -> nat)
    ensures Sum([x] + xs, weight) == weight(x) + Sum(xs, weight)
  {
    assert ([x] + xs)[1..] == xs;
  }

  lemma SumRemove<T>(xs: seq<T>, k: nat, weight: T -> nat)
    requires k < |xs|
    ensures Sum(xs, weight) == Sum(xs[..k] + xs[k + 1..], weight) + weight(xs[k])
  {
    SumConcat(xs[..k], xs[k + 1..], weight);
    SumConcat(xs[..k], xs[k..], weight);
    assert xs == xs[..k] + xs[k..];
    assert xs[k..][1..] == xs[k + 1..];
  }

  lemma SumTwo<T>(xs: seq<T>, i: nat, j: nat, weight: T -> nat)
    requires i < j < |xs|
    ensures Sum(xs, weight) >= weight(xs[i]) + weight(xs[j])
  {
    SumRemove(xs, j, weight);
    SumRemove(xs[..j] + xs[j + 1..], i, weight);
  }

  function Is(c: Call): Call -> nat {
    (x: Call) => if x == c then 1 else 0
  }

  function InJob(c: Call): Job -> nat {
    (j: Job) => if j.StartRefresh? then 0 else Sum(j.adapts, Is(c)) + Sum(j.retries, Is(c))
  }

  function IsEntering(c: Call): ((Call, Credential)) -> nat {
    (x: (Call, Credential)) => if x.0 == c then 1 else 0
  }

  function IsCompleted(c: Call): ((Call, Completion)) -> nat {
    (x: (Call, Completion)) => if x.0 == c then 1 else 0
  }

  /** How often the completion of this call has run. */
  function Completions(s: State, c: Call): nat {
    Sum(s.completed, IsCompleted(c))
  }

  /** In how many places this call is. */
  function Places(s: State, c: Call): nat {
    Sum(s.adaptOperations, Is(c)) + Sum(s.requestsToRetry, Is(c)) + Sum(s.entering, IsEntering(c))
    + Sum(s.queue, InJob(c)) + Completions(s, c)
  }

  function IsStart(): Job -> nat {
    (j: Job) => if j.StartRefresh? then 1 else 0
  }

  /** Refreshes on the queue or with the authenticator. */
  function Outstanding(s: State): nat {
    Sum(s.queue, IsStart()) + s.running
  }

  predicate AllAdapts(calls: seq<Call>) {
    forall i | 0 <= i < |calls| :: calls[i].AdaptCall?
  }

  predicate AllRetries(calls: seq<Call>) {
    forall i | 0 <= i < |calls| :: calls[i].RetryCall?
  }

  predicate JobKinds(j: Job) {
    j.StartRefresh? || (AllAdapts(j.adapts) && AllRetries(j.retries))
  }

  /** Adapt calls complete with adapt results, retry calls with retry results. */
  predicate CompletionKind(c: (Call, Completion)) {
    c.0.AdaptCall? <==> c.1.Adapted? || c.1.NotAdapted?
  }

  predicate Kinds(s: State) {
    && AllAdapts(s.adaptOperations) && AllRetries(s.requestsToRetry)
    && (forall i | 0 <= i < |s.entering| :: s.entering[i].0.RetryCall?)
    && (forall i | 0 <= i < |s.queue| :: JobKinds(s.queue[i]))
    && (forall i | 0 <= i < |s.completed| :: CompletionKind(s.completed[i]))
  }

  /** Refreshing exactly while one refresh is outstanding, and calls are held back only then. */
  predicate Coordinated(s: State) {
    && Outstanding(s) == (if s.isRefreshing then 1 else 0)
    && (!s.isRefreshing ==> s.adaptOperations == [] && s.requestsToRetry == [])
    && Kinds(s)
  }

  lemma CompleteConserves(s: State, call: Call, x: Completion, c: Call)
    ensures Places(Complete(s, call, x), c) == Places(s, c) + Is(c)(call)
    ensures Coordinated(s) && CompletionKind((call, x)) ==> Coordinated(Complete(s, call, x))
  {
    SumAppend(s.completed, (call, x), IsCompleted(c));
  }

  lemma RefreshConserves(s: State, credential: Credential, checked: real, stamped: real, c: Call)
    requires Outstanding(s) == 0 && !s.isRefreshing && Kinds(s)
    ensures Places(AfterRefresh(s, credential, checked, stamped), c) == Places(s, c)
    ensures Coordinated(AfterRefresh(s, credential, checked, stamped))
  {
    hide Sum;
    DrainConserves(s, 0, ExcessiveRefresh, c);
    SumAppend(s.queue, StartRefresh(credential), InJob(c));
    SumAppend(s.queue, StartRefresh(credential), IsStart());
  }

  lemma DrainConserves(s: State, credential: Credential, error: Failure, c: Call)
    requires Outstanding(s) == 0 && Kinds(s)
    ensures Places(AfterSuccess(s, credential), c) == Places(s, c) && Coordinated(AfterSuccess(s, credential))
    ensures Places(AfterFailure(s, error), c) == Places(s, c) && Coordinated(AfterFailure(s, error))
  {
    var resume, abort := Resume(s.adaptOperations, s.requestsToRetry), Abort(s.adaptOperations, s.requestsToRetry, error);
    assert Sum([], Is(c)) == 0;
    SumAppend(s.queue, resume, InJob(c));
    SumAppend(s.queue, resume, IsStart());
    SumAppend(s.queue, abort, InJob(c));
    SumAppend(s.queue, abort, IsStart());
  }

  lemma AdaptConserves(s: State, call: Call, requiresRefresh: bool, checked: real, stamped: real, c: Call)
    requires Coordinated(s) && call.AdaptCall?
    ensures Places(AfterAdapt(s, call, requiresRefresh, checked, stamped), c) == Places(s, c) + Is(c)(call)
    ensures Coordinated(AfterAdapt(s, call, requiresRefresh, checked, stamped))
  {
    hide Sum, AfterRefresh;
    SumAppend(s.adaptOperations, call, Is(c));
    CompleteConserves(s, call, NotAdapted(MissingCredential), c);
    if !s.isRefreshing && s.credential.Some? {
      CompleteConserves(s, call, Adapted(s.credential.value), c);
      RefreshConserves(s.(adaptOperations := s.adaptOperations + [call]), s.credential.value, checked, stamped, c);
    }
  }

  lemma RetryConserves(s: State, k: nat, checked: real, stamped: real, c: Call)
    requires Coordinated(s) && k < |s.entering|
    ensures Places(AfterRetry(s, k, checked, stamped), c) == Places(s, c)
    ensures Coordinated(AfterRetry(s, k, checked, stamped))
  {
    hide Sum, AfterRefresh;
    var (call, credential) := s.entering[k];
    var s1 := s.(entering := s.entering[..k] + s.entering[k + 1..], requestsToRetry := s.requestsToRetry + [call]);
    SumRemove(s.entering, k, IsEntering(c));
    SumAppend(s.requestsToRetry, call, Is(c));
    if !s1.isRefreshing {
      RefreshConserves(s1, credential, checked, stamped, c);
    }
  }

  /** The head job of the queue replaced by what is left of it. */
  lemma HeadConserves(s: State, j: Job, c: Call)
    requires Coordinated(s) && s.queue != [] && !s.queue[0].StartRefresh? && !j.StartRefresh? && JobKinds(j)
    ensures Places(s.(queue := [j] + s.queue[1..]), c) + InJob(c)(s.queue[0]) == Places(s, c) + InJob(c)(j)
    ensures Coordinated(s.(queue := [j] + s.queue[1..]))
  {
    SumHead(j, s.queue[1..], InJob(c));
    SumHead(j, s.queue[1..], IsStart());
  }

  lemma StartConserves(s: State, c: Call)
    requires Coordinated(s) && s.queue != [] && s.queue[0].StartRefresh?
    ensures Places(s.(queue := s.queue[1..], running := s.running + 1), c) == Places(s, c)
    ensures Coordinated(s.(queue := s.queue[1..], running := s.running + 1))
  {
  }

  lemma EmptyConserves(s: State, c: Call)
    requires Coordinated(s) && s.queue != [] && !s.queue[0].StartRefresh?
    requires s.queue[0].adapts == [] && s.queue[0].retries == []
    ensures Places(s.(queue := s.queue[1..]), c) == Places(s, c)
    ensures Coordinated(s.(queue := s.queue[1..]))
  {
  }

  lemma ResumeConserves(s: State, requiresRefresh: bool, checked: real, stamped: real, c: Call)
    requires Coordinated(s) && s.queue != [] && s.queue[0].Resume?
    ensures Places(AfterEntry(s, requiresRefresh, checked, stamped), c) == Places(s, c)
    ensures Coordinated(AfterEntry(s, requiresRefresh, checked, stamped))
  {
    var adapts, retries := s.queue[0].adapts, s.queue[0].retries;
    assert JobKinds(s.queue[0]);
    if adapts != [] {
      var j := Resume(adapts[1..], retries);
      HeadConserves(s, j, c);
      hide AfterAdapt, Coordinated, Places, Complete;
      AdaptConserves(s.(queue := [j] + s.queue[1..]), adapts[0], requiresRefresh, checked, stamped, c);
    } else if retries != [] {
      var j := Resume([], retries[1..]);
      HeadConserves(s, j, c);
      hide AfterAdapt, Coordinated, Places, Complete;
      CompleteConserves(s.(queue := [j] + s.queue[1..]), retries[0], Retry, c);
    } else {
      EmptyConserves(s, c);
    }
  }

  lemma AbortConserves(s: State, requiresRefresh: bool, checked: real, stamped: real, c: Call)
    requires Coordinated(s) && s.queue != [] && s.queue[0].Abort?
    ensures Places(AfterEntry(s, requiresRefresh, checked, stamped), c) == Places(s, c)
    ensures Coordinated(AfterEntry(s, requiresRefresh, checked, stamped))
  {
    var adapts, retries, error := s.queue[0].adapts, s.queue[0].retries, s.queue[0].error;
    assert JobKinds(s.queue[0]);
    if adapts != [] {
      var j := Abort(adapts[1..], retries, error);
      HeadConserves(s, j, c);
      hide AfterAdapt, Coordinated, Places, Complete;
      CompleteConserves(s.(queue := [j] + s.queue[1..]), adapts[0], NotAdapted(error), c);
    } else if retries != [] {
      var j := Abort([], retries[1..], error);
      HeadConserves(s, j, c);
      hide AfterAdapt, Coordinated, Places, Complete;
      CompleteConserves(s.(queue := [j] + s.queue[1..]), retries[0], DoNotRetryWithError(error), c);
    } else {
      EmptyConserves(s, c);
    }
  }

  lemma EntryConserves(s: State, requiresRefresh: bool, checked: real, stamped: real, c: Call)
    requires Coordinated(s) && s.queue != []
    ensures Places(AfterEntry(s, requiresRefresh, checked, stamped), c) == Places(s, c)
    ensures Coordinated(AfterEntry(s, requiresRefresh, checked, stamped))
  {
    match s.queue[0] {
      case StartRefresh(_) => StartConserves(s, c);
      case Resume(_, _) => ResumeConserves(s, requiresRefresh, checked, stamped, c);
      case Abort(_, _, _) => AbortConserves(s, requiresRefresh, checked, stamped, c);
    }
  }

  lemma GuardsConserve(s: State, call: Call, hasResponse: bool, isAuthenticationError: bool, isCurrent: bool, c: Call)
    requires Coordinated(s) && call.RetryCall?
    ensures Places(AfterGuards(s, call, hasResponse, isAuthenticationError, isCurrent), c) == Places(s, c) + Is(c)(call)
    ensures Coordinated(AfterGuards(s, call, hasResponse, isAuthenticationError, isCurrent))
  {
    CompleteConserves(s, call, DoNotRetry, c);
    CompleteConserves(s, call, DoNotRetryWithError(MissingCredential), c);
    CompleteConserves(s, call, Retry, c);
    if s.credential.Some? {
      SumAppend(s.entering, (call, s.credential.value), IsEntering(c));
    }
  }

  lemma AuthenticatorConserves(s: State, result: Option<Credential>, code: nat, c: Call)
    requires Coordinated(s) && s.running > 0
    ensures Places(AfterAuthenticator(s, result, code), c) == Places(s, c)
    ensures Coordinated(AfterAuthenticator(s, result, code))
  {
    DrainConserves(s.(running := s.running - 1), if result.Some? then result.value else 0, RefreshFailed(code), c);
  }

  lemma ClockAndCredential(s: State, credential: Option<Credential>, uptime: real, c: Call)
    requires Coordinated(s)
    ensures Coordinated(s.(credential := credential, uptime := uptime)) && Coordinated(s.(uptime := uptime))
    ensures Places(s.(credential := credential, uptime := uptime), c) == Places(s, c)
    ensures Places(s.(uptime := uptime), c) == Places(s, c)
  {
  }

  lemma StepConserves(s: State, e: Event, c: Call)
    requires Coordinated(s) && Enabled(s, e)
    ensures Coordinated(Step(s, e))
    ensures Places(Step(s, e), c) == Places(s, c) + Issues(e.action, c)
  {
    hide AfterAdapt, AfterEntry, AfterRetry, AfterGuards, AfterAuthenticator, Coordinated, Places;
    var s' := s;
    match e.action {
      case DoAdapt(call, requiresRefresh) =>
        s' := AfterAdapt(s, call, requiresRefresh, e.checked, e.stamped);
        AdaptConserves(s, call, requiresRefresh, e.checked, e.stamped, c);
      case DoRetry(call, hasResponse, authError, isCurrent) =>
        s' := AfterGuards(s, call, hasResponse, authError, isCurrent);
        GuardsConserve(s, call, hasResponse, authError, isCurrent, c);
      case DoRetryLocked(k) =>
        s' := AfterRetry(s, k, e.checked, e.stamped);
        RetryConserves(s, k, e.checked, e.stamped, c);
      case DoRunQueue(requiresRefresh) =>
        s' := AfterEntry(s, requiresRefresh, e.checked, e.stamped);
        EntryConserves(s, requiresRefresh, e.checked, e.stamped, c);
      case DoRefreshDone(result, code) =>
        s' := AfterAuthenticator(s, result, code);
        AuthenticatorConserves(s, result, code, c);
      case DoSetCredential(credential) =>
        ClockAndCredential(s, credential, e.stamped, c);
    }
    ClockAndCredential(s', None, e.stamped, c);
  }

  /** In every reachable state every call is in as many places as it was handed in, and
      refreshing, outstanding refreshes and held-back calls agree. */
  lemma {:induction false} CallsConserved(s: State, events: seq<Event>, c: Call)
    requires Coordinated(s) && Possible(s, events)
    ensures Coordinated(Run(s, events))
    ensures Places(Run(s, events), c) == Places(s, c) + Issued(events, c)
    decreases |events|
  {
    hide Step, Coordinated, Places, Enabled;
    if events != [] {
      StepConserves(s, events[0], c);
      CallsConserved(Step(s, events[0]), events[1..], c);
    }
  }

  /** Nothing is left to happen unless a client acts. */
  predicate Quiet(s: State) {
    s.queue == [] && s.running == 0 && s.entering == []
  }

  lemma QuietHasCompleted(s: State, c: Call)
    requires Coordinated(s) && Quiet(s)
    ensures Completions(s, c) == Places(s, c)
  {
  }

  /** From the initial state, with distinct calls: no completion runs twice, and once
      nothing is outstanding exactly the calls handed in have completed. */
  lemma EveryCallCompletesOnce(credential: Option<Credential>, window: Option<RefreshWindow>, uptime: real, events: seq<Event>)
    requires Possible(Initial(credential, window, uptime), events)
    requires forall c :: Issued(events, c) <= 1
    ensures var s := Run(Initial(credential, window, uptime), events);
            && (forall i, j | 0 <= i < j < |s.completed| :: s.completed[i].0 != s.completed[j].0)
            && (Quiet(s) ==> forall c :: Completions(s, c) == Issued(events, c))
  {
    hide Run, Possible, Issued, Kinds;
    var s0 := Initial(credential, window, uptime);
    var s := Run(s0, events);
    InitialState(credential, window, uptime);
    forall c
      ensures Places(s, c) == Issued(events, c) && (Quiet(s) ==> Completions(s, c) == Issued(events, c))
    {
      CallsConserved(s0, events, c);
      if Quiet(s) {
        QuietHasCompleted(s, c);
      }
    }
    forall i, j | 0 <= i < j < |s.completed|
      ensures s.completed[i].0 != s.completed[j].0
    {
      var c := s.completed[i].0;
      SumTwo(s.completed, i, j, IsCompleted(c));
      assert Places(s, c) <= 1;
    }
  }

  // ----- the refresh window -----

  /** Negative maxima allow nothing. */
  function Allowed(w: RefreshWindow): nat {
    if w.maximumAttempts < 0 then 0 else w.maximumAttempts
  }

  /** Every closed time window of the given length holds at most `maximum` refreshes. */
  ghost predicate Limited(ts: seq<real>, interval: real, maximum: int) {
    forall from, to | to - from <= interval :: CountIn(ts, from, to) <= maximum
  }

  ghost predicate RateLimited(s: State) {
    && (forall i | 0 <= i < |s.refreshTimestamps| :: s.refreshTimestamps[i] <= s.uptime)
    && (s.window.Some? ==> Limited(s.refreshTimestamps, s.window.value.interval, Allowed(s.window.value)))
  }

  lemma {:induction false} CountInSince(ts: seq<real>, from: real, to: real, since: real)
    requires since <= from
    ensures CountIn(ts, from, to) <= CountSince(ts, since)
  {
    if ts != [] {
      CountInSince(ts[..|ts| - 1], from, to, since);
    }
  }

  lemma RefreshKeepsRate(s: State, credential: Credential, checked: real, stamped: real)
    requires RateLimited(s) && s.uptime <= checked <= stamped
    ensures RateLimited(AfterRefresh(s, credential, checked, stamped).(uptime := stamped))
  {
    var s' := AfterRefresh(s, credential, checked, stamped);
    if !Excessive(s, checked) && s.window.Some? {
      var w := s.window.value;
      assert s'.refreshTimestamps[..|s.refreshTimestamps|] == s.refreshTimestamps;
      forall from, to | to - from <= w.interval
        ensures CountIn(s'.refreshTimestamps, from, to) <= Allowed(w)
      {
        assert CountIn(s.refreshTimestamps, from, to) <= Allowed(w);
        if from <= stamped <= to {
          CountInSince(s.refreshTimestamps, from, to, checked - w.interval);
        }
      }
    }
  }

  lemma StepKeepsRate(s: State, e: Event)
    requires RateLimited(s) && Enabled(s, e)
    ensures RateLimited(Step(s, e)) && Step(s, e).window == s.window
  {
    hide Limited, Excessive;
    match e.action
    case DoAdapt(call, _) =>
      if !s.isRefreshing && s.credential.Some? {
        RefreshKeepsRate(s.(adaptOperations := s.adaptOperations + [call]), s.credential.value, e.checked, e.stamped);
      }
    case DoRetryLocked(k) =>
      var (call, credential) := s.entering[k];
      RefreshKeepsRate(s.(entering := s.entering[..k] + s.entering[k + 1..], requestsToRetry := s.requestsToRetry + [call]),
                       credential, e.checked, e.stamped);
    case DoRunQueue(_) =>
      if s.queue[0].Resume? && s.queue[0].adapts != [] && s.credential.Some? {
        var j := Resume(s.queue[0].adapts[1..], s.queue[0].retries);
        RefreshKeepsRate(s.(queue := [j] + s.queue[1..], adaptOperations := s.adaptOperations + [s.queue[0].adapts[0]]),
                         s.credential.value, e.checked, e.stamped);
      }
    case _ =>
  }

  /** In every run, every time window of the configured length, whenever it lies, holds at
      most the configured number of started refreshes. */
  lemma {:induction false} SlidingWindow(s: State, events: seq<Event>)
    requires RateLimited(s) && Possible(s, events)
    ensures RateLimited(Run(s, events)) && Run(s, events).window == s.window
    decreases |events|
  {
    hide Step, RateLimited, Enabled;
    if events != [] {
      StepKeepsRate(s, events[0]);
      SlidingWindow(Step(s, events[0]), events[1..]);
    }
  }

  lemma InitialState(credential: Option<Credential>, window: Option<RefreshWindow>, uptime: real)
    ensures Coordinated(Initial(credential, window, uptime)) && RateLimited(Initial(credential, window, uptime))
  {
  }

  // ----- the object -----

  /** The interceptor with its serial queue and authenticator; every method is one atomic step. */
  class AuthenticationInterceptor {
    var credential: Option<Credential>
    var isRefreshing: bool
    var refreshTimestamps: seq<real>
    const refreshWindow: Option<RefreshWindow>
    var adaptOperations: seq<Call>
    var requestsToRetry: seq<Call>
    var queue: seq<Job>
    var running: nat
    var entering: seq<(Call, Credential)>
    var completed: seq<(Call, Completion)>
    var uptime: real

    ghost function Now(): State
      reads this
    {
      State(credential, isRefreshing, refreshTimestamps, refreshWindow, adaptOperations, requestsToRetry,
            queue, running, entering, completed, uptime)
    }

    constructor (credential: Option<Credential>, refreshWindow: Option<RefreshWindow>, uptime: real)
      ensures Now() == Initial(credential, refreshWindow, uptime)
    {
      this.credential, this.refreshWindow, this.uptime := credential, refreshWindow, uptime;
      isRefreshing, refreshTimestamps := false, [];
      adaptOperations, requestsToRetry := [], [];
      queue, running, entering, completed := [], 0, [], [];
    }

    method IsRefreshExcessive(now: real) returns (excessive: bool)
      ensures excessive == Excessive(Now(), now)
    {
      if refreshWindow.None? {
        return false;
      }
      var refreshWindowMin := now - refreshWindow.value.interval;
      var attempts := 0;
      for i := 0 to |refreshTimestamps|
        invariant attempts == CountSince(refreshTimestamps[..i], refreshWindowMin)
      {
        assert refreshTimestamps[..i + 1][..i] == refreshTimestamps[..i];
        if refreshWindowMin <= refreshTimestamps[i] {
          attempts := attempts + 1;
        }
      }
      assert refreshTimestamps[..|refreshTimestamps|] == refreshTimestamps;
      return attempts >= refreshWindow.value.maximumAttempts;
    }

    method HandleRefreshSuccess(newCredential: Credential)
      modifies this
      ensures Now() == AfterSuccess(old(Now()), newCredential)
    {
      credential := Some(newCredential);
      var adapts, retries := adaptOperations, requestsToRetry;
      adaptOperations, requestsToRetry := [], [];
      isRefreshing := false;
      queue := queue + [Resume(adapts, retries)];
    }

    method HandleRefreshFailure(error: Failure)
      modifies this
      ensures Now() == AfterFailure(old(Now()), error)
    {
      var adapts, retries := adaptOperations, requestsToRetry;
      adaptOperations, requestsToRetry := [], [];
      isRefreshing := false;
      queue := queue + [Abort(adapts, retries, error)];
    }

    method Refresh(withCredential: Credential, checked: real, stamped: real)
      modifies this
      ensures Now() == AfterRefresh(old(Now()), withCredential, checked, stamped)
    {
      var excessive := IsRefreshExcessive(checked);
      if excessive {
        HandleRefreshFailure(ExcessiveRefresh);
        return;
      }
      refreshTimestamps := refreshTimestamps + [stamped];
      isRefreshing := true;
      queue := queue + [StartRefresh(withCredential)];
    }

    method Adapt(call: Call, requiresRefresh: bool, checked: real, stamped: real)
      requires Enabled(Now(), Event(DoAdapt(call, requiresRefresh), checked, stamped))
      modifies this
      ensures Now() == Step(old(Now()), Event(DoAdapt(call, requiresRefresh), checked, stamped))
    {
      if isRefreshing {
        adaptOperations := adaptOperations + [call];
      } else if credential.None? {
        completed := completed + [(call, NotAdapted(MissingCredential))];
      } else if requiresRefresh {
        adaptOperations := adaptOperations + [call];
        Refresh(credential.value, checked, stamped);
      } else {
        completed := completed + [(call, Adapted(credential.value))];
      }
      uptime := stamped;
    }

    /** Retry up to the lock. */
    method Retry(call: Call, hasResponse: bool, isAuthenticationError: bool, isCurrent: bool, now: real)
      requires Enabled(Now(), Event(DoRetry(call, hasResponse, isAuthenticationError, isCurrent), now, now))
      modifies this
      ensures Now() == Step(old(Now()), Event(DoRetry(call, hasResponse, isAuthenticationError, isCurrent), now, now))
    {
      uptime := now;
      if !hasResponse || !isAuthenticationError {
        completed := completed + [(call, DoNotRetry)];
        return;
      }
      if credential.None? {
        completed := completed + [(call, DoNotRetryWithError(MissingCredential))];
        return;
      }
      if !isCurrent {
        completed := completed + [(call, Completion.Retry)];
        return;
      }
      entering := entering + [(call, credential.value)];
    }

    /** The locked section of one of the retry calls that reached it. */
    method RetryLocked(k: nat, checked: real, stamped: real)
      requires Enabled(Now(), Event(DoRetryLocked(k), checked, stamped))
      modifies this
      ensures Now() == Step(old(Now()), Event(DoRetryLocked(k), checked, stamped))
    {
      var (call, held) := entering[k];
      entering := entering[..k] + entering[k + 1..];
      requestsToRetry := requestsToRetry + [call];
      if !isRefreshing {
        Refresh(held, checked, stamped);
      }
      uptime := stamped;
    }

    /** One entry of the serial queue's current job. */
    method RunQueue(requiresRefresh: bool, checked: real, stamped: real)
      requires Enabled(Now(), Event(DoRunQueue(requiresRefresh), checked, stamped))
      requires JobKinds(queue[0])
      modifies this
      ensures Now() == Step(old(Now()), Event(DoRunQueue(requiresRefresh), checked, stamped))
    {
      var job := queue[0];
      queue := queue[1..];
      match job {
        case StartRefresh(_) =>
          running := running + 1;
        case Resume(adapts, retries) =>
          if adapts != [] {
            queue := [Resume(adapts[1..], retries)] + queue;
            Adapt(adapts[0], requiresRefresh, checked, stamped);
          } else if retries != [] {
            queue := [Resume([], retries[1..])] + queue;
            completed := completed + [(retries[0], Completion.Retry)];
          }
        case Abort(adapts, retries, error) =>
          if adapts != [] {
            queue := [Abort(adapts[1..], retries, error)] + queue;
            completed := completed + [(adapts[0], NotAdapted(error))];
          } else if retries != [] {
            queue := [Abort([], retries[1..], error)] + queue;
            completed := completed + [(retries[0], DoNotRetryWithError(error))];
          }
      }
      uptime := stamped;
    }

    /** The authenticator's completion of one running refresh. */
    method RefreshDone(result: Option<Credential>, code: nat, now: real)
      requires Enabled(Now(), Event(DoRefreshDone(result, code), now, now))
      modifies this
      ensures Now() == Step(old(Now()), Event(DoRefreshDone(result, code), now, now))
    {
      running := running - 1;
      if result.Some? {
        HandleRefreshSuccess(result.value);
      } else {
        HandleRefreshFailure(RefreshFailed(code));
      }
      uptime := now;
    }

    method SetCredential(newCredential: Option<Credential>, now: real)
      requires Enabled(Now(), Event(DoSetCredential(newCredential), now, now))
      modifies this
      ensures Now() == Step(old(Now()), Event(DoSetCredential(newCredential), now, now))
    {
      credential, uptime := newCredential, now;
    }
  }
}
