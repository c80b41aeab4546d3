/** What the interceptor's callers are told: which event settles the result of a call, that
    every call gets the result settled for it, and when a refresh is let through. */
module Outcomes {
  import opened Options
  import opened Interceptor

  // ----- when a refresh is let through -----

  /** The refreshes of the window that ends now leave no room for another one. */
  predicate Full(s: State, now: real) {
    s.window.Some? && CountIn(s.refreshTimestamps, now - s.window.value.interval, now) >= s.window.value.maximumAttempts
  }

  predicate StampsBefore(s: State, now: real) {
    forall i | 0 <= i < |s.refreshTimestamps| :: s.refreshTimestamps[i] <= now
  }

  lemma {:induction false} CountsSame(ts: seq<real>, from: real, now: real)
    requires forall i | 0 <= i < |ts| :: ts[i] <= now
    ensures CountSince(ts, from) == CountIn(ts, from, now)
  {
    if ts != [] {
      CountsSame(ts[..|ts| - 1], from, now);
    }
  }

  /** The call that asks for a refresh in this event, and for which credential, if one does. */
  function Wants(s: State, e: Event): Option<(Call, Credential)>
    requires Enabled(s, e)
  {
    if s.isRefreshing then None
    else match e.action
      case DoAdapt(call, requiresRefresh) =>
        if requiresRefresh && s.credential.Some? then Some((call, s.credential.value)) else None
      case DoRunQueue(requiresRefresh) =>
        if requiresRefresh && s.credential.Some? && s.queue[0].Resume? && s.queue[0].adapts != []
        then Some((s.queue[0].adapts[0], s.credential.value)) else None
      case DoRetryLocked(k) => Some(s.entering[k])
      case _ => None
  }

  function One(call: Call, adapt: bool): seq<Call> {
    if call.AdaptCall? == adapt then [call] else []
  }

  /** The last job on the queue. */
  function Last(s: State): Option<Job> {
    if s.queue == [] then None else Some(s.queue[|s.queue| - 1])
  }

  lemma RefreshDecided(s: State, call: Call, credential: Credential, checked: real, stamped: real)
    requires s.adaptOperations == One(call, true) && s.requestsToRetry == One(call, false) && StampsBefore(s, checked)
    ensures var s' := AfterRefresh(s, credential, checked, stamped);
            if !Full(s, checked) then
              && s'.refreshTimestamps == s.refreshTimestamps + [stamped] && s'.isRefreshing
              && Last(s') == Some(StartRefresh(credential))
              && s'.adaptOperations == One(call, true) && s'.requestsToRetry == One(call, false)
            else
              && s'.refreshTimestamps == s.refreshTimestamps && !s'.isRefreshing
              && Last(s') == Some(Abort(One(call, true), One(call, false), ExcessiveRefresh))
              && s'.adaptOperations == [] && s'.requestsToRetry == []
  {
    hide CountIn, CountSince;
    if s.window.Some? {
      CountsSame(s.refreshTimestamps, checked - s.window.value.interval, checked);
    }
  }

  /** A refresh is started exactly if one is wanted and the window that ends now has room for
      it; then it is dispatched for that credential, and the call that wants it is held back.
      If there is no room that call fails. Refreshing ends exactly when the authenticator is
      done. */
  lemma RefreshExactly(s: State, e: Event)
    requires Coordinated(s) && Enabled(s, e) && StampsBefore(s, e.checked)
    ensures var s', w := Step(s, e), Wants(s, e);
            if w.Some? && !Full(s, e.checked) then
              var (call, credential) := w.value;
              && s'.refreshTimestamps == s.refreshTimestamps + [e.stamped] && s'.isRefreshing
              && Last(s') == Some(StartRefresh(credential))
              && s'.adaptOperations == One(call, true) && s'.requestsToRetry == One(call, false)
            else
              && s'.refreshTimestamps == s.refreshTimestamps
              && s'.isRefreshing == (s.isRefreshing && !e.action.DoRefreshDone?)
              && (w.Some? ==>
                    && Last(s') == Some(Abort(One(w.value.0, true), One(w.value.0, false), ExcessiveRefresh))
                    && s'.adaptOperations == [] && s'.requestsToRetry == [])
  {
    hide AfterRefresh, CountIn, Outstanding;
    var w := Wants(s, e);
    if w.Some? {
      var (call, credential) := w.value;
      match e.action
      case DoAdapt(_, _) =>
        RefreshDecided(s.(adaptOperations := s.adaptOperations + [call]), call, credential, e.checked, e.stamped);
      case DoRunQueue(_) =>
        QueueKinds(s);
        var j := Resume(s.queue[0].adapts[1..], s.queue[0].retries);
        RefreshDecided(s.(queue := [j] + s.queue[1..], adaptOperations := s.adaptOperations + [call]),
                       call, credential, e.checked, e.stamped);
      case DoRetryLocked(k) =>
        RefreshDecided(s.(entering := s.entering[..k] + s.entering[k + 1..], requestsToRetry := s.requestsToRetry + [call]),
                       call, credential, e.checked, e.stamped);
    }
  }

  /** The times of the refreshes that a run is to start. */
  function Started(s: State, events: seq<Event>): seq<real>
    requires Possible(s, events)
    decreases |events|
  {
    if events == [] then []
    else
      var e := events[0];
      (if Wants(s, e).Some? && !Full(s, e.checked) then [e.stamped] else []) + Started(Step(s, e), events[1..])
  }

  /** Over every run exactly those refreshes are started. */
  lemma {:induction false} StartedExactly(s: State, events: seq<Event>)
    requires Coordinated(s) && RateLimited(s) && Possible(s, events)
    ensures Run(s, events).refreshTimestamps == s.refreshTimestamps + Started(s, events)
    decreases |events|
  {
    hide Coordinated, Step, Wants, Full, Last;
    if events != [] {
      StepConserves(s, events[0], AdaptCall(0));
      StepKeepsRate(s, events[0]);
      RefreshExactly(s, events[0]);
      StartedExactly(Step(s, events[0]), events[1..]);
    }
  }

  // ----- which event settles a call -----

  /** What becomes of an adapt call that comes in, or comes up again, while no refresh is in
      progress. */
  function AdaptVerdict(s: State, requiresRefresh: bool, now: real): Option<Completion> {
    if s.credential.None? then Some(NotAdapted(MissingCredential))
    else if !requiresRefresh then Some(Adapted(s.credential.value))
    else if Full(s, now) then Some(NotAdapted(ExcessiveRefresh))
    else None
  }

  /** What becomes of a retry call before it comes to the lock. */
  function GuardsVerdict(s: State, hasResponse: bool, isAuthenticationError: bool, isCurrent: bool): Option<Completion> {
    if !hasResponse || !isAuthenticationError then Some(DoNotRetry)
    else if s.credential.None? then Some(DoNotRetryWithError(MissingCredential))
    else if !isCurrent then Some(Retry)
    else None
  }

  /** The result that this event settles for this call, if it settles one. Calls held back
      when the authenticator fails get its error; when it succeeds the retry calls are to be
      retried, and the adapt calls come up again. */
  function Settles(s: State, e: Event, c: Call): Option<Completion>
    requires Enabled(s, e)
  {
    match e.action
    case DoAdapt(call, requiresRefresh) =>
      if call == c && !s.isRefreshing then AdaptVerdict(s, requiresRefresh, e.checked) else None
    case DoRunQueue(requiresRefresh) =>
      if s.queue[0].Resume? && s.queue[0].adapts != [] && s.queue[0].adapts[0] == c && !s.isRefreshing
      then AdaptVerdict(s, requiresRefresh, e.checked) else None
    case DoRetry(call, hasResponse, isAuthenticationError, isCurrent) =>
      if call == c then GuardsVerdict(s, hasResponse, isAuthenticationError, isCurrent) else None
    case DoRetryLocked(k) =>
      if s.entering[k].0 == c && !s.isRefreshing && Full(s, e.checked) then Some(DoNotRetryWithError(ExcessiveRefresh)) else None
    case DoRefreshDone(result, code) =>
      if c in s.requestsToRetry then Some(if result.Some? then Retry else DoNotRetryWithError(RefreshFailed(code)))
      else if c in s.adaptOperations && result.None? then Some(NotAdapted(RefreshFailed(code)))
      else None
    case DoSetCredential(_) => None
  }

  /** Some event of the run settles this result for the call. */
  predicate SettledIn(s: State, events: seq<Event>, c: Call, r: Completion)
    requires Possible(s, events)
    decreases |events|
  {
    events != [] && (Settles(s, events[0], c) == Some(r) || SettledIn(Step(s, events[0]), events[1..], c, r))
  }

  // ----- what is owed to a call -----

  predicate Carries(j: Job, c: Call, r: Completion) {
    match j
    case StartRefresh(_) => false
    case Resume(_, retries) => c in retries && r == Retry
    case Abort(adapts, retries, error) =>
      (c in adapts && r == NotAdapted(error)) || (c in retries && r == DoNotRetryWithError(error))
  }

  ghost predicate Carried(queue: seq<Job>, c: Call, r: Completion) {
    exists j | j in queue :: Carries(j, c, r)
  }

  /** The call has been told this result, or a job on the serial queue is to tell it. */
  ghost predicate Owed(s: State, c: Call, r: Completion) {
    (c, r) in s.completed || Carried(s.queue, c, r)
  }

  lemma CarriedAppend(queue: seq<Job>, j: Job, c: Call, r: Completion)
    ensures Carried(queue + [j], c, r) <==> Carried(queue, c, r) || Carries(j, c, r)
  {
    hide Carries;
    if Carries(j, c, r) {
      assert j in queue + [j];
    }
    if Carried(queue, c, r) {
      var k :| k in queue && Carries(k, c, r);
      assert k in queue + [j];
    }
  }

  lemma CarriedHead(j: Job, queue: seq<Job>, c: Call, r: Completion)
    ensures Carried([j] + queue, c, r) <==> Carries(j, c, r) || Carried(queue, c, r)
  {
    hide Carries;
    if Carries(j, c, r) {
      assert j in [j] + queue;
    }
    if Carried(queue, c, r) {
      var k :| k in queue && Carries(k, c, r);
      assert k in [j] + queue;
    }
  }

  lemma OwedRefresh(s: State, credential: Credential, checked: real, stamped: real, c: Call, r: Completion)
    requires AllAdapts(s.adaptOperations) && AllRetries(s.requestsToRetry) && StampsBefore(s, checked)
    ensures Owed(AfterRefresh(s, credential, checked, stamped), c, r) <==>
            || Owed(s, c, r)
            || (Full(s, checked) && c in s.adaptOperations && r == NotAdapted(ExcessiveRefresh))
            || (Full(s, checked) && c in s.requestsToRetry && r == DoNotRetryWithError(ExcessiveRefresh))
  {
    hide Carried, CountIn, CountSince;
    if s.window.Some? {
      CountsSame(s.refreshTimestamps, checked - s.window.value.interval, checked);
    }
    CarriedAppend(s.queue, StartRefresh(credential), c, r);
    CarriedAppend(s.queue, Abort(s.adaptOperations, s.requestsToRetry, ExcessiveRefresh), c, r);
  }

  lemma OwedAdapt(s: State, call: Call, requiresRefresh: bool, checked: real, stamped: real, c: Call, r: Completion)
    requires Coordinated(s) && call.AdaptCall? && StampsBefore(s, checked)
    ensures Owed(AfterAdapt(s, call, requiresRefresh, checked, stamped), c, r) <==>
            Owed(s, c, r) || (call == c && !s.isRefreshing && AdaptVerdict(s, requiresRefresh, checked) == Some(r))
  {
    hide Carried, Outstanding, AfterRefresh;
    if !s.isRefreshing && s.credential.Some? && requiresRefresh {
      OwedRefresh(s.(adaptOperations := s.adaptOperations + [call]), s.credential.value, checked, stamped, c, r);
    }
  }

  lemma OwedRetry(s: State, k: nat, checked: real, stamped: real, c: Call, r: Completion)
    requires Coordinated(s) && k < |s.entering| && StampsBefore(s, checked)
    ensures Owed(AfterRetry(s, k, checked, stamped), c, r) <==>
            || Owed(s, c, r)
            || (s.entering[k].0 == c && !s.isRefreshing && Full(s, checked) && r == DoNotRetryWithError(ExcessiveRefresh))
  {
    hide Carried, Outstanding, AfterRefresh;
    var (call, credential) := s.entering[k];
    var s1 := s.(entering := s.entering[..k] + s.entering[k + 1..], requestsToRetry := s.requestsToRetry + [call]);
    if !s.isRefreshing {
      OwedRefresh(s1, credential, checked, stamped, c, r);
    }
  }

  lemma OwedDone(s: State, result: Option<Credential>, code: nat, c: Call, r: Completion)
    requires Coordinated(s) && s.running > 0
    ensures Owed(AfterAuthenticator(s, result, code), c, r) <==>
            || Owed(s, c, r)
            || (c in s.requestsToRetry && r == (if result.Some? then Retry else DoNotRetryWithError(RefreshFailed(code))))
            || (c in s.adaptOperations && result.None? && r == NotAdapted(RefreshFailed(code)))
  {
    hide Carried, Outstanding;
    CarriedAppend(s.queue, Resume(s.adaptOperations, s.requestsToRetry), c, r);
    CarriedAppend(s.queue, Abort(s.adaptOperations, s.requestsToRetry, RefreshFailed(code)), c, r);
  }

  lemma OwedResume(s: State, requiresRefresh: bool, checked: real, stamped: real, c: Call, r: Completion)
    requires Coordinated(s) && s.queue != [] && s.queue[0].Resume? && StampsBefore(s, checked)
    ensures Owed(AfterEntry(s, requiresRefresh, checked, stamped), c, r) <==>
            || Owed(s, c, r)
            || (s.queue[0].adapts != [] && s.queue[0].adapts[0] == c && !s.isRefreshing
                && AdaptVerdict(s, requiresRefresh, checked) == Some(r))
  {
    hide Carried, AfterAdapt, Full, Coordinated;
    QueueKinds(s);
    var adapts, retries := s.queue[0].adapts, s.queue[0].retries;
    assert s.queue == [s.queue[0]] + s.queue[1..];
    CarriedHead(s.queue[0], s.queue[1..], c, r);
    if adapts != [] {
      var j := Resume(adapts[1..], retries);
      CarriedHead(j, s.queue[1..], c, r);
      HeadConserves(s, j, c);
      OwedAdapt(s.(queue := [j] + s.queue[1..]), adapts[0], requiresRefresh, checked, stamped, c, r);
      SameWindow(s, [j] + s.queue[1..], requiresRefresh, checked);
    } else if retries != [] {
      CarriedHead(Resume([], retries[1..]), s.queue[1..], c, r);
      assert retries == [retries[0]] + retries[1..];
    }
  }

  lemma OwedAbort(s: State, requiresRefresh: bool, checked: real, stamped: real, c: Call, r: Completion)
    requires s.queue != [] && s.queue[0].Abort?
    ensures Owed(AfterEntry(s, requiresRefresh, checked, stamped), c, r) <==> Owed(s, c, r)
  {
    hide Carried, AfterAdapt;
    var adapts, retries, error := s.queue[0].adapts, s.queue[0].retries, s.queue[0].error;
    assert s.queue == [s.queue[0]] + s.queue[1..];
    CarriedHead(s.queue[0], s.queue[1..], c, r);
    if adapts != [] {
      CarriedHead(Abort(adapts[1..], retries, error), s.queue[1..], c, r);
      assert adapts == [adapts[0]] + adapts[1..];
    } else if retries != [] {
      CarriedHead(Abort([], retries[1..], error), s.queue[1..], c, r);
      assert retries == [retries[0]] + retries[1..];
    }
  }

  /** The jobs on the queue tell exactly what they carry. */
  lemma OwedEntry(s: State, requiresRefresh: bool, checked: real, stamped: real, c: Call, r: Completion)
    requires Coordinated(s) && s.queue != [] && StampsBefore(s, checked)
    ensures Owed(AfterEntry(s, requiresRefresh, checked, stamped), c, r) <==>
            || Owed(s, c, r)
            || (s.queue[0].Resume? && s.queue[0].adapts != [] && s.queue[0].adapts[0] == c && !s.isRefreshing
                && AdaptVerdict(s, requiresRefresh, checked) == Some(r))
  {
    hide Carried, AdaptVerdict, Coordinated, AfterAdapt;
    match s.queue[0]
    case StartRefresh(_) => CarriedHead(s.queue[0], s.queue[1..], c, r);
                            assert s.queue == [s.queue[0]] + s.queue[1..];
    case Resume(_, _) => OwedResume(s, requiresRefresh, checked, stamped, c, r);
    case Abort(_, _, _) => OwedAbort(s, requiresRefresh, checked, stamped, c, r);
  }

  lemma QueueKinds(s: State)
    requires Coordinated(s) && s.queue != []
    ensures JobKinds(s.queue[0])
  {
  }

  lemma SameWindow(s: State, queue: seq<Job>, requiresRefresh: bool, now: real)
    ensures AdaptVerdict(s.(queue := queue), requiresRefresh, now) == AdaptVerdict(s, requiresRefresh, now)
  {
  }

  lemma OwedGuards(s: State, call: Call, hasResponse: bool, isAuthenticationError: bool, isCurrent: bool, c: Call, r: Completion)
    ensures Owed(AfterGuards(s, call, hasResponse, isAuthenticationError, isCurrent), c, r) <==>
            Owed(s, c, r) || (call == c && GuardsVerdict(s, hasResponse, isAuthenticationError, isCurrent) == Some(r))
  {
    hide Carried;
  }

  lemma OwedClock(s: State, credential: Option<Credential>, uptime: real, c: Call, r: Completion)
    ensures Owed(s.(credential := credential, uptime := uptime), c, r) <==> Owed(s, c, r)
    ensures Owed(s.(uptime := uptime), c, r) <==> Owed(s, c, r)
  {
    hide Carried;
  }

  /** A step comes to owe a call a result exactly by settling it, and nothing that is owed is
      ever lost or changed. */
  lemma StepSettles(s: State, e: Event, c: Call, r: Completion)
    requires Coordinated(s) && Enabled(s, e) && StampsBefore(s, e.checked)
    ensures Owed(Step(s, e), c, r) <==> Owed(s, c, r) || Settles(s, e, c) == Some(r)
  {
    hide Owed, Coordinated, AfterAdapt, AfterRetry, AfterEntry, AfterAuthenticator, AfterGuards, Full, AdaptVerdict, GuardsVerdict, StampsBefore;
    match e.action
    case DoAdapt(call, requiresRefresh) =>
      OwedAdapt(s, call, requiresRefresh, e.checked, e.stamped, c, r);
      OwedClock(AfterAdapt(s, call, requiresRefresh, e.checked, e.stamped), None, e.stamped, c, r);
    case DoRetry(call, hasResponse, authError, isCurrent) =>
      OwedGuards(s, call, hasResponse, authError, isCurrent, c, r);
      OwedClock(AfterGuards(s, call, hasResponse, authError, isCurrent), None, e.stamped, c, r);
    case DoRetryLocked(k) =>
      OwedRetry(s, k, e.checked, e.stamped, c, r);
      OwedClock(AfterRetry(s, k, e.checked, e.stamped), None, e.stamped, c, r);
    case DoRunQueue(requiresRefresh) =>
      OwedEntry(s, requiresRefresh, e.checked, e.stamped, c, r);
      OwedClock(AfterEntry(s, requiresRefresh, e.checked, e.stamped), None, e.stamped, c, r);
    case DoRefreshDone(result, code) =>
      OwedDone(s, result, code, c, r);
      HeldKinds(s);
      OwedClock(AfterAuthenticator(s, result, code), None, e.stamped, c, r);
    case DoSetCredential(credential) =>
      OwedClock(s, credential, e.stamped, c, r);
  }

  lemma HeldKinds(s: State)
    requires Coordinated(s)
    ensures AllAdapts(s.adaptOperations) && AllRetries(s.requestsToRetry)
  {
  }

  lemma {:induction false} RunSettles(s: State, events: seq<Event>, c: Call, r: Completion)
    requires Coordinated(s) && RateLimited(s) && Possible(s, events)
    ensures Owed(Run(s, events), c, r) <==> Owed(s, c, r) || SettledIn(s, events, c, r)
    decreases |events|
  {
    hide Coordinated, Owed, Settles, Step;
    if events != [] {
      StepConserves(s, events[0], c);
      StepKeepsRate(s, events[0]);
      StepSettles(s, events[0], c, r);
      RunSettles(Step(s, events[0]), events[1..], c, r);
    }
  }

  /** Over every run from the start: a call is told only what an event has settled for it, and
      once nothing is outstanding it has been told all of that. */
  lemma ToldExactly(credential: Option<Credential>, window: Option<RefreshWindow>, uptime: real, events: seq<Event>, c: Call, r: Completion)
    requires Possible(Initial(credential, window, uptime), events)
    ensures var s0 := Initial(credential, window, uptime);
            var s := Run(s0, events);
            && ((c, r) in s.completed ==> SettledIn(s0, events, c, r))
            && (Quiet(s) ==> ((c, r) in s.completed <==> SettledIn(s0, events, c, r)))
  {
    hide Run, Possible, SettledIn;
    InitialState(credential, window, uptime);
    RunSettles(Initial(credential, window, uptime), events, c, r);
  }

  // ----- why a call was told what it was told -----

  /** The reasons for a result in the state where an event settles it. */
  predicate Reason(s: State, e: Event, c: Call, r: Completion) {
    match r
    case Adapted(credential) => s.credential == Some(credential) && !s.isRefreshing
    case DoNotRetry =>
      && e.action.DoRetry? && e.action.call == c
      && (!e.action.hasResponse || !e.action.isAuthenticationError)
    case Retry =>
      || (e.action.DoRetry? && e.action.call == c && s.credential.Some? && !e.action.isCurrent)
      || (e.action.DoRefreshDone? && e.action.result.Some? && c in s.requestsToRetry)
    case NotAdapted(error) => ErrorReason(s, e, c, error)
    case DoNotRetryWithError(error) => ErrorReason(s, e, c, error)
  }

  predicate ErrorReason(s: State, e: Event, c: Call, error: Failure) {
    match error
    case MissingCredential => s.credential.None?
    case ExcessiveRefresh => !s.isRefreshing && Full(s, e.checked)
    case RefreshFailed(code) =>
      e.action == DoRefreshDone(None, code) && (c in s.adaptOperations || c in s.requestsToRetry)
  }

  predicate ReasonIn(s: State, events: seq<Event>, c: Call, r: Completion)
    requires Possible(s, events)
    decreases |events|
  {
    events != [] && (Reason(s, events[0], c, r) || ReasonIn(Step(s, events[0]), events[1..], c, r))
  }

  lemma {:induction false} SettledHasReason(s: State, events: seq<Event>, c: Call, r: Completion)
    requires Possible(s, events) && SettledIn(s, events, c, r)
    ensures ReasonIn(s, events, c, r)
    decreases |events|
  {
    hide Step, Enabled, Full;
    if Settles(s, events[0], c) != Some(r) {
      SettledHasReason(Step(s, events[0]), events[1..], c, r);
    }
  }

  /** A call is told to retry only after a refresh it waited for or under a credential that is
      gone, not to retry only without a response or an authentication error, and so on. */
  lemma ToldForReason(credential: Option<Credential>, window: Option<RefreshWindow>, uptime: real, events: seq<Event>, i: nat)
    requires Possible(Initial(credential, window, uptime), events)
    requires i < |Run(Initial(credential, window, uptime), events).completed|
    ensures var s0 := Initial(credential, window, uptime);
            var (c, r) := Run(s0, events).completed[i];
            ReasonIn(s0, events, c, r)
  {
    hide Run, Possible, SettledIn, ReasonIn;
    var s0 := Initial(credential, window, uptime);
    var (c, r) := Run(s0, events).completed[i];
    ToldExactly(credential, window, uptime, events, c, r);
    SettledHasReason(s0, events, c, r);
  }

  // ----- the credential in force -----

  /** The last credential that a refresh brought or the client set. */
  function InForce(credential: Option<Credential>, events: seq<Event>): Option<Credential> {
    if events == [] then credential
    else
      var a := events[|events| - 1].action;
      if a.DoRefreshDone? && a.result.Some? then a.result
      else if a.DoSetCredential? then a.credential
      else InForce(credential, events[..|events| - 1])
  }

  lemma {:induction false} RunAppend(s: State, events: seq<Event>, e: Event)
    requires Possible(s, events + [e])
    ensures Possible(s, events) && Enabled(Run(s, events), e)
    ensures Run(s, events + [e]) == Step(Run(s, events), e)
    decreases |events|
  {
    hide Step, Enabled;
    if events == [] {
      assert events + [e] == [e] && [e][1..] == [];
    } else {
      assert (events + [e])[1..] == events[1..] + [e];
      RunAppend(Step(s, events[0]), events[1..], e);
    }
  }

  lemma {:induction false} CredentialInForce(s: State, events: seq<Event>)
    requires Possible(s, events)
    ensures Run(s, events).credential == InForce(s.credential, events)
    decreases |events|
  {
    hide Run, Possible, Enabled;
    if events == [] {
      RunNothing(s);
    } else {
      var before, e := events[..|events| - 1], events[|events| - 1];
      assert events == before + [e];
      RunAppend(s, before, e);
      CredentialInForce(s, before);
      StepCredential(Run(s, before), e);
    }
  }

  lemma RunNothing(s: State)
    ensures Run(s, []) == s
  {
  }

  lemma StepCredential(s: State, e: Event)
    requires Enabled(s, e)
    ensures Step(s, e).credential ==
            match e.action
            case DoRefreshDone(result, _) => if result.Some? then result else s.credential
            case DoSetCredential(credential) => credential
            case _ => s.credential
  {
  }

  // ----- first come, first served -----

  function RetriesOf(j: Job): seq<Call> {
    if j.StartRefresh? then [] else j.retries
  }

  function Retries(queue: seq<Job>): seq<Call> {
    if queue == [] then [] else RetriesOf(queue[0]) + Retries(queue[1..])
  }

  /** The retry calls that wait for the serial queue, and then those held back. */
  function Waiting(s: State): seq<Call> {
    Retries(s.queue) + s.requestsToRetry
  }

  function RetryCalls(told: seq<(Call, Completion)>): seq<Call> {
    if told == [] then []
    else (if told[0].0.RetryCall? then [told[0].0] else []) + RetryCalls(told[1..])
  }

  /** The retry calls that the serial queue completes in a step. */
  function ServedBy(s: State, e: Event): seq<Call>
    requires Enabled(s, e)
  {
    var told := Step(s, e).completed;
    if e.action.DoRunQueue? && |told| > |s.completed| then RetryCalls(told[|s.completed|..]) else []
  }

  function Served(s: State, events: seq<Event>): seq<Call>
    requires Possible(s, events)
    decreases |events|
  {
    if events == [] then [] else ServedBy(s, events[0]) + Served(Step(s, events[0]), events[1..])
  }

  function LockedBy(s: State, e: Event): seq<Call>
    requires Enabled(s, e)
  {
    if e.action.DoRetryLocked? then [s.entering[e.action.k].0] else []
  }

  /** The retry calls that take the lock in a run. */
  function Locked(s: State, events: seq<Event>): seq<Call>
    requires Possible(s, events)
    decreases |events|
  {
    if events == [] then [] else LockedBy(s, events[0]) + Locked(Step(s, events[0]), events[1..])
  }

  lemma {:induction false} RetriesAppend(queue: seq<Job>, j: Job)
    ensures Retries(queue + [j]) == Retries(queue) + RetriesOf(j)
  {
    if queue == [] {
      assert [j][1..] == [] && queue + [j] == [j];
    } else {
      assert (queue + [j])[1..] == queue[1..] + [j];
      RetriesAppend(queue[1..], j);
    }
  }

  lemma RetriesHead(queue: seq<Job>, j: Job)
    ensures Retries([j] + queue) == RetriesOf(j) + Retries(queue)
  {
    assert ([j] + queue)[1..] == queue;
  }

  lemma RefreshWaits(s: State, credential: Credential, checked: real, stamped: real)
    ensures Waiting(AfterRefresh(s, credential, checked, stamped)) == Waiting(s)
    ensures AfterRefresh(s, credential, checked, stamped).completed == s.completed
  {
    hide Retries, Excessive;
    RetriesAppend(s.queue, StartRefresh(credential));
    RetriesAppend(s.queue, Abort(s.adaptOperations, s.requestsToRetry, ExcessiveRefresh));
  }

  lemma AdaptWaits(s: State, call: Call, requiresRefresh: bool, checked: real, stamped: real)
    requires call.AdaptCall?
    ensures var s' := AfterAdapt(s, call, requiresRefresh, checked, stamped);
            && Waiting(s') == Waiting(s)
            && (s'.completed == s.completed
                || (|s'.completed| == |s.completed| + 1 && s'.completed[..|s.completed|] == s.completed && s'.completed[|s.completed|].0.AdaptCall?))
  {
    hide AfterRefresh, Retries;
    if s.credential.Some? {
      RefreshWaits(s.(adaptOperations := s.adaptOperations + [call]), s.credential.value, checked, stamped);
    }
  }

  lemma RetryWaits(s: State, k: nat, checked: real, stamped: real)
    requires k < |s.entering|
    ensures Waiting(AfterRetry(s, k, checked, stamped)) == Waiting(s) + [s.entering[k].0]
  {
    hide AfterRefresh, Retries;
    var (call, credential) := s.entering[k];
    var s1 := s.(entering := s.entering[..k] + s.entering[k + 1..], requestsToRetry := s.requestsToRetry + [call]);
    assert Waiting(s1) == Waiting(s) + [call];
    RefreshWaits(s1, credential, checked, stamped);
  }

  lemma DoneWaits(s: State, result: Option<Credential>, code: nat)
    requires s.running > 0
    ensures Waiting(AfterAuthenticator(s, result, code)) == Waiting(s)
  {
    hide Retries;
    RetriesAppend(s.queue, Resume(s.adaptOperations, s.requestsToRetry));
    RetriesAppend(s.queue, Abort(s.adaptOperations, s.requestsToRetry, RefreshFailed(code)));
  }

  lemma OneTold(told: seq<(Call, Completion)>, x: (Call, Completion))
    ensures RetryCalls((told + [x])[|told|..]) == if x.0.RetryCall? then [x.0] else []
  {
    assert (told + [x])[|told|..] == [x] && [x][1..] == [];
  }

  /** A job that tells one of its calls a result. */
  lemma TellServes(s: State, s': State, j: Job, x: (Call, Completion))
    requires s.queue != [] && s'.queue == [j] + s.queue[1..] && s'.requestsToRetry == s.requestsToRetry
    requires s'.completed == s.completed + [x]
    requires RetriesOf(s.queue[0]) == (if x.0.RetryCall? then [x.0] else []) + RetriesOf(j)
    ensures RetryCalls(s'.completed[|s.completed|..]) + Waiting(s') == Waiting(s)
  {
    hide RetriesOf, RetryCalls;
    OneTold(s.completed, x);
    RetriesHead(s.queue[1..], j);
  }

  lemma AbortServes(s: State, e: Event)
    requires Coordinated(s) && Enabled(s, e) && e.action.DoRunQueue? && s.queue[0].Abort?
    ensures ServedBy(s, e) + Waiting(Step(s, e)) == Waiting(s)
  {
    hide Coordinated, AfterAdapt, RetryCalls, Waiting, Retries;
    QueueKinds(s);
    var s', adapts, retries, error := Step(s, e), s.queue[0].adapts, s.queue[0].retries, s.queue[0].error;
    if adapts != [] {
      TellServes(s, s', Abort(adapts[1..], retries, error), (adapts[0], NotAdapted(error)));
    } else if retries != [] {
      TellServes(s, s', Abort([], retries[1..], error), (retries[0], DoNotRetryWithError(error)));
    } else {
      DropServes(s, s');
    }
  }

  lemma DropServes(s: State, s': State)
    requires s.queue != [] && s'.queue == s.queue[1..] && s'.requestsToRetry == s.requestsToRetry
    requires RetriesOf(s.queue[0]) == []
    ensures Waiting(s') == Waiting(s)
  {
  }

  lemma ResumeServes(s: State, e: Event)
    requires Coordinated(s) && Enabled(s, e) && e.action.DoRunQueue? && s.queue[0].Resume?
    ensures ServedBy(s, e) + Waiting(Step(s, e)) == Waiting(s)
  {
    hide Coordinated, AfterAdapt, RetryCalls, Retries;
    QueueKinds(s);
    var s', adapts, retries := Step(s, e), s.queue[0].adapts, s.queue[0].retries;
    if adapts != [] {
      var s1 := s.(queue := [Resume(adapts[1..], retries)] + s.queue[1..]);
      AdaptWaits(s1, adapts[0], e.action.requiresRefresh, e.checked, e.stamped);
      SameRetries(s, Resume(adapts[1..], retries));
      if s'.completed != s.completed {
        assert s'.completed == s.completed + [s'.completed[|s.completed|]];
        OneTold(s.completed, s'.completed[|s.completed|]);
      }
    } else if retries != [] {
      TellServes(s, s', Resume([], retries[1..]), (retries[0], Retry));
    } else {
      DropServes(s, s');
    }
  }

  lemma SameRetries(s: State, j: Job)
    requires s.queue != [] && RetriesOf(j) == RetriesOf(s.queue[0])
    ensures Retries([j] + s.queue[1..]) == Retries(s.queue)
  {
    RetriesHead(s.queue[1..], j);
  }

  lemma EntryServes(s: State, e: Event)
    requires Coordinated(s) && Enabled(s, e) && e.action.DoRunQueue?
    ensures ServedBy(s, e) + Waiting(Step(s, e)) == Waiting(s)
  {
    if s.queue[0].StartRefresh? {
      hide Coordinated, RetryCalls;
      DropServes(s, Step(s, e));
    } else if s.queue[0].Abort? {
      hide *;
      AbortServes(s, e);
    } else {
      hide *;
      ResumeServes(s, e);
    }
  }

  lemma StepServes(s: State, e: Event)
    requires Coordinated(s) && Enabled(s, e)
    ensures ServedBy(s, e) + Waiting(Step(s, e)) == Waiting(s) + LockedBy(s, e)
  {
    hide AfterAdapt, AfterRetry, AfterEntry, AfterAuthenticator, Coordinated;
    match e.action
    case DoAdapt(call, requiresRefresh) => AdaptWaits(s, call, requiresRefresh, e.checked, e.stamped);
    case DoRetry(_, _, _, _) =>
    case DoRetryLocked(k) => RetryWaits(s, k, e.checked, e.stamped);
    case DoRunQueue(_) => EntryServes(s, e);
    case DoRefreshDone(result, code) => DoneWaits(s, result, code);
    case DoSetCredential(_) =>
  }

  /** Retry calls that took the lock are completed in the order in which they took it, across
      all refreshes. */
  lemma {:induction false} FirstComeFirstServed(s: State, events: seq<Event>)
    requires Coordinated(s) && Possible(s, events)
    ensures Served(s, events) + Waiting(Run(s, events)) == Waiting(s) + Locked(s, events)
    decreases |events|
  {
    hide Coordinated, Step, Enabled, ServedBy, LockedBy, Waiting;
    if events != [] {
      var s' := Step(s, events[0]);
      StepConserves(s, events[0], AdaptCall(0));
      StepServes(s, events[0]);
      FirstComeFirstServed(s', events[1..]);
      Shuffle(ServedBy(s, events[0]), Served(s', events[1..]), Waiting(s'), Waiting(Run(s, events)),
              Waiting(s), LockedBy(s, events[0]), Locked(s', events[1..]));
    }
  }

  lemma Shuffle(a: seq<Call>, b: seq<Call>, w1: seq<Call>, w2: seq<Call>, w0: seq<Call>, l: seq<Call>, k: seq<Call>)
    requires a + w1 == w0 + l && b + w2 == w1 + k
    ensures (a + b) + w2 == w0 + (l + k)
  {
    assert (a + b) + w2 == a + (b + w2) == (a + w1) + k == w0 + (l + k);
  }
}
