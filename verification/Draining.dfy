/** How long the interceptor can go on by itself: while no client acts, the number of steps
    is bounded by the calls it holds and the refreshes it starts. */
module Draining {
  import opened Options
  import opened Interceptor

  /** A step that no client takes, whatever it finds. */
  predicate ClientFree(s: State, e: Event) {
    Enabled(s, e) && (e.action.DoRetryLocked? || e.action.DoRunQueue? || e.action.DoRefreshDone?)
  }

  predicate ClientFreeRun(s: State, events: seq<Event>)
    decreases |events|
  {
    events == [] || (ClientFree(s, events[0]) && ClientFreeRun(Step(s, events[0]), events[1..]))
  }

  /** Such a step that finds the credential usable. */
  predicate Calm(s: State, e: Event) {
    ClientFree(s, e) && e.action != DoRunQueue(true)
  }

  predicate CalmRun(s: State, events: seq<Event>)
    decreases |events|
  {
    events == [] || (Calm(s, events[0]) && CalmRun(Step(s, events[0]), events[1..]))
  }

  /** As long as something is outstanding such a step is possible. */
  lemma NeverStuck(s: State)
    requires Coordinated(s) && !Quiet(s)
    ensures exists e :: Calm(s, e)
  {
    if s.queue != [] {
      assert Calm(s, Event(DoRunQueue(false), s.uptime, s.uptime));
    } else if s.running > 0 {
      assert Calm(s, Event(DoRefreshDone(None, 0), s.uptime, s.uptime));
    } else {
      assert Calm(s, Event(DoRetryLocked(0), s.uptime, s.uptime));
    }
  }

  // ----- what is left to do -----

  function CallsIn(): Job -> nat {
    (j: Job) => if j.StartRefresh? then 0 else |j.adapts| + |j.retries|
  }

  /** Calls that have not completed. */
  function Open(s: State): nat {
    |s.adaptOperations| + |s.requestsToRetry| + |s.entering| + Sum(s.queue, CallsIn())
  }

  /** Steps that a job stands for when at most k calls are open: a resumed call may have to
      wait for the next refresh and be resumed or failed then. */
  function Weight(k: nat): Job -> nat {
    (j: Job) =>
      match j
      case StartRefresh(_) => 2 * k + 3
      case Resume(adapts, retries) => 1 + 3 * (|adapts| + |retries|)
      case Abort(adapts, retries, _) => 1 + |adapts| + |retries|
  }

  /** Steps left, apart from the refreshes to come. */
  function Potential(s: State, k: nat): nat {
    Sum(s.queue, Weight(k)) + (if s.running > 0 then 2 * k + 2 else 0)
    + 3 * |s.entering| + |s.adaptOperations| + |s.requestsToRetry|
  }

  /** Each step either uses up potential or starts a refresh, which renews a fixed amount. */
  ghost predicate Paid(s: State, s': State, k: nat) {
    && Open(s') <= Open(s)
    && (|| (s'.refreshTimestamps == s.refreshTimestamps && Potential(s', k) < Potential(s, k))
        || (|s'.refreshTimestamps| == |s.refreshTimestamps| + 1 && Potential(s', k) < Potential(s, k) + 2 * k + 3))
  }

  lemma RefreshPays(s: State, credential: Credential, checked: real, stamped: real, k: nat)
    requires |s.adaptOperations| + |s.requestsToRetry| == 1
    ensures var s' := AfterRefresh(s, credential, checked, stamped);
            && Open(s') == Open(s) && s'.entering == s.entering
            && (|| (s'.refreshTimestamps == s.refreshTimestamps && Potential(s', k) == Potential(s, k) + 1)
                || (|s'.refreshTimestamps| == |s.refreshTimestamps| + 1 && Potential(s', k) == Potential(s, k) + 2 * k + 3))
  {
    hide Sum, Excessive;
    var abort := Abort(s.adaptOperations, s.requestsToRetry, ExcessiveRefresh);
    SumAppend(s.queue, abort, CallsIn());
    SumAppend(s.queue, abort, Weight(k));
    SumAppend(s.queue, StartRefresh(credential), CallsIn());
    SumAppend(s.queue, StartRefresh(credential), Weight(k));
  }

  lemma RetryPays(s: State, n: nat, checked: real, stamped: real, k: nat)
    requires Coordinated(s) && n < |s.entering|
    ensures Paid(s, AfterRetry(s, n, checked, stamped), k)
    ensures |AfterRetry(s, n, checked, stamped).entering| < |s.entering|
  {
    hide Sum, AfterRefresh, Kinds;
    var (call, credential) := s.entering[n];
    var s1 := s.(entering := s.entering[..n] + s.entering[n + 1..], requestsToRetry := s.requestsToRetry + [call]);
    if !s1.isRefreshing {
      RefreshPays(s1, credential, checked, stamped, k);
    }
  }

  lemma AdaptPays(s: State, call: Call, requiresRefresh: bool, checked: real, stamped: real, k: nat)
    requires Coordinated(s)
    ensures var s' := AfterAdapt(s, call, requiresRefresh, checked, stamped);
            && Open(s') <= Open(s) + 1
            && (|| (s'.refreshTimestamps == s.refreshTimestamps && Potential(s', k) <= Potential(s, k) + 2)
                || (|s'.refreshTimestamps| == |s.refreshTimestamps| + 1 && requiresRefresh
                    && Potential(s', k) == Potential(s, k) + 2 * k + 4))
  {
    hide Sum, AfterRefresh, Kinds;
    if !s.isRefreshing && s.credential.Some? && requiresRefresh {
      RefreshPays(s.(adaptOperations := s.adaptOperations + [call]), s.credential.value, checked, stamped, k);
    }
  }

  /** The head job of the queue replaced by what is left of it, or taken off. */
  lemma HeadPays(s: State, j: Job, k: nat)
    requires s.queue != []
    ensures var s' := s.(queue := [j] + s.queue[1..]);
            && Open(s') + CallsIn()(s.queue[0]) == Open(s) + CallsIn()(j)
            && Potential(s', k) + Weight(k)(s.queue[0]) == Potential(s, k) + Weight(k)(j)
  {
    SumHead(j, s.queue[1..], CallsIn());
    SumHead(j, s.queue[1..], Weight(k));
  }

  lemma PopPays(s: State, k: nat)
    requires s.queue != []
    ensures var s' := s.(queue := s.queue[1..]);
            && Open(s') + CallsIn()(s.queue[0]) == Open(s)
            && Potential(s', k) + Weight(k)(s.queue[0]) == Potential(s, k)
  {
  }

  /** What an entry of the queue owes. */
  ghost predicate EntryPaid(s: State, s': State, requiresRefresh: bool, k: nat) {
    && Paid(s, s', k)
    && s'.entering == s.entering
    && (!requiresRefresh ==> s'.refreshTimestamps == s.refreshTimestamps)
  }

  lemma EntryPays(s: State, requiresRefresh: bool, checked: real, stamped: real, k: nat)
    requires Coordinated(s) && s.queue != []
    ensures EntryPaid(s, AfterEntry(s, requiresRefresh, checked, stamped), requiresRefresh, k)
  {
    hide AfterAdapt, Kinds;
    PopPays(s, k);
    match s.queue[0] {
      case StartRefresh(_) =>
        assert s.running == 0;
      case Resume(adapts, retries) =>
        if adapts != [] {
          ResumePays(s, requiresRefresh, checked, stamped, k);
        } else if retries != [] {
          HeadPays(s, Resume([], retries[1..]), k);
        }
      case Abort(adapts, retries, error) =>
        AbortPays(s, requiresRefresh, checked, stamped, k);
    }
  }

  lemma AbortPays(s: State, requiresRefresh: bool, checked: real, stamped: real, k: nat)
    requires s.queue != [] && s.queue[0].Abort?
    ensures EntryPaid(s, AfterEntry(s, requiresRefresh, checked, stamped), requiresRefresh, k)
  {
    hide Sum;
    var adapts, retries, error := s.queue[0].adapts, s.queue[0].retries, s.queue[0].error;
    if adapts != [] {
      HeadPays(s, Abort(adapts[1..], retries, error), k);
    } else if retries != [] {
      HeadPays(s, Abort([], retries[1..], error), k);
    } else {
      PopPays(s, k);
    }
  }

  lemma ResumePays(s: State, requiresRefresh: bool, checked: real, stamped: real, k: nat)
    requires Coordinated(s) && s.queue != [] && s.queue[0].Resume? && s.queue[0].adapts != []
    ensures EntryPaid(s, AfterEntry(s, requiresRefresh, checked, stamped), requiresRefresh, k)
  {
    var j := Resume(s.queue[0].adapts[1..], s.queue[0].retries);
    assert JobKinds(s.queue[0]);
    HeadConserves(s, j, AdaptCall(0));
    HeadPays(s, j, k);
    AdaptPays(s.(queue := [j] + s.queue[1..]), s.queue[0].adapts[0], requiresRefresh, checked, stamped, k);
  }

  lemma AuthenticatorPays(s: State, result: Option<Credential>, code: nat, k: nat)
    requires Coordinated(s) && s.running > 0 && Open(s) <= k
    ensures Paid(s, AfterAuthenticator(s, result, code), k)
  {
    hide Sum, Kinds;
    var resume, abort := Resume(s.adaptOperations, s.requestsToRetry),
                         Abort(s.adaptOperations, s.requestsToRetry, RefreshFailed(code));
    SumAppend(s.queue, resume, CallsIn());
    SumAppend(s.queue, resume, Weight(k));
    SumAppend(s.queue, abort, CallsIn());
    SumAppend(s.queue, abort, Weight(k));
  }

  lemma StepPays(s: State, e: Event, k: nat)
    requires Coordinated(s) && ClientFree(s, e) && Open(s) <= k
    ensures Paid(s, Step(s, e), k)
    ensures Calm(s, e) && |Step(s, e).refreshTimestamps| > |s.refreshTimestamps| ==> |Step(s, e).entering| < |s.entering|
    ensures |Step(s, e).entering| <= |s.entering|
  {
    hide Coordinated, AfterEntry, AfterRefresh;
    match e.action {
      case DoRetryLocked(n) => RetryPays(s, n, e.checked, e.stamped, k);
      case DoRunQueue(requiresRefresh) => EntryPays(s, requiresRefresh, e.checked, e.stamped, k);
      case DoRefreshDone(result, code) => AuthenticatorPays(s, result, code, k);
    }
  }

  // ----- whole runs -----

  lemma {:induction false} ClientFreePossible(s: State, events: seq<Event>)
    requires ClientFreeRun(s, events)
    ensures Possible(s, events)
    decreases |events|
  {
    if events != [] {
      ClientFreePossible(Step(s, events[0]), events[1..]);
    }
  }

  lemma {:induction false} CalmIsClientFree(s: State, events: seq<Event>)
    requires CalmRun(s, events)
    ensures ClientFreeRun(s, events)
    decreases |events|
  {
    if events != [] {
      CalmIsClientFree(Step(s, events[0]), events[1..]);
    }
  }

  /** Number of refreshes that a run starts. */
  function Started(s: State, events: seq<Event>): int
    requires Possible(s, events)
  {
    |Run(s, events).refreshTimestamps| - |s.refreshTimestamps|
  }

  /** While no client acts, the steps are bounded by the potential and the refreshes started. */
  lemma {:induction false} ClientFreeBounded(s: State, events: seq<Event>, k: nat)
    requires Coordinated(s) && ClientFreeRun(s, events) && Open(s) <= k
    ensures Possible(s, events) && Started(s, events) >= 0
    ensures |events| + Potential(Run(s, events), k) <= Potential(s, k) + Started(s, events) * (2 * k + 3)
    decreases |events|
  {
    hide Coordinated, Step, Potential, Open, Enabled;
    if events != [] {
      var s1 := Step(s, events[0]);
      StepPays(s, events[0], k);
      StepConserves(s, events[0], AdaptCall(0));
      ClientFreeBounded(s1, events[1..], k);
      var d := |s1.refreshTimestamps| - |s.refreshTimestamps|;
      assert Started(s, events) == Started(s1, events[1..]) + d;
      Distribute(Started(s1, events[1..]), d, 2 * k + 3);
    }
  }

  lemma Distribute(a: int, b: int, c: int)
    ensures (a + b) * c == a * c + b * c
  {
  }

  lemma Monotone(a: int, b: int, c: nat)
    requires a <= b
    ensures a * c <= b * c
  {
  }

  // ----- usable credentials -----

  /** Only retry calls on their way to the lock can start a refresh. */
  lemma {:induction false} CalmStarts(s: State, events: seq<Event>, k: nat)
    requires Coordinated(s) && CalmRun(s, events) && Open(s) <= k
    ensures Possible(s, events)
    ensures Started(s, events) <= |s.entering| - |Run(s, events).entering|
    decreases |events|
  {
    hide Coordinated, Step, Potential, Open, Enabled;
    if events != [] {
      StepPays(s, events[0], k);
      StepConserves(s, events[0], AdaptCall(0));
      CalmStarts(Step(s, events[0]), events[1..], k);
    }
  }

  /** Once clients stop and the credentials handed out stay usable, every run is bounded,
      however the remaining steps are ordered and however refreshes turn out; and when no
      step is left, every call has completed. */
  lemma EveryCallDrains(s: State, events: seq<Event>)
    requires Coordinated(s) && CalmRun(s, events)
    ensures Possible(s, events)
    ensures |events| <= Potential(s, Open(s)) + |s.entering| * (2 * Open(s) + 3)
    ensures (forall e :: !Calm(Run(s, events), e)) ==>
              Quiet(Run(s, events)) && forall c :: Completions(Run(s, events), c) == Places(s, c)
  {
    hide Potential, Open, Coordinated, Places, Calm, Quiet, Completions, CalmRun;
    var k := Open(s);
    CalmIsClientFree(s, events);
    ClientFreeBounded(s, events, k);
    CalmStarts(s, events, k);
    Monotone(Started(s, events), |s.entering|, 2 * k + 3);
    if forall e :: !Calm(Run(s, events), e) {
      ClientFreeEnds(s, events);
    }
  }

  lemma {:induction false} NothingIssued(s: State, events: seq<Event>, c: Call)
    requires ClientFreeRun(s, events)
    ensures Issued(events, c) == 0
    decreases |events|
  {
    if events != [] {
      NothingIssued(Step(s, events[0]), events[1..], c);
    }
  }

  /** A client-free run after which nothing more can happen has completed every call. */
  lemma ClientFreeEnds(s: State, events: seq<Event>)
    requires Coordinated(s) && ClientFreeRun(s, events) && Possible(s, events)
    requires forall e :: !Calm(Run(s, events), e)
    ensures Quiet(Run(s, events)) && forall c :: Completions(Run(s, events), c) == Places(s, c)
  {
    hide Coordinated, Places, Calm, Quiet, Run, Possible, ClientFreeRun;
    var end := Run(s, events);
    CallsConserved(s, events, AdaptCall(0));
    if !Quiet(end) {
      NeverStuck(end);
    }
    forall c
      ensures Completions(end, c) == Places(s, c)
    {
      CallsConserved(s, events, c);
      NothingIssued(s, events, c);
      QuietHasCompleted(end, c);
    }
  }

  // ----- what the window is for -----

  /** The stamps that a run adds lie between its start and its end. */
  lemma {:induction false} StampsInSpan(s: State, events: seq<Event>, start: real)
    requires Possible(s, events) && start <= s.uptime
    ensures s.uptime <= Run(s, events).uptime
    ensures CountIn(Run(s, events).refreshTimestamps, start, Run(s, events).uptime)
            >= CountIn(s.refreshTimestamps, start, s.uptime) + Started(s, events)
    decreases |events|
  {
    hide Step, CountIn;
    if events != [] {
      StampInSpan(s, events[0], start);
      StampsInSpan(Step(s, events[0]), events[1..], start);
    }
  }

  lemma StampInSpan(s: State, e: Event, start: real)
    requires Enabled(s, e) && start <= s.uptime
    ensures s.uptime <= Step(s, e).uptime
    ensures CountIn(Step(s, e).refreshTimestamps, start, Step(s, e).uptime)
            >= CountIn(s.refreshTimestamps, start, s.uptime) + |Step(s, e).refreshTimestamps| - |s.refreshTimestamps|
  {
    hide CountIn;
    OneStamp(s, e);
    var s' := Step(s, e);
    CountMonotone(s.refreshTimestamps, start, s.uptime, e.stamped);
    if s'.refreshTimestamps != s.refreshTimestamps {
      CountAppend(s.refreshTimestamps, e.stamped, start, e.stamped);
    }
  }

  lemma OneStamp(s: State, e: Event)
    requires Enabled(s, e)
    ensures Step(s, e).uptime == e.stamped
    ensures Step(s, e).refreshTimestamps in {s.refreshTimestamps, s.refreshTimestamps + [e.stamped]}
  {
    hide Excessive;
  }

  lemma {:induction false} CountMonotone(ts: seq<real>, from: real, to: real, to': real)
    requires to <= to'
    ensures CountIn(ts, from, to) <= CountIn(ts, from, to')
  {
    if ts != [] {
      CountMonotone(ts[..|ts| - 1], from, to, to');
    }
  }

  lemma CountAppend(ts: seq<real>, t: real, from: real, to: real)
    ensures CountIn(ts + [t], from, to) == CountIn(ts, from, to) + (if from <= t <= to then 1 else 0)
  {
    assert (ts + [t])[..|ts|] == ts;
  }

  /** With a window, the interceptor can take only so many steps by itself within any time
      span of the window's length, whatever the credentials. */
  lemma WindowBoundsSteps(s: State, events: seq<Event>)
    requires Coordinated(s) && RateLimited(s) && s.window.Some? && ClientFreeRun(s, events) && Possible(s, events)
    requires Run(s, events).uptime - s.uptime <= s.window.value.interval
    ensures |events| <= Potential(s, Open(s)) + Allowed(s.window.value) * (2 * Open(s) + 3)
  {
    hide Potential, Open, Coordinated, CountIn, Run, Possible, ClientFreeRun;
    var k := Open(s);
    ClientFreeBounded(s, events, k);
    SlidingWindow(s, events);
    StampsInSpan(s, events, s.uptime);
    Monotone(Started(s, events), Allowed(s.window.value), 2 * k + 3);
  }

  /** The window lets a refresh through at all. */
  predicate AllowsRefresh(window: Option<RefreshWindow>) {
    window.None? || window.value.maximumAttempts >= 1
  }

  lemma {:induction false} NeverStarts(s: State, events: seq<Event>)
    requires Possible(s, events) && !AllowsRefresh(s.window)
    ensures Started(s, events) == 0
    decreases |events|
  {
    if events != [] {
      StepNeverStarts(s, events[0]);
      NeverStarts(Step(s, events[0]), events[1..]);
    }
  }

  lemma StepNeverStarts(s: State, e: Event)
    requires Enabled(s, e) && !AllowsRefresh(s.window)
    ensures Step(s, e).refreshTimestamps == s.refreshTimestamps && Step(s, e).window == s.window
  {
  }

  /** Client-free runs of any length are possible. */
  ghost predicate RunsFor(s: State, n: nat) {
    exists events :: |events| >= n && ClientFreeRun(s, events)
  }

  ghost predicate Endless(s: State) {
    forall n: nat :: RunsFor(s, n)
  }

  /** A window that lets no refresh through bounds every client-free run, whatever the
      credentials. */
  lemma ForbiddenBounded(s: State, events: seq<Event>)
    requires Coordinated(s) && !AllowsRefresh(s.window) && ClientFreeRun(s, events)
    ensures |events| <= Potential(s, Open(s))
  {
    hide Potential, Open, Coordinated, Run, ClientFreeRun;
    ClientFreeBounded(s, events, Open(s));
    NeverStarts(s, events);
  }

  // ----- going on for ever -----

  /** One call, handed in while the first credential needs a refresh. */
  function AfterOneAdapt(window: Option<RefreshWindow>): State {
    Step(Initial(Some(0), window, 0.0), Event(DoAdapt(AdaptCall(0), true), 0.0, 0.0))
  }

  /** A refresh on its way for one held-back adapt call, after n refreshes. */
  ghost predicate Cycling(s: State, call: Call, n: nat) {
    && s.isRefreshing && s.adaptOperations == [call] && s.requestsToRetry == [] && AllowsRefresh(s.window)
    && |s.queue| == 1 && s.queue[0].StartRefresh? && s.running == 0 && s.entering == [] && s.completed == []
    && |s.refreshTimestamps| == n && forall i | 0 <= i < n :: s.refreshTimestamps[i] <= s.uptime
  }

  lemma {:induction false} NoneSince(ts: seq<real>, last: real, from: real)
    requires last < from && forall i | 0 <= i < |ts| :: ts[i] <= last
    ensures CountSince(ts, from) == 0
  {
    if ts != [] {
      NoneSince(ts[..|ts| - 1], last, from);
    }
  }

  /** A time at which the window has room again. */
  function Later(s: State): real {
    if s.window.Some? && s.window.value.interval >= 0.0 then s.uptime + s.window.value.interval + 1.0 else s.uptime
  }

  /** One turn: the refresh succeeds, and some time later the call finds the new credential
      needing the next one. */
  function Turn(s: State): seq<Event> {
    [Event(DoRunQueue(true), s.uptime, s.uptime), Event(DoRefreshDone(Some(0), 0), s.uptime, s.uptime),
     Event(DoRunQueue(true), Later(s), Later(s)), Event(DoRunQueue(true), Later(s), Later(s))]
  }

  /** That turn in front of other events. */
  function TurnThen(s: State, rest: seq<Event>): seq<Event> {
    [Turn(s)[0]] + ([Turn(s)[1]] + ([Turn(s)[2]] + ([Turn(s)[3]] + rest)))
  }

  lemma OneTurn(s: State, call: Call, n: nat) returns (s': State)
    requires Cycling(s, call, n)
    ensures Cycling(s', call, n + 1)
    ensures forall rest :: ClientFreeRun(s', rest) ==> ClientFreeRun(s, TurnThen(s, rest))
  {
    var s1 := Step(s, Turn(s)[0]);
    var s2 := Step(s1, Turn(s)[1]);
    assert s2.refreshTimestamps == s.refreshTimestamps && s2.window == s.window && !s2.isRefreshing;
    NoneSince(s2.refreshTimestamps, s.uptime, if s.window.Some? then Later(s) - s.window.value.interval else s.uptime + 1.0);
    assert !Excessive(s2, Later(s));
    var s3 := Step(s2, Turn(s)[2]);
    s' := Step(s3, Turn(s)[3]);
    forall rest | ClientFreeRun(s', rest)
      ensures ClientFreeRun(s, TurnThen(s, rest))
    {
      RunFirst(s3, Turn(s)[3], rest);
      RunFirst(s2, Turn(s)[2], [Turn(s)[3]] + rest);
      RunFirst(s1, Turn(s)[1], [Turn(s)[2]] + ([Turn(s)[3]] + rest));
      RunFirst(s, Turn(s)[0], [Turn(s)[1]] + ([Turn(s)[2]] + ([Turn(s)[3]] + rest)));
    }
  }

  lemma RunFirst(s: State, e: Event, rest: seq<Event>)
    requires ClientFree(s, e) && ClientFreeRun(Step(s, e), rest)
    ensures ClientFreeRun(s, [e] + rest)
  {
    assert ([e] + rest)[1..] == rest;
  }

  lemma {:induction false} EndlessRefreshes(s: State, call: Call, n: nat, turns: nat) returns (events: seq<Event>)
    requires Cycling(s, call, n)
    ensures |events| == 4 * turns && ClientFreeRun(s, events)
    decreases turns
  {
    hide Cycling, ClientFreeRun, Turn;
    events := [];
    if turns > 0 {
      var s' := OneTurn(s, call, n);
      var rest := EndlessRefreshes(s', call, n + 1, turns - 1);
      events := TurnThen(s, rest);
    } else {
      NoEvents(s);
    }
  }

  lemma NoEvents(s: State)
    ensures ClientFreeRun(s, [])
  {
  }

  /** Exactly when the interceptor can be kept busy for ever by itself: without a window, or
      with any window that lets a single refresh through. One adapt call is then enough. */
  lemma EndlessExactly(window: Option<RefreshWindow>)
    ensures Endless(AfterOneAdapt(window)) <==> AllowsRefresh(window)
    ensures (exists s :: Coordinated(s) && s.window == window && Endless(s)) <==> AllowsRefresh(window)
  {
    hide Coordinated, Endless, AfterOneAdapt;
    OneAdaptReachable(window);
    if AllowsRefresh(window) {
      BusyForEver(window);
    } else {
      forall s | Coordinated(s) && s.window == window
        ensures !Endless(s)
      {
        ForbiddenEnds(s);
      }
    }
  }

  lemma OneAdaptReachable(window: Option<RefreshWindow>)
    ensures Coordinated(AfterOneAdapt(window)) && AfterOneAdapt(window).window == window
  {
    hide Coordinated, RateLimited, Step;
    var s, e := Initial(Some(0), window, 0.0), Event(DoAdapt(AdaptCall(0), true), 0.0, 0.0);
    InitialState(Some(0), window, 0.0);
    StepConserves(s, e, AdaptCall(0));
    StepKeepsRate(s, e);
  }

  lemma BusyForEver(window: Option<RefreshWindow>)
    requires AllowsRefresh(window)
    ensures Endless(AfterOneAdapt(window))
  {
    var s0 := AfterOneAdapt(window);
    assert Cycling(s0, AdaptCall(0), 1);
    forall n: nat
      ensures RunsFor(s0, n)
    {
      var events := EndlessRefreshes(s0, AdaptCall(0), 1, n);
      assert |events| >= n && ClientFreeRun(s0, events);
    }
  }

  lemma ForbiddenEnds(s: State)
    requires Coordinated(s) && !AllowsRefresh(s.window)
    ensures !Endless(s)
  {
    if Endless(s) {
      var n: nat := Potential(s, Open(s)) + 1;
      assert RunsFor(s, n);
      var events :| |events| >= n && ClientFreeRun(s, events);
      ForbiddenBounded(s, events);
    }
  }
}
