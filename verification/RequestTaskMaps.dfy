/** The two-way index of tasks and requests with its table of task events. */
module RequestTaskMaps {
  import opened Options

  type Task = nat
  type Request = nat

  datatype Events = Events(completed: bool, metricsGathered: bool)

  datatype Index = Index(tasksToRequests: map<Task, Request>, requestsToTasks: map<Request, Task>, taskEvents: map<Task, Events>)

  /** What a call comes to: a value, or a consistency error that stops the program. */
  datatype Outcome<+T> = Done(value: T) | FatalError

  const Empty := Index(map[], map[], map[])

  // ----- what the index promises -----

  /** The two maps are inverse to each other, and the events are those of the live tasks. */
  ghost predicate Consistent(m: Index) {
    && (forall t | t in m.tasksToRequests ::
          m.tasksToRequests[t] in m.requestsToTasks && m.requestsToTasks[m.tasksToRequests[t]] == t)
    && (forall r | r in m.requestsToTasks ::
          m.requestsToTasks[r] in m.tasksToRequests && m.tasksToRequests[m.requestsToTasks[r]] == r)
    && m.taskEvents.Keys == m.tasksToRequests.Keys
  }

  function Inserted(m: Index, t: Task, r: Request): Index {
    Index(m.tasksToRequests[t := r], m.requestsToTasks[r := t], m.taskEvents[t := Events(false, false)])
  }

  function Removed(m: Index, t: Task, r: Request): Index {
    Index(m.tasksToRequests - {t}, m.requestsToTasks - {r}, m.taskEvents - {t})
  }

  function Marked(m: Index, t: Task, e: Events): Index {
    m.(taskEvents := m.taskEvents[t := e])
  }

  /** Inserting keeps the index consistent exactly for a fresh pair or one already there:
      a task or request that is tied elsewhere leaves a stale entry behind. */
  lemma InsertKeeps(m: Index, t: Task, r: Request)
    requires Consistent(m)
    ensures Consistent(Inserted(m, t, r)) <==>
            (t !in m.tasksToRequests && r !in m.requestsToTasks)
            || (t in m.tasksToRequests && m.tasksToRequests[t] == r)
  {
    var m' := Inserted(m, t, r);
    if t in m.tasksToRequests && m.tasksToRequests[t] != r {
      assert m'.requestsToTasks[m.tasksToRequests[t]] == t;
    }
    if r in m.requestsToTasks && m.requestsToTasks[r] != t {
      assert m'.tasksToRequests[m.requestsToTasks[r]] == r;
    }
  }

  lemma RemoveKeeps(m: Index, t: Task)
    requires Consistent(m) && t in m.tasksToRequests
    ensures Consistent(Removed(m, t, m.tasksToRequests[t]))
  {
  }

  lemma {:induction false} InverseSizes(m: map<nat, nat>, n: map<nat, nat>)
    requires forall t | t in m :: m[t] in n && n[m[t]] == t
    requires forall r | r in n :: n[r] in m && m[n[r]] == r
    ensures |m.Keys| == |n.Keys|
    decreases |m.Keys|
  {
    if t :| t in m {
      var r := m[t];
      InverseSizes(m - {t}, n - {r});
      assert (m - {t}).Keys == m.Keys - {t} && (n - {r}).Keys == n.Keys - {r};
    } else {
      assert n.Keys == {};
    }
  }

  /** The counts that the properties count, eventCount and isEmpty insist on agree. */
  lemma CountsAgree(m: Index)
    requires Consistent(m)
    ensures |m.tasksToRequests.Keys| == |m.requestsToTasks.Keys| == |m.taskEvents.Keys|
  {
    InverseSizes(m.tasksToRequests, m.requestsToTasks);
  }

  // ----- runs -----

  datatype Action =
    | Insert(task: Task, request: Request)
    | RemoveTask(task: Task)
    | RemoveRequest(request: Request)
    | MetricsGathered(task: Task)
    | Completed(task: Task)

  function RemovedTask(m: Index, t: Task): Outcome<Index> {
    if t in m.tasksToRequests then Done(Removed(m, t, m.tasksToRequests[t])) else FatalError
  }

  function RemovedRequest(m: Index, r: Request): Outcome<Index> {
    if r in m.requestsToTasks then Done(Removed(m, m.requestsToTasks[r], r)) else FatalError
  }

  /** The new index, with whether the task was disassociated. */
  function AfterMetrics(m: Index, t: Task): Outcome<(Index, bool)> {
    if t !in m.taskEvents || m.taskEvents[t].metricsGathered then FatalError
    else if m.taskEvents[t].completed then
      match RemovedTask(m, t)
      case Done(m') => Done((m', true))
      case FatalError => FatalError
    else Done((Marked(m, t, Events(false, true)), false))
  }

  /** `gathers` says whether the platform gathers metrics. */
  function AfterCompletion(m: Index, t: Task, gathers: bool): Outcome<(Index, bool)> {
    if t !in m.taskEvents || m.taskEvents[t].completed then FatalError
    else if gathers && !m.taskEvents[t].metricsGathered then Done((Marked(m, t, Events(true, false)), false))
    else
      match RemovedTask(m, t)
      case Done(m') => Done((m', true))
      case FatalError => FatalError
  }

  function Step(m: Index, a: Action, gathers: bool): Outcome<(Index, bool)> {
    match a
    case Insert(t, r) => Done((Inserted(m, t, r), false))
    case RemoveTask(t) => (match RemovedTask(m, t) case Done(m') => Done((m', true)) case FatalError => FatalError)
    case RemoveRequest(r) => (match RemovedRequest(m, r) case Done(m') => Done((m', true)) case FatalError => FatalError)
    case MetricsGathered(t) => AfterMetrics(m, t)
    case Completed(t) => AfterCompletion(m, t, gathers)
  }

  /** A run that meets no consistency error and inserts fresh pairs only. */
  predicate Possible(m: Index, actions: seq<Action>, gathers: bool)
    decreases |actions|
  {
    actions == []
    || (&& Step(m, actions[0], gathers).Done?
        && (actions[0].Insert? ==> actions[0].task !in m.tasksToRequests && actions[0].request !in m.requestsToTasks)
        && Possible(Step(m, actions[0], gathers).value.0, actions[1..], gathers))
  }

  function Run(m: Index, actions: seq<Action>, gathers: bool): Index
    requires Possible(m, actions, gathers)
    decreases |actions|
  {
    if actions == [] then m else Run(Step(m, actions[0], gathers).value.0, actions[1..], gathers)
  }

  lemma StepKeeps(m: Index, a: Action, gathers: bool)
    requires Consistent(m) && Step(m, a, gathers).Done?
    requires a.Insert? ==> a.task !in m.tasksToRequests && a.request !in m.requestsToTasks
    ensures Consistent(Step(m, a, gathers).value.0)
  {
    match a
    case Insert(t, r) => InsertKeeps(m, t, r);
    case RemoveTask(t) => RemoveKeeps(m, t);
    case RemoveRequest(r) => RemoveKeeps(m, m.requestsToTasks[r]);
    case MetricsGathered(t) => RemoveKeeps(m, t);
    case Completed(t) => RemoveKeeps(m, t);
  }

  /** Over every run the two maps stay inverse and the events those of the live tasks. */
  lemma {:induction false} RunKeeps(m: Index, actions: seq<Action>, gathers: bool)
    requires Consistent(m) && Possible(m, actions, gathers)
    ensures Consistent(Run(m, actions, gathers))
    decreases |actions|
  {
    if actions != [] {
      StepKeeps(m, actions[0], gathers);
      RunKeeps(Step(m, actions[0], gathers).value.0, actions[1..], gathers);
    }
  }

  /** The removals of live entries never meet a consistency error, by either key. */
  lemma RemovalsAgree(m: Index, t: Task)
    requires Consistent(m) && t in m.tasksToRequests
    ensures RemovedRequest(m, m.tasksToRequests[t]) == RemovedTask(m, t)
  {
  }

  /** Exactly the live entries can be removed or have events, by either key. */
  lemma LiveExactly(m: Index, t: Task, r: Request, gathers: bool)
    requires Consistent(m)
    ensures RemovedTask(m, t).Done? <==> exists q :: q in m.requestsToTasks && m.requestsToTasks[q] == t
    ensures RemovedRequest(m, r).Done? <==> exists u :: u in m.tasksToRequests && m.tasksToRequests[u] == r
    ensures RemovedTask(m, t) == FatalError ==> AfterMetrics(m, t) == FatalError && AfterCompletion(m, t, gathers) == FatalError
  {
    if t in m.tasksToRequests {
      assert m.tasksToRequests[t] in m.requestsToTasks;
    }
    if r in m.requestsToTasks {
      assert m.requestsToTasks[r] in m.tasksToRequests;
    }
  }

  /** A removal takes the pair out of all three tables and nothing else: every further access
      to it is a consistency error, and a fresh pair that is put in and removed leaves no trace. */
  lemma RemovedIsGone(m: Index, t: Task, r: Request, gathers: bool)
    requires Consistent(m) && t !in m.tasksToRequests && r !in m.requestsToTasks
    ensures RemovedTask(Inserted(m, t, r), t) == RemovedRequest(Inserted(m, t, r), r) == Done(m)
    ensures RemovedTask(m, t) == RemovedRequest(m, r) == FatalError
    ensures AfterMetrics(m, t) == AfterCompletion(m, t, gathers) == FatalError
  {
    assert m.tasksToRequests[t := r] - {t} == m.tasksToRequests;
    assert m.requestsToTasks[r := t] - {r} == m.requestsToTasks;
    assert m.taskEvents[t := Events(false, false)] - {t} == m.taskEvents;
  }

  // ----- a task's two events -----

  predicate Leaves(a: Action, t: Task, r: Request) {
    match a
    case Insert(t', r') => t' != t
    case RemoveTask(t') => t' != t
    case RemoveRequest(r') => r' != r
    case _ => true
  }

  /** Nothing but its two events touches the task, live or gone. */
  predicate Undisturbed(actions: seq<Action>, t: Task, r: Request) {
    forall i | 0 <= i < |actions| :: Leaves(actions[i], t, r)
  }

  /** The task is live until both of its events have happened, and its entry in the table
      says which one has. */
  predicate Tracks(m: Index, t: Task, r: Request, completed: bool, metrics: bool) {
    if completed && metrics then t !in m.tasksToRequests
    else t in m.tasksToRequests && m.tasksToRequests[t] == r
         && t in m.taskEvents && m.taskEvents[t] == Events(completed, metrics)
  }

  lemma StepTracks(m: Index, a: Action, t: Task, r: Request, completed: bool, metrics: bool)
    requires Consistent(m) && Step(m, a, true).Done? && Tracks(m, t, r, completed, metrics)
    requires a.Insert? ==> a.task !in m.tasksToRequests && a.request !in m.requestsToTasks
    requires Leaves(a, t, r)
    ensures Tracks(Step(m, a, true).value.0, t, r, completed || a == Completed(t), metrics || a == MetricsGathered(t))
    ensures a == Completed(t) ==> !completed && Step(m, a, true).value.1 == metrics
    ensures a == MetricsGathered(t) ==> !metrics && Step(m, a, true).value.1 == completed
  {
  }

  /** On platforms that gather metrics, in every run after the task's insertion, whatever
      happens to other tasks: the task is gone exactly when both of its events happened. */
  lemma {:induction false} GoneAfterBoth(m: Index, actions: seq<Action>, t: Task, r: Request, completed: bool, metrics: bool)
    requires Consistent(m) && Possible(m, actions, true) && Undisturbed(actions, t, r)
    requires Tracks(m, t, r, completed, metrics)
    ensures Tracks(Run(m, actions, true), t, r, completed || Completed(t) in actions, metrics || MetricsGathered(t) in actions)
    decreases |actions|
  {
    if actions != [] {
      var a, rest := actions[0], actions[1..];
      assert actions == [a] + rest;
      StepKeeps(m, a, true);
      StepTracks(m, a, t, r, completed, metrics);
      GoneAfterBoth(Step(m, a, true).value.0, rest, t, r, completed || a == Completed(t), metrics || a == MetricsGathered(t));
    }
  }

  /** After the insertion of a fresh pair and any such run, each of the task's events is
      accepted exactly once, and disassociates the task exactly when it is the second. */
  lemma SecondEventDisassociates(m: Index, t: Task, r: Request, actions: seq<Action>)
    requires Consistent(m) && t !in m.tasksToRequests && r !in m.requestsToTasks
    requires Possible(Inserted(m, t, r), actions, true) && Undisturbed(actions, t, r)
    ensures var m' := Run(Inserted(m, t, r), actions, true);
            var metrics, completion := AfterMetrics(m', t), AfterCompletion(m', t, true);
            && (metrics.Done? <==> MetricsGathered(t) !in actions)
            && (metrics.Done? ==> metrics.value.1 == (Completed(t) in actions))
            && (completion.Done? <==> Completed(t) !in actions)
            && (completion.Done? ==> completion.value.1 == (MetricsGathered(t) in actions))
            && (t in m'.tasksToRequests <==> !(MetricsGathered(t) in actions && Completed(t) in actions))
  {
    InsertKeeps(m, t, r);
    GoneAfterBoth(Inserted(m, t, r), actions, t, r, false, false);
    RunKeeps(Inserted(m, t, r), actions, true);
  }

  // ----- where metrics are not gathered -----

  /** The task is live until its completion, whether or not metrics turn up. */
  predicate Awaits(m: Index, t: Task, r: Request, completed: bool) {
    if completed then t !in m.tasksToRequests
    else t in m.tasksToRequests && m.tasksToRequests[t] == r && t in m.taskEvents && !m.taskEvents[t].completed
  }

  lemma StepAwaits(m: Index, a: Action, t: Task, r: Request, completed: bool)
    requires Consistent(m) && Step(m, a, false).Done? && Awaits(m, t, r, completed)
    requires a.Insert? ==> a.task !in m.tasksToRequests && a.request !in m.requestsToTasks
    requires Leaves(a, t, r)
    ensures Awaits(Step(m, a, false).value.0, t, r, completed || a == Completed(t))
    ensures a == Completed(t) ==> Step(m, a, false).value.1
    ensures a == MetricsGathered(t) ==> !Step(m, a, false).value.1
  {
  }

  /** Where metrics are not gathered, in every run after its insertion, a task is gone
      exactly when its completion happened. */
  lemma {:induction false} GoneAfterCompletion(m: Index, actions: seq<Action>, t: Task, r: Request, completed: bool)
    requires Consistent(m) && Possible(m, actions, false) && Undisturbed(actions, t, r)
    requires Awaits(m, t, r, completed)
    ensures Awaits(Run(m, actions, false), t, r, completed || Completed(t) in actions)
    decreases |actions|
  {
    if actions != [] {
      var a, rest := actions[0], actions[1..];
      assert actions == [a] + rest;
      StepKeeps(m, a, false);
      StepAwaits(m, a, t, r, completed);
      GoneAfterCompletion(Step(m, a, false).value.0, rest, t, r, completed || a == Completed(t));
    }
  }

  /** After the insertion of a fresh pair and any such run, a completion is accepted
      exactly if it is the first, and disassociates the task. */
  lemma CompletionDisassociates(m: Index, t: Task, r: Request, actions: seq<Action>)
    requires Consistent(m) && t !in m.tasksToRequests && r !in m.requestsToTasks
    requires Possible(Inserted(m, t, r), actions, false) && Undisturbed(actions, t, r)
    ensures var m' := Run(Inserted(m, t, r), actions, false);
            var completion := AfterCompletion(m', t, false);
            && (t in m'.tasksToRequests <==> Completed(t) !in actions)
            && (completion.Done? <==> Completed(t) !in actions)
            && (completion.Done? ==> completion.value.1 && t !in completion.value.0.tasksToRequests)
  {
    InsertKeeps(m, t, r);
    GoneAfterCompletion(Inserted(m, t, r), actions, t, r, false);
    RunKeeps(Inserted(m, t, r), actions, false);
  }

  // ----- the struct -----

  class RequestTaskMap {
    var tasksToRequests: map<Task, Request>
    var requestsToTasks: map<Request, Task>
    var taskEvents: map<Task, Events>
    const gathersMetrics: bool

    ghost function Now(): Index
      reads this
    {
      Index(tasksToRequests, requestsToTasks, taskEvents)
    }

    constructor (gathersMetrics: bool)
      ensures Now() == Empty && Consistent(Now()) && this.gathersMetrics == gathersMetrics
    {
      tasksToRequests, requestsToTasks, taskEvents := map[], map[], map[];
      this.gathersMetrics := gathersMetrics;
    }

    function TaskOf(request: Request): (t: Option<Task>)
      reads this
      ensures Consistent(Now()) ==>
                forall task :: t == Some(task) <==> task in tasksToRequests && tasksToRequests[task] == request
    {
      if request in requestsToTasks then Some(requestsToTasks[request]) else None
    }

    function RequestOf(task: Task): (r: Option<Request>)
      reads this
      ensures Consistent(Now()) ==>
                forall request :: r == Some(request) <==> request in requestsToTasks && requestsToTasks[request] == task
    {
      if task in tasksToRequests then Some(tasksToRequests[task]) else None
    }

    /** The setter keyed by a request; None removes. */
    method SetTask(request: Request, newValue: Option<Task>) returns (o: Outcome<()>)
      modifies this
      ensures o.FatalError? ==> Now() == old(Now())
      ensures newValue.Some? ==> o.Done? && Now() == Inserted(old(Now()), newValue.value, request)
      ensures newValue.None? ==>
                match RemovedRequest(old(Now()), request)
                case Done(m) => o.Done? && Now() == m
                case FatalError => o.FatalError?
    {
      if newValue.None? {
        if request !in requestsToTasks {
          return FatalError;
        }
        var task := requestsToTasks[request];
        requestsToTasks := requestsToTasks - {request};
        tasksToRequests := tasksToRequests - {task};
        taskEvents := taskEvents - {task};
        return Done(());
      }
      requestsToTasks := requestsToTasks[request := newValue.value];
      tasksToRequests := tasksToRequests[newValue.value := request];
      taskEvents := taskEvents[newValue.value := Events(false, false)];
      return Done(());
    }

    /** The setter keyed by a task; None removes. */
    method SetRequest(task: Task, newValue: Option<Request>) returns (o: Outcome<()>)
      modifies this
      ensures o.FatalError? ==> Now() == old(Now())
      ensures newValue.Some? ==> o.Done? && Now() == Inserted(old(Now()), task, newValue.value)
      ensures newValue.None? ==>
                match RemovedTask(old(Now()), task)
                case Done(m) => o.Done? && Now() == m
                case FatalError => o.FatalError?
    {
      if newValue.None? {
        if task !in tasksToRequests {
          return FatalError;
        }
        var request := tasksToRequests[task];
        tasksToRequests := tasksToRequests - {task};
        requestsToTasks := requestsToTasks - {request};
        taskEvents := taskEvents - {task};
        return Done(());
      }
      tasksToRequests := tasksToRequests[task := newValue.value];
      requestsToTasks := requestsToTasks[newValue.value := task];
      taskEvents := taskEvents[task := Events(false, false)];
      return Done(());
    }

    method DisassociateIfNecessaryAfterGatheringMetrics(task: Task) returns (o: Outcome<bool>)
      modifies this
      ensures match AfterMetrics(old(Now()), task)
              case Done(r) => o == Done(r.1) && Now() == r.0
              case FatalError => o.FatalError? && Now() == old(Now())
    {
      if task !in taskEvents {
        return FatalError;
      }
      var events := taskEvents[task];
      if events.metricsGathered {
        return FatalError;
      } else if !events.completed {
        taskEvents := taskEvents[task := Events(false, true)];
        return Done(false);
      } else {
        var removed := SetRequest(task, None);
        return if removed.Done? then Done(true) else FatalError;
      }
    }

    method DisassociateIfNecessaryAfterCompleting(task: Task) returns (o: Outcome<bool>)
      modifies this
      ensures match AfterCompletion(old(Now()), task, gathersMetrics)
              case Done(r) => o == Done(r.1) && Now() == r.0
              case FatalError => o.FatalError? && Now() == old(Now())
    {
      if task !in taskEvents {
        return FatalError;
      }
      var events := taskEvents[task];
      if events.completed {
        return FatalError;
      } else if !events.metricsGathered && gathersMetrics {
        taskEvents := taskEvents[task := Events(true, false)];
        return Done(false);
      } else {
        var removed := SetRequest(task, None);
        return if removed.Done? then Done(true) else FatalError;
      }
    }
  }
}
