// Alamofire's RequestTaskMap: a two-way map of requests and tasks, with the events
// that decide when an association ends.
module RequestTaskMap {
  import opened Wrappers

  datatype Events = Events(completed: bool, metricsGathered: bool)

  // The three dictionaries.
  datatype Maps<!Request, !Task> = Maps(
    tasksToRequests: map<Task, Request>,
    requestsToTasks: map<Request, Task>,
    taskEvents: map<Task, Events>)
  {
    // The two maps are inverse to each other, every task has its events, and no
    // task has had both of them.
    ghost predicate Consistent() {
      && (forall t :: t in tasksToRequests ==>
           tasksToRequests[t] in requestsToTasks && requestsToTasks[tasksToRequests[t]] == t)
      && (forall r :: r in requestsToTasks ==>
           requestsToTasks[r] in tasksToRequests && tasksToRequests[requestsToTasks[r]] == r)
      && taskEvents.Keys == tasksToRequests.Keys
      && (forall t :: t in taskEvents ==> taskEvents[t] != Events(true, true))
    }

    // Associate a request and a task.
    function Associate(r: Request, t: Task): Maps<Request, Task> {
      Maps(tasksToRequests[t := r], requestsToTasks[r := t], taskEvents[t := Events(false, false)])
    }

    // Remove an association.
    function Dissociate(r: Request, t: Task): Maps<Request, Task> {
      Maps(tasksToRequests - {t}, requestsToTasks - {r}, taskEvents - {t})
    }
  }

  // An association keeps the maps consistent exactly if each side was free or
  // already associated with the other.
  lemma AssociateConsistent<Request, Task>(m: Maps<Request, Task>, r: Request, t: Task)
    requires m.Consistent()
    ensures m.Associate(r, t).Consistent() <==>
      (r in m.requestsToTasks ==> m.requestsToTasks[r] == t) && (t in m.tasksToRequests ==> m.tasksToRequests[t] == r)
  {
    var m' := m.Associate(r, t);
    if r in m.requestsToTasks && m.requestsToTasks[r] != t {
      var t' := m.requestsToTasks[r];
      assert t' in m'.tasksToRequests && m'.tasksToRequests[t'] == r && m'.requestsToTasks[r] == t;
    } else if t in m.tasksToRequests && m.tasksToRequests[t] != r {
      var r' := m.tasksToRequests[t];
      assert r' in m'.requestsToTasks && m'.requestsToTasks[r'] == t && m'.tasksToRequests[t] == r;
    }
  }

  // Inverse maps have the same size, so the preconditions of count, eventCount,
  // isEmpty and isEventsEmpty hold.
  lemma {:induction false} SameCount<Request, Task>(m: Maps<Request, Task>)
    requires m.Consistent()
    ensures |m.tasksToRequests| == |m.requestsToTasks| == |m.taskEvents|
    decreases |m.tasksToRequests|
  {
    assert m.taskEvents.Keys == m.tasksToRequests.Keys;
    if m.tasksToRequests == map[] {
      assert m.requestsToTasks == map[] by {
        if r :| r in m.requestsToTasks {
          assert m.requestsToTasks[r] in m.tasksToRequests;
        }
      }
    } else {
      var t :| t in m.tasksToRequests;
      var r := m.tasksToRequests[t];
      var m' := m.Dissociate(r, t);
      assert m'.tasksToRequests.Keys == m.tasksToRequests.Keys - {t};
      assert m'.requestsToTasks.Keys == m.requestsToTasks.Keys - {r};
      SameCount(m');
    }
  }

  class Map<Request(==), Task(==)> {
    var tasksToRequests: map<Task, Request>
    var requestsToTasks: map<Request, Task>
    var taskEvents: map<Task, Events>

    ghost function Now(): Maps<Request, Task>
      reads this
    {
      Maps(tasksToRequests, requestsToTasks, taskEvents)
    }

    constructor ()
      ensures Now() == Maps(map[], map[], map[]) && Now().Consistent()
    {
      tasksToRequests, requestsToTasks, taskEvents := map[], map[], map[];
    }

    // Set a request's task, or remove it with None.  `fatal` stands for the
    // fatalError that a request without a task runs into.
    method SetTask(request: Request, newValue: Option<Task>) returns (fatal: bool)
      modifies this
      ensures fatal <==> newValue.None? && request !in old(requestsToTasks)
      ensures fatal ==> Now() == old(Now())
      ensures newValue.Some? ==> Now() == old(Now()).Associate(request, newValue.value)
      ensures newValue.None? && !fatal ==> Now() == old(Now()).Dissociate(request, old(requestsToTasks)[request])
    {
      match newValue
      case None =>
        if request !in requestsToTasks {
          return true;
        }
        var task := requestsToTasks[request];
        requestsToTasks := requestsToTasks - {request};
        tasksToRequests := tasksToRequests - {task};
        taskEvents := taskEvents - {task};
        fatal := false;
      case Some(task) =>
        requestsToTasks := requestsToTasks[request := task];
        tasksToRequests := tasksToRequests[task := request];
        taskEvents := taskEvents[task := Events(false, false)];
        fatal := false;
    }

    // Set a task's request, or remove it with None.
    method SetRequest(task: Task, newValue: Option<Request>) returns (fatal: bool)
      modifies this
      ensures fatal <==> newValue.None? && task !in old(tasksToRequests)
      ensures fatal ==> Now() == old(Now())
      ensures newValue.Some? ==> Now() == old(Now()).Associate(newValue.value, task)
      ensures newValue.None? && !fatal ==> Now() == old(Now()).Dissociate(old(tasksToRequests)[task], task)
    {
      match newValue
      case None =>
        if task !in tasksToRequests {
          return true;
        }
        var request := tasksToRequests[task];
        tasksToRequests := tasksToRequests - {task};
        requestsToTasks := requestsToTasks - {request};
        taskEvents := taskEvents - {task};
        fatal := false;
      case Some(request) =>
        tasksToRequests := tasksToRequests[task := request];
        requestsToTasks := requestsToTasks[request := task];
        taskEvents := taskEvents[task := Events(false, false)];
        fatal := false;
    }

    // disassociateIfNecessaryAfterGatheringMetricsForTask
    method AfterGatheringMetrics(task: Task) returns (fatal: bool, removed: bool)
      requires Now().Consistent()
      modifies this
      ensures match Step(old(Now()), Metrics(task))
        case None => fatal && Now() == old(Now())
        case Some(m) => !fatal && Now() == m && (removed <==> task !in tasksToRequests)
    {
      removed := false;
      if task !in taskEvents {
        return true, false;
      }
      var events := taskEvents[task];
      if events.metricsGathered {
        return true, false;
      }
      if events.completed {
        fatal := SetRequest(task, None);
        removed := true;
      } else {
        taskEvents := taskEvents[task := Events(false, true)];
        fatal := false;
      }
    }

    // disassociateIfNecessaryAfterCompletingTask, except on watchOS
    method AfterCompleting(task: Task) returns (fatal: bool, removed: bool)
      requires Now().Consistent()
      modifies this
      ensures match Step(old(Now()), Completed(task))
        case None => fatal && Now() == old(Now())
        case Some(m) => !fatal && Now() == m && (removed <==> task !in tasksToRequests)
    {
      removed := false;
      if task !in taskEvents {
        return true, false;
      }
      var events := taskEvents[task];
      if events.completed {
        return true, false;
      }
      if events.metricsGathered {
        fatal := SetRequest(task, None);
        removed := true;
      } else {
        taskEvents := taskEvents[task := Events(true, false)];
        fatal := false;
      }
    }
  }

  // ---------------------------------------------------------------- whole runs

  datatype Action<Request, Task> =
    | Begin(request: Request, task: Task)   // a new association
    | Completed(task: Task)
    | Metrics(task: Task)
    | Drop(task: Task)                      // removed by hand

  // One action; None if it is fatal, or associates a request or task in use.
  function Step<Request(==), Task(==)>(m: Maps<Request, Task>, a: Action<Request, Task>): Option<Maps<Request, Task>> {
    match a
    case Begin(r, t) =>
      if r in m.requestsToTasks || t in m.tasksToRequests then None else Some(m.Associate(r, t))
    case Completed(t) =>
      if t !in m.taskEvents || t !in m.tasksToRequests || m.taskEvents[t].completed then None
      else if m.taskEvents[t].metricsGathered then Some(m.Dissociate(m.tasksToRequests[t], t))
      else Some(m.(taskEvents := m.taskEvents[t := Events(true, false)]))
    case Metrics(t) =>
      if t !in m.taskEvents || t !in m.tasksToRequests || m.taskEvents[t].metricsGathered then None
      else if m.taskEvents[t].completed then Some(m.Dissociate(m.tasksToRequests[t], t))
      else Some(m.(taskEvents := m.taskEvents[t := Events(false, true)]))
    case Drop(t) =>
      if t !in m.tasksToRequests then None else Some(m.Dissociate(m.tasksToRequests[t], t))
  }

  function Run<Request(==), Task(==)>(actions: seq<Action<Request, Task>>): Option<Maps<Request, Task>> {
    if actions == [] then Some(Maps(map[], map[], map[])) else
    match Run(actions[..|actions| - 1])
    case None => None
    case Some(m) => Step(m, actions[|actions| - 1])
  }

  // The actions since t was last associated; None if it never was.
  function SinceBegin<Request, Task(==)>(actions: seq<Action<Request, Task>>, t: Task)
    : Option<seq<Action<Request, Task>>>
  {
    if actions == [] then None else
    var last := actions[|actions| - 1];
    if last.Begin? && last.task == t then Some([]) else
    match SinceBegin(actions[..|actions| - 1], t)
    case None => None
    case Some(since) => Some(since + [last])
  }

  // A task is associated exactly from its association on until both events have
  // come, in either order, or it is dropped; its record says which have come.
  ghost predicate AccurateAt<Request, Task>(m: Maps<Request, Task>, actions: seq<Action<Request, Task>>, t: Task) {
    match SinceBegin(actions, t)
    case None => t !in m.tasksToRequests
    case Some(since) =>
      var completed := Completed(t) in since;
      var metrics := Metrics(t) in since;
      && (t in m.tasksToRequests <==> !(completed && metrics) && Drop(t) !in since)
      && (t in m.tasksToRequests && t in m.taskEvents ==> m.taskEvents[t] == Events(completed, metrics))
  }

  lemma {:induction false} StepConsistent<Request, Task>(m: Maps<Request, Task>, a: Action<Request, Task>)
    requires m.Consistent() && Step(m, a).Some?
    ensures Step(m, a).value.Consistent()
  {
    if a.Begin? {
      AssociateConsistent(m, a.request, a.task);
    }
  }

  lemma StepAccurate<Request, Task>(m: Maps<Request, Task>, before: seq<Action<Request, Task>>,
                                    a: Action<Request, Task>, t: Task)
    requires m.Consistent() && AccurateAt(m, before, t) && Step(m, a).Some?
    ensures AccurateAt(Step(m, a).value, before + [a], t)
  {
    var actions := before + [a];
    assert actions[..|actions| - 1] == before;
  }

  // Over every run, the maps stay mutually inverse with one record per task, and
  // a task leaves them exactly at the second of its two events.
  lemma {:induction false} RunAccurate<Request, Task>(actions: seq<Action<Request, Task>>, t: Task)
    requires Run(actions).Some?
    ensures Run(actions).value.Consistent()
    ensures AccurateAt(Run(actions).value, actions, t)
    decreases |actions|
  {
    if actions != [] {
      var before := actions[..|actions| - 1];
      var a := actions[|actions| - 1];
      RunAccurate(before, t);
      StepConsistent(Run(before).value, a);
      StepAccurate(Run(before).value, before, a, t);
      assert before + [a] == actions;
    }
  }
}
