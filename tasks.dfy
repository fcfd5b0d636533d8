/**
 * The client's task registry. A task is a named unit of work with an
 * `enabled` flag (soft pause) and a one-way cancellation token; starting it
 * spawns a loop that re-reads both on every iteration. The manager keeps two
 * maps keyed by task name: the tasks, and the handles of their loops.
 */
module Tasks {
  import opened Common

  /** How long a paused loop sleeps before it looks at its flags again. */
  const PausePollMs: nat := 100

  /** What the loop waits for after an invocation of the unit of work. */
  datatype Delay = Sleep(ms: nat) | Yield

  /** What one iteration of a task's loop did. */
  datatype Iteration =
    | Paused(after: Delay)   // not enabled: invoked nothing, then slept PausePollMs
    | Exited                 // enabled and cancelled: the loop is over
    | Invoked(after: Delay)  // enabled and not cancelled: the unit of work ran once

  /**
   * One iteration of the loop in `Task::start`. The enabled flag is looked at
   * before the cancellation token, so a paused task does not notice that it
   * has been cancelled. The unit of work's own result is discarded, so it does
   * not appear here.
   */
  function LoopStep(enabled: bool, cancelled: bool, interval: Option<nat>): (it: Iteration)
    ensures it.Invoked? <==> enabled && !cancelled
    ensures it.Exited? <==> enabled && cancelled
    ensures it.Paused? <==> !enabled
    ensures it.Paused? ==> it.after == Sleep(PausePollMs)
    ensures it.Invoked? ==> it.after == if interval.Some? then Sleep(interval.value) else Yield
  {
    if !enabled then Paused(Sleep(PausePollMs))
    else if cancelled then Exited
    else Invoked(if interval.Some? then Sleep(interval.value) else Yield)
  }

  /**
   * `n` iterations of the loop while nobody touches its flags: how many times
   * the unit of work ran, and whether the loop ended.
   */
  function RunSteps(enabled: bool, cancelled: bool, n: nat): (nat, bool) {
    if n == 0 then (0, false)
    else match LoopStep(enabled, cancelled, None)
      case Exited => (0, true)
      case Paused(_) => RunSteps(enabled, cancelled, n - 1)
      case Invoked(_) => (RunSteps(enabled, cancelled, n - 1).0 + 1, RunSteps(enabled, cancelled, n - 1).1)
  }

  /** A paused loop never runs its unit of work and never ends, cancelled or not. */
  lemma {:induction false} PausedNeverExits(cancelled: bool, n: nat)
    ensures RunSteps(false, cancelled, n) == (0, false)
  {
    if n > 0 {
      PausedNeverExits(cancelled, n - 1);
    }
  }

  /** An enabled loop that has been cancelled ends at its next iteration without running. */
  lemma CancelledExitsAtOnce(n: nat)
    requires n > 0
    ensures RunSteps(true, true, n) == (0, true)
  {
  }

  /** An enabled loop that has not been cancelled runs its unit of work once per iteration. */
  lemma {:induction false} RunningInvokesEachIteration(n: nat)
    ensures RunSteps(true, false, n) == (n, false)
  {
    if n > 0 {
      RunningInvokesEachIteration(n - 1);
    }
  }

  /**
   * `Task`. The enabled flag and the cancellation token are shared with the
   * task's loop, which holds a reference to this object.
   */
  class Task {
    const name: string
    const metaData: map<string, string>
    const interval: Option<nat>   // milliseconds between invocations
    var enabled: bool
    var cancelled: bool

    /** A task built with a new cancellation token. */
    constructor (name: string, enabled: bool, metaData: map<string, string>, interval: Option<nat>)
      ensures this.name == name && this.metaData == metaData && this.interval == interval
      ensures this.enabled == enabled && !cancelled
    {
      this.name := name;
      this.metaData := metaData;
      this.interval := interval;
      this.enabled := enabled;
      this.cancelled := false;
    }

    /** `Task::pause`: clears the enabled flag. */
    method Pause()
      modifies this
      ensures !enabled && cancelled == old(cancelled)
    {
      enabled := false;
    }

    /** `Task::resume`: sets the enabled flag. */
    method Resume()
      modifies this
      ensures enabled && cancelled == old(cancelled)
    {
      enabled := true;
    }

    /** `Task::remove`: cancels the token; nothing ever un-cancels it. */
    method Remove()
      modifies this
      ensures cancelled && enabled == old(enabled)
    {
      cancelled := true;
    }
  }

  /** The loop spawned by `Task::start`; its join handle refers to it. */
  class TaskLoop {
    const task: Task
    var finished: bool
    var invocations: nat   // how many times the unit of work has run

    constructor (task: Task)
      ensures this.task == task && !finished && invocations == 0
    {
      this.task := task;
      finished := false;
      invocations := 0;
    }

    /** One iteration of the loop, reading the task's flags as they are now. */
    method Step() returns (it: Iteration)
      requires !finished
      modifies this
      ensures it == LoopStep(task.enabled, task.cancelled, task.interval)
      ensures finished <==> it.Exited?
      ensures invocations == old(invocations) + if it.Invoked? then 1 else 0
    {
      if !task.enabled {
        return Paused(Sleep(PausePollMs));
      }
      if task.cancelled {
        finished := true;
        return Exited;
      }
      invocations := invocations + 1;
      it := Invoked(if task.interval.Some? then Sleep(task.interval.value) else Yield);
    }

    /**
     * Awaiting the join handle once the token is cancelled. With the task
     * enabled, the loop's next iteration ends it without running the unit of
     * work. With the task paused, no iteration ever ends it (PausedNeverExits),
     * so the await never completes: `done` is false.
     */
    method Join() returns (done: bool)
      requires task.cancelled
      modifies this
      ensures done <==> old(finished) || task.enabled
      ensures done ==> finished
      ensures !done ==> !finished && forall n: nat :: RunSteps(task.enabled, true, n) == (0, false)
      ensures invocations == old(invocations)
    {
      if finished {
        return true;
      }
      if !task.enabled {
        forall n: nat ensures RunSteps(false, true, n) == (0, false) {
          PausedNeverExits(true, n);
        }
        return false;
      }
      var it := Step();
      done := true;
    }
  }

  /** `SetFlag(m, name, v)`: `m` with the flag of `name` set to `v`, if `name` is present. */
  function SetFlag(m: map<string, bool>, name: string, v: bool): map<string, bool> {
    if name in m then m[name := v] else m
  }

  /** Setting a flag twice is setting it once. */
  lemma SetFlagIdempotent(m: map<string, bool>, name: string, v: bool)
    ensures SetFlag(SetFlag(m, name, v), name, v) == SetFlag(m, name, v)
  {
  }

  /** Resuming after pausing gives the task's flag back as true, and touches no other key. */
  lemma ResumeAfterPause(m: map<string, bool>, name: string)
    ensures SetFlag(SetFlag(m, name, false), name, true).Keys == m.Keys
    ensures name in m ==> SetFlag(SetFlag(m, name, false), name, true) == m[name := true]
  {
  }

  /** `TaskManager`: the registry of tasks and of their loops' handles. */
  class TaskManager {
    var tasks: map<string, Task>
    var handles: map<string, TaskLoop>

    /**
     * Both maps have the same names; each task is filed under its own name and
     * each handle belongs to the loop of the task filed under the same name.
     */
    ghost predicate Valid()
      reads this
    {
      && tasks.Keys == handles.Keys
      && forall n :: n in tasks ==> tasks[n].name == n && handles[n].task == tasks[n]
    }

    /** The enabled flag of every registered task. */
    ghost function Status(): map<string, bool>
      reads this, tasks.Values
    {
      map n | n in tasks :: tasks[n].enabled
    }

    /** `TaskManager::new` */
    constructor ()
      ensures Valid() && tasks == map[] && handles == map[]
    {
      tasks := map[];
      handles := map[];
    }

    /** `TaskManager::query_task_status`: the task's enabled flag, or None for an unknown name. */
    function QueryTaskStatus(name: string): (r: Option<bool>)
      reads this, tasks.Values
      ensures r.None? <==> name !in tasks
      ensures r.Some? ==> r.value == tasks[name].enabled
      ensures r.Some? <==> name in Status() && r.value == Status()[name]
    {
      if name in tasks then Some(tasks[name].enabled) else None
    }

    /**
     * `TaskManager::add_and_start_task`: starts the task's loop and files the
     * task and the handle under the task's name. A task already filed under
     * that name is replaced, not rejected: its handle is dropped and its token
     * is never cancelled, so its loop keeps running with nothing referring to it.
     */
    method AddAndStartTask(task: Task)
      requires Valid()
      requires task !in tasks.Values   // the task is moved in: the manager cannot own it already
      modifies this
      ensures Valid()
      ensures tasks == old(tasks)[task.name := task]
      ensures handles.Keys == old(handles.Keys) + {task.name}
      ensures fresh(handles[task.name]) && handles[task.name].task == task
      ensures !handles[task.name].finished && handles[task.name].invocations == 0
      ensures forall n :: n in old(handles) && n != task.name ==> handles[n] == old(handles[n])
      ensures task.name in old(handles) ==> old(handles[task.name]) !in handles.Values
      ensures task.name in old(tasks) ==> unchanged(old(tasks[task.name]))
    {
      var handle := new TaskLoop(task);
      handles := handles[task.name := handle];
      tasks := tasks[task.name := task];
    }

    /** `TaskManager::pause_task`: pauses the named task; no effect for an unknown name. */
    method PauseTask(name: string)
      requires Valid()
      modifies if name in tasks then {tasks[name]} else {}
      ensures Valid() && tasks == old(tasks) && handles == old(handles)
      ensures Status() == SetFlag(old(Status()), name, false)
      ensures QueryTaskStatus(name) == if name in tasks then Some(false) else None
      ensures forall n :: n != name ==> QueryTaskStatus(n) == old(QueryTaskStatus(n))
      ensures forall n :: n in tasks ==> tasks[n].cancelled == old(tasks[n].cancelled)
    {
      if name in tasks {
        tasks[name].Pause();
      }
    }

    /** `TaskManager::resume_task`: resumes the named task; no effect for an unknown name. */
    method ResumeTask(name: string)
      requires Valid()
      modifies if name in tasks then {tasks[name]} else {}
      ensures Valid() && tasks == old(tasks) && handles == old(handles)
      ensures Status() == SetFlag(old(Status()), name, true)
      ensures QueryTaskStatus(name) == if name in tasks then Some(true) else None
      ensures forall n :: n != name ==> QueryTaskStatus(n) == old(QueryTaskStatus(n))
      ensures forall n :: n in tasks ==> tasks[n].cancelled == old(tasks[n].cancelled)
    {
      if name in tasks {
        tasks[name].Resume();
      }
    }

    /**
     * `TaskManager::remove_task`: cancels the named task, takes its handle out,
     * awaits its loop and then drops the task. `returned` is false when the
     * await never completes, which is the case exactly when the task is paused
     * and its loop is still running: the call then hangs with the handle gone
     * and the task still filed.
     */
    method RemoveTask(name: string) returns (returned: bool)
      requires Valid()
      modifies this, if name in tasks then {tasks[name], handles[name]} else {}
      ensures name in old(tasks) ==> old(tasks[name]).cancelled
      ensures returned <==> name !in old(tasks) || old(tasks[name].enabled) || old(handles[name].finished)
      ensures returned ==> Valid() && tasks == old(tasks) - {name} && handles == old(handles) - {name}
      ensures returned && name in old(tasks) ==>
        old(handles[name]).finished && old(handles[name]).invocations == old(handles[name].invocations)
      ensures !returned ==> tasks == old(tasks) && handles == old(handles) - {name} && !old(handles[name]).finished
      ensures forall n :: n != name ==> QueryTaskStatus(n) == old(QueryTaskStatus(n))
    {
      if name in tasks {
        tasks[name].Remove();
      }
      returned := true;
      if name in handles {
        var handle := handles[name];
        handles := handles - {name};
        returned := handle.Join();
        if !returned {
          return;
        }
      }
      tasks := tasks - {name};
    }
  }

  /** A client of the registry: the contracts above are enough to follow a task's life. */
  method PauseResumeRemoveScenario(uuid: string) {
    var manager := new TaskManager();
    var task := new Task("dynamic_cpu_usage", true, map["uuid" := uuid], None);
    manager.AddAndStartTask(task);
    assert manager.QueryTaskStatus("dynamic_cpu_usage") == Some(true);
    manager.PauseTask("dynamic_cpu_usage");
    manager.PauseTask("dynamic_cpu_usage");
    assert manager.QueryTaskStatus("dynamic_cpu_usage") == Some(false);
    manager.ResumeTask("dynamic_cpu_usage");
    assert manager.QueryTaskStatus("dynamic_cpu_usage") == Some(true);
    var returned := manager.RemoveTask("dynamic_cpu_usage");
    assert returned && task.cancelled;
    assert manager.QueryTaskStatus("dynamic_cpu_usage") == None;
  }
}
