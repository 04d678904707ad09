/** The thread pool as an object.  Each section under the mutex is a method, proved to act
 *  as the step of module `ThreadPoolSpec` with its name; a worker's loop is proved over
 *  whatever the other threads do between its sections.
 */
module ThreadPool {
  import opened Common
  import opened ThreadPoolSpec

  predicate OfOthers(i: nat, step: Step) {
    match step
    case Enter(j) => j != i
    case Finish(j) => j != i
    case Spurious(j) => j != i
    case _ => true
  }

  /** The tasks a worker has taken. */
  function Of(popped: seq<(nat, Task)>, i: nat): seq<Task> {
    if popped == [] then [] else
      var last := popped[|popped| - 1];
      Of(popped[..|popped| - 1], i) + if last.0 == i then [last.1] else []
  }

  lemma OfSnoc(popped: seq<(nat, Task)>, j: nat, task: Task, i: nat)
    ensures Of(popped + [(j, task)], i) == Of(popped, i) + if j == i then [task] else []
  {
    assert (popped + [(j, task)])[..|popped|] == popped;
  }

  /** The pool has gone on, and a worker is where it was. */
  predicate Later(p: Pool, p': Pool, i: nat) {
    && |p'.workers| == |p.workers| && (Is(p, i, Ready) ==> Is(p', i, Ready))
    && p.added <= p'.added && p.popped <= p'.popped && Of(p.popped, i) == Of(p'.popped, i) && (p.mark.Some? ==> p'.mark == p.mark)
  }

  lemma StepIsLater(p: Pool, step: Step, i: nat)
    requires OfOthers(i, step)
    ensures Later(p, Apply(p, step), i)
  {
    if step.Enter? && p.queue != [] {
      OfSnoc(p.popped, step.i, p.queue[0], i);
    }
  }

  class ThreadPool {
    var running: bool
    var queue: seq<Task>
    // Where each worker thread is.
    var workers: seq<Worker>
    ghost var added: seq<Task>
    ghost var popped: seq<(nat, Task)>
    ghost var mark: Option<nat>

    ghost function State(): Pool
      reads this
    {
      Pool(workers, queue, running, added, popped, mark)
    }

    ghost predicate Valid()
      reads this
    {
      Inv(State())
    }

    /** After start(), with the tasks added before it */
    constructor (threads: nat, tasks: seq<Task>)
      requires threads > 0
      ensures Valid() && State() == Start(threads, tasks)
    {
      running, queue, workers := true, tasks, seq(threads, _ => Ready);
      added, popped, mark := tasks, [], None;
      new;
      StartOk(threads, tasks);
    }

    /** The worker that notify_one wakes: any that waits. */
    method Notified(hint: nat) returns (woken: Option<nat>)
      ensures if woken.Some? then Is(State(), woken.value, Waiting) else forall i :: !Is(State(), i, Waiting)
    {
      if hint < |workers| && workers[hint] == Waiting {
        return Some(hint);
      }
      var i := 0;
      while i < |workers|
        invariant i <= |workers| && forall j :: 0 <= j < i ==> workers[j] != Waiting
      {
        if workers[i] == Waiting {
          return Some(i);
        }
        i := i + 1;
      }
      woken := None;
    }

    method Add(task: Task, hint: nat)
      requires Valid()
      modifies this
      ensures Valid()
      ensures exists woken :: Enabled(old(State()), Step.Add(task, woken)) && State() == Apply(old(State()), Step.Add(task, woken))
    {
      ghost var p := State();
      var woken := Notified(hint);
      assert State() == p;
      assert Enabled(p, Step.Add(task, woken));
      StepKeeps(p, Step.Add(task, woken));
      queue, added := queue + [task], added + [task];
      if woken.Some? {
        workers := workers[woken.value := Ready];
      }
    }

    method Stop()
      requires Valid()
      modifies this
      ensures Valid() && State() == Apply(old(State()), Step.Stop)
    {
      ghost var p := State();
      StepKeeps(p, Step.Stop);
      running := false;
      var ws := workers;
      workers := seq(|ws|, i requires 0 <= i < |ws| => if ws[i] == Waiting then Ready else ws[i]);
      mark := if mark.Some? then mark else Some(|added|);
      assert State() == Apply(p, Step.Stop);
    }

    /** The locked section of a worker's loop: it takes the first task, or returns, or
        waits. */
    method Enter(i: nat) returns (task: Option<Task>)
      requires Valid() && Is(State(), i, Ready)
      modifies this
      ensures Valid() && State() == Apply(old(State()), Step.Enter(i))
      ensures task == if old(queue) != [] then Some(old(queue)[0]) else None
    {
      StepKeeps(State(), Step.Enter(i));
      if queue == [] {
        workers := workers[i := if !running then Returned else Waiting];
        return None;
      }
      task := Some(queue[0]);
      queue := queue[1..];
      popped := popped + [(i, task.value)];
      workers := workers[i := Busy];
    }

    /** A task returns, or a wait ends without a notification. */
    method Resume(i: nat)
      requires Valid() && (Is(State(), i, Busy) || Is(State(), i, Waiting))
      modifies this
      ensures Valid() && State() == Apply(old(State()), Finish(i)) == Apply(old(State()), Spurious(i))
    {
      StepKeeps(State(), if workers[i] == Busy then Finish(i) else Spurious(i));
      workers := workers[i := Ready];
    }

    /** Threads other than this worker take those of the steps that they can. */
    method Elsewhere(i: nat, steps: seq<Step>)
      requires Valid()
      modifies this
      ensures Valid() && Later(old(State()), State(), i)
    {
      hide Inv, Apply;
      var k := 0;
      while k < |steps|
        invariant Valid() && Later(old(State()), State(), i)
      {
        Other(i, steps[k]);
        k := k + 1;
      }
    }

    method Other(i: nat, step: Step)
      requires Valid()
      modifies this
      ensures Valid() && Later(old(State()), State(), i)
    {
      hide Inv, Apply;
      ghost var p := State();
      match step {
        case Add(task, woken) =>
          Add(task, if woken.Some? then woken.value else 0);
          ghost var w :| Enabled(p, Step.Add(task, w)) && State() == Apply(p, Step.Add(task, w));
          StepIsLater(p, Step.Add(task, w), i);
        case Stop =>
          Stop();
          StepIsLater(p, step, i);
        case Enter(j) =>
          if j != i && j < |workers| && workers[j] == Ready {
            var _ := Enter(j);
            StepIsLater(p, step, i);
          }
        case Finish(j) =>
          if j != i && j < |workers| && workers[j] == Busy {
            Resume(j);
            StepIsLater(p, step, i);
          }
        case Spurious(j) =>
          if j != i && j < |workers| && workers[j] == Waiting {
            Resume(j);
            StepIsLater(p, step, i);
          }
      }
    }

    /** One turn of a worker's loop: a task is taken and run, or the worker stops. */
    method Turn(i: nat) returns (task: Option<Task>)
      requires Valid() && Is(State(), i, Ready)
      modifies this
      ensures Valid() && added == old(added)
      ensures task.Some? ==> |queue| < |old(queue)| && popped == old(popped) + [(i, task.value)] && Is(State(), i, Ready)
      ensures task == None ==> popped == old(popped) && Ended(i)
    {
      task := Enter(i);
      if task.Some? {
        Resume(i);
      }
    }

    ghost predicate Ended(i: nat)
      reads this
    {
      queue == [] && Tasks(popped) == added && Is(State(), i, if running then Waiting else Returned)
    }

    /** `runInThread`, until the worker waits or returns: it waits only while the pool
        runs and there is no task, and returns only when every task added so far has been
        popped, in the order of their adding.  It has run what it popped. */
    method RunInThread(i: nat, others: seq<seq<Step>>) returns (tasks: seq<Task>)
      requires Valid() && Is(State(), i, Ready)
      modifies this
      ensures Valid() && old(added) <= added && old(popped) <= popped
      ensures Is(State(), i, if running then Waiting else Returned)
      ensures queue == [] && Tasks(popped) == added && Of(popped, i) == Of(old(popped), i) + tasks
    {
      hide Inv, Of, Tasks;
      tasks := [];
      var k, ended := 0, false;
      while !ended
        invariant Valid() && old(added) <= added && old(popped) <= popped
        invariant k <= |others| && Of(popped, i) == Of(old(popped), i) + tasks
        invariant if ended then Ended(i) else Is(State(), i, Ready)
        decreases !ended, |others| - k, |queue|
      {
        if k < |others| {
          Elsewhere(i, others[k]);
          k := k + 1;
        }
        ghost var before := popped;
        var task := Turn(i);
        if task.Some? {
          OfSnoc(before, i, task.value, i);
          tasks := tasks + [task.value];
        } else {
          ended := true;
        }
      }
    }
  }
}
