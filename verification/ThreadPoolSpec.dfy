/** The worker protocol of the thread pool, as a system of interleaved steps.  What a
 *  worker does under the mutex is one step; tasks do not throw.
 */
module ThreadPoolSpec {
  import opened Common

  type Task = nat

  /** A worker is about to take the mutex, waits for the condition, runs a task without
      the mutex, or has returned. */
  datatype Worker = Ready | Waiting | Busy | Returned

  /** `added` are the tasks of every add() so far, `popped` the tasks taken from the queue
      with the worker that took each, and `mark` how many had been added by stop(). */
  datatype Pool = Pool(workers: seq<Worker>, queue: seq<Task>, running: bool,
                       added: seq<Task>, popped: seq<(nat, Task)>, mark: Option<nat>)

  datatype Step =
    | Add(task: Task, woken: Option<nat>)  // woken: the worker that notify_one picks
    | Stop
    | Enter(i: nat)                        // a worker in its locked section
    | Finish(i: nat)                       // its task returns
    | Spurious(i: nat)                     // its wait returns without a notification

  /** After start(), with the tasks that were added before. */
  function Start(workers: nat, tasks: seq<Task>): Pool {
    Pool(seq(workers, _ => Ready), tasks, true, tasks, [], None)
  }

  predicate Is(p: Pool, i: nat, w: Worker) {
    i < |p.workers| && p.workers[i] == w
  }

  ghost predicate Enabled(p: Pool, step: Step) {
    match step
    case Add(_, woken) =>
      if woken.Some? then Is(p, woken.value, Waiting) else forall i :: !Is(p, i, Waiting)
    case Stop => true
    case Enter(i) => Is(p, i, Ready)
    case Finish(i) => Is(p, i, Busy)
    case Spurious(i) => Is(p, i, Waiting)
  }

  function Move(p: Pool, i: nat, w: Worker): Pool {
    if i < |p.workers| then p.(workers := p.workers[i := w]) else p
  }

  function Apply(p: Pool, step: Step): Pool {
    match step
    case Add(task, woken) =>
      var p1 := p.(queue := p.queue + [task], added := p.added + [task]);
      if woken.Some? then Move(p1, woken.value, Ready) else p1
    case Stop =>
      p.(running := false,
         workers := seq(|p.workers|, i requires 0 <= i < |p.workers| =>
           if p.workers[i] == Waiting then Ready else p.workers[i]),
         mark := if p.mark.Some? then p.mark else Some(|p.added|))
    case Enter(i) =>
      if p.queue != [] then
        Move(p.(queue := p.queue[1..], popped := p.popped + [(i, p.queue[0])]), i, Busy)
      else if !p.running then Move(p, i, Returned)
      else Move(p, i, Waiting)
    case Finish(i) => Move(p, i, Ready)
    case Spurious(i) => Move(p, i, Ready)
  }

  ghost predicate Possible(p: Pool, steps: seq<Step>)
    decreases |steps|
  {
    steps == [] || (Enabled(p, steps[0]) && Possible(Apply(p, steps[0]), steps[1..]))
  }

  function Run(p: Pool, steps: seq<Step>): Pool
    decreases |steps|
  {
    if steps == [] then p else Run(Apply(p, steps[0]), steps[1..])
  }

  function Tasks(popped: seq<(nat, Task)>): seq<Task> {
    seq(|popped|, i requires 0 <= i < |popped| => popped[i].1)
  }

  predicate Active(w: Worker) {
    w == Ready || w == Busy
  }

  ghost predicate Inv(p: Pool) {
    && |p.workers| > 0
    // Every task is popped once, in the order of the queue, or still there.
    && Tasks(p.popped) + p.queue == p.added
    && (p.running <==> p.mark == None)
    && (p.mark.Some? ==> p.mark.value <= |p.added|)
    // Workers return only after stop(), when all tasks added before it have been popped.
    && (forall i :: Is(p, i, Returned) ==> p.mark.Some? && p.mark.value <= |p.popped|)
    // After stop() nobody waits; before it, tasks never wait for nobody.
    && (!p.running ==> forall i :: !Is(p, i, Waiting))
    && (p.running && p.queue != [] ==> exists i :: 0 <= i < |p.workers| && Active(p.workers[i]))
  }

  lemma StartOk(workers: nat, tasks: seq<Task>)
    requires workers > 0
    ensures Inv(Start(workers, tasks))
  {
    var p := Start(workers, tasks);
    assert Tasks(p.popped) == [];
    assert Active(p.workers[0]);
  }

  lemma PopKeeps(p: Pool, i: nat)
    requires Inv(p) && Is(p, i, Ready) && p.queue != []
    ensures Inv(Apply(p, Enter(i)))
  {
    var p' := Apply(p, Enter(i));
    assert Tasks(p'.popped) == Tasks(p.popped) + [p.queue[0]];
    assert p.queue == [p.queue[0]] + p.queue[1..];
    assert Active(p'.workers[i]);
    assert forall j :: Is(p', j, Returned) ==> Is(p, j, Returned);
    assert forall j :: Is(p', j, Waiting) ==> Is(p, j, Waiting);
  }

  lemma AddKeeps(p: Pool, task: Task, woken: Option<nat>)
    requires Inv(p) && Enabled(p, Add(task, woken))
    ensures Inv(Apply(p, Add(task, woken)))
  {
    var p' := Apply(p, Add(task, woken));
    assert Tasks(p.popped) + p.queue + [task] == Tasks(p.popped) + (p.queue + [task]);
    assert forall j :: Is(p', j, Returned) ==> Is(p, j, Returned);
    assert forall j :: Is(p', j, Waiting) ==> Is(p, j, Waiting);
    if p.running {
      var i := if woken.Some? then woken.value else 0;
      assert !Is(p, 0, Returned);
      assert woken == None ==> !Is(p, 0, Waiting);
      assert Active(p'.workers[i]);
    }
  }

  lemma WakeKeeps(p: Pool, i: nat)
    requires Inv(p) && (Is(p, i, Busy) || Is(p, i, Waiting))
    ensures Inv(Move(p, i, Ready))
  {
    var p' := Move(p, i, Ready);
    assert Active(p'.workers[i]);
    assert forall j :: Is(p', j, Returned) ==> Is(p, j, Returned);
    assert forall j :: Is(p', j, Waiting) ==> Is(p, j, Waiting);
  }

  lemma StepKeeps(p: Pool, step: Step)
    requires Inv(p) && Enabled(p, step)
    ensures Inv(Apply(p, step))
  {
    match step
    case Add(task, woken) => AddKeeps(p, task, woken);
    case Enter(i) =>
      if p.queue != [] {
        PopKeeps(p, i);
      } else {
        var p' := Apply(p, step);
        assert |Tasks(p.popped)| == |p.added|;
        assert forall j, w :: j != i && Is(p', j, w) ==> Is(p, j, w);
      }
    case Stop =>
      var p' := Apply(p, step);
      assert forall j :: Is(p', j, Returned) ==> Is(p, j, Returned);
    case Finish(i) => WakeKeeps(p, i);
    case Spurious(i) => WakeKeeps(p, i);
  }

  lemma {:induction false} RunKeeps(p: Pool, steps: seq<Step>)
    requires Inv(p) && Possible(p, steps)
    ensures Inv(Run(p, steps))
    decreases |steps|
  {
    if steps != [] {
      StepKeeps(p, steps[0]);
      RunKeeps(Apply(p, steps[0]), steps[1..]);
    }
  }

  /** In every run the tasks are popped in the order in which they were added, each by
      one worker; while the pool runs, no task waits with every worker asleep; once all
      workers have returned, every task added before stop() has been popped. */
  lemma WorkersDrain(workers: nat, tasks: seq<Task>, steps: seq<Step>)
    requires workers > 0 && Possible(Start(workers, tasks), steps)
    ensures var p := Run(Start(workers, tasks), steps);
      && Tasks(p.popped) + p.queue == p.added
      && (p.running && p.queue != [] ==> exists i :: 0 <= i < |p.workers| && Active(p.workers[i]))
      && (|p.workers| > 0 && (forall i :: 0 <= i < |p.workers| ==> p.workers[i] == Returned) ==>
            p.mark.Some? && p.mark.value <= |p.popped| && p.added[..p.mark.value] == Tasks(p.popped)[..p.mark.value])
  {
    StartOk(workers, tasks);
    RunKeeps(Start(workers, tasks), steps);
    var p := Run(Start(workers, tasks), steps);
    if |p.workers| > 0 && forall i :: 0 <= i < |p.workers| ==> p.workers[i] == Returned {
      assert Is(p, 0, Returned);
    }
  }

  // ---------- stopping ----------

  function Weight(w: Worker): nat {
    match w
    case Busy => 2
    case Ready => 1
    case _ => 0
  }

  function Weights(ws: seq<Worker>): nat {
    if ws == [] then 0 else Weight(ws[0]) + Weights(ws[1..])
  }

  /** A bound on the steps the workers can still take. */
  function Remaining(p: Pool): nat {
    3 * |p.queue| + Weights(p.workers)
  }

  lemma {:induction false} WeightsUpdate(ws: seq<Worker>, i: nat, w: Worker)
    requires i < |ws|
    ensures Weights(ws[i := w]) == Weights(ws) - Weight(ws[i]) + Weight(w)
    decreases i
  {
    if i == 0 {
      assert ws[i := w][1..] == ws[1..];
    } else {
      assert ws[i := w][1..] == ws[1..][i - 1 := w];
      WeightsUpdate(ws[1..], i - 1, w);
    }
  }

  /** After stop() no worker ever waits: a worker that has not returned can go on, and
      every step of a worker brings the end nearer, so all of them return. */
  lemma WorkersReturn(p: Pool, i: nat)
    requires Inv(p) && !p.running && i < |p.workers| && p.workers[i] != Returned
    ensures Enabled(p, if p.workers[i] == Busy then Finish(i) else Enter(i))
    ensures forall step :: Enabled(p, step) && (step.Enter? || step.Finish? || step.Spurious?) ==>
      Remaining(Apply(p, step)) < Remaining(p) && !Apply(p, step).running
  {
    assert !Is(p, i, Waiting);
    forall step | Enabled(p, step) && (step.Enter? || step.Finish? || step.Spurious?)
      ensures Remaining(Apply(p, step)) < Remaining(p)
    {
      WeightsUpdate(p.workers, step.i, Busy);
      WeightsUpdate(p.workers, step.i, Returned);
      WeightsUpdate(p.workers, step.i, Ready);
    }
  }

  predicate OfWorker(step: Step) {
    step.Enter? || step.Finish? || step.Spurious?
  }

  function WorkerSteps(steps: seq<Step>): nat {
    if steps == [] then 0 else (if OfWorker(steps[0]) then 1 else 0) + WorkerSteps(steps[1..])
  }

  function Adds(steps: seq<Step>): nat {
    if steps == [] then 0 else (if steps[0].Add? then 1 else 0) + Adds(steps[1..])
  }

  /** After stop() a further stop changes nothing that counts, and a further task, which
      finds nobody waiting, costs three steps at most. */
  lemma StepCosts(p: Pool, step: Step)
    requires Inv(p) && !p.running && Enabled(p, step)
    ensures !Apply(p, step).running
    ensures Remaining(Apply(p, step)) + (if OfWorker(step) then 1 else 0) <= Remaining(p) + if step.Add? then 3 else 0
  {
    if OfWorker(step) {
      WorkersReturn(p, step.i);
    } else if step.Stop? {
      forall i | 0 <= i < |p.workers| ensures p.workers[i] != Waiting {
        assert !Is(p, i, Waiting);
      }
      assert Apply(p, step).workers == p.workers;
    }
  }

  /** However the workers are scheduled after stop(), and whatever is still added then,
      by running tasks or by other threads, they take a bounded number of steps: three
      more for every added task.  When none of them can take another they have all
      returned. */
  lemma {:induction false} WorkersTerminate(p: Pool, steps: seq<Step>)
    requires Inv(p) && !p.running && Possible(p, steps)
    ensures WorkerSteps(steps) + Remaining(Run(p, steps)) <= Remaining(p) + 3 * Adds(steps)
    ensures var q := Run(p, steps);
      (forall step :: OfWorker(step) ==> !Enabled(q, step)) ==>
        forall i :: 0 <= i < |q.workers| ==> q.workers[i] == Returned
    decreases |steps|
  {
    if steps == [] {
      forall i | 0 <= i < |p.workers| && p.workers[i] != Returned
        ensures exists step :: OfWorker(step) && Enabled(p, step)
      {
        WorkersReturn(p, i);
        assert OfWorker(if p.workers[i] == Busy then Finish(i) else Enter(i));
      }
    } else {
      hide Inv, Enabled, Apply;
      StepCosts(p, steps[0]);
      StepKeeps(p, steps[0]);
      WorkersTerminate(Apply(p, steps[0]), steps[1..]);
    }
  }

  // ---------- what a stop does ----------

  /** From any state, a stop ends the running, wakes every worker that waits and leaves
      the others and the tasks alone; the first one records how many tasks there were. */
  lemma StopIsExact(p: Pool)
    ensures var p' := Apply(p, Stop);
      && !p'.running && p'.queue == p.queue && p'.added == p.added && p'.popped == p.popped
      && |p'.workers| == |p.workers|
      && (forall i :: 0 <= i < |p.workers| ==>
            p'.workers[i] == (if p.workers[i] == Waiting then Ready else p.workers[i]) != Waiting)
      && p'.mark == (if p.mark.Some? then p.mark else Some(|p.added|))
  {
  }

  /** A task that is added goes to the end of the queue, and wakes one worker if any
      waits. */
  lemma AddIsExact(p: Pool, task: Task, woken: Option<nat>)
    requires Enabled(p, Add(task, woken))
    ensures var p' := Apply(p, Add(task, woken));
      && p' == p.(queue := p.queue + [task], added := p.added + [task], workers := p'.workers)
      && (woken == None ==> p'.workers == p.workers && forall i :: !Is(p, i, Waiting))
      && (woken.Some? ==> Is(p, woken.value, Waiting) && p'.workers == p.workers[woken.value := Ready])
  {
  }

  /** A worker under the mutex takes the first task, if there is one; otherwise it
      returns exactly if the pool has been stopped, and waits if not. */
  lemma EnterIsExact(p: Pool, i: nat)
    requires Enabled(p, Enter(i))
    ensures Apply(p, Enter(i)) ==
      if p.queue != [] then p.(queue := p.queue[1..], popped := p.popped + [(i, p.queue[0])], workers := p.workers[i := Busy])
      else p.(workers := p.workers[i := if p.running then Waiting else Returned])
  {
  }

  /** A task that ends, and a wait that ends, leave a worker that is about to take the
      mutex again, and nothing else changed. */
  lemma ResumeIsExact(p: Pool, i: nat)
    ensures Enabled(p, Finish(i)) ==> Apply(p, Finish(i)) == p.(workers := p.workers[i := Ready])
    ensures Enabled(p, Spurious(i)) ==> Apply(p, Spurious(i)) == p.(workers := p.workers[i := Ready])
  {
  }

  // ---------- runs with a stop ----------

  function AddedByOne(step: Step): seq<Task> {
    if step.Add? then [step.task] else []
  }

  /** The tasks that a run adds. */
  function AddedBy(steps: seq<Step>): seq<Task> {
    if steps == [] then [] else AddedByOne(steps[0]) + AddedBy(steps[1..])
  }

  lemma StepAdds(p: Pool, step: Step)
    ensures Apply(p, step).added == p.added + AddedByOne(step)
  {
    assert p.added + [] == p.added;
  }

  lemma {:induction false} RunAdds(p: Pool, steps: seq<Step>)
    ensures Run(p, steps).added == p.added + AddedBy(steps)
    decreases |steps|
  {
    hide Apply, AddedByOne;
    if steps == [] {
      assert p.added + [] == p.added;
    } else {
      StepAdds(p, steps[0]);
      RunAdds(Apply(p, steps[0]), steps[1..]);
      assert p.added + AddedByOne(steps[0]) + AddedBy(steps[1..]) == p.added + AddedBy(steps);
    }
  }

  lemma {:induction false} RunAppend(p: Pool, steps: seq<Step>, more: seq<Step>)
    requires Possible(p, steps + more)
    ensures Possible(p, steps) && Possible(Run(p, steps), more) && Run(p, steps + more) == Run(Run(p, steps), more)
    decreases |steps|
  {
    hide Enabled, Apply;
    if steps == [] {
      assert steps + more == more;
    } else {
      assert (steps + more)[1..] == steps[1..] + more;
      RunAppend(Apply(p, steps[0]), steps[1..], more);
    }
  }

  lemma {:induction false} RunUnstopped(p: Pool, steps: seq<Step>)
    requires Stop !in steps && p.mark == None
    ensures Run(p, steps).mark == None
    decreases |steps|
  {
    if steps != [] {
      assert steps[0] != Stop;
      RunUnstopped(Apply(p, steps[0]), steps[1..]);
    }
  }

  lemma {:induction false} RunStopped(p: Pool, steps: seq<Step>)
    requires p.mark.Some? && !p.running
    ensures Run(p, steps).mark == p.mark && !Run(p, steps).running
    decreases |steps|
  {
    if steps != [] {
      RunStopped(Apply(p, steps[0]), steps[1..]);
    }
  }

  lemma {:induction false} RunWorkers(p: Pool, steps: seq<Step>)
    ensures |Run(p, steps).workers| == |p.workers|
    decreases |steps|
  {
    if steps != [] {
      RunWorkers(Apply(p, steps[0]), steps[1..]);
    }
  }

  /** However threads interleave around the first stop(), the workers take a bounded
      number of steps after it, three more for every task added then; and when none of
      them can take another, all have returned, and every task there was at the start or
      that was added before the stop has been popped, in order. */
  lemma StopDrains(workers: nat, tasks: seq<Task>, before: seq<Step>, after: seq<Step>)
    requires workers > 0 && Possible(Start(workers, tasks), before + ([Stop] + after)) && Stop !in before
    ensures var p, q := Run(Start(workers, tasks), before), Run(Start(workers, tasks), before + ([Stop] + after));
      && WorkerSteps(after) + Remaining(q) <= Remaining(Apply(p, Stop)) + 3 * Adds(after)
      && ((forall step :: OfWorker(step) ==> !Enabled(q, step)) ==>
            && |q.workers| == workers && (forall i :: 0 <= i < workers ==> q.workers[i] == Returned)
            && tasks + AddedBy(before) <= Tasks(q.popped))
  {
    var start := Start(workers, tasks);
    var p := Run(start, before);
    StartOk(workers, tasks);
    RunAppend(start, before, [Stop] + after);
    RunKeeps(start, before);
    assert ([Stop] + after)[1..] == after;
    var r := Apply(p, Stop);
    StepKeeps(p, Stop);
    RunUnstopped(start, before);
    RunAdds(start, before);
    StopIsExact(p);
    var q := Run(r, after);
    hide Possible, Enabled, Apply, Inv;
    WorkersTerminate(r, after);
    RunStopped(r, after);
    RunWorkers(start, before);
    RunWorkers(r, after);
    if forall step :: OfWorker(step) ==> !Enabled(q, step) {
      RunKeeps(r, after);
      AllPopped(q);
      RunAdds(r, after);
      assert q.added[..|r.added|] == r.added;
    }
  }

  lemma AllPopped(q: Pool)
    requires Inv(q) && q.mark.Some? && |q.workers| > 0 && forall i :: 0 <= i < |q.workers| ==> q.workers[i] == Returned
    ensures q.mark.value <= |q.added| && q.added[..q.mark.value] <= Tasks(q.popped)
  {
    assert Is(q, 0, Returned);
  }
}
