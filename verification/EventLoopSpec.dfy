/** The pending functors of an event loop and the eventfd that wakes it, as a system of
 *  interleaved steps: those of the loop's own thread and those of any other threads.
 */
module EventLoopSpec {

  // A functor is told apart by its number, a foreign thread likewise.
  type Functor = nat
  type Thread = nat

  // The largest count an eventfd holds; a write that would exceed it fails.
  const EVENTFD_MAX: nat := 0xFFFF_FFFF_FFFF_FFFE

  /** Where the loop's own thread is: not yet in loop(), at the test of its while, in
      poll, handling active channels (with or without the wake-up channel still among
      them), about to swap the pending functors, running the batch, or out of loop(). */
  datatype Place = NotStarted | Head | AtPoll | Handling(readable: bool) | Swapping | Running | Stopped

  /** `inFlight` are the foreign threads, and `ownPush` says whether it is the loop's own
      thread, that have pushed a functor in `queueInLoop` and not yet reached its end.
      `queued` and `executed` are the functors pushed and run so far; `seen` is how many
      had been pushed when poll last returned.  `early` says that the loop's own thread
      has queued a functor before loop() and none has been swapped out since. */
  datatype Loop = Loop(place: Place, quit: bool, calling: bool, batch: seq<Functor>, pending: seq<Functor>,
                       counter: nat, inFlight: set<Thread>, ownPush: bool,
                       queued: seq<Functor>, executed: seq<Functor>, seen: nat, early: bool)

  const START := Loop(NotStarted, false, false, [], [], 0, {}, false, [], [], 0, false)

  datatype Step =
    | ForeignPush(t: Thread, f: Functor)  // the locked part of queueInLoop, elsewhere
    | ForeignWrite(t: Thread)             // and its wake-up
    | OwnPush(g: Functor)                 // queueInLoop from a callback of the loop
    | OwnTest                             // and its test whether to wake
    | StartLoop | TestQuit
    | PollReturn(woken: bool)             // woken: the wake-up channel is active
    | ReadWakeup                          // handleRead
    | BeginPending | Swap | RunNext | EndPending
    | QuitElsewhere | QuitHere

  function Write(counter: nat): nat {
    if counter >= EVENTFD_MAX then counter else counter + 1
  }

  predicate Enabled(s: Loop, step: Step) {
    match step
    case ForeignPush(t, f) => t !in s.inFlight
    case ForeignWrite(t) => t in s.inFlight
    case OwnPush(g) => !s.ownPush && (s.place == NotStarted || s.place.Handling? || s.place == Running)
    case OwnTest => s.ownPush
    case StartLoop => s.place == NotStarted && !s.ownPush
    case TestQuit => s.place == Head
    case PollReturn(woken) => s.place == AtPoll && (woken ==> s.counter > 0)
    case ReadWakeup => s.place == Handling(true) && !s.ownPush
    case BeginPending => s.place == Handling(false) && !s.ownPush
    case Swap => s.place == Swapping
    case RunNext => s.place == Running && s.batch != [] && !s.ownPush
    case EndPending => s.place == Running && s.batch == [] && !s.ownPush
    case QuitElsewhere => true
    case QuitHere => s.place.Handling? || s.place == Running
  }

  function Apply(s: Loop, step: Step): Loop
    requires Enabled(s, step)
  {
    match step
    case ForeignPush(t, f) =>
      s.(pending := s.pending + [f], queued := s.queued + [f], inFlight := s.inFlight + {t})
    case ForeignWrite(t) => s.(counter := Write(s.counter), inFlight := s.inFlight - {t})
    case OwnPush(g) =>
      s.(pending := s.pending + [g], queued := s.queued + [g], ownPush := true,
         early := s.early || s.place == NotStarted)
    case OwnTest => s.(ownPush := false, counter := if s.calling then Write(s.counter) else s.counter)
    case StartLoop => s.(place := Head, quit := false)
    case TestQuit => s.(place := if s.quit then Stopped else AtPoll)
    case PollReturn(woken) => s.(place := Handling(woken), seen := |s.queued|)
    case ReadWakeup => s.(place := Handling(false), counter := 0)
    case BeginPending => s.(place := Swapping, calling := true)
    case Swap => s.(place := Running, batch := s.pending, pending := [], early := false)
    case RunNext => s.(executed := s.executed + [s.batch[0]], batch := s.batch[1..])
    case EndPending => s.(place := Head, calling := false)
    case QuitElsewhere => s.(quit := true)
    case QuitHere => s.(quit := true, counter := Write(s.counter))
  }

  predicate Possible(s: Loop, steps: seq<Step>)
    decreases |steps|
  {
    steps == [] || (Enabled(s, steps[0]) && Possible(Apply(s, steps[0]), steps[1..]))
  }

  function Run(s: Loop, steps: seq<Step>): Loop
    requires Possible(s, steps)
    decreases |steps|
  {
    if steps == [] then s else Run(Apply(s, steps[0]), steps[1..])
  }

  /** Somebody has woken the loop, or is about to. */
  predicate Covered(s: Loop) {
    s.counter > 0 || s.inFlight != {} || (s.ownPush && s.calling)
  }

  predicate Inv(s: Loop) {
    // Functors run in the order in which they were queued, each of them once.
    && s.queued == s.executed + s.batch + s.pending
    && (s.place != Running ==> s.batch == [])
    && (s.calling <==> s.place == Swapping || s.place == Running)
    && (s.ownPush ==> s.place == NotStarted || s.place.Handling? || s.place == Running)
    && (s.place == Handling(true) ==> s.counter > 0)
    && (s.early ==> s.pending != [])
    // Outside the part of a round that ends with the swap, what is pending is covered.
    && (s.pending != [] && !s.early && !s.place.Handling? && s.place != Swapping ==> Covered(s))
    && (s.early ==> s.place != Running)
    // What had been queued when poll returned is run before the next poll.
    && s.seen <= (if s.place.Handling? || s.place == Swapping then |s.queued| else |s.executed| + |s.batch|)
  }

  lemma StepKeeps(s: Loop, step: Step)
    requires Inv(s) && Enabled(s, step)
    ensures Inv(Apply(s, step))
  {
    var s' := Apply(s, step);
    match step
    case ForeignPush(t, f) =>
      assert t in s'.inFlight;
      assert s.executed + s.batch + s.pending + [f] == s.executed + s.batch + (s.pending + [f]);
    case OwnPush(g) =>
      assert s.executed + s.batch + s.pending + [g] == s.executed + s.batch + (s.pending + [g]);
    case Swap =>
      assert s.executed + s.batch + s.pending == s.executed + s.pending + [];
    case RunNext =>
      assert s.executed + s.batch == s.executed + [s.batch[0]] + s.batch[1..];
    case _ =>
  }

  lemma {:induction false} RunKeeps(s: Loop, steps: seq<Step>)
    requires Inv(s) && Possible(s, steps)
    ensures Inv(Run(s, steps))
    decreases |steps|
  {
    if steps != [] {
      StepKeeps(s, steps[0]);
      RunKeeps(Apply(s, steps[0]), steps[1..]);
    }
  }

  /** No wake-up is lost: whatever the interleaving, when the loop is in poll and
      functors are pending, the eventfd is readable or some thread is on its way to
      write it.  The one exception is a functor that the loop's own thread queued before
      it entered loop(). */
  lemma NoLostWakeup(steps: seq<Step>)
    requires Possible(START, steps)
    ensures var s := Run(START, steps);
      s.place == AtPoll && s.pending != [] && !s.early ==> s.counter > 0 || s.inFlight != {}
  {
    RunKeeps(START, steps);
  }

  /** The exception is real: such a functor waits until something else ends the poll. */
  lemma EarlyFunctorWaits(f: Functor)
    ensures var steps := [OwnPush(f), OwnTest, StartLoop, TestQuit];
      Possible(START, steps) &&
      var s := Run(START, steps);
      s.place == AtPoll && s.pending == [f] && s.counter == 0 && s.inFlight == {}
  {
    var s1 := Apply(START, OwnPush(f));
    var s2 := Apply(s1, OwnTest);
    var s3 := Apply(s2, StartLoop);
    var s4 := Apply(s3, TestQuit);
    assert Possible(s4, []) && Run(s4, []) == s4;
    assert [TestQuit][1..] == [];
    assert Possible(s3, [TestQuit]) && Run(s3, [TestQuit]) == s4;
    assert [StartLoop, TestQuit][1..] == [TestQuit];
    assert Possible(s2, [StartLoop, TestQuit]) && Run(s2, [StartLoop, TestQuit]) == s4;
    assert [OwnTest, StartLoop, TestQuit][1..] == [StartLoop, TestQuit];
    assert Possible(s1, [OwnTest, StartLoop, TestQuit]) && Run(s1, [OwnTest, StartLoop, TestQuit]) == s4;
    assert [OwnPush(f), OwnTest, StartLoop, TestQuit][1..] == [OwnTest, StartLoop, TestQuit];
  }

  /** Functors are pending, and the loop may wait in poll with nobody to wake it. */
  predicate Stranded(s: Loop) {
    s.place == AtPoll && s.pending != [] && s.counter == 0 && s.inFlight == {}
  }

  predicate Strands(s: Loop, steps: seq<Step>) {
    Possible(s, steps) && Stranded(Run(s, steps))
  }

  /** What holds after loop() has been entered with its early functors covered. */
  predicate NeverStranded(s: Loop) {
    && Inv(s) && s.place != NotStarted
    && (s.early && (s.place == Head || s.place == AtPoll || s.place == Stopped) ==> s.counter > 0 || s.inFlight != {})
  }

  lemma {:induction false} NeverStrandedRun(s: Loop, steps: seq<Step>)
    requires NeverStranded(s) && Possible(s, steps)
    ensures NeverStranded(Run(s, steps))
    decreases |steps|
  {
    if steps != [] {
      StepKeeps(s, steps[0]);
      var s' := Apply(s, steps[0]);
      assert steps[0].ForeignPush? ==> steps[0].t in s'.inFlight;
      NeverStrandedRun(s', steps[1..]);
    }
  }

  /** When loop() is entered, it shows whether functors can ever be left waiting: some
      run from there does so exactly if functors are pending already, the eventfd is
      not readable, and no other thread is about to write it. */
  lemma StrandedExactly(s: Loop)
    requires Inv(s) && Enabled(s, StartLoop)
    ensures (exists steps :: Strands(Apply(s, StartLoop), steps))
      <==> s.pending != [] && s.counter == 0 && s.inFlight == {}
  {
    var s1 := Apply(s, StartLoop);
    if s.pending != [] && s.counter == 0 && s.inFlight == {} {
      var s2 := Apply(s1, TestQuit);
      assert Possible(s2, []) && Run(s2, []) == s2;
      var steps := [TestQuit];
      assert steps[1..] == [];
      assert Possible(s1, steps) && Run(s1, steps) == s2;
      assert Strands(s1, steps);
    } else {
      StepKeeps(s, StartLoop);
      forall steps ensures !Strands(s1, steps) {
        if Possible(s1, steps) {
          NeverStrandedRun(s1, steps);
        }
      }
    }
  }

  /** The functors that the steps queue, of whichever thread. */
  function Pushed(steps: seq<Step>): seq<Functor> {
    if steps == [] then [] else PushedBy(steps[0]) + Pushed(steps[1..])
  }

  function PushedBy(step: Step): seq<Functor> {
    match step
    case ForeignPush(_, f) => [f]
    case OwnPush(g) => [g]
    case _ => []
  }

  lemma {:induction false} RunPushes(s: Loop, steps: seq<Step>)
    requires Possible(s, steps)
    ensures Run(s, steps).queued == s.queued + Pushed(steps)
    decreases |steps|
  {
    hide Apply, Enabled, PushedBy;
    if steps == [] {
      assert s.queued + [] == s.queued;
    } else {
      StepPushes(s, steps[0]);
      RunPushes(Apply(s, steps[0]), steps[1..]);
    }
  }

  lemma StepPushes(s: Loop, step: Step)
    requires Enabled(s, step)
    ensures Apply(s, step).queued == s.queued + PushedBy(step)
  {
    assert s.queued + [] == s.queued;
  }

  /** At every step the functors queued so far are those run, then what is left of the
      batch, then those pending; and when the loop is back in poll it has run everything
      that had been queued when poll last returned. */
  lemma FunctorsRunInOrder(steps: seq<Step>)
    requires Possible(START, steps)
    ensures var s := Run(START, steps);
      && Pushed(steps) == s.queued == s.executed + s.batch + s.pending
      && (s.place == AtPoll ==> s.seen <= |s.executed| && s.queued[..s.seen] == s.executed[..s.seen])
  {
    hide Apply, Enabled, Possible, Run, Pushed;
    RunKeeps(START, steps);
    RunPushes(START, steps);
    var s := Run(START, steps);
    assert [] + Pushed(steps) == Pushed(steps);
    if s.place == AtPoll {
      assert s.queued == s.executed + s.pending;
    }
  }

  // ---------- waking and leaving ----------

  /** A wake-up makes the eventfd readable, whatever it held, and handling it empties it
      again; poll reports it only while it is readable. */
  lemma WakeupIsExact(s: Loop, t: Thread)
    ensures t in s.inFlight ==> var s' := Apply(s, ForeignWrite(t)); s'.counter > 0 && t !in s'.inFlight && s'.pending == s.pending
    ensures s.ownPush ==> Apply(s, OwnTest).counter == (if s.calling then Write(s.counter) else s.counter)
    ensures Enabled(s, ReadWakeup) ==> Apply(s, ReadWakeup) == s.(place := Handling(false), counter := 0)
    ensures s.place == AtPoll ==> (Enabled(s, PollReturn(true)) <==> s.counter > 0)
    ensures s.counter < 0xFFFF_FFFF_FFFF_FFFE ==> Write(s.counter) == s.counter + 1
  {
  }

  /** A loop that is told to quit, by whomever, has been told, and one that is about to
      test for it leaves exactly then; loop() forgets what it was told before. */
  lemma QuitIsExact(s: Loop)
    ensures Apply(s, QuitElsewhere) == s.(quit := true)
    ensures Enabled(s, QuitHere) ==> var s' := Apply(s, QuitHere); s' == s.(quit := true, counter := s'.counter) && s'.counter > 0
    ensures Enabled(s, TestQuit) ==> Apply(s, TestQuit) == s.(place := if s.quit then Stopped else AtPoll)
    ensures Enabled(s, StartLoop) ==> Apply(s, StartLoop) == s.(place := Head, quit := false)
  {
  }

  /** Once the loop has been told to quit, it never goes to poll again: it ends the round
      it is in, and at its next test it leaves loop() for good. */
  lemma {:induction false} QuitLeaves(s: Loop, steps: seq<Step>)
    requires s.quit && s.place != NotStarted && Possible(s, steps)
    ensures var s' := Run(s, steps);
      && s'.quit && (s'.place == AtPoll ==> s.place == AtPoll)
      && (TestQuit in steps || s.place == Stopped ==> s'.place == Stopped)
      && (s.place == Stopped ==> TestQuit !in steps && s'.executed == s.executed)
    decreases |steps|
  {
    if steps != [] {
      QuitLeaves(Apply(s, steps[0]), steps[1..]);
    }
  }
}
