/** The event loop as an object.  Its methods are those of the loop's own thread; what
 *  other threads do meanwhile is a parameter, and every run of the object is recorded and
 *  proved to be a run of the step system of module `EventLoopSpec`.
 */
module EventLoop {
  import opened EventLoopSpec

  /** What a callback does: it queues functors, with steps of other threads between,
      and may quit the loop. */
  datatype Turn = Turn(queues: seq<Functor>, others: seq<Step>, quits: bool)

  /** What happens in one round of the loop: the steps of other threads during poll,
      before the swap, and the turns of the channels' handlers and of the functors. */
  datatype Round = Round(woken: bool, others: seq<Step>, handlers: seq<Turn>, beforeSwap: seq<Step>, functors: seq<Turn>)

  /** The other threads do not touch what is the loop's own. */
  predicate SameLoopThread(s: Loop, s': Loop) {
    && s' == s.(pending := s'.pending, queued := s'.queued, inFlight := s'.inFlight, counter := s'.counter, quit := s'.quit)
    && s.pending <= s'.pending && s.counter <= s'.counter && (s.quit ==> s'.quit)
  }

  /** A callback may queue, and others may do anything of theirs, but the loop stays
      where it is. */
  predicate SameTurn(s: Loop, s': Loop) {
    && s'.place == s.place && s'.calling == s.calling && s'.batch == s.batch && s'.executed == s.executed
    && s'.ownPush == s.ownPush && s'.seen == s.seen && s.pending <= s'.pending && s.counter <= s'.counter
  }

  lemma {:induction false} RunSnoc(s: Loop, steps: seq<Step>, step: Step)
    requires Possible(s, steps) && Enabled(Run(s, steps), step)
    ensures Possible(s, steps + [step]) && Run(s, steps + [step]) == Apply(Run(s, steps), step)
    decreases |steps|
  {
    if steps == [] {
      assert [step][1..] == [] && steps + [step] == [step];
      assert Possible(Apply(s, step), []);
    } else {
      assert (steps + [step])[1..] == steps[1..] + [step];
      RunSnoc(Apply(s, steps[0]), steps[1..], step);
    }
  }

  lemma InvSays(s: Loop)
    requires Inv(s)
    ensures s.queued == s.executed + s.batch + s.pending
    ensures s.place == Running ==> !s.early
    ensures s.place == Head ==> s.batch == [] && s.seen <= |s.executed|
    ensures s.place == Head && s.pending != [] && !s.early && !s.calling ==> s.counter > 0 || s.inFlight != {}
  {
  }

  class EventLoop {
    var quit: bool
    var callingPendingFunctors: bool
    var pendingFunctors: seq<Functor>
    // The count in the kernel behind wakeupFd_.
    var eventfd: nat
    // The other threads that are between their push and their wake-up.
    var inFlight: set<Thread>
    ghost var s: Loop
    ghost var trace: seq<Step>

    ghost predicate Valid()
      reads this
    {
      && s.quit == quit && s.calling == callingPendingFunctors && s.pending == pendingFunctors && s.counter == eventfd
      && s.inFlight == inFlight
      && Possible(START, trace) && Run(START, trace) == s && Inv(s)
    }

    constructor ()
      ensures Valid() && s == START
    {
      quit, callingPendingFunctors, pendingFunctors, eventfd, inFlight := false, false, [], 0, {};
      s, trace := START, [];
    }

    ghost method Note(step: Step)
      requires Possible(START, trace) && Run(START, trace) == s && Inv(s) && Enabled(s, step)
      modifies `s, `trace
      ensures s == Apply(old(s), step) && trace == old(trace) + [step]
      ensures Possible(START, trace) && Run(START, trace) == s && Inv(s)
    {
      RunSnoc(START, trace, step);
      StepKeeps(s, step);
      s, trace := Apply(s, step), trace + [step];
    }

    method Wakeup()
      modifies `eventfd
      ensures eventfd == Write(old(eventfd))
    {
      if eventfd < EVENTFD_MAX {
        eventfd := eventfd + 1;
      }
    }

    method HandleRead()
      requires Valid() && s.place == Handling(true) && !s.ownPush
      modifies this
      ensures Valid() && s == Apply(old(s), ReadWakeup)
    {
      eventfd := 0;
      Note(ReadWakeup);
    }

    /** `queueInLoop` in another thread: the locked section, */
    method QueueElsewhere(t: Thread, f: Functor)
      requires Valid() && t !in inFlight
      modifies this
      ensures Valid() && s == Apply(old(s), ForeignPush(t, f))
    {
      pendingFunctors, inFlight := pendingFunctors + [f], inFlight + {t};
      Note(ForeignPush(t, f));
    }

    /** and the wake-up. */
    method WakeElsewhere(t: Thread)
      requires Valid() && t in inFlight
      modifies this
      ensures Valid() && s == Apply(old(s), ForeignWrite(t))
    {
      Wakeup();
      inFlight := inFlight - {t};
      Note(ForeignWrite(t));
    }

    method QuitElsewhere()
      requires Valid()
      modifies this
      ensures Valid() && s == Apply(old(s), Step.QuitElsewhere)
    {
      quit := true;
      Note(Step.QuitElsewhere);
    }

    /** Other threads take those of the steps that they can. */
    method Elsewhere(steps: seq<Step>)
      requires Valid()
      modifies this
      ensures Valid() && SameLoopThread(old(s), s)
    {
      var i := 0;
      while i < |steps|
        invariant Valid() && SameLoopThread(old(s), s)
      {
        hide Inv, Possible, Run, Apply, Enabled;
        OneElsewhere(steps[i]);
        i := i + 1;
      }
    }

    method OneElsewhere(step: Step)
      requires Valid()
      modifies this
      ensures Valid() && SameLoopThread(old(s), s)
    {
      hide Inv, Possible, Run;
      match step {
        case ForeignPush(t, f) => if t !in inFlight { QueueElsewhere(t, f); }
        case ForeignWrite(t) => if t in inFlight { WakeElsewhere(t); }
        case QuitElsewhere => QuitElsewhere();
        case _ =>
      }
    }

    /** `queueInLoop` in the loop's own thread: a functor queued while the batch runs
        wakes the loop, so that it is not left waiting in poll. */
    method QueueInLoop(f: Functor, others: seq<Step>)
      requires Valid() && Enabled(s, OwnPush(f))
      modifies this
      ensures Valid() && SameTurn(old(s), s)
      ensures old(pendingFunctors) + [f] <= pendingFunctors
      ensures callingPendingFunctors ==> eventfd > 0
    {
      pendingFunctors := pendingFunctors + [f];
      Note(OwnPush(f));
      Elsewhere(others);
      if callingPendingFunctors {
        Wakeup();
      }
      Note(OwnTest);
    }

    /** `quit` in the loop's own thread, which wakes the loop. */
    method Quit()
      requires Valid() && Enabled(s, QuitHere)
      modifies this
      ensures Valid() && s == Apply(old(s), QuitHere) && quit && eventfd > 0
    {
      quit := true;
      Wakeup();
      Note(QuitHere);
    }

    /** A callback takes its turn. */
    method Take(turn: Turn)
      requires Valid() && Enabled(s, QuitHere) && !s.ownPush
      modifies this
      ensures Valid() && SameTurn(old(s), s)
      ensures turn.queues != [] && callingPendingFunctors ==> eventfd > 0
    {
      var i := 0;
      while i < |turn.queues|
        invariant Valid() && SameTurn(old(s), s)
        invariant i > 0 && callingPendingFunctors ==> eventfd > 0
      {
        QueueInLoop(turn.queues[i], turn.others);
        i := i + 1;
      }
      if turn.quits {
        Quit();
      }
    }

    method RunFunctors(functors: seq<Functor>, turns: seq<Turn>)
      requires Valid() && s.place == Running && !s.ownPush && s.batch == functors
      modifies this
      ensures Valid() && s.place == Running && !s.ownPush && s.batch == []
      ensures s.executed == old(s.executed) + functors && s.seen == old(s.seen)
    {
      hide Inv, Possible, Run;
      var i := 0;
      while i < |functors|
        invariant i <= |functors| && Valid() && s.place == Running && !s.ownPush && s.seen == old(s.seen)
        invariant s.batch == functors[i..] && s.executed == old(s.executed) + functors[..i]
      {
        Note(RunNext);
        if i < |turns| {
          Take(turns[i]);
        }
        i := i + 1;
      }
      assert functors[..i] == functors;
    }

    /** `doPendingFunctors`: everything that was pending is run, in order, and what the
        functors themselves queue is left for the next round, with the loop woken. */
    method DoPendingFunctors(beforeSwap: seq<Step>, turns: seq<Turn>)
      requires Valid() && s.place == Handling(false) && !s.ownPush
      modifies this
      ensures Valid() && s.place == Head && !s.ownPush && !s.calling && s.seen == old(s.seen)
      ensures old(s.executed + s.pending) <= s.executed && s.queued == s.executed + pendingFunctors
      ensures pendingFunctors != [] ==> eventfd > 0 || inFlight != {}
    {
      hide Inv, Possible, Run;
      InvSays(s);
      var functors := SwapPending(beforeSwap);
      RunFunctors(functors, turns);
      InvSays(s);
      callingPendingFunctors := false;
      Note(EndPending);
      InvSays(s);
    }

    /** The start of it: the pending functors become the batch. */
    method SwapPending(beforeSwap: seq<Step>) returns (functors: seq<Functor>)
      requires Valid() && s.place == Handling(false) && !s.ownPush
      modifies this
      ensures Valid() && s.place == Running && !s.ownPush && s.batch == functors && s.seen == old(s.seen)
      ensures s.executed == old(s.executed) && old(s.pending) <= functors
    {
      hide Inv, Possible, Run;
      callingPendingFunctors := true;
      Note(BeginPending);
      Elsewhere(beforeSwap);
      functors, pendingFunctors := pendingFunctors, [];
      Note(Swap);
    }

    /** `loop`, for the rounds given: at the head of the loop, whatever had been queued
        when poll last returned has been run, and what is pending now has woken it. */
    method Loop(rounds: seq<Round>)
      requires Valid() && Enabled(s, StartLoop)
      modifies this
      ensures Valid() && (s.place == Head || s.place == Stopped)
      ensures s.queued == s.executed + pendingFunctors
      ensures s.seen <= |s.executed|
      ensures pendingFunctors != [] && !s.early ==> eventfd > 0 || inFlight != {}
    {
      hide Inv, Possible, Run;
      Enter();
      var i := 0;
      while !quit && i < |rounds|
        invariant Valid() && s.place == Head && !s.ownPush && !s.calling
      {
        OneRound(rounds[i]);
        i := i + 1;
      }
      InvSays(s);
      if quit {
        Note(TestQuit);
      }
    }

    method Enter()
      requires Valid() && Enabled(s, StartLoop)
      modifies this
      ensures Valid() && s.place == Head && !s.ownPush && !s.calling && !quit
    {
      quit := false;
      Note(StartLoop);
    }

    /** One turn of the loop. */
    method OneRound(round: Round)
      requires Valid() && s.place == Head && !s.ownPush && !quit
      modifies this
      ensures Valid() && s.place == Head && !s.ownPush && !s.calling
    {
      hide Inv, Possible, Run;
      Note(TestQuit);
      PollAndHandle(round);
      DoPendingFunctors(round.beforeSwap, round.functors);
    }

    /** Poll, and the handlers of the channels it reports. */
    method PollAndHandle(round: Round)
      requires Valid() && s.place == AtPoll && !s.ownPush
      modifies this
      ensures Valid() && s.place == Handling(false) && !s.ownPush
    {
      Elsewhere(round.others);
      var woken := round.woken && eventfd > 0;
      Note(PollReturn(woken));
      if woken {
        HandleRead();
      }
      var i := 0;
      while i < |round.handlers|
        invariant Valid() && s.place == Handling(false) && !s.ownPush
      {
        Take(round.handlers[i]);
        i := i + 1;
      }
    }
  }
}
