/** A timer is filed and first runs when it was asked to, and every timer that is added
 *  comes into the queue, also from a callback.
 */
module TimerBirth {
  import opened Common
  import opened TimerSpec
  import opened TimerProofs

  // ---------- adding ----------

  /** Adding a timer files it under the expiration it was created with, next to the
      entries there are, and sets the kernel timer for it exactly if it comes first. */
  lemma AddIsExact(q: Queue, a: Added)
    requires Sorted(q.timers)
    ensures var q' := AddTimer(q, a);
      && Sorted(q'.timers)
      && (forall e :: e in q'.timers <==> e in q.timers || e == Entry(a.timer.expiration, a.id))
      && q'.alive == q.alive[a.id := a.timer] && q'.born == q.born[a.id := a.timer] && q'.log == q.log
      && (if q.timers == [] || a.timer.expiration < q.timers[0].when
          then q'.armed == Some(Max(a.timer.expiration, a.now + 100)) && q'.armedAt == a.now && !q'.ready
          else q'.armed == q.armed && q'.armedAt == q.armedAt && q'.ready == q.ready)
      && q'.scheduled == q.scheduled && q'.clock == q.clock
  {
    InsertAt(q.timers, Entry(a.timer.expiration, a.id));
    DelayIsExact(a.timer.expiration, a.now);
  }

  lemma {:induction false} BornAll(born: map<nat, Timer>, added: seq<Added>)
    requires AllFresh(born, added)
    ensures var born' := Born(born, added);
      && (forall id :: id in born ==> id in born' && born'[id] == born[id])
      && (forall j :: 0 <= j < |added| ==>
            added[j].id !in born && added[j].id in born' && born'[added[j].id] == added[j].timer)
      && (forall id :: id in born' ==> id in born || exists j :: 0 <= j < |added| && added[j].id == id)
    decreases |added|
  {
    if added != [] {
      BornAll(born[added[0].id := added[0].timer], added[1..]);
      forall j | 0 <= j < |added|
        ensures added[j].id !in born && added[j].id in Born(born, added) && Born(born, added)[added[j].id] == added[j].timer
      {
        if j > 0 {
          assert added[j] == added[1..][j - 1];
        }
      }
      forall id | id in Born(born, added) && id !in born ensures exists j :: 0 <= j < |added| && added[j].id == id {
        if id != added[0].id {
          var j :| 0 <= j < |added[1..]| && added[1..][j].id == id;
          assert added[j + 1].id == id;
        } else {
          assert added[0].id == id;
        }
      }
    }
  }

  // ---------- callbacks that add ----------

  /** A callback of the round adds this timer. */
  predicate AddedIn(ticks: seq<Tick>, id: nat, timer: Timer) {
    exists k, j :: 0 <= k < |ticks| && 0 <= j < |ticks[k].added| &&
      ticks[k].added[j].id == id && ticks[k].added[j].timer == timer
  }

  /** `born'` is `born` and what the callbacks add, none of it there before. */
  ghost predicate Grows(born: map<nat, Timer>, ticks: seq<Tick>, born': map<nat, Timer>) {
    && (forall id :: id in born ==> id in born' && born'[id] == born[id])
    && (forall k, j :: 0 <= k < |ticks| && 0 <= j < |ticks[k].added| ==>
          var a := ticks[k].added[j]; a.id !in born && a.id in born' && born'[a.id] == a.timer)
    && (forall id :: id in born' && id !in born ==> AddedIn(ticks, id, born'[id]))
  }

  lemma {:induction false} AddAllBorn(q: Queue, added: seq<Added>)
    ensures AddTimers(q, added).born == Born(q.born, added)
    decreases |added|
  {
    if added != [] {
      AddAllBorn(AddTimer(q, added[0]), added[1..]);
    }
  }

  lemma GrowsCons(born: map<nat, Timer>, ticks: seq<Tick>, born': map<nat, Timer>)
    requires ticks != [] && AllFresh(born, ticks[0].added) && Grows(Born(born, ticks[0].added), ticks[1..], born')
    ensures Grows(born, ticks, born')
  {
    var mid := Born(born, ticks[0].added);
    BornAll(born, ticks[0].added);
    forall k, j | 0 <= k < |ticks| && 0 <= j < |ticks[k].added|
      ensures var a := ticks[k].added[j]; a.id !in born && a.id in born' && born'[a.id] == a.timer
    {
      if k > 0 {
        assert ticks[1..][k - 1] == ticks[k];
      }
    }
    forall id | id in born' && id !in born ensures AddedIn(ticks, id, born'[id]) {
      if id in mid {
        var j :| 0 <= j < |ticks[0].added| && ticks[0].added[j].id == id;
        assert ticks[0].added[j].timer == born'[id];
      } else {
        assert AddedIn(ticks[1..], id, born'[id]);
        var k, j :| 0 <= k < |ticks[1..]| && 0 <= j < |ticks[1..][k].added| &&
          ticks[1..][k].added[j].id == id && ticks[1..][k].added[j].timer == born'[id];
        assert ticks[k + 1].added[j].id == id;
      }
    }
  }

  lemma {:induction false} RunCallbacksBorn(q: Queue, es: seq<Entry>, ticks: seq<Tick>, now: int)
    requires |ticks| == |es| && TicksFresh(q.born, ticks)
    ensures Grows(q.born, ticks, RunCallbacks(q, es, ticks, now).born)
    decreases |es|
  {
    hide Grows, AllFresh, Born;
    if es == [] {
      GrowsNot(q.born);
    } else {
      var q1 := Begin(q, es[0], ticks[0], now);
      AddAllBorn(q1, ticks[0].added);
      RunCallbacksBorn(AddTimers(q1, ticks[0].added), es[1..], ticks[1..], now);
      GrowsCons(q.born, ticks, RunCallbacks(q, es, ticks, now).born);
    }
  }

  lemma GrowsNot(born: map<nat, Timer>)
    ensures Grows(born, [], born)
  {
  }

  lemma {:induction false} ResetBorn(q: Queue, out: seq<Entry>, ticks: seq<Tick>)
    requires |ticks| == |out|
    ensures Reset(q, out, ticks).born == q.born
    decreases |out|
  {
    if out != [] && out[0].id in q.alive {
      ResetBorn(ArmFirst(ResetOne(q, out[0], ticks[0]), ticks[0].arm), out[1..], ticks[1..]);
    }
  }

  /** The timers there have ever been after a round are those before and all those that
      its callbacks add, as they were created. */
  lemma RoundAdds(q: Queue, now: int, late: Option<int>, ticks: seq<Tick>)
    requires |ticks| == Expired(q.timers, now) && TicksFresh(q.born, ticks)
    ensures Grows(q.born, ticks, HandleRead(q, now, late, ticks).born)
  {
    var f := Fire(q, late);
    hide Grows, Reset, RunCallbacks;
    RunCallbacksBorn(WithoutDue(f, now), Due(f.timers, now), ticks, now);
    ResetBorn(AfterCallbacks(f, now, ticks), Due(f.timers, now), ticks);
  }

  // ---------- first runs ----------

  predicate IsFirst(log: seq<Ran>, k: nat)
    requires k < |log|
  {
    forall j :: 0 <= j < k ==> log[j].id != log[k].id
  }

  /** A timer that has not run is due when it was created to be, */
  ghost predicate Waiting(q: Queue) {
    forall id :: id in q.born && Runs(q.log, id) == 0 ==>
      id in q.alive && q.alive[id].expiration == q.born[id].expiration
  }

  /** and one that has run was due then the first time. */
  ghost predicate FirstRuns(q: Queue) {
    forall k :: 0 <= k < |q.log| ==>
      q.log[k].id in q.born && (IsFirst(q.log, k) ==> q.log[k].due == q.born[q.log[k].id].expiration)
  }

  lemma {:induction false} NoRuns(log: seq<Ran>, id: nat)
    ensures Runs(log, id) == 0 <==> forall k :: 0 <= k < |log| ==> log[k].id != id
    decreases |log|
  {
    if log != [] {
      var front := log[..|log| - 1];
      NoRuns(front, id);
      if Runs(log, id) != 0 && log[|log| - 1].id != id {
        var k :| 0 <= k < |front| && front[k].id == id;
        assert log[k].id == id;
      }
    }
  }

  ghost predicate Birth(q: Queue) {
    Waiting(q) && FirstRuns(q)
  }

  lemma BirthFrame(q: Queue, q': Queue)
    requires Birth(q) && q'.alive == q.alive && q'.born == q.born && q'.log == q.log
    ensures Birth(q')
  {
  }

  lemma BirthAdd(q: Queue, a: Added)
    requires Birth(q) && a.id !in q.born
    ensures Birth(AddTimer(q, a))
  {
  }

  lemma {:induction false} BirthAddAll(q: Queue, added: seq<Added>)
    requires Birth(q) && AllFresh(q.born, added)
    ensures Birth(AddTimers(q, added))
    decreases |added|
  {
    if added != [] {
      BirthAdd(q, added[0]);
      hide Birth;
      BirthAddAll(AddTimer(q, added[0]), added[1..]);
    }
  }

  lemma BirthBegin(q: Queue, e: Entry, tick: Tick, now: int)
    requires Birth(q) && Keyed(q, e) && e.id in q.born
    ensures Birth(Begin(q, e, tick, now))
  {
    var q' := Begin(q, e, tick, now);
    var r := Ran(e.id, e.when, now);
    forall id ensures Runs(q'.log, id) == Runs(q.log, id) + if e.id == id then 1 else 0 {
      RunsOneMore(q.log, r, id);
    }
    forall k | 0 <= k < |q'.log|
      ensures q'.log[k].id in q'.born && (IsFirst(q'.log, k) ==> q'.log[k].due == q'.born[q'.log[k].id].expiration)
    {
      if k < |q.log| {
        assert q'.log[k] == q.log[k];
        assert IsFirst(q'.log, k) ==> IsFirst(q.log, k) by {
          assert forall j :: 0 <= j < k ==> q'.log[j] == q.log[j];
        }
      } else if IsFirst(q'.log, k) {
        assert forall j :: 0 <= j < |q.log| ==> q'.log[j] == q.log[j];
        NoRuns(q.log, e.id);
      }
    }
  }

  lemma KeyedOut(q: Queue, out: seq<Entry>, k: nat)
    requires Inv(q, out, k) && k < |out|
    ensures Keyed(q, out[k]) && out[k].id in q.born
  {
    assert out[k] in out;
  }

  lemma {:induction false} BirthCallbacks(q: Queue, out: seq<Entry>, k: nat, ticks: seq<Tick>, now: int)
    requires Birth(q) && Inv(q, out, k) && |ticks| == |out| - k && TicksFresh(q.born, ticks)
    requires forall e :: e in out ==> e.when <= now
    ensures Birth(RunCallbacks(q, out[k..], ticks, now))
    decreases |out| - k
  {
    hide Birth, Inv;
    if k < |out| {
      assert out[k] in out && out[k..][1..] == out[k + 1..];
      KeyedOut(q, out, k);
      BirthBegin(q, out[k], ticks[0], now);
      FireKeeps(q, out, k, ticks[0].before);
      CallbackKeeps(Fire(q, ticks[0].before), out, k, now);
      var q1 := Begin(q, out[k], ticks[0], now);
      AddAllKeeps(q1, out, k + 1, ticks[0].added);
      BirthAddAll(q1, ticks[0].added);
      BirthCallbacks(AddTimers(q1, ticks[0].added), out, k + 1, ticks[1..], now);
    }
  }

  /** Restarting or deleting a timer that has run does not matter. */
  lemma BirthRenew(q: Queue, e: Entry, tick: Tick)
    requires Birth(q) && e.id in q.alive && Runs(q.log, e.id) > 0
    ensures Birth(ArmFirst(ResetOne(q, e, tick), tick.arm)) && ArmFirst(ResetOne(q, e, tick), tick.arm).log == q.log
  {
  }

  lemma {:induction false} BirthReset(q: Queue, out: seq<Entry>, ticks: seq<Tick>)
    requires Birth(q) && |ticks| == |out| && forall e :: e in out ==> Runs(q.log, e.id) > 0
    ensures Birth(Reset(q, out, ticks))
    decreases |out|
  {
    hide Birth, ArmFirst, ResetOne, Runs;
    if out != [] && out[0].id in q.alive {
      BirthRenew(q, out[0], ticks[0]);
      BirthReset(ArmFirst(ResetOne(q, out[0], ticks[0]), ticks[0].arm), out[1..], ticks[1..]);
    }
  }

  /** What has just run has run. */
  lemma RansRun(log: seq<Ran>, es: seq<Entry>, now: int)
    ensures forall e :: e in es ==> Runs(log + Rans(es, now), e.id) > 0
  {
    hide Runs;
    var log' := log + Rans(es, now);
    forall e | e in es ensures Runs(log', e.id) > 0 {
      var i :| 0 <= i < |es| && es[i] == e;
      assert log'[|log| + i].id == e.id;
      NoRuns(log', e.id);
    }
  }

  lemma BirthExpiry(q: Queue, now: int, ticks: seq<Tick>)
    requires Birth(q) && Inv(q, [], 0) && |ticks| == Expired(q.timers, now) && TicksFresh(q.born, ticks)
    ensures Birth(HandleExpiry(q, now, ticks))
  {
    InvSorted(q);
    hide Inv, Birth, RunCallbacks, Reset, Runs, Sorted, Rans, TicksFresh;
    ExpiredIsDue(q.timers, now);
    ExtractKeeps(q, now);
    var q1, due := WithoutDue(q, now), Due(q.timers, now);
    BirthFrame(q, q1);
    assert due[0..] == due;
    BirthCallbacks(q1, due, 0, ticks, now);
    RunCallbacksLog(q1, due, ticks, now);
    RansRun(q1.log, due, now);
    var q2 := AfterCallbacks(q, now, ticks);
    BirthReset(q2, due, ticks);
    BirthFrame(Reset(q2, due, ticks), HandleExpiry(q, now, ticks));
  }

  lemma BirthStep(q: Queue, op: Op)
    requires Birth(q) && Inv(q, [], 0) && Legal(q, op)
    ensures Birth(Apply(q, op))
  {
    hide Birth, Inv, HandleExpiry;
    match op
    case Add(a) => BirthAdd(q, a);
    case Handle(now, late, ticks) =>
      FireKeeps(q, [], 0, late);
      BirthFrame(q, Fire(q, late));
      BirthExpiry(Fire(q, late), now, ticks);
    case _ => BirthFrame(q, Apply(q, op));
  }

  lemma {:induction false} BirthRun(q: Queue, ops: seq<Op>)
    requires Birth(q) && Inv(q, [], 0) && LegalRun(q, ops)
    ensures Birth(Run(q, ops))
    decreases |ops|
  {
    hide Birth, Inv;
    if ops != [] {
      BirthStep(q, ops[0]);
      StepKeeps(q, ops[0]);
      BirthRun(Apply(q, ops[0]), ops[1..]);
    }
  }

  /** In every run a timer that has not run yet is in the set under the expiration with
      which it was created, and the first callback of one that has was due then. */
  lemma FirstRunIsAsAsked(start: int, ops: seq<Op>)
    requires LegalRun(Start(start), ops)
    ensures var q := Run(Start(start), ops);
      && (forall id :: id in q.born && Runs(q.log, id) == 0 ==> Entry(q.born[id].expiration, id) in q.timers)
      && (forall k :: 0 <= k < |q.log| ==>
            q.log[k].id in q.born && (IsFirst(q.log, k) ==> q.log[k].due == q.born[q.log[k].id].expiration))
  {
    BirthRun(Start(start), ops);
    TimersAreConserved(start, ops);
    var q := Run(Start(start), ops);
    forall id | id in q.born && Runs(q.log, id) == 0 ensures Entry(q.born[id].expiration, id) in q.timers {
      assert Keyed(q, Entry(q.born[id].expiration, id));
    }
  }
}
