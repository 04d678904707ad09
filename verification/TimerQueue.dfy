/** The timer queue with its timers as objects, reached through their addresses.  Every
 *  method is proved to act on the queue as a function of module `TimerSpec` does.
 */
module TimerQueue {
  import opened Common
  import opened TimerSpec
  import opened TimerProofs

  class TimerObject {
    const id: nat
    const interval: nat
    const repeat: bool
    var expiration: int

    constructor (id: nat, t: Timer)
      ensures this.id == id && View() == t
    {
      this.id := id;
      expiration, interval, repeat := t.expiration, t.interval, t.repeat;
    }

    ghost function View(): Timer
      reads this
    {
      Timer(expiration, interval, repeat)
    }

    /** `restart`: a one-shot timer gets a time in the far past. */
    method Restart(now: int)
      modifies `expiration
      ensures expiration == if repeat then now + interval else 0
    {
      if repeat {
        expiration := now + interval;
      } else {
        expiration := 0;
      }
    }
  }

  class LoopTimers {
    var timers: seq<Entry>
    // The timers that have been created and not deleted, by address.
    var objects: map<nat, TimerObject>
    // The kernel timer, the round of the loop, and what has happened so far.
    ghost var kernel: Queue

    ghost predicate Valid()
      reads this
    {
      forall id :: id in objects ==> objects[id].id == id
    }

    ghost function View(): (q: Queue)
      reads this, objects.Values
      ensures q.timers == timers && q.alive.Keys == objects.Keys && q.born == kernel.born
      ensures forall id :: id in objects ==> q.alive[id] == objects[id].View()
    {
      kernel.(timers := timers, alive := map id | id in objects :: objects[id].View())
    }

    constructor (now: int)
      ensures Valid() && View() == Start(now) && objects == map[]
    {
      timers, objects, kernel := [], map[], Start(now);
    }

    method ResetTimerfd(expiration: int, now: int)
      requires Valid()
      modifies `kernel
      ensures Valid() && View() == Arm(old(View()), expiration, now)
    {
      kernel := Arm(kernel, expiration, now);
    }

    /** `insert`: does the new entry become the earliest? */
    method InsertEntry(id: nat) returns (earliestChanged: bool)
      requires Valid() && id in objects
      modifies `timers
      ensures Valid() && View() == old(View()).(timers := Insert(old(timers), Entry(objects[id].expiration, id)))
      ensures earliestChanged == (old(timers) == [] || objects[id].expiration < old(timers)[0].when)
    {
      var when := objects[id].expiration;
      earliestChanged := timers == [] || when < timers[0].when;
      timers := Insert(timers, Entry(when, id));
    }

    /** The creation of a timer, in `addTimer` */
    method CreateTimer(a: Added) returns (timer: TimerObject)
      requires Valid() && a.id !in objects
      modifies `objects, `kernel
      ensures Valid() && objects == old(objects)[a.id := timer] && fresh(timer) && timer.View() == a.timer
      ensures View() == old(View()).(alive := old(View()).alive[a.id := a.timer], born := old(View()).born[a.id := a.timer])
    {
      ghost var q := View();
      timer := new TimerObject(a.id, a.timer);
      objects := objects[a.id := timer];
      kernel := kernel.(born := kernel.born[a.id := a.timer]);
      assert View().alive == q.alive[a.id := a.timer];
    }

    /** `addTimerInLoop`, with the creation of the timer that precedes it */
    method AddTimerInLoop(a: Added)
      requires Valid() && a.id !in objects
      modifies `timers, `objects, `kernel
      ensures Valid() && View() == AddTimer(old(View()), a)
      ensures objects.Keys == old(objects).Keys + {a.id}
      ensures fresh(objects.Values - old(objects).Values)
    {
      hide View, Insert, Arm;
      var timer := CreateTimer(a);
      assert objects.Values <= old(objects).Values + {timer};
      var earliestChanged := InsertEntry(a.id);
      if earliestChanged {
        ResetTimerfd(timer.expiration, a.now);
      }
    }

    /** `getExpired` */
    method GetExpired(now: int) returns (expired: seq<Entry>)
      requires Valid()
      modifies `timers
      ensures Valid() && expired == Due(old(timers), now)
      ensures View() == old(View()).(timers := old(timers)[Expired(old(timers), now)..])
    {
      var end := LowerBound(timers, Entry(now, LAST_ADDRESS));
      expired := timers[..end];
      timers := timers[end..];
    }

    /** `ReadTimerFd`, which takes an expiry if there is one */
    method ReadTimerFd()
      requires Valid()
      modifies `kernel
      ensures Valid() && View() == old(View()).(ready := false)
    {
      kernel := kernel.(ready := false);
    }

    /** The kernel timer expires at this time, if it can. */
    ghost method KernelFires(at: Option<int>)
      requires Valid()
      modifies `kernel
      ensures Valid() && View() == Fire(old(View()), at)
    {
      kernel := Fire(kernel, at);
    }

    /** A callback that adds timers to the queue it is called from. */
    method RunCallback(e: Entry, tick: Tick, now: int)
      requires Valid() && AllFresh(View().born, tick.added) && forall id :: id in objects ==> id in View().born
      modifies `timers, `objects, `kernel
      ensures Valid() && forall id :: id in objects ==> id in View().born
      ensures View() == AddTimers(Begin(old(View()), e, tick, now), tick.added)
      ensures View().born == Born(old(View()).born, tick.added)
      ensures fresh(objects.Values - old(objects).Values)
    {
      hide AddTimers, AllFresh, Born;
      KernelFires(tick.before);
      Log(Ran(e.id, e.when, now));
      AddAll(tick.added);
    }

    ghost method Log(ran: Ran)
      requires Valid()
      modifies `kernel
      ensures Valid() && View() == old(View()).(log := old(View()).log + [ran])
    {
      kernel := kernel.(log := kernel.log + [ran]);
    }

    method AddAll(added: seq<Added>)
      requires Valid() && AllFresh(View().born, added) && forall id :: id in objects ==> id in View().born
      modifies `timers, `objects, `kernel
      ensures Valid() && forall id :: id in objects ==> id in View().born
      ensures View() == AddTimers(old(View()), added) && View().born == Born(old(View()).born, added)
      ensures fresh(objects.Values - old(objects).Values)
    {
      ghost var q := View();
      var i := 0;
      assert added[0..] == added;
      while i < |added|
        invariant 0 <= i <= |added| && Valid()
        invariant AllFresh(View().born, added[i..]) && Born(View().born, added[i..]) == Born(q.born, added)
        invariant forall id :: id in objects ==> id in View().born
        invariant AddTimers(View(), added[i..]) == AddTimers(q, added)
        invariant fresh(objects.Values - old(objects).Values)
      {
        assert added[i..][0] == added[i] && added[i..][1..] == added[i + 1..];
        AddTimerInLoop(added[i]);
        i := i + 1;
      }
    }

    /** `reset` */
    method ResetExpired(expired: seq<Entry>, ticks: seq<Tick>)
      requires Valid() && |ticks| == |expired| && Inv(View(), expired, |expired|)
      modifies `timers, `objects, `kernel, objects.Values
      ensures Valid() && View() == Reset(old(View()), expired, ticks)
      ensures objects.Values <= old(objects).Values
    {
      hide Inv, View, ResetOne, ArmFirst;
      var i := 0;
      assert expired[0..] == expired && ticks[0..] == ticks;
      while i < |expired|
        invariant 0 <= i <= |expired| && Valid()
        invariant Inv(View(), expired[i..], |expired| - i)
        invariant Reset(View(), expired[i..], ticks[i..]) == Reset(old(View()), expired, ticks)
        invariant objects.Values <= old(objects).Values
      {
        assert expired[i..][1..] == expired[i + 1..] && ticks[i..][1..] == ticks[i + 1..];
        ResetTurn(expired[i], ticks[i], expired[i..]);
        i := i + 1;
      }
    }

    /** One turn of that loop. */
    method ResetTurn(e: Entry, tick: Tick, ghost out: seq<Entry>)
      requires Valid() && out != [] && out[0] == e && Inv(View(), out, |out|)
      modifies `timers, `objects, `kernel, objects.Values
      ensures old(View()).alive.Keys >= {e.id} && View() == ArmFirst(ResetOne(old(View()), e, tick), tick.arm)
      ensures Valid() && Inv(View(), out[1..], |out| - 1)
      ensures objects.Values <= old(objects).Values
    {
      hide Inv, View;
      ResetOneKeeps(View(), out, tick);
      KernelFires(tick.again);
      RenewEntry(e, tick);
      FirstAlive(View(), out[1..], |out| - 1);
      ArmFirstKeeps(View(), out[1..], |out| - 1, tick.arm);
      if timers != [] {
        ResetTimerfd(objects[timers[0].id].expiration, tick.arm);
      }
    }

    /** An expired timer is restarted or deleted. */
    method RenewEntry(e: Entry, tick: Tick)
      requires Valid() && e.id in objects
      modifies `timers, `objects, objects.Values
      ensures Valid() && View() == Renew(old(View()), e, tick)
      ensures objects.Values <= old(objects).Values
    {
      ghost var q := View();
      var timer := objects[e.id];
      if timer.repeat {
        timer.Restart(tick.restart);
        assert forall id :: id in objects && id != e.id ==> objects[id] != timer && objects[id].View() == q.alive[id];
        assert View().alive == q.alive[e.id := timer.View()];
        var earliestChanged := InsertEntry(e.id);
      } else {
        objects := objects - {e.id};
        assert View().alive == q.alive - {e.id};
      }
    }

    /** The loop of `handleRead` over what has expired. */
    method RunExpired(expired: seq<Entry>, ticks: seq<Tick>, now: int)
      requires Valid() && |ticks| == |expired| && TicksFresh(View().born, ticks)
      requires forall id :: id in objects ==> id in View().born
      modifies `timers, `objects, `kernel
      ensures Valid() && View() == RunCallbacks(old(View()), expired, ticks, now)
      ensures fresh(objects.Values - old(objects).Values)
    {
      hide View, AddTimers;
      var i := 0;
      assert expired[0..] == expired && ticks[0..] == ticks;
      while i < |expired|
        invariant 0 <= i <= |expired| && Valid()
        invariant TicksFresh(View().born, ticks[i..])
        invariant forall id :: id in objects ==> id in View().born
        invariant RunCallbacks(View(), expired[i..], ticks[i..], now) == RunCallbacks(old(View()), expired, ticks, now)
        invariant fresh(objects.Values - old(objects).Values)
      {
        assert expired[i..][1..] == expired[i + 1..] && ticks[i..][1..] == ticks[i + 1..];
        RunCallback(expired[i], ticks[i], now);
        i := i + 1;
      }
    }

    /** `handleRead`, which reads the clock at `now` and then the kernel timer; at `late`
        in between the kernel timer may still expire. */
    method HandleRead(now: int, late: Option<int>, ticks: seq<Tick>)
      requires Valid() && Inv(View(), [], 0)
      requires |ticks| == Expired(timers, now) && TicksFresh(View().born, ticks)
      modifies `timers, `objects, `kernel, objects.Values
      ensures Valid() && View() == TimerSpec.HandleRead(old(View()), now, late, ticks)
    {
      hide Inv, HandleExpiry, TicksFresh, View;
      FireKeeps(View(), [], 0, late);
      KernelFires(late);
      TakeExpiry(now, ticks);
    }

    /** The rest of it, from the reading of the kernel timer. */
    method TakeExpiry(now: int, ticks: seq<Tick>)
      requires Valid() && Inv(View(), [], 0)
      requires |ticks| == Expired(timers, now) && TicksFresh(View().born, ticks)
      modifies `timers, `objects, `kernel, objects.Values
      ensures Valid() && View() == HandleExpiry(old(View()), now, ticks)
    {
      AliveBorn(View());
      hide Inv, RunCallbacks, Reset, TicksFresh, View;
      CallbacksKeep(View(), now, ticks);
      ReadTimerFd();
      var expired := GetExpired(now);
      RunExpired(expired, ticks, now);
      ResetExpired(expired, ticks);
      EndRound();
    }

    ghost method EndRound()
      requires Valid()
      modifies `kernel
      ensures Valid() && View() == old(View()).(scheduled := false)
    {
      kernel := kernel.(scheduled := false);
    }
  }

  lemma AliveBorn(q: Queue)
    requires Inv(q, [], 0)
    ensures forall id :: id in q.alive ==> id in q.born
  {
  }
}
