/** What every run of the timer queue keeps: no timer is lost, none runs early or twice,
 *  and none is stranded.
 */
module TimerProofs {
  import opened Common
  import opened TimerSpec

  predicate Sorted(ts: seq<Entry>) {
    forall i, j :: 0 <= i < j < |ts| ==> Less(ts[i], ts[j])
  }

  function Runs(log: seq<Ran>, id: nat): nat {
    if log == [] then 0 else Runs(log[..|log| - 1], id) + if log[|log| - 1].id == id then 1 else 0
  }

  /** The entry that belongs to a timer. */
  function At(q: Queue, id: nat): Entry
    requires id in q.alive
  {
    Entry(q.alive[id].expiration, id)
  }

  predicate Keyed(q: Queue, e: Entry) {
    e.id in q.alive && q.alive[e.id].expiration == e.when
  }

  /** Every key is the expiration of its timer. */
  ghost predicate KeysOk(q: Queue, es: seq<Entry>) {
    forall e :: e in es ==> Keyed(q, e) && e.id < LAST_ADDRESS
  }

  /** Every timer that is alive has its entry. */
  ghost predicate Covered(q: Queue, out: seq<Entry>) {
    forall id :: id in q.alive ==> At(q, id) in q.timers || At(q, id) in out
  }

  ghost predicate BornOk(q: Queue) {
    forall id :: id in q.alive ==>
      id in q.born && q.alive[id].repeat == q.born[id].repeat && q.alive[id].interval == q.born[id].interval
  }

  /** The ordered set and the timers that are alive agree, while `out` has been taken
      from the set. */
  ghost predicate SetOk(q: Queue, out: seq<Entry>) {
    && Sorted(q.timers) && Sorted(out)
    && KeysOk(q, q.timers) && KeysOk(q, out)
    && (forall e :: e in out ==> e !in q.timers)
    && Covered(q, out)
    && BornOk(q)
  }

  /** A repeating timer stays; a one-shot timer stays until its one run, which is one of
      the runs that have just happened or lies further back. */
  ghost predicate RunsOk(q: Queue, done: seq<Entry>) {
    && (forall id :: id in q.born && q.born[id].repeat ==> id in q.alive)
    && (forall id :: id in q.born && !q.born[id].repeat ==>
          Runs(q.log, id) == if id in q.alive && At(q, id) !in done then 0 else 1)
    && (forall id :: id !in q.born ==> Runs(q.log, id) == 0)
    && (forall r :: r in q.log ==> r.due <= r.at)
  }

  /** The state of the queue while `out` has been taken from the ordered set and the
      callbacks of its first `k` entries have run; between rounds `out` is empty. */
  ghost predicate Inv(q: Queue, out: seq<Entry>, k: nat) {
    k <= |out| && SetOk(q, out) && RunsOk(q, out[..k])
  }

  // ---------- the ordered set ----------

  lemma {:induction false} InsertAt(ts: seq<Entry>, e: Entry)
    requires Sorted(ts)
    ensures forall x :: x in Insert(ts, e) <==> x in ts || x == e
    ensures Insert(ts, e) != [] && Insert(ts, e)[0] == if ts == [] || Less(e, ts[0]) then e else ts[0]
    ensures Sorted(Insert(ts, e))
  {
    var r := Insert(ts, e);
    if ts != [] && !Less(e, ts[0]) && e != ts[0] {
      InsertAt(ts[1..], e);
      var s := Insert(ts[1..], e);
      assert ts == [ts[0]] + ts[1..];
      forall x | x in s ensures Less(ts[0], x) {
        if x != e {
          var i :| 0 <= i < |ts[1..]| && ts[1..][i] == x;
          assert x == ts[i + 1];
        }
      }
      assert forall j :: 0 < j < |r| ==> r[j] == s[j - 1];
    }
  }

  lemma {:induction false} LowerBoundSplits(ts: seq<Entry>, e: Entry)
    requires Sorted(ts)
    ensures forall i :: 0 <= i < LowerBound(ts, e) ==> Less(ts[i], e)
    ensures forall i :: LowerBound(ts, e) <= i < |ts| ==> !Less(ts[i], e)
  {
    if ts != [] && Less(ts[0], e) {
      LowerBoundSplits(ts[1..], e);
    } else if ts != [] {
      assert forall i :: 0 < i < |ts| ==> Less(ts[0], ts[i]);
    }
  }

  /** `getExpired` takes exactly the entries that are due, in order. */
  lemma ExpiredIsDue(ts: seq<Entry>, now: int)
    requires Sorted(ts) && forall e :: e in ts ==> e.id < LAST_ADDRESS
    ensures var n := Expired(ts, now);
      && Sorted(ts[..n]) && ts[..n] + ts[n..] == ts
      && (forall e :: e in ts[..n] ==> e.when <= now)
      && (forall e :: e in ts[n..] ==> now < e.when)
  {
    LowerBoundSplits(ts, Entry(now, LAST_ADDRESS));
    var n := Expired(ts, now);
    forall e | e in ts[n..] ensures now < e.when {
      var i :| 0 <= i < |ts[n..]| && ts[n..][i] == e;
      assert e == ts[n + i] && ts[n + i] in ts;
    }
  }

  // ---------- the parts of a round ----------

  lemma ExtractKeeps(q: Queue, now: int)
    requires Inv(q, [], 0)
    ensures Inv(WithoutDue(q, now), Due(q.timers, now), 0)
  {
    var q' := WithoutDue(q, now);
    var due := Due(q.timers, now);
    ExpiredIsDue(q.timers, now);
    assert due[..0] == [];
    forall id | id in q.alive ensures At(q', id) in q'.timers || At(q', id) in due {
      assert At(q', id) == At(q, id);
      assert At(q, id) in due + q'.timers;
    }
  }

  /** Entries of other timers are not affected when timer `id` changes or goes. */
  lemma KeysElsewhere(q: Queue, q': Queue, es: seq<Entry>, id: nat)
    requires KeysOk(q, es) && forall e :: e in es ==> e.id != id
    requires forall i :: i != id && i in q.alive ==> i in q'.alive && q'.alive[i] == q.alive[i]
    ensures KeysOk(q', es)
  {
  }

  lemma KeysInsert(q: Queue, es: seq<Entry>, e: Entry)
    requires Sorted(es) && KeysOk(q, es) && Keyed(q, e) && e.id < LAST_ADDRESS
    ensures KeysOk(q, Insert(es, e)) && Sorted(Insert(es, e))
  {
    InsertAt(es, e);
  }

  lemma CoveredInsert(q: Queue, q': Queue, out: seq<Entry>, out': seq<Entry>, e: Entry)
    requires Covered(q, out) && Sorted(q.timers) && q'.timers == Insert(q.timers, e)
    requires forall x :: x in out && x.id != e.id ==> x in out'
    requires q'.alive.Keys <= q.alive.Keys + {e.id} && (e.id in q'.alive ==> q'.alive[e.id].expiration == e.when)
    requires forall i :: i != e.id && i in q'.alive ==> i in q.alive && q'.alive[i] == q.alive[i]
    ensures Covered(q', out')
  {
    InsertAt(q.timers, e);
    forall id | id in q'.alive ensures At(q', id) in q'.timers || At(q', id) in out' {
      if id != e.id {
        assert At(q', id) == At(q, id);
      }
    }
  }

  lemma OthersOnly(q: Queue, es: seq<Entry>, id: nat)
    requires KeysOk(q, es) && BornOk(q) && id !in q.born
    ensures forall x :: x in es ==> x.id != id
  {
  }

  lemma ArmSetOk(q: Queue, out: seq<Entry>, expiration: int, now: int)
    requires SetOk(q, out)
    ensures SetOk(Arm(q, expiration, now), out)
  {
    var q' := Arm(q, expiration, now);
    assert forall id :: id in q.alive ==> At(q', id) == At(q, id);
  }

  lemma AddKeys(q: Queue, out: seq<Entry>, q': Queue, a: Added)
    requires SetOk(q, out) && a.id !in q.born && a.id < LAST_ADDRESS
    requires q' == q.(timers := Insert(q.timers, Entry(a.timer.expiration, a.id)),
                      alive := q.alive[a.id := a.timer], born := q.born[a.id := a.timer])
    ensures KeysOk(q', q'.timers) && KeysOk(q', out) && Sorted(q'.timers)
  {
    OthersOnly(q, q.timers, a.id);
    OthersOnly(q, out, a.id);
    hide Insert, Sorted, KeysOk, Covered;
    KeysElsewhere(q, q', q.timers, a.id);
    KeysElsewhere(q, q', out, a.id);
    KeysInsert(q', q.timers, Entry(a.timer.expiration, a.id));
  }

  lemma AddSetOk(q: Queue, out: seq<Entry>, a: Added)
    requires SetOk(q, out) && a.id !in q.born && a.id < LAST_ADDRESS
    ensures SetOk(AddTimer(q, a), out)
  {
    var e := Entry(a.timer.expiration, a.id);
    var q' := q.(timers := Insert(q.timers, e), alive := q.alive[a.id := a.timer], born := q.born[a.id := a.timer]);
    assert SetOk(q', out) by {
      OthersOnly(q, out, a.id);
      InsertAt(q.timers, e);
      hide Insert, Sorted, KeysOk, Covered;
      AddKeys(q, out, q', a);
      CoveredInsert(q, q', out, out, e);
    }
    hide SetOk;
    ArmSetOk(q', out, e.when, a.now);
  }

  lemma AddRunsOk(q: Queue, done: seq<Entry>, a: Added)
    requires RunsOk(q, done) && a.id !in q.born && a.id !in q.alive && forall x :: x in done ==> x.id != a.id
    ensures RunsOk(AddTimer(q, a), done)
  {
    var q' := AddTimer(q, a);
    forall id | id in q'.born && !q'.born[id].repeat
      ensures Runs(q'.log, id) == if id in q'.alive && At(q', id) !in done then 0 else 1
    {
      if id != a.id && id in q.alive {
        assert At(q', id) == At(q, id);
      }
    }
  }

  lemma AddKeeps(q: Queue, out: seq<Entry>, k: nat, a: Added)
    requires Inv(q, out, k) && a.id !in q.born && a.id < LAST_ADDRESS
    ensures Inv(AddTimer(q, a), out, k)
    ensures AddTimer(q, a).born == q.born[a.id := a.timer]
  {
    assert forall x :: x in out[..k] ==> x in out && x.id != a.id;
    hide SetOk, RunsOk;
    AddSetOk(q, out, a);
    assert a.id !in q.alive by {
      BornAlive(q, out, a.id);
    }
    AddRunsOk(q, out[..k], a);
  }

  lemma BornAlive(q: Queue, out: seq<Entry>, id: nat)
    requires SetOk(q, out) && id !in q.born
    ensures id !in q.alive
  {
  }

  lemma {:induction false} AddAllKeeps(q: Queue, out: seq<Entry>, k: nat, added: seq<Added>)
    requires Inv(q, out, k) && AllFresh(q.born, added)
    ensures Inv(AddTimers(q, added), out, k)
    ensures AddTimers(q, added).born == Born(q.born, added)
    decreases |added|
  {
    if added != [] {
      AddKeeps(q, out, k, added[0]);
      AddAllKeeps(AddTimer(q, added[0]), out, k, added[1..]);
    }
  }

  lemma RunsOneMore(log: seq<Ran>, r: Ran, id: nat)
    ensures Runs(log + [r], id) == Runs(log, id) + if r.id == id then 1 else 0
  {
    assert (log + [r])[..|log|] == log;
  }

  lemma CallbackKeeps(q: Queue, out: seq<Entry>, k: nat, now: int)
    requires Inv(q, out, k) && k < |out| && out[k].when <= now
    ensures Inv(q.(log := q.log + [Ran(out[k].id, out[k].when, now)]), out, k + 1)
  {
    var r := Ran(out[k].id, out[k].when, now);
    var q' := q.(log := q.log + [r]);
    assert out[..k + 1] == out[..k] + [out[k]];
    assert out[k] in out && Keyed(q, out[k]);
    assert out[k] !in out[..k] by {
      assert forall i :: 0 <= i < k ==> Less(out[i], out[k]);
    }
    forall id ensures Runs(q'.log, id) == Runs(q.log, id) + if out[k].id == id then 1 else 0 {
      RunsOneMore(q.log, r, id);
    }
    forall id | id in q'.born && !q'.born[id].repeat
      ensures Runs(q'.log, id) == if id in q'.alive && At(q', id) !in out[..k + 1] then 0 else 1
    {
      if id in q.alive {
        assert At(q', id) == At(q, id);
        assert id == out[k].id <==> At(q, id) == out[k];
      }
    }
    forall x | x in q'.log ensures x.due <= x.at {
      assert x in q.log || x == r;
    }
  }

  lemma FireKeeps(q: Queue, out: seq<Entry>, k: nat, at: Option<int>)
    requires Inv(q, out, k)
    ensures Inv(Fire(q, at), out, k)
  {
    InvFrame(q, out, k, Fire(q, at));
  }

  lemma {:induction false} RunCallbacksKeeps(q: Queue, out: seq<Entry>, k: nat, ticks: seq<Tick>, now: int)
    requires Inv(q, out, k) && |ticks| == |out| - k && TicksFresh(q.born, ticks)
    requires forall e :: e in out ==> e.when <= now
    ensures Inv(RunCallbacks(q, out[k..], ticks, now), out, |out|)
    decreases |out| - k
  {
    if k < |out| {
      assert out[k] in out;
      FireKeeps(q, out, k, ticks[0].before);
      CallbackKeeps(Fire(q, ticks[0].before), out, k, now);
      var q1 := Begin(q, out[k], ticks[0], now);
      AddAllKeeps(q1, out, k + 1, ticks[0].added);
      RunCallbacksKeeps(AddTimers(q1, ticks[0].added), out, k + 1, ticks[1..], now);
      assert out[k..][1..] == out[k + 1..];
    }
  }

  /** The entries of `out` belong to different timers, none of them in the set. */
  lemma OutDistinct(q: Queue, out: seq<Entry>)
    requires SetOk(q, out) && out != []
    ensures out[0].id in q.alive && At(q, out[0].id) == out[0]
    ensures forall x :: x in out[1..] ==> x in out && x.id != out[0].id
    ensures forall x :: x in q.timers ==> x.id != out[0].id
  {
    var rest := out[1..];
    assert out[0] in out && Keyed(q, out[0]);
    forall x | x in rest ensures x in out && x.id != out[0].id {
      var i :| 0 <= i < |rest| && rest[i] == x;
      assert x == out[i + 1] && Keyed(q, x) && Less(out[0], out[i + 1]);
    }
  }

  lemma RestSorted(out: seq<Entry>)
    requires Sorted(out) && out != []
    ensures Sorted(out[1..]) && forall x :: x in out ==> x == out[0] || x in out[1..]
  {
    assert out == [out[0]] + out[1..];
  }

  lemma RestartSetOk(q: Queue, out: seq<Entry>, tick: Tick)
    requires SetOk(q, out) && out != [] && out[0].id in q.alive && q.alive[out[0].id].repeat
    ensures SetOk(Renew(q, out[0], tick), out[1..])
  {
    OutDistinct(q, out);
    RestSorted(out);
    KeysRest(q, out);
    hide Insert, Sorted, KeysOk, Covered;
    var e, rest := out[0], out[1..];
    var e' := Entry(tick.restart + q.alive[e.id].interval, e.id);
    var q' := Renew(q, e, tick);
    InsertAt(q.timers, e');
    KeysElsewhere(q, q', q.timers, e.id);
    KeysElsewhere(q, q', rest, e.id);
    KeysInsert(q', q.timers, e');
    CoveredInsert(q, q', out, rest, e');
  }

  lemma KeysRest(q: Queue, out: seq<Entry>)
    requires KeysOk(q, out) && out != []
    ensures out[0].id < LAST_ADDRESS && KeysOk(q, out[1..])
  {
    assert out[0] in out;
  }

  lemma DeleteSetOk(q: Queue, out: seq<Entry>, tick: Tick)
    requires SetOk(q, out) && out != [] && out[0].id in q.alive && !q.alive[out[0].id].repeat
    ensures SetOk(Renew(q, out[0], tick), out[1..])
  {
    OutDistinct(q, out);
    RestSorted(out);
    var e, rest := out[0], out[1..];
    var q' := Renew(q, e, tick);
    assert KeysOk(q, rest);
    forall id | id in q'.alive ensures At(q', id) in q'.timers || At(q', id) in rest {
      assert At(q', id) == At(q, id);
    }
    hide Sorted, KeysOk, Covered;
    KeysElsewhere(q, q', q.timers, e.id);
    KeysElsewhere(q, q', rest, e.id);
  }

  lemma ResetSetOk(q: Queue, out: seq<Entry>, tick: Tick)
    requires SetOk(q, out) && out != []
    ensures out[0].id in q.alive && SetOk(Renew(q, out[0], tick), out[1..])
  {
    OutDistinct(q, out);
    hide SetOk;
    if q.alive[out[0].id].repeat {
      RestartSetOk(q, out, tick);
    } else {
      DeleteSetOk(q, out, tick);
    }
  }

  lemma ResetRunsOk(q: Queue, out: seq<Entry>, tick: Tick)
    requires SetOk(q, out) && RunsOk(q, out) && out != []
    ensures out[0].id in q.alive && RunsOk(Renew(q, out[0], tick), out[1..])
  {
    OutDistinct(q, out);
    var e, rest := out[0], out[1..];
    var q' := Renew(q, e, tick);
    assert out == [e] + rest;
    forall id | id in q'.born && !q'.born[id].repeat
      ensures Runs(q'.log, id) == if id in q'.alive && At(q', id) !in rest then 0 else 1
    {
      if id in q'.alive && id != e.id {
        assert At(q', id) == At(q, id);
      }
    }
  }

  lemma ResetOneKeeps(q: Queue, out: seq<Entry>, tick: Tick)
    requires Inv(q, out, |out|) && out != []
    ensures out[0].id in q.alive && Inv(ResetOne(q, out[0], tick), out[1..], |out| - 1)
  {
    hide SetOk, RunsOk;
    assert out[..|out|] == out && out[1..][..|out| - 1] == out[1..];
    FireKeeps(q, out, |out|, tick.again);
    ResetSetOk(Fire(q, tick.again), out, tick);
    ResetRunsOk(Fire(q, tick.again), out, tick);
  }

  lemma ArmKeeps(q: Queue, out: seq<Entry>, k: nat, expiration: int, now: int)
    requires Inv(q, out, k)
    ensures Inv(Arm(q, expiration, now), out, k)
  {
    var q' := Arm(q, expiration, now);
    assert forall id :: id in q.alive ==> At(q', id) == At(q, id);
  }

  lemma ArmFirstKeeps(q: Queue, out: seq<Entry>, k: nat, now: int)
    requires Inv(q, out, k)
    ensures Inv(ArmFirst(q, now), out, k)
  {
    if q.timers != [] {
      assert q.timers[0] in q.timers;
      ArmKeeps(q, out, k, q.alive[q.timers[0].id].expiration, now);
    }
  }

  lemma {:induction false} ResetKeeps(q: Queue, out: seq<Entry>, ticks: seq<Tick>)
    requires Inv(q, out, |out|) && |ticks| == |out|
    ensures Inv(Reset(q, out, ticks), [], 0)
    decreases |out|
  {
    hide SetOk, RunsOk;
    if out == [] {
      assert out[..0] == out;
    } else {
      ResetOneKeeps(q, out, ticks[0]);
      ArmFirstKeeps(ResetOne(q, out[0], ticks[0]), out[1..], |out| - 1, ticks[0].arm);
      ResetKeeps(ArmFirst(ResetOne(q, out[0], ticks[0]), ticks[0].arm), out[1..], ticks[1..]);
    }
  }

  /** The first half of `handleRead`: everything due is taken out and has run. */
  lemma CallbacksKeep(q: Queue, now: int, ticks: seq<Tick>)
    requires Inv(q, [], 0) && |ticks| == Expired(q.timers, now) && TicksFresh(q.born, ticks)
    ensures Inv(AfterCallbacks(q, now, ticks), Due(q.timers, now), Expired(q.timers, now))
  {
    InvSorted(q);
    hide Inv;
    ExtractKeeps(q, now);
    ExpiredIsDue(q.timers, now);
    assert Due(q.timers, now)[0..] == Due(q.timers, now);
    RunCallbacksKeeps(WithoutDue(q, now), Due(q.timers, now), 0, ticks, now);
  }

  lemma HandleKeeps(q: Queue, now: int, ticks: seq<Tick>)
    requires Inv(q, [], 0) && |ticks| == Expired(q.timers, now) && TicksFresh(q.born, ticks)
    ensures Inv(HandleExpiry(q, now, ticks), [], 0)
  {
    hide Inv, AfterCallbacks, Due, Reset;
    CallbacksKeep(q, now, ticks);
    ResetKeeps(AfterCallbacks(q, now, ticks), Due(q.timers, now), ticks);
    InvFrame(Reset(AfterCallbacks(q, now, ticks), Due(q.timers, now), ticks), [], 0, HandleExpiry(q, now, ticks));
  }

  lemma InvSorted(q: Queue)
    requires Inv(q, [], 0)
    ensures Sorted(q.timers) && forall e :: e in q.timers ==> e.id < LAST_ADDRESS
  {
  }

  /** The kernel's side does not matter to the invariant. */
  lemma InvFrame(q: Queue, out: seq<Entry>, k: nat, q': Queue)
    requires Inv(q, out, k)
    requires q' == q.(armed := q'.armed, armedAt := q'.armedAt, ready := q'.ready, scheduled := q'.scheduled, clock := q'.clock)
    ensures Inv(q', out, k)
  {
    assert forall id :: id in q.alive ==> At(q', id) == At(q, id);
  }

  lemma StepKeeps(q: Queue, op: Op)
    requires Inv(q, [], 0) && Legal(q, op)
    ensures Inv(Apply(q, op), [], 0)
  {
    hide Inv;
    match op
    case Add(a) => AddKeeps(q, [], 0, a);
    case Handle(now, late, ticks) =>
      FireKeeps(q, [], 0, late);
      HandleKeeps(Fire(q, late), now, ticks);
    case _ => InvFrame(q, [], 0, Apply(q, op));
  }

  // ---------- arming ----------

  /** The kernel timer is set for the earliest expiration, or, if it is not set, an
      expiry is waiting to be handled that the earliest expiration will not outlast. */
  ghost predicate ArmedOk(q: Queue) {
    q.timers != [] ==>
      if q.armed.Some? then q.armed.value == Max(q.timers[0].when, q.armedAt + NEVER_SOONER_THAN)
      else (q.ready || q.scheduled) && q.timers[0].when <= q.clock
  }

  predicate ArmedExactly(q: Queue) {
    q.timers != [] ==> q.armed == Some(Max(q.timers[0].when, q.armedAt + NEVER_SOONER_THAN))
  }

  lemma AddArmed(q: Queue, a: Added)
    requires Sorted(q.timers) && ArmedOk(q)
    ensures ArmedOk(AddTimer(q, a))
  {
    var e := Entry(a.timer.expiration, a.id);
    InsertAt(q.timers, e);
    DelayIsExact(e.when, a.now);
  }

  lemma {:induction false} ResetArms(q: Queue, out: seq<Entry>, ticks: seq<Tick>)
    requires Inv(q, out, |out|) && |ticks| == |out| && out != []
    ensures ArmedExactly(Reset(q, out, ticks))
    decreases |out|
  {
    hide Inv;
    OutAlive(q, out);
    var q1 := ResetOne(q, out[0], ticks[0]);
    ResetOneKeeps(q, out, ticks[0]);
    var q2 := ArmFirst(q1, ticks[0].arm);
    assert ArmedExactly(q2) by {
      FirstAlive(q1, out[1..], |out| - 1);
      if q1.timers != [] {
        DelayIsExact(q1.timers[0].when, ticks[0].arm);
      }
    }
    if |out| > 1 {
      ArmFirstKeeps(q1, out[1..], |out| - 1, ticks[0].arm);
      ResetArms(q2, out[1..], ticks[1..]);
    }
  }

  lemma OutAlive(q: Queue, out: seq<Entry>)
    requires Inv(q, out, |out|) && out != []
    ensures out[0].id in q.alive
  {
    assert out[0] in out;
  }

  lemma FirstAlive(q: Queue, out: seq<Entry>, k: nat)
    requires Inv(q, out, k)
    ensures q.timers != [] ==> Keyed(q, q.timers[0])
  {
    if q.timers != [] {
      assert q.timers[0] in q.timers;
    }
  }

  /** A round that finds an expired timer arms the kernel timer for what remains. */
  lemma HandleArms(q: Queue, now: int, ticks: seq<Tick>)
    requires Inv(q, [], 0) && |ticks| == Expired(q.timers, now) && TicksFresh(q.born, ticks)
    requires Expired(q.timers, now) > 0
    ensures ArmedExactly(HandleExpiry(q, now, ticks))
  {
    hide Inv, AfterCallbacks, Due, Reset;
    CallbacksKeep(q, now, ticks);
    ResetArms(AfterCallbacks(q, now, ticks), Due(q.timers, now), ticks);
  }

  /** A round that finds none leaves the set and the kernel timer as they are. */
  lemma HandleNothing(q: Queue, now: int)
    requires Expired(q.timers, now) == 0
    ensures HandleExpiry(q, now, []) == q.(ready := false, scheduled := false)
  {
    assert q.timers[0..] == q.timers;
  }

  lemma NothingDue(q: Queue, now: int)
    requires Inv(q, [], 0) && q.timers != []
    ensures Expired(q.timers, now) == 0 <==> now < q.timers[0].when
  {
    InvSorted(q);
    var n := Expired(q.timers, now);
    ExpiredIsDue(q.timers, now);
    if n > 0 {
      assert q.timers[0] in q.timers[..n];
    } else {
      assert q.timers[0] in q.timers[0..];
    }
  }

  // ---------- stranding ----------

  /** A timer is pending, the kernel timer is not set, and nothing is under way that
      would set it. */
  predicate Stranded(q: Queue) {
    q.timers != [] && q.armed == None && !q.ready && !q.scheduled
  }

  /** A round that finds nothing due by its reading of the clock, while the kernel timer
      expires between that reading and the one that takes the expiry. */
  predicate Strands(q: Queue, op: Op) {
    op.Handle? && q.timers != [] && op.now < q.timers[0].when && Fires(q, op.late)
  }

  /** In any state, however it came about, a round leaves a timer stranded if and only
      if timers are pending, none is due at its reading of the clock, and the kernel
      timer is not set any more when it is read: `reset` sets it only in its loop over
      what has expired. */
  lemma HandleStrandsExactly(q: Queue, now: int, late: Option<int>, ticks: seq<Tick>)
    requires Inv(q, [], 0) && |ticks| == Expired(q.timers, now) && TicksFresh(q.born, ticks)
    ensures Stranded(HandleRead(q, now, late, ticks)) <==>
      q.timers != [] && now < q.timers[0].when && Fire(q, late).armed == None
  {
    hide Inv, HandleExpiry;
    FireKeeps(q, [], 0, late);
    if Expired(q.timers, now) > 0 {
      HandleArms(Fire(q, late), now, ticks);
      if q.timers != [] {
        NothingDue(q, now);
      } else {
        NoneExpired(now);
      }
    } else {
      HandleNothing(Fire(q, late), now);
      if q.timers != [] {
        NothingDue(q, now);
      }
    }
  }

  lemma NoneExpired(now: int)
    ensures Expired([], now) == 0
  {
  }

  lemma HandleArmed(q: Queue, now: int, late: Option<int>, ticks: seq<Tick>)
    requires Inv(q, [], 0) && ArmedOk(q) && Legal(q, Handle(now, late, ticks))
    ensures if Strands(q, Handle(now, late, ticks)) then Stranded(HandleRead(q, now, late, ticks))
            else ArmedOk(HandleRead(q, now, late, ticks))
  {
    hide Inv, HandleExpiry;
    HandleStrandsExactly(q, now, late, ticks);
    FireKeeps(q, [], 0, late);
    if Expired(q.timers, now) > 0 {
      HandleArms(Fire(q, late), now, ticks);
      if q.timers != [] {
        NothingDue(q, now);
      } else {
        NoneExpired(now);
      }
    } else {
      HandleNothing(Fire(q, late), now);
      if q.timers != [] {
        NothingDue(q, now);
      }
    }
  }

  lemma StepArmed(q: Queue, op: Op)
    requires Inv(q, [], 0) && ArmedOk(q) && Legal(q, op)
    ensures if Strands(q, op) then Stranded(Apply(q, op)) else ArmedOk(Apply(q, op))
  {
    InvSorted(q);
    hide Inv, HandleRead, AddTimer;
    match op
    case Add(a) => AddArmed(q, a);
    case Handle(now, late, ticks) => HandleArmed(q, now, late, ticks);
    case _ =>
  }

  // ---------- every run ----------

  lemma {:induction false} RunKeeps(q: Queue, ops: seq<Op>)
    requires Inv(q, [], 0) && LegalRun(q, ops)
    ensures Inv(Run(q, ops), [], 0)
    decreases |ops|
  {
    hide Inv;
    if ops != [] {
      StepKeeps(q, ops[0]);
      RunKeeps(Apply(q, ops[0]), ops[1..]);
    }
  }

  /** No round of the run is hit by an expiry between its two readings while nothing is
      due. */
  predicate Undisturbed(q: Queue, ops: seq<Op>)
    requires LegalRun(q, ops)
    decreases |ops|
  {
    ops == [] || (!Strands(q, ops[0]) && Undisturbed(Apply(q, ops[0]), ops[1..]))
  }

  /** No state of the run leaves a timer stranded. */
  predicate NeverStranded(q: Queue, ops: seq<Op>)
    requires LegalRun(q, ops)
    decreases |ops|
  {
    !Stranded(q) && (ops == [] || NeverStranded(Apply(q, ops[0]), ops[1..]))
  }

  lemma {:induction false} UndisturbedRun(q: Queue, ops: seq<Op>)
    requires Inv(q, [], 0) && ArmedOk(q) && LegalRun(q, ops)
    ensures NeverStranded(q, ops) <==> Undisturbed(q, ops)
    ensures Undisturbed(q, ops) ==> ArmedOk(Run(q, ops))
    decreases |ops|
  {
    hide Inv, Strands;
    if ops != [] {
      hide Legal, Apply;
      StepKeeps(q, ops[0]);
      StepArmed(q, ops[0]);
      if !Strands(q, ops[0]) {
        UndisturbedRun(Apply(q, ops[0]), ops[1..]);
      }
    }
  }

  /** A run strands no timer at any time if and only if no round of it is hit by an
      expiry between its readings of the clock and of the kernel timer while nothing is
      due by the first. */
  lemma StrandedExactly(start: int, ops: seq<Op>)
    requires LegalRun(Start(start), ops)
    ensures NeverStranded(Start(start), ops) <==> Undisturbed(Start(start), ops)
  {
    UndisturbedRun(Start(start), ops);
  }

  /** In such a run, whenever no expiry is waiting to be handled and a timer is pending,
      the kernel timer is set for the earliest expiration, or for 100 microseconds after
      it was set if that is later. */
  lemma NoneStranded(start: int, ops: seq<Op>)
    requires LegalRun(Start(start), ops) && Undisturbed(Start(start), ops)
    ensures var q := Run(Start(start), ops);
      !q.ready && !q.scheduled && q.timers != [] ==>
        q.armed == Some(Max(q.timers[0].when, q.armedAt + NEVER_SOONER_THAN))
  {
    UndisturbedRun(Start(start), ops);
  }

  /** Timers are conserved: the ordered set holds exactly the timers that are alive,
      under their expirations and in order; every repeating timer ever added is among
      them; every one-shot timer is among them or has run, and has run exactly once if
      it is not; and no callback runs before it is due. */
  lemma TimersAreConserved(start: int, ops: seq<Op>)
    requires LegalRun(Start(start), ops)
    ensures var q := Run(Start(start), ops);
      && Sorted(q.timers)
      && (forall e :: e in q.timers <==> Keyed(q, e))
      && (forall id :: id in q.born && q.born[id].repeat ==> id in q.alive)
      && (forall id :: id in q.born && !q.born[id].repeat ==> Runs(q.log, id) == if id in q.alive then 0 else 1)
      && (forall r :: r in q.log ==> r.due <= r.at)
  {
    RunKeeps(Start(start), ops);
    var q := Run(Start(start), ops);
    forall e | Keyed(q, e) ensures e in q.timers {
      assert At(q, e.id) == e;
    }
  }

  // ---------- what a round does ----------

  function Rans(es: seq<Entry>, now: int): seq<Ran> {
    seq(|es|, i requires 0 <= i < |es| => Ran(es[i].id, es[i].when, now))
  }

  lemma {:induction false} AddAllLog(q: Queue, added: seq<Added>)
    ensures AddTimers(q, added).log == q.log
    decreases |added|
  {
    if added != [] {
      AddAllLog(AddTimer(q, added[0]), added[1..]);
    }
  }

  lemma {:induction false} RunCallbacksLog(q: Queue, es: seq<Entry>, ticks: seq<Tick>, now: int)
    requires |ticks| == |es|
    ensures RunCallbacks(q, es, ticks, now).log == q.log + Rans(es, now)
    decreases |es|
  {
    if es == [] {
      assert q.log + Rans(es, now) == q.log;
    } else {
      var q1 := Begin(q, es[0], ticks[0], now);
      AddAllLog(q1, ticks[0].added);
      RunCallbacksLog(AddTimers(q1, ticks[0].added), es[1..], ticks[1..], now);
      assert Rans(es, now) == [Ran(es[0].id, es[0].when, now)] + Rans(es[1..], now);
    }
  }

  /** `reset` runs nothing and leaves every timer alone that is not among the expired. */
  lemma {:induction false} ResetElsewhere(q: Queue, out: seq<Entry>, ticks: seq<Tick>, id: nat)
    requires |ticks| == |out| && forall e :: e in out ==> e.id != id
    ensures var q' := Reset(q, out, ticks);
      q'.log == q.log && (id in q'.alive <==> id in q.alive) && (id in q.alive ==> q'.alive[id] == q.alive[id])
    decreases |out|
  {
    if out != [] && out[0].id in q.alive {
      ResetElsewhere(ArmFirst(ResetOne(q, out[0], ticks[0]), ticks[0].arm), out[1..], ticks[1..], id);
    }
  }

  lemma {:induction false} ResetLog(q: Queue, out: seq<Entry>, ticks: seq<Tick>)
    requires |ticks| == |out|
    ensures Reset(q, out, ticks).log == q.log
    decreases |out|
  {
    if out != [] && out[0].id in q.alive {
      ResetLog(ArmFirst(ResetOne(q, out[0], ticks[0]), ticks[0].arm), out[1..], ticks[1..]);
    }
  }

  lemma InOneHalf(ts: seq<Entry>, n: nat, e: Entry)
    requires n <= |ts| && e in ts
    ensures e in ts[..n] || e in ts[n..]
  {
    assert ts == ts[..n] + ts[n..];
  }

  /** A round runs the callbacks of exactly the entries that are due, each once and in
      the order of their expirations. */
  lemma RoundRunsDue(q: Queue, now: int, ticks: seq<Tick>)
    requires Inv(q, [], 0) && |ticks| == Expired(q.timers, now)
    ensures HandleExpiry(q, now, ticks).log == q.log + Rans(Due(q.timers, now), now)
    ensures forall e :: e in Due(q.timers, now) <==> e in q.timers && e.when <= now
  {
    InvSorted(q);
    ExpiredIsDue(q.timers, now);
    RunCallbacksLog(WithoutDue(q, now), Due(q.timers, now), ticks, now);
    ResetLog(AfterCallbacks(q, now, ticks), Due(q.timers, now), ticks);
    var n := Expired(q.timers, now);
    forall e | e in q.timers && e.when <= now ensures e in Due(q.timers, now) {
      InOneHalf(q.timers, n, e);
    }
  }

  /** A repeating timer that was due is due again one interval after the time read when
      it was restarted, and a one-shot timer is gone. */
  lemma {:induction false} ResetRestarts(q: Queue, out: seq<Entry>, ticks: seq<Tick>, k: nat)
    requires Inv(q, out, |out|) && |ticks| == |out| && k < |out|
    ensures out[k].id in q.alive
    ensures var t, alive := q.alive[out[k].id], Reset(q, out, ticks).alive;
      if t.repeat then out[k].id in alive && alive[out[k].id] == t.(expiration := ticks[k].restart + t.interval)
      else out[k].id !in alive
    decreases |out|
  {
    hide Inv, Insert, Delay, ResetOne, ArmFirst;
    TurnRestarts(q, out, ticks[0]);
    var q1 := ArmFirst(ResetOne(q, out[0], ticks[0]), ticks[0].arm);
    if k == 0 {
      ResetElsewhere(q1, out[1..], ticks[1..], out[0].id);
    } else {
      assert out[k] == out[1..][k - 1];
      ResetRestarts(q1, out[1..], ticks[1..], k - 1);
    }
  }

  lemma OthersOut(q: Queue, out: seq<Entry>)
    requires Inv(q, out, |out|) && out != []
    ensures out[0].id in q.alive && forall e :: e in out[1..] ==> e.id != out[0].id
  {
    OutDistinct(q, out);
  }

  /** One turn of the loop in `reset` concerns the first timer only. */
  lemma TurnRestarts(q: Queue, out: seq<Entry>, tick: Tick)
    requires Inv(q, out, |out|) && out != []
    ensures out[0].id in q.alive && forall e :: e in out[1..] ==> e.id != out[0].id
    ensures var q1, t := ArmFirst(ResetOne(q, out[0], tick), tick.arm), q.alive[out[0].id];
      && Inv(q1, out[1..], |out| - 1)
      && q1.alive == if t.repeat then q.alive[out[0].id := t.(expiration := tick.restart + t.interval)]
                     else q.alive - {out[0].id}
  {
    hide Inv, Insert, Delay;
    OthersOut(q, out);
    ResetOneKeeps(q, out, tick);
    ArmFirstKeeps(ResetOne(q, out[0], tick), out[1..], |out| - 1, tick.arm);
  }

  // ---------- runs that strand ----------

  lemma RunCons(q: Queue, op: Op, ops: seq<Op>)
    requires Legal(q, op) && LegalRun(Apply(q, op), ops)
    ensures LegalRun(q, [op] + ops) && Run(q, [op] + ops) == Run(Apply(q, op), ops)
  {
    assert ([op] + ops)[1..] == ops;
  }

  function OneShot(when: int): Timer {
    Timer(when, 0, false)
  }

  const TICK := Tick(None, [], None, 1000, 1000)

  /** Two one-shot timers go off together, the second added when the first was already
      late; the kernel timer stays set for the second. */
  const BEFORE: seq<Op> := [Expire(1000), Poll(true), Add(Added(2, OneShot(500), 1000)), Handle(1000, None, [TICK, TICK])]

  lemma QueueEmpties(q: Queue)
    requires q.timers == [Entry(1000, 1)] && q.alive == map[1 := OneShot(1000)] && q.born == q.alive
    requires q.armed == Some(1000) && q.clock <= 1000
    ensures LegalRun(q, BEFORE)
    ensures var r := Run(q, BEFORE);
      && r.timers == [] && r.born == map[1 := OneShot(1000), 2 := OneShot(500)]
      && r.armed == Some(1100) && !r.ready && !r.scheduled && r.clock == 1000
  {
    var q1 := Apply(q, Expire(1000));
    var q2 := Apply(q1, Poll(true));
    var q3 := Apply(q2, Add(Added(2, OneShot(500), 1000)));
    assert q3.timers == [Entry(500, 2), Entry(1000, 1)];
    DelayIsExact(500, 1000);
    BothExpire(q3);
    var handle := Handle(1000, None, [TICK, TICK]);
    assert TicksFresh(q3.born, [TICK, TICK]) by {
      assert [TICK, TICK][1..] == [TICK] && [TICK][1..] == [];
    }
    var q4 := Apply(q3, handle);
    assert LegalRun(q4, []);
    RunCons(q3, handle, []);
    assert AllFresh(q2.born, [Added(2, OneShot(500), 1000)]) by {
      assert [Added(2, OneShot(500), 1000)][1..] == [];
    }
    RunCons(q2, Add(Added(2, OneShot(500), 1000)), [handle]);
    RunCons(q1, Poll(true), [Add(Added(2, OneShot(500), 1000)), handle]);
    RunCons(q, Expire(1000), [Poll(true), Add(Added(2, OneShot(500), 1000)), handle]);
  }

  lemma BothExpire(q: Queue)
    requires q.timers == [Entry(500, 2), Entry(1000, 1)] && q.alive == map[1 := OneShot(1000), 2 := OneShot(500)]
    ensures Expired(q.timers, 1000) == 2
    ensures var r := HandleExpiry(q, 1000, [TICK, TICK]);
      r == q.(timers := [], alive := map[], ready := false, scheduled := false, log := r.log)
  {
    var due := q.timers;
    assert due[1..] == [Entry(1000, 1)] && [Entry(1000, 1)][1..] == [] && [TICK, TICK][1..] == [TICK] && [TICK][1..] == [];
    assert LowerBound([Entry(1000, 1)], Entry(1000, LAST_ADDRESS)) == 1;
    var q1 := WithoutDue(q, 1000);
    assert Due(q.timers, 1000) == due && q1.timers == [];
    var q2 := RunCallbacks(q1, due, [TICK, TICK], 1000);
    assert q2 == q1.(log := q2.log) by {
      var c := Begin(q1, due[0], TICK, 1000);
      assert RunCallbacks(c, due[1..], [TICK], 1000) == Begin(c, due[1], TICK, 1000);
    }
    var q3 := ResetOne(q2, due[0], TICK);
    assert q3.alive == map[1 := OneShot(1000)];
    var q4 := ResetOne(q3, due[1], TICK);
    assert q4.alive == map[];
    assert Reset(q3, due[1..], [TICK]) == q4;
  }

  /** A legal run that leaves a timer stranded although the kernel timer is never early:
      a withdrawn expiry brings about a round with nothing due, and the kernel timer
      expires between its two readings. */
  lemma LateExpiryStrands()
    ensures exists ops :: LegalRun(Start(0), ops) && Stranded(Run(Start(0), ops))
  {
    var first := Add(Added(1, OneShot(1000), 0));
    var q := Apply(Start(0), first);
    assert AllFresh(Start(0).born, [Added(1, OneShot(1000), 0)]) by {
      assert [Added(1, OneShot(1000), 0)][1..] == [];
    }
    DelayIsExact(1000, 0);
    QueueEmpties(q);
    var r := Run(q, BEFORE);
    var last := Added(3, OneShot(2000), 1100);
    var after := [Expire(1100), Poll(true), Add(last), Handle(1999, Some(2000), [])];
    WithdrawnStrands(r);
    RunAppend(q, BEFORE, after);
    RunCons(Start(0), first, BEFORE + after);
    assert Stranded(Run(Start(0), [first] + (BEFORE + after)));
  }

  lemma WithdrawnStrands(q: Queue)
    requires q.timers == [] && 3 !in q.born && q.armed == Some(1100) && q.clock == 1000
    ensures var ops := [Expire(1100), Poll(true), Add(Added(3, OneShot(2000), 1100)), Handle(1999, Some(2000), [])];
      LegalRun(q, ops) && Stranded(Run(q, ops))
  {
    var last := Added(3, OneShot(2000), 1100);
    var handle := Handle(1999, Some(2000), []);
    var q1 := Apply(q, Expire(1100));
    var q2 := Apply(q1, Poll(true));
    var q3 := Apply(q2, Add(last));
    assert [last][1..] == [];
    DelayIsExact(2000, 1100);
    assert q3.timers == [Entry(2000, 3)] && q3.armed == Some(2000);
    HandleNothing(Fire(q3, Some(2000)), 1999);
    var q4 := Apply(q3, handle);
    assert LegalRun(q4, []);
    RunCons(q3, handle, []);
    RunCons(q2, Add(last), [handle]);
    RunCons(q1, Poll(true), [Add(last), handle]);
    RunCons(q, Expire(1100), [Poll(true), Add(last), handle]);
  }

  lemma {:induction false} RunAppend(q: Queue, ops: seq<Op>, more: seq<Op>)
    requires LegalRun(q, ops) && LegalRun(Run(q, ops), more)
    ensures LegalRun(q, ops + more) && Run(q, ops + more) == Run(Run(q, ops), more)
    decreases |ops|
  {
    hide Apply, Legal;
    if ops == [] {
      assert ops + more == more;
    } else {
      assert (ops + more)[1..] == ops[1..] + more;
      RunAppend(Apply(q, ops[0]), ops[1..], more);
    }
  }

  /** An expiry ahead of the deadline, by the queue's clock, does the same at once. */
  lemma EarlyExpiryStrands()
    ensures var q := AddTimer(Start(0), Added(1, OneShot(1000), 0));
      Expired(q.timers, 999) == 0 && Stranded(HandleRead(q.(armed := None, ready := true, scheduled := true), 999, None, []))
  {
    var q := AddTimer(Start(0), Added(1, OneShot(1000), 0)).(armed := None, ready := true, scheduled := true);
    assert q.timers == [Entry(1000, 1)];
    HandleNothing(q, 999);
  }
}
