/** The timer queue of a loop, its one-shot kernel timer, and every run of the two.
 *
 *  A timer is named by a number that stands for its address.  Times are microseconds;
 *  every reading of the clock is a parameter of the operation that makes it.
 */
module TimerSpec {
  import opened Common

  const MICROS_PER_SECOND: int := 1000000
  const NEVER_SOONER_THAN: int := 100
  // UINTPTR_MAX, which is no address of a timer.
  const LAST_ADDRESS: nat := 0xFFFF_FFFF_FFFF_FFFF

  datatype Timer = Timer(expiration: int, interval: nat, repeat: bool)

  datatype Entry = Entry(when: int, id: nat)

  datatype Ran = Ran(id: nat, due: int, at: int)

  /** `timers` is the ordered set, `alive` the timers not yet deleted.  `armed` is the
      deadline of the kernel timer and `armedAt` when it was set; `ready` says that it
      has expired and not been read, `scheduled` that the current round of the loop
      will call `handleRead`.  `clock` is the time at which the kernel timer last
      expired; `born` and `log` record every timer added and every callback run. */
  datatype Queue = Queue(timers: seq<Entry>, alive: map<nat, Timer>,
                         armed: Option<int>, armedAt: int, ready: bool, scheduled: bool,
                         clock: int, born: map<nat, Timer>, log: seq<Ran>)

  function Start(now: int): Queue {
    Queue([], map[], None, now, false, false, now, map[], [])
  }

  /** The order of std::pair<Timestamp, Timer*>. */
  predicate Less(e: Entry, f: Entry) {
    e.when < f.when || (e.when == f.when && e.id < f.id)
  }

  function Insert(ts: seq<Entry>, e: Entry): seq<Entry> {
    if ts == [] || Less(e, ts[0]) then [e] + ts
    else if e == ts[0] then ts
    else [ts[0]] + Insert(ts[1..], e)
  }

  // ---------- arming ----------

  datatype Timespec = Timespec(sec: int, nsec: int)

  /** The relative time given to `timerfd_settime`. */
  function Delay(expiration: int, now: int): Timespec {
    var dif := if expiration - now < NEVER_SOONER_THAN then NEVER_SOONER_THAN else expiration - now;
    Timespec(dif / MICROS_PER_SECOND, (dif % MICROS_PER_SECOND) * 1000)
  }

  function Micros(t: Timespec): int {
    t.sec * MICROS_PER_SECOND + t.nsec / 1000
  }

  function Max(a: int, b: int): int {
    if a < b then b else a
  }

  /** The kernel accepts the delay, it never disarms the timer, and the deadline is the
      expiration or 100 microseconds from now, whichever is later. */
  lemma DelayIsExact(expiration: int, now: int)
    ensures var t := Delay(expiration, now);
      && 0 <= t.sec && 0 <= t.nsec < 1000000000 && t != Timespec(0, 0)
      && now + Micros(t) == Max(expiration, now + NEVER_SOONER_THAN)
      && t.sec * 1000000000 + t.nsec == 1000 * if expiration - now < 100 then 100 else expiration - now
  {
  }

  /** `resetTimerfd`; setting the timer withdraws an expiry that was not yet read. */
  function Arm(q: Queue, expiration: int, now: int): Queue {
    q.(armed := Some(now + Micros(Delay(expiration, now))), armedAt := now, ready := false)
  }

  /** The kernel timer can expire at this time: it is set, and the time is not before its
      deadline, nor before an earlier expiry. */
  predicate Fires(q: Queue, at: Option<int>) {
    q.armed.Some? && at.Some? && at.value >= q.armed.value && at.value >= q.clock
  }

  /** It does so, if it can. */
  function Fire(q: Queue, at: Option<int>): Queue {
    if Fires(q, at) then q.(armed := None, ready := true, clock := at.value) else q
  }

  // ---------- operations ----------

  datatype Added = Added(id: nat, timer: Timer, now: int)

  /** `addTimerInLoop` for a new timer */
  function AddTimer(q: Queue, a: Added): Queue {
    var e := Entry(a.timer.expiration, a.id);
    var q1 := q.(timers := Insert(q.timers, e), alive := q.alive[a.id := a.timer], born := q.born[a.id := a.timer]);
    if q.timers == [] || e.when < q.timers[0].when then Arm(q1, e.when, a.now) else q1
  }

  function AddTimers(q: Queue, added: seq<Added>): Queue
    decreases |added|
  {
    if added == [] then q else AddTimers(AddTimer(q, added[0]), added[1..])
  }

  /** How many entries come before `e`: std::set::lower_bound. */
  function LowerBound(ts: seq<Entry>, e: Entry): (n: nat)
    ensures n <= |ts|
  {
    if ts == [] || !Less(ts[0], e) then 0 else 1 + LowerBound(ts[1..], e)
  }

  function Expired(ts: seq<Entry>, now: int): nat {
    LowerBound(ts, Entry(now, LAST_ADDRESS))
  }

  /** What one expired timer does: the timers its callback adds, and the times read when
      it is restarted and when the kernel timer is armed after it.  The kernel timer may
      expire before the callback runs, at `before`, and before the restart, at `again`. */
  datatype Tick = Tick(before: Option<int>, added: seq<Added>, again: Option<int>, restart: int, arm: int)

  /** A callback is about to run. */
  function Begin(q: Queue, e: Entry, tick: Tick, now: int): Queue {
    Fire(q, tick.before).(log := q.log + [Ran(e.id, e.when, now)])
  }

  function RunCallbacks(q: Queue, expired: seq<Entry>, ticks: seq<Tick>, now: int): Queue
    requires |ticks| == |expired|
    decreases |expired|
  {
    if expired == [] then q
    else
      var q1 := Begin(q, expired[0], ticks[0], now);
      RunCallbacks(AddTimers(q1, ticks[0].added), expired[1..], ticks[1..], now)
  }

  /** An expired timer is restarted or deleted. */
  function Renew(q: Queue, e: Entry, tick: Tick): Queue
    requires e.id in q.alive
  {
    var t := q.alive[e.id];
    if t.repeat then
      var t' := t.(expiration := tick.restart + t.interval);
      q.(alive := q.alive[e.id := t'], timers := Insert(q.timers, Entry(t'.expiration, e.id)))
    else q.(alive := q.alive - {e.id})
  }

  /** One turn of the loop in `reset`. */
  function ResetOne(q: Queue, e: Entry, tick: Tick): Queue
    requires e.id in q.alive
  {
    Renew(Fire(q, tick.again), e, tick)
  }

  function ArmFirst(q: Queue, now: int): Queue {
    if q.timers == [] || q.timers[0].id !in q.alive then q
    else Arm(q, q.alive[q.timers[0].id].expiration, now)
  }

  function Reset(q: Queue, expired: seq<Entry>, ticks: seq<Tick>): Queue
    requires |ticks| == |expired|
    decreases |expired|
  {
    if expired == [] || expired[0].id !in q.alive then q
    else Reset(ArmFirst(ResetOne(q, expired[0], ticks[0]), ticks[0].arm), expired[1..], ticks[1..])
  }

  /** `getExpired`: the entries that are due, which leave the set. */
  function Due(ts: seq<Entry>, now: int): (due: seq<Entry>)
    ensures |due| == Expired(ts, now)
  {
    ts[..Expired(ts, now)]
  }

  function WithoutDue(q: Queue, now: int): Queue {
    q.(ready := false, timers := q.timers[Expired(q.timers, now)..])
  }

  function AfterCallbacks(q: Queue, now: int, ticks: seq<Tick>): Queue
    requires |ticks| == Expired(q.timers, now)
  {
    RunCallbacks(WithoutDue(q, now), Due(q.timers, now), ticks, now)
  }

  /** `handleRead` once it has read the clock and is about to read the kernel timer */
  function HandleExpiry(q: Queue, now: int, ticks: seq<Tick>): Queue
    requires |ticks| == Expired(q.timers, now)
  {
    Reset(AfterCallbacks(q, now, ticks), Due(q.timers, now), ticks).(scheduled := false)
  }

  /** `handleRead`: the kernel timer may expire between the two readings, at `late`. */
  function HandleRead(q: Queue, now: int, late: Option<int>, ticks: seq<Tick>): Queue
    requires |ticks| == Expired(q.timers, now)
  {
    HandleExpiry(Fire(q, late), now, ticks)
  }

  // ---------- runs ----------

  /** Timers are added, the kernel timer expires, a poll reports it or not, and the loop
      handles it when reported. */
  datatype Op =
    | Add(a: Added) | Expire(now: int) | Poll(reported: bool)
    | Handle(now: int, late: Option<int>, ticks: seq<Tick>)

  predicate AllFresh(born: map<nat, Timer>, added: seq<Added>)
    decreases |added|
  {
    added == [] ||
    (added[0].id !in born && added[0].id < LAST_ADDRESS && AllFresh(born[added[0].id := added[0].timer], added[1..]))
  }

  function Born(born: map<nat, Timer>, added: seq<Added>): map<nat, Timer>
    decreases |added|
  {
    if added == [] then born else Born(born[added[0].id := added[0].timer], added[1..])
  }

  predicate TicksFresh(born: map<nat, Timer>, ticks: seq<Tick>)
    decreases |ticks|
  {
    ticks == [] || (AllFresh(born, ticks[0].added) && TicksFresh(Born(born, ticks[0].added), ticks[1..]))
  }

  /** The kernel timer does not expire before its deadline on the clock the queue reads,
      and that clock does not go back: a round reads it after the expiries so far, and
      an expiry that comes between its two readings comes after the first. */
  predicate Legal(q: Queue, op: Op) {
    match op
    case Add(a) => AllFresh(q.born, [a])
    case Expire(now) => Fires(q, Some(now))
    case Poll(_) => true
    case Handle(now, late, ticks) =>
      && q.scheduled && now >= q.clock && (late.Some? ==> late.value >= now)
      && |ticks| == Expired(q.timers, now) && TicksFresh(q.born, ticks)
  }

  function Apply(q: Queue, op: Op): Queue
    requires Legal(q, op)
  {
    match op
    case Add(a) => AddTimer(q, a)
    case Expire(now) => Fire(q, Some(now))
    case Poll(reported) => q.(scheduled := q.scheduled || (q.ready && reported))
    case Handle(now, late, ticks) => HandleRead(q, now, late, ticks)
  }

  predicate LegalRun(q: Queue, ops: seq<Op>)
    decreases |ops|
  {
    ops == [] || (Legal(q, ops[0]) && LegalRun(Apply(q, ops[0]), ops[1..]))
  }

  function Run(q: Queue, ops: seq<Op>): Queue
    requires LegalRun(q, ops)
    decreases |ops|
  {
    if ops == [] then q else Run(Apply(q, ops[0]), ops[1..])
  }
}
