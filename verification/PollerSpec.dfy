/** The registration of channels with epoll, on values: the channels, the table of the
 *  poller and the interest set of the kernel are three views that must agree.
 */
module PollerSpec {

  const NONE_EVENT: bv32 := 0
  const READ_EVENT: bv32 := 3
  const WRITE_EVENT: bv32 := 4

  datatype Index = New | Added | Deleted

  datatype Channel = Channel(events: bv32, index: Index)

  /** The channels of one loop by their descriptors, the descriptors in the table of
      the poller, the kernel's masks, and how many requests the kernel has refused. */
  datatype Registry = Registry(channels: map<int, Channel>, table: set<int>, kernel: map<int, bv32>, refused: nat)

  datatype Request = Add | Modify | Delete

  datatype Op = EnableReading | DisableReading | EnableWriting | DisableWriting | DisableAll | Remove

  /** epoll_ctl refuses to add what is present and to change or delete what is not. */
  function Control(r: Registry, request: Request, fd: int): Registry
    requires fd in r.channels
  {
    if request == Add then
      if fd in r.kernel then r.(refused := r.refused + 1)
      else r.(kernel := r.kernel[fd := r.channels[fd].events])
    else if fd !in r.kernel then r.(refused := r.refused + 1)
    else if request == Modify then r.(kernel := r.kernel[fd := r.channels[fd].events])
    else r.(kernel := r.kernel - {fd})
  }

  function SetIndex(r: Registry, fd: int, index: Index): Registry
    requires fd in r.channels
  {
    r.(channels := r.channels[fd := r.channels[fd].(index := index)])
  }

  function UpdateChannel(r: Registry, fd: int): Registry
    requires fd in r.channels
  {
    var c := r.channels[fd];
    if c.index != Added then
      Control(SetIndex(if c.index == New then r.(table := r.table + {fd}) else r, fd, Added), Add, fd)
    else if c.events == NONE_EVENT then SetIndex(Control(r, Delete, fd), fd, Deleted)
    else Control(r, Modify, fd)
  }

  function RemoveChannel(r: Registry, fd: int): Registry
    requires fd in r.channels
  {
    var r1 := r.(table := r.table - {fd});
    SetIndex(if r.channels[fd].index == Added then Control(r1, Delete, fd) else r1, fd, New)
  }

  function NewEvents(events: bv32, op: Op): bv32 {
    match op
    case EnableReading => events | READ_EVENT
    case DisableReading => events & !READ_EVENT
    case EnableWriting => events | WRITE_EVENT
    case DisableWriting => events & !WRITE_EVENT
    case DisableAll => events & NONE_EVENT
    case Remove => events
  }

  function Apply(r: Registry, fd: int, op: Op): Registry
    requires fd in r.channels
  {
    if op == Remove then RemoveChannel(r, fd)
    else UpdateChannel(r.(channels := r.channels[fd := r.channels[fd].(events := NewEvents(r.channels[fd].events, op))]), fd)
  }

  /** The three views of a channel agree. */
  predicate AgreesAt(r: Registry, fd: int)
    requires fd in r.channels
  {
    var c := r.channels[fd];
    && (fd in r.kernel <==> c.index == Added)
    && (c.index == Added ==> r.kernel[fd] == c.events)
    && (fd in r.table <==> c.index != New)
    && (c.index == Deleted ==> c.events == NONE_EVENT)
  }

  /** They agree for every channel, and no request has ever been refused. */
  predicate Agree(r: Registry) {
    && r.refused == 0
    && r.table <= r.channels.Keys && r.kernel.Keys <= r.channels.Keys
    && forall fd :: fd in r.channels ==> AgreesAt(r, fd)
  }

  function Start(fds: set<int>): Registry {
    Registry(map fd | fd in fds :: Channel(NONE_EVENT, New), {}, map[], 0)
  }

  function Run(r: Registry, ops: seq<(int, Op)>): Registry
    requires forall k :: 0 <= k < |ops| ==> ops[k].0 in r.channels
    decreases |ops|
  {
    if ops == [] then r else
      ApplyKeepsChannels(r, ops[0].0, ops[0].1);
      Run(Apply(r, ops[0].0, ops[0].1), ops[1..])
  }

  lemma ApplyKeepsChannels(r: Registry, fd: int, op: Op)
    requires fd in r.channels
    ensures Apply(r, fd, op).channels.Keys == r.channels.Keys
  {
  }

  lemma NoEvents(events: bv32)
    ensures events & NONE_EVENT == NONE_EVENT
  {
  }

  /** An operation leaves the other descriptors as they are. */
  lemma OthersStay(r: Registry, fd: int, op: Op, g: int)
    requires fd in r.channels && g in r.channels && g != fd
    ensures g in Apply(r, fd, op).channels && (AgreesAt(r, g) <==> AgreesAt(Apply(r, fd, op), g))
  {
    hide NewEvents;
  }

  /** And its own in agreement. */
  lemma OwnAgrees(r: Registry, fd: int, op: Op)
    requires r.refused == 0 && fd in r.channels && AgreesAt(r, fd)
    ensures fd in Apply(r, fd, op).channels && AgreesAt(Apply(r, fd, op), fd) && Apply(r, fd, op).refused == 0
    ensures Apply(r, fd, op).table <= r.table + {fd} && Apply(r, fd, op).kernel.Keys <= r.kernel.Keys + {fd}
  {
    hide NewEvents;
  }

  lemma StepAgrees(r: Registry, fd: int, op: Op)
    requires Agree(r) && fd in r.channels
    ensures Agree(Apply(r, fd, op))
  {
    hide Apply, AgreesAt;
    var r' := Apply(r, fd, op);
    OwnAgrees(r, fd, op);
    ApplyKeepsChannels(r, fd, op);
    forall g | g in r'.channels ensures AgreesAt(r', g) {
      if g != fd {
        OthersStay(r, fd, op, g);
      }
    }
  }

  /** For every sequence of operations on channels with distinct descriptors, a channel
      is in the kernel's set exactly while it is marked as added, with its own mask, it
      is in the table exactly while it is not new, and the kernel refuses nothing. */
  lemma {:induction false} RunAgrees(r: Registry, ops: seq<(int, Op)>)
    requires Agree(r) && forall k :: 0 <= k < |ops| ==> ops[k].0 in r.channels
    ensures Agree(Run(r, ops))
    decreases |ops|
  {
    if ops != [] {
      StepAgrees(r, ops[0].0, ops[0].1);
      ApplyKeepsChannels(r, ops[0].0, ops[0].1);
      RunAgrees(Apply(r, ops[0].0, ops[0].1), ops[1..]);
    }
  }

  lemma EveryRunAgrees(fds: set<int>, ops: seq<(int, Op)>)
    requires forall k :: 0 <= k < |ops| ==> ops[k].0 in fds
    ensures Agree(Run(Start(fds), ops))
  {
    RunAgrees(Start(fds), ops);
  }

  /** An operation leaves the descriptor in the kernel's set, with its new mask, unless
      it takes the last interest from one that was there; removal always takes it out.
      So what is in the set without interest are exactly the descriptors that were out
      of it when an operation left them none. */
  lemma InterestIsRegistered(r: Registry, fd: int, op: Op)
    requires Agree(r) && fd in r.channels
    ensures var r', events := Apply(r, fd, op), NewEvents(r.channels[fd].events, op);
      && r'.channels[fd].events == events
      && (fd in r'.kernel <==> op != Remove && (events != NONE_EVENT || fd !in r.kernel))
      && (fd in r'.kernel ==> r'.kernel[fd] == events)
      && (fd in r'.table <==> op != Remove)
  {
    hide NewEvents;
    RemoveKeepsEvents(r.channels[fd].events);
  }

  lemma RemoveKeepsEvents(events: bv32)
    ensures NewEvents(events, Remove) == events
  {
  }

  /** `disableAll` takes a descriptor out of the kernel's set exactly when it was in
      it; a second call in a row puts it back, with an empty mask. */
  lemma DisableAllToggles(r: Registry, fd: int)
    requires Agree(r) && fd in r.channels
    ensures fd in Apply(r, fd, DisableAll).kernel <==> fd !in r.kernel
    ensures fd in r.kernel ==>
      var again := Apply(Apply(r, fd, DisableAll), fd, DisableAll); fd in again.kernel && again.kernel[fd] == NONE_EVENT
  {
    NoEvents(r.channels[fd].events);
  }

  // ---------- interests ----------

  /** In plain masks, 3 for reading and 4 for writing: enabling an interest sets its bits
      and no others, */
  lemma EnableReadingIsExact(events: bv32)
    ensures NewEvents(events, EnableReading) & 3 == 3
    ensures NewEvents(events, EnableReading) & !3 == events & !3
  {
  }

  lemma EnableWritingIsExact(events: bv32)
    ensures NewEvents(events, EnableWriting) & 4 == 4
    ensures NewEvents(events, EnableWriting) & !4 == events & !4
  {
  }

  /** disabling it clears them and no others, */
  lemma DisableReadingIsExact(events: bv32)
    ensures NewEvents(events, DisableReading) & 3 == 0
    ensures NewEvents(events, DisableReading) & !3 == events & !3
  {
  }

  lemma DisableWritingIsExact(events: bv32)
    ensures NewEvents(events, DisableWriting) & 4 == 0
    ensures NewEvents(events, DisableWriting) & !4 == events & !4
  {
  }

  /** and disabling all clears everything. */
  lemma DisableAllIsExact(events: bv32)
    ensures NewEvents(events, DisableAll) == 0
  {
  }

  /** The mask of two interests. */
  function Mask(reading: bool, writing: bool): bv32 {
    if reading then if writing then 7 else 3 else if writing then 4 else 0
  }

  /** What the last operation on its reading has left a channel with. */
  function Reads(ops: seq<(int, Op)>, fd: int): bool {
    if ops == [] then false
    else
      var (g, op) := ops[|ops| - 1];
      if g == fd && op == EnableReading then true
      else if g == fd && (op == DisableReading || op == DisableAll) then false
      else Reads(ops[..|ops| - 1], fd)
  }

  function Writes(ops: seq<(int, Op)>, fd: int): bool {
    if ops == [] then false
    else
      var (g, op) := ops[|ops| - 1];
      if g == fd && op == EnableWriting then true
      else if g == fd && (op == DisableWriting || op == DisableAll) then false
      else Writes(ops[..|ops| - 1], fd)
  }

  /** Whether a channel is registered: every operation on it registers it but removal,
      and but one that leaves it no interest while it is registered. */
  function Registered(ops: seq<(int, Op)>, fd: int): bool {
    if ops == [] then false
    else
      var (g, op) := ops[|ops| - 1];
      var was := Registered(ops[..|ops| - 1], fd);
      if g != fd then was
      else op != Remove && (Reads(ops, fd) || Writes(ops, fd) || !was)
  }

  lemma MasksAreExact(r: bool, w: bool)
    ensures NewEvents(Mask(r, w), EnableReading) == Mask(true, w)
    ensures NewEvents(Mask(r, w), DisableReading) == Mask(false, w)
    ensures NewEvents(Mask(r, w), EnableWriting) == Mask(r, true)
    ensures NewEvents(Mask(r, w), DisableWriting) == Mask(r, false)
    ensures NewEvents(Mask(r, w), DisableAll) == Mask(false, false) == NONE_EVENT
    ensures NewEvents(Mask(r, w), Remove) == Mask(r, w)
    ensures Mask(r, w) == NONE_EVENT <==> !r && !w
  {
  }

  lemma {:induction false} RunSnoc(r: Registry, ops: seq<(int, Op)>, fd: int, op: Op)
    requires (forall k :: 0 <= k < |ops| ==> ops[k].0 in r.channels) && fd in r.channels
    ensures fd in Run(r, ops).channels && Run(r, ops).channels.Keys == r.channels.Keys
    ensures Run(r, ops + [(fd, op)]) == Apply(Run(r, ops), fd, op)
    decreases |ops|
  {
    hide Apply;
    if ops == [] {
      assert ops + [(fd, op)] == [(fd, op)] && [(fd, op)][1..] == [];
      ApplyKeepsChannels(r, fd, op);
    } else {
      ApplyKeepsChannels(r, ops[0].0, ops[0].1);
      assert (ops + [(fd, op)])[1..] == ops[1..] + [(fd, op)];
      RunSnoc(Apply(r, ops[0].0, ops[0].1), ops[1..], fd, op);
    }
  }

  /** The interest of a channel and its registration are as these say. */
  predicate Follows(r: Registry, ops: seq<(int, Op)>, fd: int) {
    && fd in r.channels && r.channels[fd].events == Mask(Reads(ops, fd), Writes(ops, fd))
    && (fd in r.kernel <==> Registered(ops, fd))
  }

  lemma OthersEvents(r: Registry, fd: int, op: Op, g: int)
    requires fd in r.channels && g in r.channels && g != fd
    ensures var r' := Apply(r, fd, op);
      g in r'.channels && r'.channels[g].events == r.channels[g].events && (g in r'.kernel <==> g in r.kernel)
  {
    hide NewEvents;
  }

  lemma StepFollows(r: Registry, ops: seq<(int, Op)>, fd: int, op: Op, g: int)
    requires Agree(r) && fd in r.channels && Follows(r, ops, g)
    ensures Follows(Apply(r, fd, op), ops + [(fd, op)], g)
  {
    hide NewEvents, Mask, Agree, Apply;
    if g != fd {
      var ops' := ops + [(fd, op)];
      assert ops'[..|ops'| - 1] == ops;
      OthersEvents(r, fd, op, g);
    } else {
      InterestSnoc(ops, fd, op);
      ApplyKeepsChannels(r, fd, op);
      InterestIsRegistered(r, fd, op);
      hide Reads, Writes, Registered;
    }
  }

  lemma InterestSnoc(ops: seq<(int, Op)>, fd: int, op: Op)
    ensures var ops' := ops + [(fd, op)];
      var mask := Mask(Reads(ops', fd), Writes(ops', fd));
      && mask == NewEvents(Mask(Reads(ops, fd), Writes(ops, fd)), op)
      && (Registered(ops', fd) <==> op != Remove && (mask != NONE_EVENT || !Registered(ops, fd)))
  {
    hide NewEvents, Mask;
    var ops' := ops + [(fd, op)];
    assert ops'[..|ops'| - 1] == ops;
    MasksAreExact(Reads(ops, fd), Writes(ops, fd));
    MasksAreExact(Reads(ops', fd), Writes(ops', fd));
  }

  /** In every run the kernel watches a descriptor for reading, and for writing, exactly
      as the last operation on that interest says, and watches it at all exactly when it
      is registered. */
  lemma {:induction false} RunFollows(fds: set<int>, ops: seq<(int, Op)>, g: int)
    requires g in fds && forall k :: 0 <= k < |ops| ==> ops[k].0 in fds
    ensures Follows(Run(Start(fds), ops), ops, g)
    ensures var r := Run(Start(fds), ops);
      (g in r.kernel <==> Registered(ops, g)) && (g in r.kernel ==> r.kernel[g] == Mask(Reads(ops, g), Writes(ops, g)))
    decreases |ops|
  {
    var r := Run(Start(fds), ops);
    EveryRunAgrees(fds, ops);
    hide Mask, Apply;
    if ops == [] {
      MasksAreExact(false, false);
    } else {
      var front, last := ops[..|ops| - 1], ops[|ops| - 1];
      assert ops == front + [last];
      RunFollows(fds, front, g);
      EveryRunAgrees(fds, front);
      RunSnoc(Start(fds), front, last.0, last.1);
      StepFollows(Run(Start(fds), front), front, last.0, last.1, g);
    }
    assert AgreesAt(r, g);
  }
}
