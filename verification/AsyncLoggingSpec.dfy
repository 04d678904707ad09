/** The double buffering of the asynchronous log, as a system of interleaved steps: the
 *  locked section of `append` in any thread, and the two halves of a round of the
 *  back-end thread, the locked one and the one that writes and gives buffers back.
 */
module AsyncLoggingSpec {
  import opened Common

  /** A buffer with its identity and the bytes written into it. */
  datatype Buffer = Buffer(id: nat, used: string)

  datatype Place = AtLoop | Writing | Done

  /** The pointers of the front end and of the back end; a moved-from pointer is None.
      `accepted` are the lines appended that can fit a buffer, `written` the bytes handed
      to the file; `fault` says that a null pointer or an empty vector has been used. */
  datatype Log = Log(capacity: nat, current: Option<Buffer>, next: Option<Buffer>, buffers: seq<Buffer>,
                     place: Place, running: bool, new1: Option<Buffer>, new2: Option<Buffer>, toWrite: seq<Buffer>,
                     made: nat, accepted: string, written: string, fault: bool)

  datatype Step = Append(line: string) | Swap | Write | Stop

  function Start(capacity: nat): Log {
    Log(capacity, Some(Buffer(0, "")), Some(Buffer(1, "")), [], AtLoop, true,
        Some(Buffer(2, "")), Some(Buffer(3, "")), [], 4, "", "", false)
  }

  /** `FixedBuffer::append`: a line that would fill the buffer is dropped. */
  function Put(b: Buffer, capacity: nat, line: string): Buffer {
    if capacity - |b.used| > |line| then b.(used := b.used + line) else b
  }

  /** `append`, under the mutex */
  function FrontAppend(s: Log, line: string): Log {
    var s1 := if |line| < s.capacity then s.(accepted := s.accepted + line) else s;
    if s.current == None then s1.(fault := true)
    else if s.capacity - |s.current.value.used| > |line| then
      s1.(current := Some(Put(s.current.value, s.capacity, line)))
    else
      var s2 := s1.(buffers := s.buffers + [s.current.value]);
      if s.next.Some? then s2.(current := Some(Put(s.next.value, s.capacity, line)), next := None)
      else s2.(current := Some(Put(Buffer(s.made, ""), s.capacity, line)), made := s.made + 1)
  }

  /** The locked half of a round of `threadFunc` */
  function BackSwap(s: Log): Log {
    if s.current == None then s.(fault := true)
    else
      s.(current := s.new1, new1 := None,
         toWrite := s.buffers + [s.current.value], buffers := s.toWrite,
         next := if s.next == None then s.new2 else s.next,
         new2 := if s.next == None then None else s.new2,
         place := Writing)
  }

  function Concat(bs: seq<Buffer>): string {
    if bs == [] then "" else bs[0].used + Concat(bs[1..])
  }

  /** The other half: everything is written, at most two buffers are kept, and the last
      of them replace what was given away. */
  function BackWrite(s: Log): Log {
    var kept := if |s.toWrite| > 2 then s.toWrite[..2] else s.toWrite;
    var s1 := s.(written := s.written + Concat(s.toWrite));
    var (n1, kept1, fault1) := Refill(s.new1, kept);
    var (n2, kept2, fault2) := Refill(s.new2, kept1);
    s1.(new1 := n1, new2 := n2, toWrite := [], fault := s.fault || fault1 || fault2,
        place := if s.running then AtLoop else Done)
  }

  /** A pointer that was given away takes the last buffer of the vector, emptied. */
  function Refill(p: Option<Buffer>, bs: seq<Buffer>): (Option<Buffer>, seq<Buffer>, bool) {
    if p.Some? then (p, bs, false)
    else if bs == [] then (None, bs, true)
    else (Some(bs[|bs| - 1].(used := "")), bs[..|bs| - 1], false)
  }

  predicate Enabled(s: Log, step: Step) {
    match step
    case Append(_) => true
    case Swap => s.place == AtLoop
    case Write => s.place == Writing
    case Stop => true
  }

  function Apply(s: Log, step: Step): Log {
    match step
    case Append(line) => FrontAppend(s, line)
    case Swap => BackSwap(s)
    case Write => BackWrite(s)
    case Stop => s.(running := false)
  }

  predicate Possible(s: Log, steps: seq<Step>)
    decreases |steps|
  {
    steps == [] || (Enabled(s, steps[0]) && Possible(Apply(s, steps[0]), steps[1..]))
  }

  function Run(s: Log, steps: seq<Step>): Log
    decreases |steps|
  {
    if steps == [] then s else Run(Apply(s, steps[0]), steps[1..])
  }

  // ---------- ownership ----------

  function Held(p: Option<Buffer>, id: nat): nat {
    if p.Some? && p.value.id == id then 1 else 0
  }

  function Count(bs: seq<Buffer>, id: nat): nat {
    if bs == [] then 0 else (if bs[0].id == id then 1 else 0) + Count(bs[1..], id)
  }

  /** How many pointers hold the buffer. */
  function Owners(s: Log, id: nat): nat {
    Held(s.current, id) + Held(s.next, id) + Count(s.buffers, id)
    + Held(s.new1, id) + Held(s.new2, id) + Count(s.toWrite, id)
  }

  predicate Empty(p: Option<Buffer>) {
    p.Some? ==> p.value.used == ""
  }

  /** Wherever a pointer or a vector is used without a test, there is a buffer. */
  predicate PointersOk(s: Log) {
    && s.capacity > 0 && !s.fault
    && s.current.Some?
    && (s.next == None ==> s.buffers != [])
    && (if s.place == Writing
        then s.new1 == None && |s.toWrite| > (if s.new2 == None then 1 else 0)
        else s.new1.Some? && s.new2.Some? && s.toWrite == [])
    && Empty(s.next) && Empty(s.new1) && Empty(s.new2)
  }

  /** No byte is lost, invented or reordered. */
  predicate BytesOk(s: Log)
    requires s.current.Some?
  {
    s.written + Concat(s.toWrite) + Concat(s.buffers) + s.current.value.used == s.accepted
  }

  /** No buffer has two owners, and a new one has none yet. */
  ghost predicate OwnersOk(s: Log) {
    forall id: nat :: Owners(s, id) <= 1 && (Owners(s, id) > 0 ==> id < s.made)
  }

  ghost predicate Inv(s: Log) {
    PointersOk(s) && BytesOk(s) && OwnersOk(s)
  }

  lemma {:induction false} ConcatSnoc(bs: seq<Buffer>, b: Buffer)
    ensures Concat(bs + [b]) == Concat(bs) + b.used
  {
    if bs == [] {
      assert bs + [b] == [b] && [b][1..] == [];
      assert b.used + "" == b.used;
    } else {
      assert (bs + [b])[1..] == bs[1..] + [b];
      ConcatSnoc(bs[1..], b);
    }
  }

  lemma {:induction false} CountSnoc(bs: seq<Buffer>, b: Buffer, id: nat)
    ensures Count(bs + [b], id) == Count(bs, id) + if b.id == id then 1 else 0
  {
    if bs == [] {
      assert bs + [b] == [b] && [b][1..] == [];
    } else {
      assert (bs + [b])[1..] == bs[1..] + [b];
      CountSnoc(bs[1..], b, id);
    }
  }

  lemma {:induction false} CountPrefix(bs: seq<Buffer>, n: nat, id: nat)
    requires n <= |bs|
    ensures Count(bs[..n], id) <= Count(bs, id)
    decreases n
  {
    if n > 0 {
      assert bs[..n][1..] == bs[1..][..n - 1];
      CountPrefix(bs[1..], n - 1, id);
    }
  }

  /** A line that has room joins the end of what there is. */
  lemma FillBytes(s: Log, line: string)
    requires PointersOk(s) && BytesOk(s) && s.capacity - |s.current.value.used| > |line|
    ensures BytesOk(FrontAppend(s, line))
  {
    hide Concat;
    var b, done := s.current.value, s.written + Concat(s.toWrite) + Concat(s.buffers);
    assert done + (b.used + line) == done + b.used + line;
  }

  lemma RotateBytes(s: Log, line: string)
    requires PointersOk(s) && BytesOk(s) && s.capacity - |s.current.value.used| <= |line|
    ensures BytesOk(FrontAppend(s, line))
  {
    hide Concat;
    var s', b := FrontAppend(s, line), s.current.value;
    ConcatSnoc(s.buffers, b);
    var all := s.written + Concat(s.toWrite) + Concat(s'.buffers);
    assert all == s.written + Concat(s.toWrite) + Concat(s.buffers) + b.used;
    assert s'.current.value.used == if |line| < s.capacity then "" + line else "";
    assert all + "" == all && all + ("" + line) == all + line;
  }

  lemma AppendBytes(s: Log, line: string)
    requires PointersOk(s) && BytesOk(s)
    ensures PointersOk(FrontAppend(s, line)) && BytesOk(FrontAppend(s, line))
  {
    hide BytesOk;
    if s.capacity - |s.current.value.used| > |line| {
      FillBytes(s, line);
    } else {
      RotateBytes(s, line);
    }
  }

  lemma AppendOwners(s: Log, line: string)
    requires PointersOk(s) && OwnersOk(s)
    ensures OwnersOk(FrontAppend(s, line))
  {
    var s' := FrontAppend(s, line);
    hide Count;
    forall id: nat ensures Owners(s', id) <= 1 && (Owners(s', id) > 0 ==> id < s'.made) {
      assert Owners(s, id) <= 1 && (Owners(s, id) > 0 ==> id < s.made);
      CountSnoc(s.buffers, s.current.value, id);
    }
  }

  lemma SwapBytes(s: Log)
    requires PointersOk(s) && BytesOk(s) && s.place == AtLoop
    ensures PointersOk(BackSwap(s)) && BytesOk(BackSwap(s))
  {
    var s' := BackSwap(s);
    var b := s.current.value;
    ConcatSnoc(s.buffers, b);
    assert s.written + Concat(s.toWrite) + Concat(s.buffers) + b.used
        == s.written + Concat(s'.toWrite) + Concat(s'.buffers) + s'.current.value.used;
  }

  lemma SwapOwners(s: Log)
    requires PointersOk(s) && OwnersOk(s) && s.place == AtLoop
    ensures OwnersOk(BackSwap(s))
  {
    forall id: nat ensures Owners(BackSwap(s), id) == Owners(s, id) {
      CountSnoc(s.buffers, s.current.value, id);
    }
  }

  lemma RefillOwns(p: Option<Buffer>, bs: seq<Buffer>, id: nat)
    requires p.Some? || bs != []
    ensures var (q, rest, fault) := Refill(p, bs);
      q.Some? && !fault && Held(q, id) + Count(rest, id) == Held(p, id) + Count(bs, id)
  {
    if p == None {
      var front, b := bs[..|bs| - 1], bs[|bs| - 1];
      assert bs == front + [b];
      CountSnoc(front, b, id);
    }
  }

  lemma WriteOwners(s: Log)
    requires PointersOk(s) && OwnersOk(s) && s.place == Writing
    ensures OwnersOk(BackWrite(s)) && PointersOk(BackWrite(s))
  {
    var s' := BackWrite(s);
    var n := if |s.toWrite| > 2 then 2 else |s.toWrite|;
    var kept := s.toWrite[..n];
    assert |s.toWrite| <= 2 ==> kept == s.toWrite;
    var (n1, kept1, fault1) := Refill(s.new1, kept);
    forall id: nat ensures Owners(s', id) <= Owners(s, id) {
      hide Count, Refill;
      CountPrefix(s.toWrite, n, id);
      RefillOwns(s.new1, kept, id);
      RefillOwns(s.new2, kept1, id);
      CountEmpty(id);
    }
  }

  lemma CountEmpty(id: nat)
    ensures Count([], id) == 0
  {
  }

  lemma WriteBytes(s: Log)
    requires PointersOk(s) && BytesOk(s) && s.place == Writing
    ensures BackWrite(s).current.Some? && BytesOk(BackWrite(s))
  {
    var s' := BackWrite(s);
    assert s'.written + Concat(s'.toWrite) == s.written + Concat(s.toWrite);
  }

  lemma StepKeeps(s: Log, step: Step)
    requires Inv(s) && Enabled(s, step)
    ensures Inv(Apply(s, step))
  {
    hide BytesOk, OwnersOk, FrontAppend, BackSwap, BackWrite;
    match step
    case Append(line) =>
      AppendBytes(s, line);
      AppendOwners(s, line);
    case Swap =>
      SwapBytes(s);
      SwapOwners(s);
    case Write =>
      WriteBytes(s);
      WriteOwners(s);
    case Stop => StopKeeps(s);
  }

  lemma StopKeeps(s: Log)
    requires Inv(s)
    ensures Inv(Apply(s, Stop))
  {
    assert forall id: nat :: Owners(Apply(s, Stop), id) == Owners(s, id);
  }

  lemma {:induction false} RunKeeps(s: Log, steps: seq<Step>)
    requires Inv(s) && Possible(s, steps)
    ensures Inv(Run(s, steps))
    decreases |steps|
  {
    if steps != [] {
      StepKeeps(s, steps[0]);
      RunKeeps(Apply(s, steps[0]), steps[1..]);
    }
  }

  lemma StartOk(capacity: nat)
    requires capacity > 0
    ensures Inv(Start(capacity))
  {
  }

  /** The lines of a run that are shorter than a buffer, in order. */
  function Lines(capacity: nat, steps: seq<Step>): string {
    if steps == [] then ""
    else (if steps[0].Append? && |steps[0].line| < capacity then steps[0].line else "") + Lines(capacity, steps[1..])
  }

  lemma StepAccepts(s: Log, step: Step)
    ensures Apply(s, step).capacity == s.capacity
    ensures Apply(s, step).accepted
         == s.accepted + if step.Append? && |step.line| < s.capacity then step.line else ""
  {
    assert s.accepted + "" == s.accepted;
  }

  lemma {:induction false} RunAccepts(s: Log, steps: seq<Step>)
    ensures Run(s, steps).accepted == s.accepted + Lines(s.capacity, steps)
    decreases |steps|
  {
    hide Apply;
    if steps == [] {
      assert s.accepted + "" == s.accepted;
    } else {
      StepAccepts(s, steps[0]);
      RunAccepts(Apply(s, steps[0]), steps[1..]);
    }
  }

  /** Under any interleaving of appends with the rounds of the back end, no null pointer
      and no empty vector is ever used, no buffer has two owners, and what has been
      written, is being written, is queued and is being filled are together the lines
      appended, in order, but for those as long as a buffer. */
  lemma LogIsConserved(capacity: nat, steps: seq<Step>)
    requires capacity > 0 && Possible(Start(capacity), steps)
    ensures var s := Run(Start(capacity), steps);
      && !s.fault && s.current.Some?
      && (s.next == None ==> s.buffers != [])
      && (s.place == AtLoop ==> s.new1.Some? && s.new2.Some?)
      && (forall id: nat :: Owners(s, id) <= 1)
      && s.written + Concat(s.toWrite) + Concat(s.buffers) + s.current.value.used == Lines(capacity, steps)
  {
    StartOk(capacity);
    RunKeeps(Start(capacity), steps);
    RunAccepts(Start(capacity), steps);
    assert "" + Lines(capacity, steps) == Lines(capacity, steps);
  }

  // ---------- what each step does ----------

  /** A line that leaves room behind it goes into the current buffer; otherwise that
      buffer is queued, the spare one or else a new one becomes current, and the line
      goes there unless it would fill it. */
  lemma AppendIsExact(s: Log, line: string)
    requires PointersOk(s)
    ensures var s', b := FrontAppend(s, line), s.current.value;
      var accepted := if |line| < s.capacity then s.accepted + line else s.accepted;
      if |b.used| + |line| < s.capacity then
        s' == s.(current := Some(Buffer(b.id, b.used + line)), accepted := accepted)
      else
        var id := if s.next.Some? then s.next.value.id else s.made;
        s' == s.(buffers := s.buffers + [b], next := None, accepted := accepted,
                 current := Some(Buffer(id, if |line| < s.capacity then line else "")),
                 made := if s.next.Some? then s.made else s.made + 1)
  {
    assert "" + line == line;
  }

  /** The back end takes all that is queued and the current buffer, leaves a fresh one,
      and replaces the spare buffer if it is gone. */
  lemma SwapIsExact(s: Log)
    requires PointersOk(s) && s.place == AtLoop
    ensures BackSwap(s) == s.(toWrite := s.buffers + [s.current.value], buffers := [], current := s.new1, new1 := None,
                              next := if s.next.Some? then s.next else s.new2,
                              new2 := if s.next.Some? then s.new2 else None, place := Writing)
  {
  }

  /** What has been taken is written, in order, both buffers given away are back and
      empty, and the front end is not touched. */
  lemma WriteIsExact(s: Log)
    requires PointersOk(s) && s.place == Writing
    ensures var s' := BackWrite(s);
      && s' == s.(written := s.written + Concat(s.toWrite), toWrite := [], new1 := s'.new1, new2 := s'.new2,
                  place := if s.running then AtLoop else Done)
      && s'.new1.Some? && s'.new1.value.used == "" && s'.new2.Some? && s'.new2.value.used == ""
  {
  }

  /** After a stop the back end finishes the round it is in, or the one it has entered,
      and then is done: it takes buffers at most once more, and writes them. */
  lemma {:induction false} StopEnds(s: Log, steps: seq<Step>)
    requires Inv(s) && !s.running && Possible(s, steps)
    ensures var s' := Run(s, steps);
      && !s'.running
      && (Write in steps || s.place == Done ==> s'.place == Done)
      && (s.place == Done ==> Swap !in steps && Write !in steps && s'.written == s.written)
      && Swaps(steps) <= (if s.place == AtLoop then 1 else 0)
    decreases |steps|
  {
    if steps != [] {
      StepKeeps(s, steps[0]);
      StepPlace(s, steps[0]);
      hide Inv, Apply;
      StopEnds(Apply(s, steps[0]), steps[1..]);
    }
  }

  lemma StepPlace(s: Log, step: Step)
    requires Inv(s) && Enabled(s, step) && !s.running
    ensures var s' := Apply(s, step);
      && !s'.running && (step != Write ==> s'.written == s.written)
      && s'.place == if step == Swap then Writing else if step == Write then Done else s.place
  {
  }

  function Swaps(steps: seq<Step>): nat {
    if steps == [] then 0 else (if steps[0] == Swap then 1 else 0) + Swaps(steps[1..])
  }

  lemma StopIsExact(s: Log)
    ensures Apply(s, Stop) == s.(running := false)
  {
  }
}
