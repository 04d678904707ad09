/** The sending side of a connection, driven from its loop thread, and what every run
 *  of it keeps.
 */
module TcpSpec {

  datatype State = Disconnected | Connecting | Connected | Disconnecting

  /** What a write to the socket comes to; `Broken` is EPIPE or ECONNRESET. */
  datatype Outcome = Wrote(n: nat) | WouldBlock | Broken | OtherError

  datatype Callback = WriteComplete | HighWater(size: nat)

  datatype Settings = Settings(onComplete: bool, onHighWater: bool, mark: nat)

  /** A connection, the callbacks it has queued, and a record of what happened to its
      socket: the bytes on the wire, the number of half-closes, whether one of them
      came with output pending, and whether a byte was written after one.
      `accepted` is what the connection has taken responsibility for. */
  datatype Conn = Conn(state: State, reading: bool, writing: bool, output: string,
                       queued: seq<Callback>, accepted: string,
                       wire: string, shutdowns: nat, hasty: bool, late: bool)

  const FRESH := Conn(Connecting, false, false, "", [], "", "", 0, false, false)

  /** The socket takes the first bytes of `data`. */
  function Transmit(c: Conn, data: string): Conn {
    c.(wire := c.wire + data, late := c.late || (data != "" && c.shutdowns > 0))
  }

  function Complete(c: Conn, k: Settings): Conn {
    if k.onComplete then c.(queued := c.queued + [WriteComplete]) else c
  }

  predicate Idle(c: Conn) {
    !c.writing && c.output == ""
  }

  /** The part of `sendInLoop` that keeps what the socket did not take. */
  function Enqueue(c: Conn, k: Settings, data: string): Conn {
    if data == "" then c
    else
      var size := |c.output| + |data|;
      var c1 := if size >= k.mark && |c.output| < k.mark && k.onHighWater
                then c.(queued := c.queued + [HighWater(size)]) else c;
      c1.(output := c.output + data, writing := true)
  }

  function SendInLoop(c: Conn, k: Settings, data: string, outcome: Outcome): Conn
    requires outcome.Wrote? ==> outcome.n <= |data|
  {
    if c.state == Disconnected then c
    else if !Idle(c) then Enqueue(c.(accepted := c.accepted + data), k, data)
    else
      match outcome
      case Wrote(n) =>
        var c1 := Transmit(c.(accepted := c.accepted + data), data[..n]);
        Enqueue(if n == |data| then Complete(c1, k) else c1, k, data[n..])
      case Broken => c
      case _ => Enqueue(c.(accepted := c.accepted + data), k, data)
  }

  function Send(c: Conn, k: Settings, data: string, outcome: Outcome): Conn
    requires outcome.Wrote? ==> outcome.n <= |data|
  {
    if c.state == Connected then SendInLoop(c, k, data, outcome) else c
  }

  function ShutdownInLoop(c: Conn): Conn {
    if c.writing then c else c.(shutdowns := c.shutdowns + 1, hasty := c.hasty || c.output != "")
  }

  function Shutdown(c: Conn): Conn {
    if c.state == Connected then ShutdownInLoop(c.(state := Disconnecting)) else c
  }

  function HandleWrite(c: Conn, k: Settings, outcome: Outcome): Conn
    requires outcome.Wrote? ==> outcome.n <= |c.output|
  {
    if c.writing && outcome.Wrote? && outcome.n > 0 then
      var c1 := Transmit(c, c.output[..outcome.n]).(output := c.output[outcome.n..]);
      if c1.output != "" then c1
      else
        var c2 := Complete(c1.(writing := false), k);
        if c2.state == Disconnecting then ShutdownInLoop(c2) else c2
    else c
  }

  function HandleClose(c: Conn): Conn {
    c.(state := Disconnected, reading := false, writing := false)
  }

  function ConnectEstablished(c: Conn): Conn {
    c.(state := Connected, reading := true)
  }

  function ConnectDestroyed(c: Conn): Conn {
    if c.state == Connected then HandleClose(c) else c
  }

  // ---------- runs ----------

  /** The calls that reach a connection from its loop thread, in any order. */
  datatype Op =
    | OpEstablish | OpSend(data: string, outcome: Outcome) | OpShutdown
    | OpWritable(outcome: Outcome) | OpClose | OpDestroy

  predicate Legal(c: Conn, op: Op) {
    match op
    case OpEstablish => c.state == Connecting
    case OpSend(data, outcome) => outcome.Wrote? ==> outcome.n <= |data|
    case OpWritable(outcome) => outcome.Wrote? ==> outcome.n <= |c.output|
    case _ => true
  }

  function Apply(c: Conn, k: Settings, op: Op): Conn
    requires Legal(c, op)
  {
    match op
    case OpEstablish => ConnectEstablished(c)
    case OpSend(data, outcome) => Send(c, k, data, outcome)
    case OpShutdown => Shutdown(c)
    case OpWritable(outcome) => HandleWrite(c, k, outcome)
    case OpClose => HandleClose(c)
    case OpDestroy => ConnectDestroyed(c)
  }

  predicate LegalRun(c: Conn, k: Settings, ops: seq<Op>)
    decreases |ops|
  {
    ops == [] || (Legal(c, ops[0]) && LegalRun(Apply(c, k, ops[0]), k, ops[1..]))
  }

  function Run(c: Conn, k: Settings, ops: seq<Op>): Conn
    requires LegalRun(c, k, ops)
    decreases |ops|
  {
    if ops == [] then c else Run(Apply(c, k, ops[0]), k, ops[1..])
  }

  /** The data of the sends of a run that counted: those made while connected, except
      the ones that found the connection broken. */
  function Taken(c: Conn, k: Settings, ops: seq<Op>): string
    requires LegalRun(c, k, ops)
    decreases |ops|
  {
    if ops == [] then ""
    else
      (if ops[0].OpSend? && c.state == Connected && !(Idle(c) && ops[0].outcome.Broken?) then ops[0].data else "")
      + Taken(Apply(c, k, ops[0]), k, ops[1..])
  }

  ghost predicate Inv(c: Conn) {
    // No byte is lost, invented or reordered.
    && c.wire + c.output == c.accepted
    // Interest in write events is exactly pending output, until the end.
    && (c.state != Disconnected ==> (c.writing <==> c.output != ""))
    && (c.writing ==> c.output != "" && c.shutdowns == 0)
    // The half-close comes once, after the output has drained, and nothing follows it.
    && c.shutdowns <= 1 && !c.hasty && !c.late
    && (c.state == Connecting || c.state == Connected ==> c.shutdowns == 0)
    && (c.state == Disconnecting ==> (c.shutdowns == 1 <==> c.output == ""))
    && (c.shutdowns == 1 ==> c.output == "")
  }

  lemma EnqueueKeeps(c: Conn, k: Settings, data: string)
    requires c.state == Connected && c.shutdowns == 0 && !c.hasty && !c.late
    requires c.writing <==> c.output != ""
    requires c.wire + c.output + data == c.accepted
    ensures Inv(Enqueue(c, k, data))
  {
    if data == "" {
      assert c.wire + c.output == c.wire + c.output + data;
    } else {
      assert c.wire + (c.output + data) == c.wire + c.output + data;
    }
  }

  lemma SendKeeps(c: Conn, k: Settings, data: string, outcome: Outcome)
    requires Inv(c) && (outcome.Wrote? ==> outcome.n <= |data|)
    ensures Inv(Send(c, k, data, outcome))
  {
    if c.state == Connected {
      if !Idle(c) {
        EnqueueKeeps(c.(accepted := c.accepted + data), k, data);
      } else if outcome.Wrote? {
        var c1 := Transmit(c.(accepted := c.accepted + data), data[..outcome.n]);
        var c2 := if outcome.n == |data| then Complete(c1, k) else c1;
        assert c.wire + data == c.wire + data[..outcome.n] + data[outcome.n..];
        EnqueueKeeps(c2, k, data[outcome.n..]);
      } else if !outcome.Broken? {
        EnqueueKeeps(c.(accepted := c.accepted + data), k, data);
      }
    }
  }

  lemma HandleWriteKeeps(c: Conn, k: Settings, outcome: Outcome)
    requires Inv(c) && (outcome.Wrote? ==> outcome.n <= |c.output|)
    ensures Inv(HandleWrite(c, k, outcome))
  {
    if c.writing && outcome.Wrote? && outcome.n > 0 {
      assert c.wire + c.output == c.wire + c.output[..outcome.n] + c.output[outcome.n..];
    }
  }

  lemma StepKeeps(c: Conn, k: Settings, op: Op)
    requires Inv(c) && Legal(c, op)
    ensures Inv(Apply(c, k, op))
  {
    match op
    case OpSend(data, outcome) => SendKeeps(c, k, data, outcome);
    case OpWritable(outcome) => HandleWriteKeeps(c, k, outcome);
    case _ =>
  }

  lemma StepTakes(c: Conn, k: Settings, op: Op)
    requires Legal(c, op)
    ensures Apply(c, k, op).accepted == c.accepted
      + if op.OpSend? && c.state == Connected && !(Idle(c) && op.outcome.Broken?) then op.data else ""
  {
    hide Enqueue;
    assert c.accepted + "" == c.accepted;
    if op.OpSend? && c.state == Connected {
      EnqueueAccepts(c.(accepted := c.accepted + op.data), k, op.data);
      if op.outcome.Wrote? {
        var c1 := Transmit(c.(accepted := c.accepted + op.data), op.data[..op.outcome.n]);
        EnqueueAccepts(c1, k, op.data[op.outcome.n..]);
        EnqueueAccepts(Complete(c1, k), k, op.data[op.outcome.n..]);
      }
    }
  }

  lemma EnqueueAccepts(c: Conn, k: Settings, data: string)
    ensures Enqueue(c, k, data).accepted == c.accepted
  {
  }

  lemma {:induction false} RunKeeps(c: Conn, k: Settings, ops: seq<Op>)
    requires Inv(c) && LegalRun(c, k, ops)
    ensures Inv(Run(c, k, ops)) && Run(c, k, ops).accepted == c.accepted + Taken(c, k, ops)
    decreases |ops|
  {
    if ops != [] {
      StepKeeps(c, k, ops[0]);
      StepTakes(c, k, ops[0]);
      RunKeeps(Apply(c, k, ops[0]), k, ops[1..]);
    }
  }

  /** Whatever the socket takes at each attempt, the bytes on the wire followed by the
      pending output are the accepted sends in order; while the connection lasts it
      waits for write events exactly when output is pending; and it half-closes at most
      once, with nothing pending and nothing written afterwards. */
  lemma StreamIsConserved(k: Settings, ops: seq<Op>)
    requires LegalRun(FRESH, k, ops)
    ensures var c := Run(FRESH, k, ops);
      && c.wire + c.output == Taken(FRESH, k, ops)
      && (c.state == Connected || c.state == Disconnecting ==> (c.writing <==> c.output != ""))
      && c.shutdowns <= 1 && !c.hasty && !c.late
      && (c.state == Disconnecting ==> (c.shutdowns == 1 <==> c.output == ""))
      && (c.shutdowns == 1 ==> c.wire == Taken(FRESH, k, ops))
  {
    RunKeeps(FRESH, k, ops);
    var c := Run(FRESH, k, ops);
    assert c.wire + "" == c.wire;
    assert "" + Taken(FRESH, k, ops) == Taken(FRESH, k, ops);
  }

  // ---------- what each operation does ----------

  /** The callbacks that a send queues: completion if it was written at once and whole,
      the high-water mark if it takes the pending output to the mark from below. */
  function SendCallbacks(k: Settings, whole: bool, before: nat, after: nat): seq<Callback> {
    (if whole && k.onComplete then [WriteComplete] else [])
    + (if after > before && before < k.mark <= after && k.onHighWater then [HighWater(after)] else [])
  }

  /** A send on a connection behind pending output only adds to that output.  Otherwise
      what the socket takes is on the wire, the rest is pending, and it waits for write
      events exactly if there is a rest; a broken connection takes nothing at all. */
  lemma SendIsExact(c: Conn, k: Settings, data: string, outcome: Outcome)
    requires Inv(c) && c.state == Connected && (outcome.Wrote? ==> outcome.n <= |data|)
    ensures var c' := Send(c, k, data, outcome);
      if c.output == "" && outcome.Broken? then c' == c
      else
        var n := if c.output == "" && outcome.Wrote? then outcome.n else 0;
        var output := if c.output == "" then data[n..] else c.output + data;
        c' == c.(wire := c.wire + data[..n], output := output, writing := output != "",
                 accepted := c.accepted + data,
                 queued := c.queued + SendCallbacks(k, c.output == "" && outcome.Wrote? && n == |data|, |c.output|, |output|))
  {
    var c' := Send(c, k, data, outcome);
    assert c.wire + "" == c.wire && c.queued + [] == c.queued && "" + data == data && c.output + "" == c.output;
    assert c.output == "" ==> forall n | 0 <= n <= |data| :: c.output + data[n..] == data[n..];
  }

  /** A connection becomes connected, and reads, when it is established; nothing else
      changes. */
  lemma EstablishIsExact(c: Conn)
    ensures ConnectEstablished(c)
         == Conn(Connected, true, c.writing, c.output, c.queued, c.accepted, c.wire, c.shutdowns, c.hasty, c.late)
  {
  }

  /** Closing ends the connection and all its interests, and so does destroying it while
      it is connected; nothing is sent by either, and nothing taken afterwards. */
  lemma CloseIsExact(c: Conn, k: Settings, data: string, outcome: Outcome)
    requires outcome.Wrote? ==> outcome.n <= |data|
    ensures var c' := HandleClose(c);
      && c' == Conn(Disconnected, false, false, c.output, c.queued, c.accepted, c.wire, c.shutdowns, c.hasty, c.late)
      && ConnectDestroyed(c) == (if c.state == Connected then c' else c)
      && Send(c', k, data, outcome) == c' && Shutdown(c') == c'
  {
  }

  /** A write event moves exactly what the socket takes from the output to the wire; the
      completion callback is queued if and only if that was the last of it, the
      connection then stops waiting for write events, and it half-closes if and only if a
      shutdown was waiting for that.  Nothing else changes. */
  lemma DrainIsExact(c: Conn, k: Settings, outcome: Outcome)
    requires Inv(c) && (outcome.Wrote? ==> outcome.n <= |c.output|)
    ensures var n := if c.writing && outcome.Wrote? then outcome.n else 0;
      var last := c.writing && n == |c.output|;
      HandleWrite(c, k, outcome)
      == c.(wire := c.wire + c.output[..n], output := c.output[n..], writing := c.writing && !last,
            queued := c.queued + (if last && k.onComplete then [WriteComplete] else []),
            shutdowns := if last && c.state == Disconnecting then 1 else c.shutdowns)
  {
    assert c.wire + "" == c.wire && c.queued + [] == c.queued;
  }

  /** A shutdown is carried out if and only if nothing is left to send; otherwise it
      waits, and the connection takes no more.  One that is not connected is not touched
      by it, nor by a send. */
  lemma ShutdownIsExact(c: Conn, k: Settings, data: string, outcome: Outcome)
    requires Inv(c) && (outcome.Wrote? ==> outcome.n <= |data|)
    ensures c.state == Connected ==>
      Shutdown(c) == c.(state := Disconnecting, shutdowns := if c.output == "" then 1 else 0)
    ensures c.state != Connected ==> Shutdown(c) == c && Send(c, k, data, outcome) == c
  {
  }

  /** The high-water callback is queued exactly when a send takes the pending output
      from below the mark to the mark or beyond, and it is told the new size. */
  lemma HighWaterIsCrossing(c: Conn, k: Settings, data: string, outcome: Outcome)
    requires Inv(c) && c.state == Connected && k.onHighWater && (outcome.Wrote? ==> outcome.n <= |data|)
    ensures var c' := Send(c, k, data, outcome);
      (exists n :: HighWater(n) in c'.queued[|c.queued|..]) <==> (|c.output| < k.mark <= |c'.output|)
    ensures var c' := Send(c, k, data, outcome);
      |c.queued| <= |c'.queued| && forall n :: HighWater(n) in c'.queued[|c.queued|..] ==> n == |c'.output|
  {
    var c' := Send(c, k, data, outcome);
    var more := c'.queued[|c.queued|..];
    if |c.output| < k.mark <= |c'.output| {
      assert more[|more| - 1] == HighWater(|c'.output|);
    }
  }

  // ---------- streams by their operations ----------

  /** What the sends among the operations carry. */
  function Data(ops: seq<Op>): string {
    if ops == [] then "" else (if ops[0].OpSend? then ops[0].data else "") + Data(ops[1..])
  }

  /** Operations of a connection at work: sends that find it whole, and write events. */
  predicate AtWork(ops: seq<Op>) {
    forall op :: op in ops ==> op.OpWritable? || (op.OpSend? && !op.outcome.Broken?)
  }

  predicate Ends(op: Op) {
    op.OpShutdown? || op.OpClose? || op.OpDestroy?
  }

  lemma {:induction false} RunAppend(c: Conn, k: Settings, ops: seq<Op>, more: seq<Op>)
    requires LegalRun(c, k, ops + more)
    ensures LegalRun(c, k, ops) && LegalRun(Run(c, k, ops), k, more)
    ensures Run(c, k, ops + more) == Run(Run(c, k, ops), k, more)
    decreases |ops|
  {
    hide Legal, Apply;
    if ops == [] {
      assert ops + more == more;
    } else {
      assert (ops + more)[1..] == ops[1..] + more;
      RunAppend(Apply(c, k, ops[0]), k, ops[1..], more);
    }
  }

  /** Until it is established a connection does nothing. */
  lemma {:induction false} ConnectingIsFresh(c: Conn, k: Settings, ops: seq<Op>)
    requires LegalRun(c, k, ops) && (c.state == Connecting ==> c == FRESH)
    requires Run(c, k, ops).state == Connecting
    ensures Run(c, k, ops) == FRESH
    decreases |ops|
  {
    if ops != [] {
      ConnectingIsFresh(Apply(c, k, ops[0]), k, ops[1..]);
    }
  }

  lemma {:induction false} WorkTakesAll(c: Conn, k: Settings, ops: seq<Op>)
    requires Inv(c) && c.state == Connected && LegalRun(c, k, ops) && AtWork(ops)
    ensures var c' := Run(c, k, ops);
      Inv(c') && c'.state == Connected && c'.wire + c'.output == c.wire + c.output + Data(ops)
    decreases |ops|
  {
    if ops == [] {
      assert c.wire + c.output + "" == c.wire + c.output;
    } else {
      StepKeeps(c, k, ops[0]);
      WorkTakes(c, k, ops[0]);
      var c1 := Apply(c, k, ops[0]);
      var first := if ops[0].OpSend? then ops[0].data else "";
      assert c.wire + c.output + first + Data(ops[1..]) == c.wire + c.output + (first + Data(ops[1..]));
      hide Inv, Apply, Legal;
      WorkTakesAll(c1, k, ops[1..]);
    }
  }

  lemma WorkTakes(c: Conn, k: Settings, op: Op)
    requires Inv(c) && c.state == Connected && Legal(c, op) && AtWork([op])
    ensures var c' := Apply(c, k, op);
      c'.state == Connected && c'.wire + c'.output == c.wire + c.output + if op.OpSend? then op.data else ""
  {
    assert op in [op];
    StepKeeps(c, k, op);
    if op.OpSend? {
      SendIsExact(c, k, op.data, op.outcome);
    } else {
      StepTakes(c, k, op);
      assert c.accepted + "" == c.accepted;
    }
  }

  lemma {:induction false} EndedTakesNone(c: Conn, k: Settings, ops: seq<Op>)
    requires Inv(c) && (c.state == Disconnecting || c.state == Disconnected) && LegalRun(c, k, ops)
    ensures var c' := Run(c, k, ops);
      c'.wire + c'.output == c.wire + c.output && (c'.state == Disconnecting || c'.state == Disconnected)
    decreases |ops|
  {
    if ops != [] {
      StepKeeps(c, k, ops[0]);
      var c1 := Apply(c, k, ops[0]);
      assert c1.accepted == c.accepted && (c1.state == Disconnecting || c1.state == Disconnected);
      EndedTakesNone(c1, k, ops[1..]);
    }
  }

  lemma WorkedStream(k: Settings, before: seq<Op>, during: seq<Op>)
    requires LegalRun(FRESH, k, before + [OpEstablish] + during) && AtWork(during)
    ensures var c := Run(FRESH, k, before + [OpEstablish] + during);
      Inv(c) && c.state == Connected && c.wire + c.output == Data(during)
  {
    RunAppend(FRESH, k, before + [OpEstablish], during);
    RunAppend(FRESH, k, before, [OpEstablish]);
    var c := Run(FRESH, k, before);
    ConnectingIsFresh(FRESH, k, before);
    assert [OpEstablish][1..] == [];
    var e := ConnectEstablished(FRESH);
    assert LegalRun(Apply(c, k, OpEstablish), k, []) && Run(c, k, [OpEstablish]) == e;
    WorkTakesAll(e, k, during);
    assert "" + "" + Data(during) == Data(during);
  }

  /** Told by the operations alone: whatever came before, from the establishment on all
      that is sent is on the wire or pending, in order, as long as the connection is at
      work. */
  lemma StreamOfSends(k: Settings, before: seq<Op>, during: seq<Op>)
    requires LegalRun(FRESH, k, before + [OpEstablish] + during) && AtWork(during)
    ensures var c := Run(FRESH, k, before + [OpEstablish] + during);
      c.state == Connected && c.reading && c.wire + c.output == Data(during)
  {
    WorkedStream(k, before, during);
    StillReads(k, before, during);
  }

  lemma StillReads(k: Settings, before: seq<Op>, during: seq<Op>)
    requires LegalRun(FRESH, k, before + [OpEstablish] + during) && AtWork(during)
    ensures Run(FRESH, k, before + [OpEstablish] + during).reading
  {
    RunAppend(FRESH, k, before + [OpEstablish], during);
    RunAppend(FRESH, k, before, [OpEstablish]);
    var c := Run(FRESH, k, before);
    assert [OpEstablish][1..] == [];
    var e := Apply(c, k, OpEstablish);
    assert LegalRun(e, k, []) && Run(c, k, [OpEstablish]) == e;
    WorkReads(e, k, during);
  }

  lemma {:induction false} WorkReads(c: Conn, k: Settings, ops: seq<Op>)
    requires c.reading && LegalRun(c, k, ops) && AtWork(ops)
    ensures Run(c, k, ops).reading
    decreases |ops|
  {
    if ops != [] {
      assert ops[0] in ops;
      WorkReads(Apply(c, k, ops[0]), k, ops[1..]);
    }
  }

  /** And once it has been shut down, closed or destroyed, nothing more is taken, whatever
      comes after. */
  lemma StreamIsFinal(k: Settings, before: seq<Op>, during: seq<Op>, end: Op, after: seq<Op>)
    requires LegalRun(FRESH, k, before + [OpEstablish] + during + ([end] + after)) && AtWork(during) && Ends(end)
    ensures var c := Run(FRESH, k, before + [OpEstablish] + during + ([end] + after));
      c.wire + c.output == Data(during)
  {
    RunAppend(FRESH, k, before + [OpEstablish] + during, [end] + after);
    WorkedStream(k, before, during);
    var c := Run(FRESH, k, before + [OpEstablish] + during);
    assert ([end] + after)[1..] == after;
    StepKeeps(c, k, end);
    var c1 := Apply(c, k, end);
    assert c1.wire == c.wire && c1.output == c.output;
    EndedTakesNone(c1, k, after);
  }
}
