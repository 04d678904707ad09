/** The asynchronous log as an object over its buffers.  Each section that runs without
 *  interruption is a method, proved to act as the step of module `AsyncLoggingSpec` with
 *  its name; any number of appends may come between the two sections of the back end.
 */
module AsyncLogging {
  import opened Common
  import opened AsyncLoggingSpec

  class AsyncLogging {
    const capacity: nat
    var running: bool
    var currentBuffer: Option<Buffer>
    var nextBuffer: Option<Buffer>
    var buffers: seq<Buffer>
    // The locals of the back-end thread, and what it has put into the file.
    var newBuffer1: Option<Buffer>
    var newBuffer2: Option<Buffer>
    var buffersToWrite: seq<Buffer>
    var file: string
    var made: nat
    ghost var place: Place
    ghost var accepted: string

    ghost function State(): Log
      reads this
    {
      Log(capacity, currentBuffer, nextBuffer, buffers, place, running, newBuffer1, newBuffer2, buffersToWrite,
          made, accepted, file, false)
    }

    /** Every state the two threads can reach is valid, and in a valid state no pointer
        that is used without a test is null. */
    ghost predicate Valid()
      reads this
    {
      Inv(State())
    }

    constructor (capacity: nat)
      requires capacity > 0
      ensures Valid() && State() == Start(capacity)
    {
      this.capacity, running, made := capacity, true, 4;
      currentBuffer, nextBuffer, buffers := Some(Buffer(0, "")), Some(Buffer(1, "")), [];
      newBuffer1, newBuffer2, buffersToWrite := Some(Buffer(2, "")), Some(Buffer(3, "")), [];
      file, place, accepted := "", AtLoop, "";
      new;
      StartOk(capacity);
    }

    /** `append`, under the mutex */
    method Append(logline: string)
      requires Valid()
      modifies this
      ensures Valid() && State() == FrontAppend(old(State()), logline)
    {
      hide BytesOk, OwnersOk;
      StepKeeps(State(), Step.Append(logline));
      if |logline| < capacity {
        accepted := accepted + logline;
      }
      if capacity - |currentBuffer.value.used| > |logline| {
        currentBuffer := Some(Put(currentBuffer.value, capacity, logline));
      } else {
        buffers, currentBuffer := buffers + [currentBuffer.value], None;
        if nextBuffer.Some? {
          currentBuffer, nextBuffer := nextBuffer, None;
        } else {
          currentBuffer, made := Some(Buffer(made, "")), made + 1;
        }
        currentBuffer := Some(Put(currentBuffer.value, capacity, logline));
      }
    }

    /** The locked section of `threadFunc` */
    method Exchange()
      requires Valid() && place == AtLoop
      modifies this
      ensures Valid() && State() == BackSwap(old(State()))
    {
      hide BytesOk, OwnersOk;
      StepKeeps(State(), Swap);
      buffers, currentBuffer := buffers + [currentBuffer.value], None;
      currentBuffer, newBuffer1 := newBuffer1, None;
      buffersToWrite, buffers := buffers, buffersToWrite;
      if nextBuffer == None {
        nextBuffer, newBuffer2 := newBuffer2, None;
      }
      place := Writing;
    }

    /** And the rest of the round, outside the lock. */
    method WriteAndGiveBack()
      requires Valid() && place == Writing
      modifies this
      ensures Valid() && State() == BackWrite(old(State()))
    {
      hide BytesOk, OwnersOk;
      ghost var s := State();
      StepKeeps(s, Write);
      WriteBuffers();
      if |buffersToWrite| > 2 {
        buffersToWrite := buffersToWrite[..2];
      }
      newBuffer1 := TakeBack(newBuffer1);
      newBuffer2 := TakeBack(newBuffer2);
      buffersToWrite := [];
      place := if running then AtLoop else Done;
    }

    /** A pointer that was given away takes the last buffer of the vector, emptied. */
    method TakeBack(p: Option<Buffer>) returns (q: Option<Buffer>)
      requires p == None ==> buffersToWrite != []
      modifies `buffersToWrite
      ensures (q, buffersToWrite, false) == Refill(p, old(buffersToWrite))
    {
      q := p;
      if p == None {
        q := Some(buffersToWrite[|buffersToWrite| - 1].(used := ""));
        buffersToWrite := buffersToWrite[..|buffersToWrite| - 1];
      }
    }

    method WriteBuffers()
      modifies `file
      ensures file == old(file) + Concat(buffersToWrite)
    {
      var i := 0;
      assert buffersToWrite[..0] == [] && old(file) + "" == old(file);
      while i < |buffersToWrite|
        invariant i <= |buffersToWrite| && file == old(file) + Concat(buffersToWrite[..i])
      {
        assert buffersToWrite[..i + 1] == buffersToWrite[..i] + [buffersToWrite[i]];
        ConcatSnoc(buffersToWrite[..i], buffersToWrite[i]);
        file := file + buffersToWrite[i].used;
        i := i + 1;
      }
      assert buffersToWrite[..i] == buffersToWrite;
    }

    /** One round of the back end, during which these lines are appended: everything
        accepted before it took the lock is in the file, in order, and the lines are in
        the buffers. */
    method Round(during: seq<string>)
      requires Valid() && place == AtLoop
      modifies this
      ensures Valid() && running == old(running) && place == if running then AtLoop else Done
      ensures file == old(accepted) && accepted == old(accepted) + Concat(buffers) + currentBuffer.value.used
      ensures accepted == old(accepted) + Lines(capacity, Appends(during))
    {
      hide OwnersOk, FrontAppend, BackSwap, BackWrite, Concat;
      SwapFrame(State());
      Exchange();
      AppendAll(during);
      WriteFrame(State());
      WriteAndGiveBack();
      ConcatEmpty();
      assert file + "" == file;
    }

    /** The appends that come between the two halves of a round. */
    method AppendAll(lines: seq<string>)
      requires Valid() && place == Writing
      modifies this
      ensures Valid() && running == old(running) && place == Writing
      ensures file == old(file) && buffersToWrite == old(buffersToWrite)
      ensures accepted == old(accepted) + Lines(capacity, Appends(lines))
    {
      hide BytesOk, OwnersOk, FrontAppend, PointersOk;
      var i := 0;
      ghost var steps := Appends(lines);
      assert steps[0..] == steps;
      while i < |lines|
        invariant i <= |lines| && Valid() && running == old(running) && place == Writing
        invariant file == old(file) && buffersToWrite == old(buffersToWrite)
        invariant accepted + Lines(capacity, steps[i..]) == old(accepted) + Lines(capacity, steps)
      {
        NotNull(State());
        AppendFrame(State(), lines[i]);
        assert steps[i..][0] == steps[i] && steps[i..][1..] == steps[i + 1..];
        Append(lines[i]);
        i := i + 1;
      }
      assert accepted == accepted + Lines(capacity, steps[i..]);
    }
  }

  lemma NotNull(s: Log)
    requires Inv(s)
    ensures s.current.Some?
  {
  }

  lemma ConcatEmpty()
    ensures Concat([]) == ""
  {
  }

  function Appends(lines: seq<string>): seq<Step> {
    seq(|lines|, i requires 0 <= i < |lines| => Step.Append(lines[i]))
  }

  lemma AppendFrame(s: Log, line: string)
    requires s.current.Some?
    ensures var s' := FrontAppend(s, line);
      && s'.(current := s.current, next := s.next, buffers := s.buffers, made := s.made, accepted := s.accepted) == s
      && s'.accepted == s.accepted + if |line| < s.capacity then line else ""
  {
    assert s.accepted + "" == s.accepted;
  }

  lemma SwapFrame(s: Log)
    requires Inv(s) && s.place == AtLoop
    ensures var s' := BackSwap(s);
      s'.place == Writing && s'.accepted == s.accepted == s'.written + Concat(s'.toWrite) && s'.running == s.running
  {
    ConcatSnoc(s.buffers, s.current.value);
    assert s.written + Concat([]) + Concat(s.buffers) + s.current.value.used
        == s.written + (Concat(s.buffers) + s.current.value.used);
  }

  lemma WriteFrame(s: Log)
    ensures var s' := BackWrite(s);
      && s'.accepted == s.accepted && s'.running == s.running && s'.toWrite == []
      && s'.written == s.written + Concat(s.toWrite) && s'.place == if s.running then AtLoop else Done
  {
  }
}
