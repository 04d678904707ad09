/** The growing byte buffer between sockets and their users, as a queue of bytes. */
module Buffers {
  import opened Common

  const CHEAP_PREPEND: nat := 8
  const INITIAL_SIZE: nat := 1024
  const EXTRA_SIZE: nat := 65536
  // The largest size a std::vector<char> can be given.
  const MAX_SIZE: nat := SIZE_T / 2 - 1

  /** A size_t passed where an int is expected. */
  function ToInt(len: nat): int {
    var low := len % (2 * INT_LIMIT);
    if low < INT_LIMIT then low else low - 2 * INT_LIMIT
  }

  /** An int added to a size_t. */
  function ToSizeT(i: int): nat {
    i % SIZE_T
  }

  datatype Space = Resize(size: nat) | Compact | Throw

  /** What `makeSpace` does for `len` bytes, which it receives as an int. */
  function MakeSpacePlan(size: nat, reader: nat, writer: nat, len: nat): Space
    requires writer <= size
  {
    var added := ToSizeT(ToInt(len));
    if size - writer + reader < (added + CHEAP_PREPEND) % SIZE_T then
      var n := (writer + added) % SIZE_T;
      if n > MAX_SIZE then Throw else Resize(n)
    else Compact
  }

  /** After `ensureWritableBytes(len)`, `len` bytes can be written. */
  predicate HasRoom(size: nat, reader: nat, writer: nat, len: nat)
    requires reader <= writer <= size
  {
    size - writer >= len ||
    match MakeSpacePlan(size, reader, writer, len)
    case Resize(n) => n >= writer + len
    case Compact => size - (CHEAP_PREPEND + writer - reader) >= len
    case Throw => false
  }

  /** The bytes fit once the readable part has been moved to the front. */
  predicate FitsCompacted(size: nat, reader: nat, writer: nat, len: nat)
    requires writer <= size
  {
    size - writer + reader >= len + CHEAP_PREPEND
  }

  /** Exactly when the buffer can take `len` bytes: always below 2 GiB (memory
      permitting), and beyond that only if no new memory is needed, because the
      length has lost its upper half by then. */
  lemma RoomExactly(size: nat, reader: nat, writer: nat, len: nat)
    requires CHEAP_PREPEND <= reader <= writer <= size <= MAX_SIZE && size - writer < len < SIZE_T
    ensures HasRoom(size, reader, writer, len) <==>
      if len < INT_LIMIT then FitsCompacted(size, reader, writer, len) || writer + len <= MAX_SIZE
      else ToInt(len) >= -8 && FitsCompacted(size, reader, writer, len)
  {
    var i := ToInt(len);
    assert len < INT_LIMIT ==> i == len;
    assert len >= INT_LIMIT ==> i < len;
    assert i < 0 ==> ToSizeT(i) == i + SIZE_T;
    assert i >= 0 ==> ToSizeT(i) == i;
    assert -8 <= i < 0 ==> (ToSizeT(i) + CHEAP_PREPEND) % SIZE_T == i + 8;
    assert -8 > i ==> (ToSizeT(i) + CHEAP_PREPEND) % SIZE_T == i + SIZE_T + 8;
    assert i < -8 && writer + i >= 0 ==> (writer + ToSizeT(i)) % SIZE_T == writer + i;
    assert i < -8 && writer + i < 0 ==> (writer + ToSizeT(i)) % SIZE_T == writer + i + SIZE_T;
  }

  /** A fresh buffer asked for 4 GiB finds it needs none of them. */
  lemma FourGigabytesDoNotFit()
    ensures MakeSpacePlan(CHEAP_PREPEND + INITIAL_SIZE, CHEAP_PREPEND, CHEAP_PREPEND, 2 * INT_LIMIT) == Compact
    ensures !HasRoom(CHEAP_PREPEND + INITIAL_SIZE, CHEAP_PREPEND, CHEAP_PREPEND, 2 * INT_LIMIT)
  {
  }

  /** When `makeSpace` compacts for a length that an int can hold, the readable bytes
      move strictly forward, so copying them upwards is safe, and the room is made.  They
      are copied onto themselves exactly when nothing has been read yet and the length,
      cut down to an int, asks for no more than what is free. */
  lemma CompactMovesForward(size: nat, reader: nat, writer: nat, len: nat)
    requires CHEAP_PREPEND <= reader <= writer <= size <= MAX_SIZE && size - writer < len < SIZE_T
    ensures MakeSpacePlan(size, reader, writer, len) == Compact && len < INT_LIMIT ==>
      reader > CHEAP_PREPEND && size - (CHEAP_PREPEND + writer - reader) >= len
    ensures reader == CHEAP_PREPEND ==>
      (MakeSpacePlan(size, reader, writer, len) == Compact <==> -8 <= ToInt(len) <= size - writer)
  {
    var i := ToInt(len);
    assert len < INT_LIMIT ==> i == len;
    assert i < 0 ==> ToSizeT(i) == i + SIZE_T;
    assert i >= 0 ==> ToSizeT(i) == i;
    assert -8 <= i < 0 ==> (ToSizeT(i) + CHEAP_PREPEND) % SIZE_T == i + 8;
    assert -8 > i ==> (ToSizeT(i) + CHEAP_PREPEND) % SIZE_T == i + SIZE_T + 8;
  }

  /** Where the first CRLF of the text starts, or the length of the text. */
  function FindCRLF(s: string): nat {
    if |s| < 2 then |s|
    else if s[0] == '\r' && s[1] == '\n' then 0
    else 1 + FindCRLF(s[1..])
  }

  class Buffer {
    var buffer: string
    var readerIndex: nat
    var writerIndex: nat

    ghost predicate Valid()
      reads this
    {
      CHEAP_PREPEND <= readerIndex <= writerIndex <= |buffer| <= MAX_SIZE
    }

    /** The readable bytes. */
    function Contents(): (s: string)
      reads this
      requires Valid()
      ensures |s| == writerIndex - readerIndex
    {
      buffer[readerIndex..writerIndex]
    }

    /** The buffer can take `len` more bytes. */
    ghost predicate Accepts(len: nat)
      reads this
      requires Valid()
    {
      HasRoom(|buffer|, readerIndex, writerIndex, len)
    }

    constructor (initialSize: nat)
      requires CHEAP_PREPEND + initialSize <= MAX_SIZE
      ensures Valid() && Contents() == [] && |buffer| == CHEAP_PREPEND + initialSize
    {
      buffer := seq(CHEAP_PREPEND + initialSize, _ => '\0');
      readerIndex := CHEAP_PREPEND;
      writerIndex := CHEAP_PREPEND;
    }

    function ReadableBytes(): nat
      reads this
      requires Valid()
    {
      writerIndex - readerIndex
    }

    function WritableBytes(): nat
      reads this
      requires Valid()
    {
      |buffer| - writerIndex
    }

    method RetrieveAll()
      requires Valid()
      modifies `readerIndex, `writerIndex
      ensures Valid() && Contents() == []
    {
      readerIndex := CHEAP_PREPEND;
      writerIndex := CHEAP_PREPEND;
    }

    method Retrieve(len: nat)
      requires Valid()
      modifies `readerIndex, `writerIndex
      ensures Valid() && Contents() == if len <= |old(Contents())| then old(Contents())[len..] else []
    {
      if len < ReadableBytes() {
        readerIndex := readerIndex + len;
      } else {
        RetrieveAll();
      }
    }

    /** `retrieveAsString`, which reads on behind the readable bytes when asked for more;
        only the end of the array bounds it. */
    method RetrieveAsString(len: nat) returns (result: string)
      requires Valid() && readerIndex + len <= |buffer|
      modifies `readerIndex, `writerIndex
      ensures Valid() && |result| == len
      ensures if len <= |old(Contents())| then result + Contents() == old(Contents())
              else old(Contents()) <= result && Contents() == []
    {
      result := buffer[readerIndex..readerIndex + len];
      Retrieve(len);
    }

    /** The compacting branch of `makeSpace`: std::copy, byte by byte and upwards. */
    method MoveToFront()
      requires Valid() && readerIndex > CHEAP_PREPEND
      modifies this
      ensures Valid() && Contents() == old(Contents()) && |buffer| == |old(buffer)|
      ensures readerIndex == CHEAP_PREPEND
    {
      var readable := ReadableBytes();
      ghost var s := Contents();
      var k := 0;
      while k < readable
        invariant 0 <= k <= readable && |buffer| == |old(buffer)|
        invariant readerIndex == old(readerIndex) && writerIndex == old(writerIndex)
        invariant forall j :: 0 <= j < k ==> buffer[CHEAP_PREPEND + j] == s[j]
        invariant forall j :: k <= j < readable ==> buffer[readerIndex + j] == s[j]
      {
        buffer := buffer[CHEAP_PREPEND + k := buffer[readerIndex + k]];
        k := k + 1;
      }
      readerIndex := CHEAP_PREPEND;
      writerIndex := readerIndex + readable;
    }

    method MakeSpace(len: nat)
      requires Valid() && WritableBytes() < len < SIZE_T && Accepts(len)
      modifies this
      ensures Valid() && Contents() == old(Contents()) && WritableBytes() >= len
    {
      RoomExactly(|buffer|, readerIndex, writerIndex, len);
      var added := ToSizeT(ToInt(len));
      if WritableBytes() + readerIndex < (added + CHEAP_PREPEND) % SIZE_T {
        var n := (writerIndex + added) % SIZE_T;
        buffer := buffer + seq(n - |buffer|, _ => '\0');
      } else {
        MoveToFront();
      }
    }

    method EnsureWritableBytes(len: nat)
      requires Valid() && len < SIZE_T && Accepts(len)
      modifies this
      ensures Valid() && Contents() == old(Contents()) && WritableBytes() >= len
    {
      if WritableBytes() < len {
        MakeSpace(len);
      }
    }

    /** `append`: the bytes join the queue at its end. */
    method Append(data: string)
      requires Valid() && |data| < SIZE_T && Accepts(|data|)
      modifies this
      ensures Valid() && Contents() == old(Contents()) + data
    {
      EnsureWritableBytes(|data|);
      buffer := buffer[..writerIndex] + data + buffer[writerIndex + |data|..];
      writerIndex := writerIndex + |data|;
    }

    /** `readFd`, where `readv` delivers `received`: what the free part of the buffer
        does not hold arrives in the overflow array and is appended from there. */
    method ReadFd(received: string)
      requires Valid()
      requires |received| <= WritableBytes() + if WritableBytes() < EXTRA_SIZE then EXTRA_SIZE else 0
      requires |received| > WritableBytes() ==> |buffer| + EXTRA_SIZE <= MAX_SIZE
      modifies this
      ensures Valid() && Contents() == old(Contents()) + received
    {
      var writable := WritableBytes();
      var n := |received|;
      if n <= writable {
        buffer := buffer[..writerIndex] + received + buffer[writerIndex + n..];
        writerIndex := writerIndex + n;
      } else {
        buffer := buffer[..writerIndex] + received[..writable];
        var extrabuf := received[writable..];
        writerIndex := |buffer|;
        RoomExactly(|buffer|, readerIndex, writerIndex, n - writable);
        Append(extrabuf);
        assert received == received[..writable] + received[writable..];
      }
    }

    /** `findCRLF`, as an offset into the readable bytes; none when `found` is false. */
    method FindLine() returns (found: bool, crlf: nat)
      requires Valid()
      ensures crlf == FindCRLF(Contents()) && (if found then crlf + 2 <= |Contents()| else crlf == |Contents()|)
    {
      FindCRLFEnds(Contents());
      crlf := FindCRLF(buffer[readerIndex..writerIndex]);
      found := crlf != ReadableBytes();
    }
  }

  predicate CRLFAt(s: string, k: nat) {
    k + 2 <= |s| && s[k] == '\r' && s[k + 1] == '\n'
  }

  /** What is found is the first CRLF, inside the text; otherwise there is none. */
  lemma {:induction false} FindCRLFEnds(s: string)
    ensures FindCRLF(s) <= |s|
    ensures FindCRLF(s) < |s| ==> CRLFAt(s, FindCRLF(s))
    ensures forall k: nat :: k < FindCRLF(s) ==> !CRLFAt(s, k)
  {
    if |s| >= 2 && !CRLFAt(s, 0) {
      FindCRLFEnds(s[1..]);
      forall k: nat | k < FindCRLF(s) ensures !CRLFAt(s, k) {
        if k > 0 {
          assert !CRLFAt(s[1..], k - 1);
        }
      }
    }
  }
}
