/** The fixed-size buffer of the logger, and the decimal digits written into it. */
module FixedBuffers {

  /** `FixedBuffer`: an array that is filled from the front. */
  class FixedBuffer {
    const data: array<char>
    var cur: nat

    ghost predicate Valid()
      reads this
    {
      cur <= data.Length
    }

    /** The bytes written so far. */
    ghost function Used(): (s: string)
      reads this, data
      requires Valid()
    {
      data[..cur]
    }

    constructor (size: nat)
      ensures Valid() && Used() == "" && data.Length == size && fresh(data)
    {
      data := new char[size](_ => '\0');
      cur := 0;
    }

    function Avail(): nat
      reads this
      requires Valid()
    {
      data.Length - cur
    }

    /** `length()`: the size of the whole array, not of the part in use. */
    function Length(): nat
      reads this
    {
      data.Length
    }

    /** A text that would fill the buffer to the last byte is dropped. */
    method Append(buf: string)
      requires Valid()
      modifies this, data
      ensures Valid() && Used() == if |buf| < old(Avail()) then old(Used()) + buf else old(Used())
    {
      if Avail() > |buf| {
        var k := 0;
        while k < |buf|
          invariant 0 <= k <= |buf| && cur == old(cur)
          invariant data[..cur + k] == old(data[..cur]) + buf[..k]
        {
          data[cur + k] := buf[k];
          k := k + 1;
        }
        assert buf[..k] == buf;
        cur := cur + |buf|;
      }
    }

    method Add(len: nat)
      requires Valid() && len <= Avail()
      modifies `cur
      ensures Valid() && cur == old(cur) + len
    {
      cur := cur + len;
    }

    method Reset()
      requires Valid()
      modifies `cur
      ensures Valid() && Used() == "" && Avail() == data.Length
    {
      cur := 0;
    }
  }
}
