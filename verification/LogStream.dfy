/** Integers as text: the digit loop of the log stream and what it writes. */
module LogStream {
  import opened FixedBuffers

  const MAX_NUMERIC_SIZE: nat := 48
  const INT64_MIN: int := -0x8000_0000_0000_0000
  const UINT64_MAX: int := 0xFFFF_FFFF_FFFF_FFFF
  const DIGITS: string := "9876543210123456789"

  // ---------- the decimal ----------

  function Digit(d: nat): char
    requires d < 10
  {
    "0123456789"[d]
  }

  /** The digits of a number, the last one first. */
  function Backwards(n: nat): string {
    if n < 10 then [Digit(n)] else [Digit(n % 10)] + Backwards(n / 10)
  }

  function Reversed(s: string): string {
    if s == [] then [] else Reversed(s[1..]) + [s[0]]
  }

  function Abs(n: int): nat {
    if n < 0 then -n else n
  }

  function Decimal(n: int): string {
    (if n < 0 then "-" else "") + Reversed(Backwards(Abs(n)))
  }

  function DigitValue(c: char): int {
    c as int - '0' as int
  }

  function ReadNat(s: string): int {
    if s == [] then 0 else ReadNat(s[..|s| - 1]) * 10 + DigitValue(s[|s| - 1])
  }

  /** Reading a decimal, with an optional sign. */
  function Read(s: string): int {
    if s != [] && s[0] == '-' then -ReadNat(s[1..]) else ReadNat(s)
  }

  lemma DigitReads(d: nat)
    requires d < 10
    ensures DigitValue(Digit(d)) == d && '0' <= Digit(d) <= '9'
    ensures Digit(d) == '0' <==> d == 0
  {
  }

  lemma ReadNatSnoc(s: string, d: nat)
    requires d < 10
    ensures ReadNat(s + [Digit(d)]) == ReadNat(s) * 10 + d
  {
    DigitReads(d);
    assert (s + [Digit(d)])[..|s|] == s;
  }

  lemma {:induction false} BackwardsReads(n: nat)
    ensures ReadNat(Reversed(Backwards(n))) == n
    ensures Reversed(Backwards(n)) != [] && Reversed(Backwards(n))[0] != '-'
    ensures Reversed(Backwards(n))[0] == '0' ==> n == 0
  {
    hide Digit, ReadNat;
    DigitReads(n % 10);
    var s := Backwards(n);
    if n < 10 {
      assert s[1..] == "" && Reversed(s) == "" + [Digit(n)];
      ReadNatSnoc("", n);
      ReadNatEmpty();
    } else {
      BackwardsReads(n / 10);
      var front := Reversed(Backwards(n / 10));
      assert s[1..] == Backwards(n / 10);
      assert Reversed(s) == front + [Digit(n % 10)];
      ReadNatSnoc(front, n % 10);
    }
  }

  lemma ReadNatEmpty()
    ensures ReadNat("") == 0
  {
  }

  /** The text reads back as the number, and it is canonical: no leading zeros, and a
      sign only in front of a negative number. */
  lemma DecimalReads(n: int)
    ensures Read(Decimal(n)) == n
    ensures Decimal(n) != [] && (Decimal(n)[0] == '-' <==> n < 0)
    ensures Decimal(n)[0] == '0' ==> Decimal(n) == "0"
    ensures n < 0 ==> |Decimal(n)| > 1 && Decimal(n)[1] != '0'
  {
    BackwardsReads(Abs(n));
    var s := Reversed(Backwards(Abs(n)));
    if n < 0 {
      assert Decimal(n)[1..] == s;
    } else {
      assert Decimal(n) == s;
    }
  }

  function Pow10(k: nat): nat {
    if k == 0 then 1 else 10 * Pow10(k - 1)
  }

  lemma {:induction false} BackwardsLength(n: nat, k: nat)
    requires n < Pow10(k) && k > 0
    ensures |Backwards(n)| <= k
    decreases k
  {
    if n >= 10 {
      assert k > 1;
      BackwardsLength(n / 10, k - 1);
    }
  }

  lemma {:induction false} ReversedLength(s: string)
    ensures |Reversed(s)| == |s|
  {
    if s != [] {
      ReversedLength(s[1..]);
    }
  }

  lemma Pow10Values()
    ensures Pow10(19) == 10000000000000000000 && Pow10(20) == 100000000000000000000
  {
    assert Pow10(4) == 10000;
    assert Pow10(8) == 100000000;
    assert Pow10(12) == 1000000000000;
    assert Pow10(16) == 10000000000000000;
  }

  /** Twenty characters are enough for every 64-bit number, signed or unsigned. */
  lemma DecimalFits(n: int)
    requires INT64_MIN <= n <= UINT64_MAX
    ensures |Decimal(n)| <= 20
    ensures |Backwards(Abs(n))| + (if n < 0 then 1 else 0) <= 20
  {
    Pow10Values();
    BackwardsLength(Abs(n), if n < 0 then 19 else 20);
    ReversedLength(Backwards(Abs(n)));
  }

  // ---------- the digit loop ----------

  /** Division and remainder as the language defines them, towards zero. */
  function TruncDiv(n: int): int {
    if n < 0 then -(-n / 10) else n / 10
  }

  function TruncMod(n: int): int {
    if n < 0 then -(-n % 10) else n % 10
  }

  /** `zero[r]`, where `zero` points to the middle of the table. */
  function Table(r: int): char
    requires 0 <= 9 + r < |DIGITS|
  {
    DIGITS[9 + r]
  }

  /** The remainder, of either sign, is inside the table. */
  lemma TableDigit(n: int)
    ensures 0 <= 9 + TruncMod(n) < |DIGITS|
    ensures Table(TruncMod(n)) == Digit(Abs(n) % 10)
    ensures Abs(TruncDiv(n)) == Abs(n) / 10
  {
    assert TruncMod(n) == Abs(n) % 10 || TruncMod(n) == -(Abs(n) % 10);
    var d := Abs(n) % 10;
    assert d == 0 || d == 1 || d == 2 || d == 3 || d == 4 || d == 5 || d == 6 || d == 7 || d == 8 || d == 9;
  }

  lemma {:induction false} ReversedAt(s: string, k: nat)
    requires k < |s|
    ensures |Reversed(s)| == |s| && Reversed(s)[k] == s[|s| - 1 - k]
  {
    ReversedLength(s);
    ReversedLength(s[1..]);
    if k < |s| - 1 {
      ReversedAt(s[1..], k);
    }
  }

  /** std::reverse of the characters from `lo` to before `hi` */
  method ReverseRange(a: array<char>, lo: nat, hi: nat)
    requires lo <= hi <= a.Length
    modifies a
    ensures a[lo..hi] == Reversed(old(a[lo..hi]))
    ensures a[..lo] == old(a[..lo])
  {
    hide Reversed;
    ghost var s := a[lo..hi];
    var i, j := lo, hi;
    while i + 1 < j
      invariant lo <= i <= j <= hi && i - lo == hi - j
      invariant forall k :: lo <= k < i ==> a[k] == s[hi - 1 - k]
      invariant forall k :: j <= k < hi ==> a[k] == s[hi - 1 - k]
      invariant forall k :: i <= k < j ==> a[k] == s[k - lo]
      invariant forall k :: 0 <= k < lo ==> a[k] == old(a[k])
    {
      j := j - 1;
      a[i], a[j] := a[j], a[i];
      i := i + 1;
    }
    ReversedLength(s);
    forall k | 0 <= k < |s| ensures a[lo..hi][k] == Reversed(s)[k] {
      ReversedAt(s, k);
    }
  }

  /** The next digit of a number is the first of those still to be written. */
  lemma NextDigit(full: string, i: nat, n: int)
    requires i <= |full| && full[i..] == Backwards(Abs(n))
    ensures 0 <= 9 + TruncMod(n) < |DIGITS|
    ensures i < |full| && full[i] == Table(TruncMod(n))
    ensures if TruncDiv(n) != 0 then full[i + 1..] == Backwards(Abs(TruncDiv(n))) else i + 1 == |full|
  {
    TableDigit(n);
    assert full[i] == full[i..][0] && full[i + 1..] == full[i..][1..];
  }

  /** The do-while loop of `formatInteger`: digits from the last to the first. */
  method WriteDigits(b: FixedBuffer, num: int) returns (cur: nat)
    requires b.Valid() && b.Avail() >= MAX_NUMERIC_SIZE && INT64_MIN <= num <= UINT64_MAX
    modifies b.data
    ensures b.Valid() && b.Used() == old(b.Used())
    ensures b.cur <= cur <= b.data.Length && b.data[b.cur..cur] == Backwards(Abs(num))
  {
    hide Backwards, TruncMod, TruncDiv, Abs, Table;
    var start := b.cur;
    cur := start;
    var n := num;
    var more := true;
    ghost var full := Backwards(Abs(num));
    DecimalFits(num);
    assert full[0..] == full;
    while more
      invariant start <= cur <= start + |full|
      invariant if more then full[cur - start..] == Backwards(Abs(n)) else cur == start + |full|
      invariant forall k :: start <= k < cur ==> b.data[k] == full[k - start]
      invariant forall k :: 0 <= k < start ==> b.data[k] == old(b.data[k])
      decreases more, |full| - (cur - start)
    {
      NextDigit(full, cur - start, n);
      b.data[cur] := Table(TruncMod(n));
      cur := cur + 1;
      n := TruncDiv(n);
      more := n != 0;
    }
  }

  /** The sign, the terminator and the reversal of `formatInteger`. */
  method FinishInteger(b: FixedBuffer, end: nat, negative: bool)
    requires b.Valid() && b.cur <= end && end + 2 <= b.data.Length
    modifies b, b.data
    ensures b.Valid()
    ensures b.Used() == old(b.Used()) + Reversed(old(b.data[b.cur..end]) + if negative then "-" else "")
  {
    var start, cur := b.cur, end;
    ghost var digits := b.data[start..end];
    if negative {
      b.data[cur] := '-';
      cur := cur + 1;
    }
    assert b.data[start..cur] == digits + if negative then "-" else "";
    b.data[cur] := '\0';
    assert b.data[start..cur] == digits + if negative then "-" else "";
    assert b.data[..start] == old(b.data[..start]);
    ReverseRange(b.data, start, cur);
    b.Add(cur - start);
    assert b.data[..cur] == b.data[..start] + b.data[start..cur];
  }

  /** `formatInteger`: the decimal is appended if the buffer has room for any number. */
  method FormatInteger(b: FixedBuffer, num: int)
    requires b.Valid() && INT64_MIN <= num <= UINT64_MAX
    modifies b, b.data
    ensures b.Valid()
    ensures b.Used() == if old(b.Avail()) >= MAX_NUMERIC_SIZE then old(b.Used()) + Decimal(num) else old(b.Used())
  {
    hide Backwards, Reversed;
    if b.Avail() >= MAX_NUMERIC_SIZE {
      DecimalFits(num);
      var end := WriteDigits(b, num);
      assert end - b.cur == |b.data[b.cur..end]|;
      ReversedSigned(Backwards(Abs(num)), num < 0);
      FinishInteger(b, end, num < 0);
    }
  }

  lemma ReversedSigned(digits: string, negative: bool)
    ensures Reversed(digits + if negative then "-" else "") == (if negative then "-" else "") + Reversed(digits)
  {
    if negative {
      ReversedAppend(digits, '-');
    } else {
      assert digits + "" == digits && "" + Reversed(digits) == Reversed(digits);
    }
  }

  lemma {:induction false} ReversedAppend(s: string, c: char)
    ensures Reversed(s + [c]) == [c] + Reversed(s)
  {
    if s == [] {
      assert s + [c] == [c] && Reversed([c][1..]) == [];
    } else {
      assert (s + [c])[1..] == s[1..] + [c];
      ReversedAppend(s[1..], c);
    }
  }
}
