/** Fragmentation independence of the parser and the printing of requests. */
module HttpProofs {
  import opened Buffers
  import opened HttpSpec

  predicate Parsing(c: Context) {
    c.state == ExpectRequestLine || c.state == ExpectHeaders
  }

  /** Equal but for the time of arrival. */
  predicate Same(c: Context, d: Context) {
    c.state == d.state && c.request.(receiveTime := 0) == d.request.(receiveTime := 0)
  }

  predicate SameParse(p: Parsed, q: Parsed) {
    Same(p.context, q.context) && p.rest == q.rest
  }

  // ---------- one line ----------

  lemma {:induction false} FindCRLFPrefix(s: string, t: string)
    requires FindCRLF(s) < |s|
    ensures FindCRLF(s + t) == FindCRLF(s)
  {
    FindCRLFEnds(s);
    if |s| >= 2 && !(s[0] == '\r' && s[1] == '\n') {
      FindCRLFPrefix(s[1..], t);
      assert (s + t)[1..] == s[1..] + t;
    }
  }

  /** The line of a longer text, once the shorter one has it. */
  lemma LinePrefix(s: string, t: string)
    requires FindCRLF(s) < |s|
    ensures var k := FindCRLF(s);
      k + 2 <= |s| && FindCRLF(s + t) == k && (s + t)[..k] == s[..k] && (s + t)[k + 2..] == s[k + 2..] + t
  {
    FindCRLFEnds(s);
    FindCRLFPrefix(s, t);
  }

  /** A request line that is read again, after it was rejected, changes nothing more. */
  lemma RejectedTwice(r: Request, line: string)
    requires !ProcessRequestLine(r, line).1
    ensures ProcessRequestLine(ProcessRequestLine(r, line).0, line) == (ProcessRequestLine(r, line).0, false)
  {
  }

  lemma RequestLineSame(r: Request, q: Request, line: string)
    requires r.(receiveTime := 0) == q.(receiveTime := 0)
    ensures ProcessRequestLine(r, line).1 == ProcessRequestLine(q, line).1
    ensures ProcessRequestLine(r, line).0.(receiveTime := 0) == ProcessRequestLine(q, line).0.(receiveTime := 0)
  {
  }

  // ---------- fragmentation ----------

  /** Neither the times nor the value carried along matter to the parse. */
  lemma {:induction false} ParseSame(c: Context, d: Context, s: string, t: int, u: int, ok: bool, ko: bool)
    requires Parsing(c) && Same(c, d)
    ensures SameParse(Parse(c, s, t, ok), Parse(d, s, u, ko))
    decreases |s|
  {
    FindCRLFEnds(s);
    var crlf := FindCRLF(s);
    if crlf < |s| {
      if c.state == ExpectRequestLine {
        RequestLineSame(c.request, d.request, s[..crlf]);
        var (r, a) := ProcessRequestLine(c.request, s[..crlf]);
        var (q, b) := ProcessRequestLine(d.request, s[..crlf]);
        if a {
          ParseSame(Context(ExpectHeaders, r.(receiveTime := t)), Context(ExpectHeaders, q.(receiveTime := u)),
                    s[crlf + 2..], t, u, true, true);
        }
      } else if Find(s[..crlf], ':') < crlf {
        ParseSame(c.(request := AddHeader(c.request, s[..crlf])), d.(request := AddHeader(d.request, s[..crlf])),
                  s[crlf + 2..], t, u, ok, ko);
      }
    }
  }

  /** Bytes that arrive later, parsed now or then. */
  function Resume(p: Parsed, more: string, time: int): Parsed {
    if Parsing(p.context) then Parse(p.context, p.rest + more, time, false)
    else p.(rest := p.rest + more)
  }

  /** Parsing `a`, and then what is left of it with `b` behind, ends where parsing the
      whole text ends: wherever the text is cut, within a line, between CR and LF, or
      after a rejected line.  Once the request is complete, `b` stays unread. */
  lemma {:induction false} Fragmentation(c: Context, a: string, b: string, t: int, u: int, ok: bool)
    requires Parsing(c)
    ensures SameParse(Resume(Parse(c, a, t, ok), b, u), Parse(c, a + b, t, ok))
    ensures Parse(c, a, t, ok).context.state == GotAll ==>
      Parse(c, a + b, t, ok) == Parse(c, a, t, ok).(rest := Parse(c, a, t, ok).rest + b)
    decreases |a|
  {
    hide ProcessRequestLine, AddHeader, FindCRLF;
    FindCRLFEnds(a);
    var crlf := FindCRLF(a);
    if crlf == |a| {
      ParseSame(c, c, a + b, t, u, ok, false);
      ParseNotDone(c, a, t, ok);
    } else {
      LinePrefix(a, b);
      if c.state == ExpectRequestLine {
        var (r, accepted) := ProcessRequestLine(c.request, a[..crlf]);
        if accepted {
          Fragmentation(Context(ExpectHeaders, r.(receiveTime := t)), a[crlf + 2..], b, t, u, true);
        } else {
          RejectedTwice(c.request, a[..crlf]);
        }
      } else if Find(a[..crlf], ':') < crlf {
        Fragmentation(c.(request := AddHeader(c.request, a[..crlf])), a[crlf + 2..], b, t, u, ok);
      }
    }
  }

  lemma ParseNotDone(c: Context, a: string, t: int, ok: bool)
    requires Parsing(c) && FindCRLF(a) == |a|
    ensures Parse(c, a, t, ok) == Parsed(c, a, ok)
  {
  }

  function Concat(pieces: seq<string>): string {
    if pieces == [] then "" else pieces[0] + Concat(pieces[1..])
  }

  /** A request that arrives piece by piece, parsed on every arrival. */
  function Feed(p: Parsed, pieces: seq<string>, times: seq<int>): Parsed
    requires |times| == |pieces|
    decreases |pieces|
  {
    if pieces == [] then p else Feed(Resume(p, pieces[0], times[0]), pieces[1..], times[1..])
  }

  lemma ResumeSame(p: Parsed, q: Parsed, more: string, t: int, u: int)
    requires SameParse(p, q)
    ensures SameParse(Resume(p, more, t), Resume(q, more, u))
  {
    if Parsing(p.context) {
      ParseSame(p.context, q.context, p.rest + more, t, u, false, false);
    }
  }

  lemma SameTrans(p: Parsed, q: Parsed, r: Parsed)
    requires SameParse(p, q) && SameParse(q, r)
    ensures SameParse(p, r)
  {
  }

  lemma {:induction false} FeedFrom(p: Parsed, done: string, pieces: seq<string>, times: seq<int>, t: int)
    requires |times| == |pieces| && SameParse(p, Parse(FRESH, done, t, false))
    ensures SameParse(Feed(p, pieces, times), Parse(FRESH, done + Concat(pieces), t, false))
    decreases |pieces|
  {
    hide Parse, Resume, Same;
    if pieces == [] {
      assert done + Concat(pieces) == done;
    } else {
      var q := Parse(FRESH, done, t, false);
      ResumeSame(p, q, pieces[0], times[0], times[0]);
      Fragmentation(FRESH, done, pieces[0], t, times[0], false);
      SameTrans(Resume(p, pieces[0], times[0]), Resume(q, pieces[0], times[0]), Parse(FRESH, done + pieces[0], t, false));
      FeedFrom(Resume(p, pieces[0], times[0]), done + pieces[0], pieces[1..], times[1..], t);
      assert done + pieces[0] + Concat(pieces[1..]) == done + Concat(pieces);
    }
  }

  /** However a text is cut into pieces, feeding them in turn to a fresh parser gives
      the context and the unread bytes that parsing it at once gives. */
  lemma FeedIsParse(pieces: seq<string>, times: seq<int>, t: int)
    requires |times| == |pieces|
    ensures SameParse(Feed(Parsed(FRESH, "", false), pieces, times), Parse(FRESH, Concat(pieces), t, false))
  {
    FeedFrom(Parsed(FRESH, "", false), "", pieces, times, t);
    assert "" + Concat(pieces) == Concat(pieces);
  }

  // ---------- printing ----------

  /** A header field of RFC 7230, section 3.2, with the optional whitespace around its value. */
  datatype Field = Field(name: string, before: string, value: string, after: string)

  /** A request of RFC 7230, sections 3.1.1 and 3.2; `query` keeps its question mark. */
  datatype Message = Message(verb: Method, path: string, query: string, version: Version, fields: seq<Field>)

  predicate NoneOf(s: string, c: char) {
    c !in s
  }

  predicate Optional(s: string) {
    forall i :: 0 <= i < |s| ==> s[i] == ' ' || s[i] == '\t'
  }

  predicate Trimmed(s: string) {
    s != [] ==> !IsSpace(s[0]) && !IsSpace(s[|s| - 1])
  }

  predicate FieldOk(f: Field) {
    && NoneOf(f.name, ':') && NoneOf(f.name, '\n')
    && Optional(f.before) && Optional(f.after)
    && Trimmed(f.value) && NoneOf(f.value, '\n')
  }

  predicate MessageOk(m: Message) {
    && m.verb != Invalid && m.version != Unknown
    && NoneOf(m.path, ' ') && NoneOf(m.path, '?') && NoneOf(m.path, '\n')
    && NoneOf(m.query, ' ') && NoneOf(m.query, '\n') && (m.query != [] ==> m.query[0] == '?')
    && forall f :: f in m.fields ==> FieldOk(f)
  }

  /** `methodString` */
  function MethodString(m: Method): string {
    match m
    case Get => "GET"
    case Post => "POST"
    case Head => "HEAD"
    case Put => "PUT"
    case Delete => "DELETE"
    case Invalid => "UNKNOWN"
  }

  function VersionString(v: Version): string {
    if v == Http10 then "HTTP/1.0" else "HTTP/1.1"
  }

  function RequestLine(m: Message): string {
    MethodString(m.verb) + " " + (m.path + m.query + " " + VersionString(m.version))
  }

  function FieldLine(f: Field): string {
    f.name + ":" + (f.before + f.value + f.after)
  }

  function PrintFields(fields: seq<Field>): string {
    if fields == [] then "\r\n" else FieldLine(fields[0]) + "\r\n" + PrintFields(fields[1..])
  }

  function Print(m: Message): string {
    RequestLine(m) + "\r\n" + PrintFields(m.fields)
  }

  /** The header table after the fields have been stored one by one. */
  function Stored(headers: map<string, string>, fields: seq<Field>): map<string, string>
    decreases |fields|
  {
    if fields == [] then headers else Stored(headers[fields[0].name := fields[0].value], fields[1..])
  }

  lemma {:induction false} FindAt(s: string, c: char, t: string)
    requires c !in s
    ensures Find(s + [c] + t, c) == |s|
    ensures Find(s, c) == |s|
  {
    if s != [] {
      FindAt(s[1..], c, t);
      assert (s + [c] + t)[1..] == s[1..] + [c] + t;
    }
  }

  lemma {:induction false} LineEnd(line: string, rest: string)
    requires '\n' !in line
    ensures FindCRLF(line + "\r\n" + rest) == |line|
  {
    var s := line + "\r\n" + rest;
    if line != [] {
      LineEnd(line[1..], rest);
      assert s[1..] == line[1..] + "\r\n" + rest;
      assert s[1] != '\n' by {
        if |line| > 1 {
          assert s[1] == line[1];
        } else {
          assert s[1] == '\r';
        }
      }
    }
  }

  lemma NextLine(line: string, rest: string)
    requires '\n' !in line
    ensures var s := line + "\r\n" + rest;
      FindCRLF(s) == |line| && |line| + 2 <= |s| && s[..|line|] == line && s[|line| + 2..] == rest
  {
    LineEnd(line, rest);
  }

  lemma {:induction false} SkipOptional(before: string, s: string)
    requires Optional(before) && (s != [] ==> !IsSpace(s[0]))
    ensures SkipSpaces(before + s) == s
  {
    if before != [] {
      assert (before + s)[1..] == before[1..] + s;
      SkipOptional(before[1..], s);
    } else {
      assert before + s == s;
    }
  }

  lemma {:induction false} DropOptional(s: string, after: string)
    requires Optional(after) && (s != [] ==> !IsSpace(s[|s| - 1]))
    ensures DropSpaces(s + after) == s
  {
    if after != [] {
      assert (s + after)[..|s + after| - 1] == s + after[..|after| - 1];
      DropOptional(s, after[..|after| - 1]);
    } else {
      assert s + after == s;
    }
  }

  lemma TrimField(f: Field)
    requires FieldOk(f)
    ensures DropSpaces(SkipSpaces(f.before + f.value + f.after)) == f.value
  {
    if f.value == [] {
      SkipOptional(f.before + f.after, "");
      assert f.before + f.value + f.after == f.before + f.after + "";
    } else {
      SkipOptional(f.before, f.value + f.after);
      assert f.before + f.value + f.after == f.before + (f.value + f.after);
      DropOptional(f.value, f.after);
    }
  }

  lemma FieldLineParses(r: Request, f: Field)
    requires FieldOk(f)
    ensures '\n' !in FieldLine(f) && Find(FieldLine(f), ':') < |FieldLine(f)|
    ensures AddHeader(r, FieldLine(f)) == r.(headers := r.headers[f.name := f.value])
  {
    var value := f.before + f.value + f.after;
    assert FieldLine(f) == f.name + [':'] + value;
    FindAt(f.name, ':', value);
    TrimField(f);
    assert FieldLine(f)[..|f.name|] == f.name;
    assert FieldLine(f)[|f.name| + 1..] == value;
  }

  lemma TargetParses(r: Request, m: Message)
    requires MessageOk(m) && r.query == ""
    ensures ProcessTarget(r, m.path + m.query + " " + VersionString(m.version))
         == (r.(path := m.path, query := m.query, version := m.version), true)
  {
    var version := VersionString(m.version);
    var target := m.path + m.query;
    var line := target + " " + version;
    assert line == target + [' '] + version;
    FindAt(target, ' ', version);
    assert line[..|target|] == target && line[|target| + 1..] == version;
    if m.query == [] {
      assert target == m.path;
      FindAt(m.path, '?', "");
    } else {
      assert target == m.path + ['?'] + m.query[1..];
      FindAt(m.path, '?', m.query[1..]);
      assert target[..|m.path|] == m.path && target[|m.path|..] == m.query;
    }
  }

  lemma VerbParses(verb: Method)
    requires verb != Invalid
    ensures MethodOf(MethodString(verb)) == verb && ' ' !in MethodString(verb) && '\n' !in MethodString(verb)
  {
  }

  lemma RequestLineParses(r: Request, m: Message)
    requires MessageOk(m) && r.query == ""
    ensures ProcessRequestLine(r, RequestLine(m))
         == (r.(verb := m.verb, path := m.path, query := m.query, version := m.version), true)
  {
    hide MethodOf, MethodString, VersionString, ProcessTarget;
    var verb := MethodString(m.verb);
    var tail := m.path + m.query + " " + VersionString(m.version);
    var line := RequestLine(m);
    VerbParses(m.verb);
    assert line == verb + [' '] + tail;
    FindAt(verb, ' ', tail);
    assert line[..|verb|] == verb && line[|verb| + 1..] == tail;
    TargetParses(r.(verb := m.verb), m);
  }

  lemma RequestLineIsALine(m: Message)
    requires MessageOk(m)
    ensures '\n' !in RequestLine(m)
  {
    VerbParses(m.verb);
  }

  lemma {:induction false} FieldsParse(r: Request, fields: seq<Field>, tail: string, t: int, ok: bool)
    requires forall f :: f in fields ==> FieldOk(f)
    ensures Parse(Context(ExpectHeaders, r), PrintFields(fields) + tail, t, ok)
         == Parsed(Context(GotAll, r.(headers := Stored(r.headers, fields))), tail, ok)
    decreases |fields|
  {
    var s := PrintFields(fields) + tail;
    if fields == [] {
      assert s == "" + "\r\n" + tail;
      NextLine("", tail);
    } else {
      var line := FieldLine(fields[0]);
      FieldLineParses(r, fields[0]);
      assert s == line + "\r\n" + (PrintFields(fields[1..]) + tail);
      NextLine(line, PrintFields(fields[1..]) + tail);
      FieldsParse(r.(headers := r.headers[fields[0].name := fields[0].value]), fields[1..], tail, t, ok);
    }
  }

  /** Printing a well-formed request and parsing it gives the request back, and leaves
      whatever follows it unread. */
  lemma PrintParses(m: Message, tail: string, t: int)
    requires MessageOk(m)
    ensures Parse(FRESH, Print(m) + tail, t, false)
         == Parsed(Context(GotAll, Request(m.verb, m.version, m.path, m.query, t, Stored(map[], m.fields))), tail, true)
  {
    var line := RequestLine(m);
    RequestLineParses(EMPTY_REQUEST, m);
    RequestLineIsALine(m);
    assert Print(m) + tail == line + "\r\n" + (PrintFields(m.fields) + tail);
    NextLine(line, PrintFields(m.fields) + tail);
    FieldsParse(Request(m.verb, m.version, m.path, m.query, t, map[]), m.fields, tail, t, true);
  }

  /** With repeated names the last value wins; other names keep what they had. */
  lemma {:induction false} LastValueWins(headers: map<string, string>, fields: seq<Field>, k: nat)
    requires k < |fields| && forall j :: k < j < |fields| ==> fields[j].name != fields[k].name
    ensures fields[k].name in Stored(headers, fields) && Stored(headers, fields)[fields[k].name] == fields[k].value
    decreases |fields|
  {
    var headers' := headers[fields[0].name := fields[0].value];
    if k == 0 {
      StoredElsewhere(headers', fields[1..], fields[0].name);
    } else {
      LastValueWins(headers', fields[1..], k - 1);
    }
  }

  lemma {:induction false} StoredElsewhere(headers: map<string, string>, fields: seq<Field>, name: string)
    requires forall f :: f in fields ==> f.name != name
    ensures name in Stored(headers, fields) <==> name in headers
    ensures name in headers ==> Stored(headers, fields)[name] == headers[name]
    decreases |fields|
  {
    if fields != [] {
      StoredElsewhere(headers[fields[0].name := fields[0].value], fields[1..], name);
    }
  }

  /** So with distinct names the table holds exactly the fields. */
  lemma DistinctNames(m: Message, tail: string, t: int)
    requires MessageOk(m) && forall j, k :: 0 <= j < k < |m.fields| ==> m.fields[j].name != m.fields[k].name
    ensures var headers := Parse(FRESH, Print(m) + tail, t, false).context.request.headers;
      && (forall k :: 0 <= k < |m.fields| ==>
            m.fields[k].name in headers && headers[m.fields[k].name] == m.fields[k].value)
      && (forall name :: name in headers ==> exists f :: f in m.fields && f.name == name)
  {
    PrintParses(m, tail, t);
    forall k | 0 <= k < |m.fields|
      ensures m.fields[k].name in Stored(map[], m.fields) && Stored(map[], m.fields)[m.fields[k].name] == m.fields[k].value
    {
      LastValueWins(map[], m.fields, k);
    }
    forall name | name in Stored(map[], m.fields) ensures exists f :: f in m.fields && f.name == name {
      if forall f :: f in m.fields ==> f.name != name {
        StoredElsewhere(map[], m.fields, name);
      }
    }
  }

  /** A printed request that arrives in any number of pieces is still parsed back. */
  lemma PrintFeeds(m: Message, tail: string, pieces: seq<string>, times: seq<int>)
    requires MessageOk(m) && |times| == |pieces| && Concat(pieces) == Print(m) + tail
    ensures var p := Feed(Parsed(FRESH, "", false), pieces, times);
      && p.context.state == GotAll && p.rest == tail
      && p.context.request.(receiveTime := 0)
         == Request(m.verb, m.version, m.path, m.query, 0, Stored(map[], m.fields))
  {
    FeedIsParse(pieces, times, 0);
    PrintParses(m, tail, 0);
  }

  /** A parse that completes a request has consumed something. */
  lemma {:induction false} ParseConsumes(c: Context, s: string, t: int, ok: bool)
    requires Parsing(c)
    ensures Parse(c, s, t, ok).context.state == GotAll ==> |Parse(c, s, t, ok).rest| < |s|
    decreases |s|
  {
    FindCRLFEnds(s);
    var crlf := FindCRLF(s);
    if crlf < |s| {
      if c.state == ExpectRequestLine {
        var (r, accepted) := ProcessRequestLine(c.request, s[..crlf]);
        if accepted {
          ParseConsumes(Context(ExpectHeaders, r.(receiveTime := t)), s[crlf + 2..], t, true);
        }
      } else if Find(s[..crlf], ':') < crlf {
        ParseConsumes(c.(request := AddHeader(c.request, s[..crlf])), s[crlf + 2..], t, ok);
      }
    }
  }

  /** A line ends the headers exactly when it has no colon, whether it is empty or not. */
  lemma ColonlessLineEnds(r: Request, line: string, rest: string, t: int, ok: bool)
    requires '\n' !in line
    ensures Parse(Context(ExpectHeaders, r), line + "\r\n" + rest, t, ok) == Parsed(Context(GotAll, r), rest, ok)
      <==> ':' !in line
  {
    NextLine(line, rest);
    if ':' in line {
      FindIn(line, ':');
      ParseConsumes(Context(ExpectHeaders, AddHeader(r, line)), rest, t, ok);
    } else {
      FindAt(line, ':', "");
    }
  }

  lemma {:induction false} FindIn(s: string, c: char)
    ensures Find(s, c) < |s| <==> c in s
  {
    if s != [] && s[0] != c {
      FindIn(s[1..], c);
    }
  }
}
