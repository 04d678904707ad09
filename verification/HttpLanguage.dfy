/** Which texts the request parser accepts, told without the parser. */
module HttpLanguage {
  import opened Common
  import opened Buffers
  import opened HttpSpec
  import opened HttpProofs

  predicate IsVerb(verb: string) {
    verb == "GET" || verb == "POST" || verb == "HEAD" || verb == "PUT" || verb == "DELETE"
  }

  predicate IsVersion(version: string) {
    version == "HTTP/1.0" || version == "HTTP/1.1"
  }

  /** The line is a method, a target and a version with single spaces between. */
  predicate Splits(line: string, verb: string, target: string, version: string) {
    IsVerb(verb) && ' ' !in target && IsVersion(version) && line == verb + " " + (target + " " + version)
  }

  ghost predicate ValidRequestLine(line: string) {
    exists verb, target, version :: Splits(line, verb, target, version)
  }

  /** A text without CRLF, which is one line when a CRLF follows. */
  predicate OneLine(line: string) {
    forall k: nat :: k < |line| ==> !CRLFAt(line, k)
  }

  function Lines(lines: seq<string>): string {
    if lines == [] then "" else lines[0] + "\r\n" + Lines(lines[1..])
  }

  /** A request line, the lines of the headers, the line that ends them, and a rest. */
  datatype Shape = Shape(first: string, headers: seq<string>, last: string, rest: string)

  ghost predicate Accepted(s: string, shape: Shape) {
    && OneLine(shape.first) && ValidRequestLine(shape.first)
    && HeadersOf(shape)
    && s == shape.first + "\r\n" + HeaderText(shape)
  }

  ghost predicate InLanguage(s: string) {
    exists shape :: Accepted(s, shape)
  }

  predicate HeadersOf(shape: Shape) {
    && (forall h :: h in shape.headers ==> OneLine(h) && ':' in h)
    && OneLine(shape.last) && ':' !in shape.last
  }

  function HeaderText(shape: Shape): string {
    Lines(shape.headers) + (shape.last + "\r\n" + shape.rest)
  }

  /** The table after the header lines have been added one by one. */
  function Added(r: Request, headers: seq<string>): Request
    requires forall h :: h in headers ==> ':' in h
    decreases |headers|
  {
    if headers == [] then r else
      FindIn(headers[0], ':');
      Added(AddHeader(r, headers[0]), headers[1..])
  }

  // ---------- request lines ----------

  lemma {:induction false} FindSplits(s: string, c: char)
    ensures c !in s[..Find(s, c)]
    ensures Find(s, c) < |s| ==> s == s[..Find(s, c)] + [c] + s[Find(s, c) + 1..]
  {
    if s != [] && s[0] != c {
      FindSplits(s[1..], c);
    }
  }

  lemma TargetExactly(r: Request, line: string)
    ensures ProcessTarget(r, line).1 <==>
      Find(line, ' ') < |line| && IsVersion(line[Find(line, ' ') + 1..])
  {
    hide Find;
    var space := Find(line, ' ');
    if space < |line| {
      var target, version := line[..space], line[space + 1..];
      var question := Find(target, '?');
      VersionExactly(if question != |target| then r.(path := target[..question], query := target[question..])
                     else r.(path := target), version);
      hide ProcessVersion, IsVersion;
    }
  }

  lemma VersionExactly(r: Request, version: string)
    ensures ProcessVersion(r, version).1 <==> IsVersion(version)
  {
  }

  lemma VerbExactly(verb: string)
    ensures MethodOf(verb) != Invalid <==> IsVerb(verb)
    ensures IsVerb(verb) ==> ' ' !in verb
  {
  }

  lemma LineSplits(r: Request, line: string)
    requires ProcessRequestLine(r, line).1
    ensures ValidRequestLine(line)
  {
    hide ProcessTarget, Find, MethodOf, IsVerb, IsVersion;
    var space := Find(line, ' ');
    FindSplits(line, ' ');
    var verb, tail := line[..space], line[space + 1..];
    VerbExactly(verb);
    TargetExactly(r.(verb := MethodOf(verb)), tail);
    FindSplits(tail, ' ');
    var k := Find(tail, ' ');
    assert tail == tail[..k] + " " + tail[k + 1..];
    assert line == verb + " " + tail;
    assert Splits(line, verb, tail[..k], tail[k + 1..]);
  }

  lemma SplitsAccepted(r: Request, line: string, verb: string, target: string, version: string)
    requires Splits(line, verb, target, version)
    ensures ProcessRequestLine(r, line).1
  {
    hide ProcessTarget, Find, MethodOf, IsVerb, IsVersion;
    var tail := target + " " + version;
    VerbExactly(verb);
    FindAt(verb, ' ', tail);
    assert line == verb + [' '] + tail;
    assert line[..|verb|] == verb && line[|verb| + 1..] == tail;
    FindAt(target, ' ', version);
    assert tail == target + [' '] + version;
    assert tail[|target| + 1..] == version;
    TargetExactly(r.(verb := MethodOf(verb)), tail);
  }

  /** The parser accepts a line as a request line if and only if it is one. */
  lemma RequestLineExactly(r: Request, line: string)
    ensures ProcessRequestLine(r, line).1 <==> ValidRequestLine(line)
  {
    hide ProcessRequestLine, Splits;
    if ProcessRequestLine(r, line).1 {
      LineSplits(r, line);
    }
    if verb, target, version :| Splits(line, verb, target, version) {
      SplitsAccepted(r, line, verb, target, version);
    }
  }

  // ---------- lines ----------

  /** The first CRLF of a text ends its first line, and is found there. */
  lemma LineFound(line: string, rest: string)
    requires OneLine(line)
    ensures var s := line + "\r\n" + rest;
      FindCRLF(s) == |line| && |line| + 2 <= |s| && s[..|line|] == line && s[|line| + 2..] == rest
  {
    var s := line + "\r\n" + rest;
    FindCRLFEnds(s);
    assert CRLFAt(s, |line|);
    forall k: nat | k < |line| ensures !CRLFAt(s, k) {
      assert !CRLFAt(line, k) && s[k] == line[k];
      if k + 1 == |line| {
        assert s[k + 1] == '\r';
      } else {
        assert s[k + 1] == line[k + 1];
      }
    }
  }

  lemma LineCut(s: string)
    requires FindCRLF(s) < |s|
    ensures var k := FindCRLF(s);
      k + 2 <= |s| && OneLine(s[..k]) && s == s[..k] + "\r\n" + s[k + 2..]
  {
    FindCRLFEnds(s);
    var k := FindCRLF(s);
    forall i: nat | i < k ensures !CRLFAt(s[..k], i) {
      assert !CRLFAt(s, i);
    }
  }

  // ---------- whole texts ----------

  lemma {:induction false} HeadersAccepted(r: Request, shape: Shape, t: int, ok: bool)
    requires HeadersOf(shape)
    ensures Parse(Context(ExpectHeaders, r), HeaderText(shape), t, ok)
         == Parsed(Context(GotAll, Added(r, shape.headers)), shape.rest, ok)
    decreases |shape.headers|
  {
    hide AddHeader, FindCRLF;
    if shape.headers == [] {
      assert HeaderText(shape) == shape.last + "\r\n" + shape.rest;
      LineFound(shape.last, shape.rest);
      FindIn(shape.last, ':');
    } else {
      var line := shape.headers[0];
      var more := shape.(headers := shape.headers[1..]);
      assert HeaderText(shape) == line + "\r\n" + HeaderText(more);
      LineFound(line, HeaderText(more));
      FindIn(line, ':');
      HeadersAccepted(AddHeader(r, line), more, t, ok);
    }
  }

  lemma {:induction false} HeadersShape(r: Request, s: string, t: int, ok: bool) returns (shape: Shape)
    requires Parse(Context(ExpectHeaders, r), s, t, ok).context.state == GotAll
    ensures HeadersOf(shape) && s == HeaderText(shape)
    decreases |s|
  {
    hide AddHeader, FindCRLF;
    FindCRLFEnds(s);
    LineCut(s);
    var k := FindCRLF(s);
    var line := s[..k];
    FindIn(line, ':');
    if ':' in line {
      var more := HeadersShape(AddHeader(r, line), s[k + 2..], t, ok);
      shape := more.(headers := [line] + more.headers);
      assert shape.headers[1..] == more.headers;
      assert HeaderText(shape) == line + "\r\n" + HeaderText(more);
    } else {
      shape := Shape("", [], line, s[k + 2..]);
      assert HeaderText(shape) == line + "\r\n" + s[k + 2..];
    }
  }

  /** An accepted text leaves exactly its rest unread, and its header lines in the table. */
  lemma AcceptedParses(s: string, shape: Shape, t: int)
    requires Accepted(s, shape)
    ensures var first := ProcessRequestLine(EMPTY_REQUEST, shape.first);
      first.1 && Parse(FRESH, s, t, false)
              == Parsed(Context(GotAll, Added(first.0.(receiveTime := t), shape.headers)), shape.rest, true)
  {
    hide AddHeader, FindCRLF, ProcessRequestLine;
    RequestLineExactly(EMPTY_REQUEST, shape.first);
    LineFound(shape.first, HeaderText(shape));
    HeadersAccepted(ProcessRequestLine(EMPTY_REQUEST, shape.first).0.(receiveTime := t), shape, t, true);
  }

  /** A text takes a fresh parser to a complete request if and only if it is a valid
      request line, lines with a colon, a line without, and anything behind. */
  lemma LanguageExactly(s: string, t: int)
    ensures Parse(FRESH, s, t, false).context.state == GotAll <==> InLanguage(s)
  {
    if Parse(FRESH, s, t, false).context.state == GotAll {
      var shape := ShapeOf(s, t);
      assert Accepted(s, shape);
    }
    if InLanguage(s) {
      var shape :| Accepted(s, shape);
      AcceptedParses(s, shape, t);
    }
  }

  lemma ShapeOf(s: string, t: int) returns (shape: Shape)
    requires Parse(FRESH, s, t, false).context.state == GotAll
    ensures Accepted(s, shape)
  {
    hide AddHeader, FindCRLF, ProcessRequestLine;
    FindCRLFEnds(s);
    LineCut(s);
    var k := FindCRLF(s);
    var (r, accepted) := ProcessRequestLine(EMPTY_REQUEST, s[..k]);
    RequestLineExactly(EMPTY_REQUEST, s[..k]);
    var more := HeadersShape(r.(receiveTime := t), s[k + 2..], t, true);
    shape := more.(first := s[..k]);
    assert HeaderText(shape) == HeaderText(more);
  }

  /** However such a text arrives, and only then, the parser completes a request. */
  lemma LanguageFeeds(pieces: seq<string>, times: seq<int>)
    requires |times| == |pieces|
    ensures Feed(Parsed(FRESH, "", false), pieces, times).context.state == GotAll
      <==> InLanguage(Concat(pieces))
  {
    hide Parse, Feed, InLanguage;
    var all := Concat(pieces);
    FeedIsParse(pieces, times, 0);
    LanguageExactly(all, 0);
    assert Feed(Parsed(FRESH, "", false), pieces, times).context.state == Parse(FRESH, all, 0, false).context.state;
  }

  // ---------- what is read ----------

  /** The value that a method's name stands for. */
  predicate Names(verb: string, m: Method) {
    || (verb == "GET" && m == Get) || (verb == "POST" && m == Post) || (verb == "HEAD" && m == Head)
    || (verb == "PUT" && m == Put) || (verb == "DELETE" && m == Delete)
  }

  /** The target is the path, and the query with its question mark if it has one. */
  predicate IsTarget(target: string, r: Request, r': Request) {
    if '?' in target then
      '?' !in r'.path && r'.query != [] && r'.query[0] == '?' && target == r'.path + r'.query
    else target == r'.path && r'.query == r.query
  }

  lemma TargetReads(r: Request, target: string, version: string)
    requires ' ' !in target && IsVersion(version)
    ensures var r' := ProcessTarget(r, target + " " + version).0;
      && r' == r.(path := r'.path, query := r'.query, version := if version == "HTTP/1.1" then Http11 else Http10)
      && IsTarget(target, r, r')
  {
    var line := target + " " + version;
    FindAt(target, ' ', version);
    assert line == target + [' '] + version;
    assert line[..|target|] == target && line[|target| + 1..] == version;
    FindIn(target, '?');
    FindSplits(target, '?');
    hide Find;
    var k := Find(target, '?');
    assert k < |target| ==> target == target[..k] + target[k..] && target[k] == '?';
  }

  /** A request line that is accepted sets the method it names, the path and query of its
      target and its version, and nothing else. */
  lemma RequestLineReads(r: Request, verb: string, target: string, version: string)
    requires Splits(verb + " " + (target + " " + version), verb, target, version)
    ensures var r' := ProcessRequestLine(r, verb + " " + (target + " " + version)).0;
      && r' == r.(verb := r'.verb, path := r'.path, query := r'.query,
                  version := if version == "HTTP/1.1" then Http11 else Http10)
      && Names(verb, r'.verb) && IsTarget(target, r, r')
  {
    var tail := target + " " + version;
    var line := verb + " " + tail;
    VerbExactly(verb);
    FindAt(verb, ' ', tail);
    assert line == verb + [' '] + tail;
    assert line[..|verb|] == verb && line[|verb| + 1..] == tail;
    VerbNames(verb);
    hide ProcessTarget, Find, MethodOf;
    TargetReads(r.(verb := MethodOf(verb)), target, version);
  }

  lemma VerbNames(verb: string)
    requires IsVerb(verb)
    ensures Names(verb, MethodOf(verb)) && MethodOf(verb) != Invalid
  {
  }

  /** A blank, a tab, a line feed, a vertical tab, a form feed or a carriage return. */
  predicate Blank(c: char) {
    c as int == 32 || 9 <= c as int <= 13
  }

  predicate Blanks(s: string) {
    forall i :: 0 <= i < |s| ==> Blank(s[i])
  }

  lemma {:induction false} SkipIs(s: string)
    ensures var t := SkipSpaces(s);
      |t| <= |s| && s[|s| - |t|..] == t && Blanks(s[..|s| - |t|]) && (t != [] ==> !Blank(t[0]))
    decreases |s|
  {
    if s != [] && IsSpace(s[0]) {
      SkipIs(s[1..]);
      var t := SkipSpaces(s);
      assert s[..|s| - |t|] == [s[0]] + s[1..][..|s| - 1 - |t|];
    }
  }

  lemma {:induction false} DropIs(s: string)
    ensures var t := DropSpaces(s);
      |t| <= |s| && s[..|t|] == t && Blanks(s[|t|..]) && (t != [] ==> !Blank(t[|t| - 1]))
    decreases |s|
  {
    if s != [] && IsSpace(s[|s| - 1]) {
      var front := s[..|s| - 1];
      DropIs(front);
      var t := DropSpaces(s);
      assert s[|t|..] == front[|t|..] + [s[|s| - 1]];
    }
  }

  /** `value` is the text without the blanks around it. */
  ghost predicate IsTrimmed(text: string, value: string) {
    && (exists before, after :: Blanks(before) && Blanks(after) && text == before + value + after)
    && (value != [] ==> !Blank(value[0]) && !Blank(value[|value| - 1]))
  }

  lemma TrimReads(text: string)
    ensures IsTrimmed(text, DropSpaces(SkipSpaces(text)))
  {
    hide SkipSpaces, DropSpaces, Blank;
    var skipped := SkipSpaces(text);
    var value := DropSpaces(skipped);
    SkipIs(text);
    DropIs(skipped);
    var before, after := text[..|text| - |skipped|], skipped[|value|..];
    assert text == before + value + after;
    assert value != [] ==> value[0] == skipped[0];
  }

  /** A header is stored under what is in front of its first colon, and its value is what
      is behind, without the blanks around it; other headers and fields stay. */
  lemma HeaderReads(r: Request, name: string, text: string)
    requires ':' !in name
    ensures Find(name + ":" + text, ':') < |name + ":" + text|
    ensures var r' := AddHeader(r, name + ":" + text);
      && name in r'.headers && r' == r.(headers := r.headers[name := r'.headers[name]])
      && IsTrimmed(text, r'.headers[name])
  {
    hide IsTrimmed, SkipSpaces, DropSpaces, Find;
    var line := name + ":" + text;
    FindAt(name, ':', text);
    assert line == name + [':'] + text;
    assert line[..|name|] == name && line[|name| + 1..] == text;
    TrimReads(text);
  }

  // ---------- the first call ----------

  /** The first line is complete, and a valid request line. */
  ghost predicate StartsWell(s: string) {
    exists first, rest :: OneLine(first) && ValidRequestLine(first) && s == first + "\r\n" + rest
  }

  /** A first call returns true if and only if it has accepted a request line. */
  lemma FirstCallExactly(s: string, t: int)
    ensures Parse(FRESH, s, t, false).ok <==> StartsWell(s)
  {
    if Parse(FRESH, s, t, false).ok {
      FirstCallAccepts(s, t);
    }
    if StartsWell(s) {
      var first, rest :| OneLine(first) && ValidRequestLine(first) && s == first + "\r\n" + rest;
      FirstCallStarts(s, t, first, rest);
    }
  }

  lemma FirstCallAccepts(s: string, t: int)
    requires Parse(FRESH, s, t, false).ok
    ensures StartsWell(s)
  {
    hide AddHeader, FindCRLF, ProcessRequestLine;
    FindCRLFEnds(s);
    LineCut(s);
    var k := FindCRLF(s);
    RequestLineExactly(EMPTY_REQUEST, s[..k]);
    assert OneLine(s[..k]) && ValidRequestLine(s[..k]) && s == s[..k] + "\r\n" + s[k + 2..];
  }

  lemma FirstCallStarts(s: string, t: int, first: string, rest: string)
    requires OneLine(first) && ValidRequestLine(first) && s == first + "\r\n" + rest
    ensures Parse(FRESH, s, t, false).ok
  {
    hide AddHeader, FindCRLF, ProcessRequestLine;
    LineFound(first, rest);
    RequestLineExactly(EMPTY_REQUEST, first);
    HeadersKeepOk(Context(ExpectHeaders, ProcessRequestLine(EMPTY_REQUEST, first).0.(receiveTime := t)), rest, t);
  }

  lemma {:induction false} HeadersKeepOk(c: Context, s: string, t: int)
    requires c.state == ExpectHeaders
    ensures Parse(c, s, t, true).ok
    decreases |s|
  {
    FindCRLFEnds(s);
    var crlf := FindCRLF(s);
    if crlf < |s| && Find(s[..crlf], ':') < crlf {
      HeadersKeepOk(c.(request := AddHeader(c.request, s[..crlf])), s[crlf + 2..], t);
    }
  }

  /** A first call that is given a whole line which is no request line keeps waiting for
      one, with everything unread, and returns false. */
  lemma FirstCallRejects(line: string, rest: string, t: int)
    requires OneLine(line) && !ValidRequestLine(line)
    ensures var p := Parse(FRESH, line + "\r\n" + rest, t, false);
      !p.ok && p.context.state == ExpectRequestLine && p.rest == line + "\r\n" + rest
  {
    hide AddHeader, FindCRLF, ProcessRequestLine;
    LineFound(line, rest);
    RequestLineExactly(EMPTY_REQUEST, line);
  }
}
