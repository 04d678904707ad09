/** What the incremental request parser computes, on the text it has been given. */
module HttpSpec {
  import opened Buffers

  datatype Method = Invalid | Get | Post | Head | Put | Delete

  datatype Version = Unknown | Http10 | Http11

  datatype Request = Request(verb: Method, version: Version, path: string, query: string,
                             receiveTime: int, headers: map<string, string>)

  datatype ParseState = ExpectRequestLine | ExpectHeaders | ExpectBody | GotAll

  datatype Context = Context(state: ParseState, request: Request)

  /** The outcome of one call: the context, the unread bytes, and the value returned. */
  datatype Parsed = Parsed(context: Context, rest: string, ok: bool)

  const EMPTY_REQUEST := Request(Invalid, Unknown, "", "", 0, map[])
  const FRESH := Context(ExpectRequestLine, EMPTY_REQUEST)

  /** std::find: where `c` first occurs, or the length of the text. */
  function Find(s: string, c: char): (k: nat)
    ensures k <= |s|
  {
    if s == [] || s[0] == c then 0 else 1 + Find(s[1..], c)
  }

  function MethodOf(m: string): Method {
    if m == "GET" then Get
    else if m == "POST" then Post
    else if m == "HEAD" then Head
    else if m == "PUT" then Put
    else if m == "DELETE" then Delete
    else Invalid
  }

  /** `processRequestLine`: a rejected line may already have set some fields. */
  function ProcessRequestLine(r: Request, line: string): (Request, bool) {
    var space := Find(line, ' ');
    if space == |line| then (r, false)
    else
      var r1 := r.(verb := MethodOf(line[..space]));
      if r1.verb == Invalid then (r1, false)
      else ProcessTarget(r1, line[space + 1..])
  }

  function ProcessTarget(r: Request, line: string): (Request, bool) {
    var space := Find(line, ' ');
    if space == |line| then (r, false)
    else
      var target := line[..space];
      var question := Find(target, '?');
      var r1 := if question != |target| then r.(path := target[..question], query := target[question..])
                else r.(path := target);
      ProcessVersion(r1, line[space + 1..])
  }

  function ProcessVersion(r: Request, version: string): (Request, bool) {
    if version == "HTTP/1.1" then (r.(version := Http11), true)
    else if version == "HTTP/1.0" then (r.(version := Http10), true)
    else (r, false)
  }

  /** isspace of the C locale */
  predicate IsSpace(c: char) {
    c == ' ' || '\t' <= c <= '\r'
  }

  function SkipSpaces(s: string): string {
    if s != [] && IsSpace(s[0]) then SkipSpaces(s[1..]) else s
  }

  function DropSpaces(s: string): string {
    if s != [] && IsSpace(s[|s| - 1]) then DropSpaces(s[..|s| - 1]) else s
  }

  function AddHeader(r: Request, line: string): Request
    requires Find(line, ':') < |line|
  {
    var colon := Find(line, ':');
    r.(headers := r.headers[line[..colon] := DropSpaces(SkipSpaces(line[colon + 1..]))])
  }

  /** `parseRequest`, entered in one of the two states it can make progress in. */
  function Parse(c: Context, s: string, time: int, ok: bool): Parsed
    requires c.state == ExpectRequestLine || c.state == ExpectHeaders
    decreases |s|
  {
    var crlf := FindCRLF(s);
    FindCRLFEnds(s);
    if crlf == |s| then Parsed(c, s, ok)
    else if c.state == ExpectRequestLine then
      var (r, accepted) := ProcessRequestLine(c.request, s[..crlf]);
      if accepted then Parse(Context(ExpectHeaders, r.(receiveTime := time)), s[crlf + 2..], time, true)
      else Parsed(c.(request := r), s, false)
    else if Find(s[..crlf], ':') < crlf then
      Parse(c.(request := AddHeader(c.request, s[..crlf])), s[crlf + 2..], time, ok)
    else Parsed(c.(state := GotAll), s[crlf + 2..], ok)
  }
}
