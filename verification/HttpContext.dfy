/** The request parser as it runs: a request filled in by setters, a state, and a
 *  loop that takes one line after the other from the input buffer.
 */
module HttpContext {
  import opened Buffers
  import opened HttpSpec

  class HttpRequest {
    var verb: Method
    var version: Version
    var path: string
    var query: string
    var receiveTime: int
    var headers: map<string, string>

    ghost function View(): Request
      reads this
    {
      Request(verb, version, path, query, receiveTime, headers)
    }

    constructor ()
      ensures View() == EMPTY_REQUEST
    {
      verb, version, path, query, receiveTime, headers := Invalid, Unknown, "", "", 0, map[];
    }

    method SetMethod(m: string) returns (ok: bool)
      modifies this
      ensures View() == old(View()).(verb := MethodOf(m)) && ok == (MethodOf(m) != Invalid)
    {
      if m == "GET" {
        verb := Get;
      } else if m == "POST" {
        verb := Post;
      } else if m == "HEAD" {
        verb := Head;
      } else if m == "PUT" {
        verb := Put;
      } else if m == "DELETE" {
        verb := Delete;
      } else {
        verb := Invalid;
      }
      return verb != Invalid;
    }

    /** `addHeader`; `colon` is the offset of the first colon of the line. */
    method AddHeader(line: string, colon: nat)
      requires colon == Find(line, ':') < |line|
      modifies this
      ensures View() == HttpSpec.AddHeader(old(View()), line)
    {
      var field := line[..colon];
      var start := colon + 1;
      while start < |line| && IsSpace(line[start])
        invariant colon < start <= |line|
        invariant SkipSpaces(line[start..]) == SkipSpaces(line[colon + 1..])
      {
        assert line[start..][1..] == line[start + 1..];
        start := start + 1;
      }
      var value := line[start..];
      while value != [] && IsSpace(value[|value| - 1])
        invariant DropSpaces(value) == DropSpaces(line[start..])
        decreases |value|
      {
        value := value[..|value| - 1];
      }
      headers := headers[field := value];
    }
  }

  class HttpContext {
    var state: ParseState
    const request: HttpRequest

    ghost function View(): Context
      reads this, request
    {
      Context(state, request.View())
    }

    constructor ()
      ensures View() == FRESH && fresh(request)
    {
      state := ExpectRequestLine;
      request := new HttpRequest();
    }

    /** `reset`: the context is as good as new. */
    method Reset()
      modifies this, request
      ensures View() == FRESH
    {
      state := ExpectRequestLine;
      request.verb, request.version := Invalid, Unknown;
      request.path, request.query := "", "";
      request.receiveTime, request.headers := 0, map[];
    }

    method ProcessRequestLine(line: string) returns (succeed: bool)
      modifies request
      ensures (request.View(), succeed) == HttpSpec.ProcessRequestLine(old(request.View()), line)
    {
      hide MethodOf, HttpSpec.ProcessTarget;
      var space := Find(line, ' ');
      if space == |line| {
        return false;
      }
      var known := request.SetMethod(line[..space]);
      if !known {
        return false;
      }
      succeed := ProcessTarget(line[space + 1..]);
    }

    /** The part of it behind the method: the path, and the query with its question mark. */
    method ProcessTarget(line: string) returns (succeed: bool)
      modifies request
      ensures (request.View(), succeed) == HttpSpec.ProcessTarget(old(request.View()), line)
    {
      hide HttpSpec.ProcessVersion, Find;
      var space := Find(line, ' ');
      if space == |line| {
        return false;
      }
      var target := line[..space];
      var question := Find(target, '?');
      if question != |target| {
        request.path := target[..question];
        request.query := target[question..];
      } else {
        request.path := target;
      }
      succeed := ProcessVersion(line[space + 1..]);
    }

    /** The part behind the target. */
    method ProcessVersion(version: string) returns (succeed: bool)
      modifies request`version
      ensures (request.View(), succeed) == HttpSpec.ProcessVersion(old(request.View()), version)
    {
      succeed := |version| == 8 && version[..7] == "HTTP/1.";
      assert succeed ==> version == "HTTP/1." + [version[7]];
      if succeed {
        if version[7] == '1' {
          request.version := Http11;
        } else if version[7] == '0' {
          request.version := Http10;
        } else {
          succeed := false;
        }
      }
    }

    /** A round of the loop that has found the request line to end at `crlf`. */
    method TakeRequestLine(buf: Buffer, crlf: nat, receiveTime: int) returns (ok: bool)
      requires buf.Valid() && crlf + 2 <= |buf.Contents()| && state == ExpectRequestLine
      modifies this, request, buf`readerIndex, buf`writerIndex
      ensures buf.Valid()
      ensures var (r, accepted) := HttpSpec.ProcessRequestLine(old(request.View()), old(buf.Contents())[..crlf]);
        ok == accepted &&
        if ok then View() == Context(ExpectHeaders, r.(receiveTime := receiveTime)) && buf.Contents() == old(buf.Contents())[crlf + 2..]
        else View() == Context(ExpectRequestLine, r) && buf.Contents() == old(buf.Contents())
    {
      hide HttpSpec.ProcessRequestLine;
      ok := ProcessRequestLine(buf.Contents()[..crlf]);
      if ok {
        request.receiveTime := receiveTime;
        buf.Retrieve(crlf + 2);
        state := ExpectHeaders;
      }
    }

    /** A round that has found a line of the headers to end at `crlf`. */
    method TakeHeader(buf: Buffer, crlf: nat) returns (hasMore: bool)
      requires buf.Valid() && crlf + 2 <= |buf.Contents()| && state == ExpectHeaders
      modifies this, request, buf`readerIndex, buf`writerIndex
      ensures buf.Valid() && buf.Contents() == old(buf.Contents())[crlf + 2..]
      ensures var line := old(buf.Contents())[..crlf];
        hasMore == (Find(line, ':') < crlf) &&
        View() == if hasMore then Context(ExpectHeaders, HttpSpec.AddHeader(old(request.View()), line))
                  else Context(GotAll, old(request.View()))
    {
      hide Find, HttpSpec.AddHeader;
      ghost var s := buf.Contents();
      var line := buf.Contents()[..crlf];
      var colon := Find(line, ':');
      if colon != |line| {
        request.AddHeader(line, colon);
        hasMore := true;
      } else {
        state := GotAll;
        hasMore := false;
      }
      buf.Retrieve(crlf + 2);
      assert buf.Contents() == s[crlf + 2..];
    }

    /** One call of `parseRequest` parses all that has arrived. */
    method ParseRequest(buf: Buffer, receiveTime: int) returns (ok: bool)
      requires buf.Valid() && (state == ExpectRequestLine || state == ExpectHeaders)
      modifies this, request, buf`readerIndex, buf`writerIndex
      ensures buf.Valid()
      ensures Parsed(View(), buf.Contents(), ok) == Parse(old(View()), old(buf.Contents()), receiveTime, false)
    {
      hide FindCRLF, Find, HttpSpec.AddHeader, HttpSpec.ProcessRequestLine;
      ok := false;
      var hasMore := true;
      while hasMore
        invariant buf.Valid()
        invariant hasMore ==> state == ExpectRequestLine || state == ExpectHeaders
        invariant Parse(old(View()), old(buf.Contents()), receiveTime, false)
               == if hasMore then Parse(View(), buf.Contents(), receiveTime, ok) else Parsed(View(), buf.Contents(), ok)
        decreases hasMore, |buf.Contents()|
      {
        var found, crlf := buf.FindLine();
        if !found {
          hasMore := false;
        } else if state == ExpectRequestLine {
          ok := TakeRequestLine(buf, crlf, receiveTime);
          hasMore := ok;
        } else {
          hasMore := TakeHeader(buf, crlf);
        }
      }
    }
  }
}
