/**
 * The request side of the HTTP message layer (src/http/index.ts): the method set,
 * the request value, and `parseRequest`, a naive reading of the request line
 * (section 3 of RFC 9112) and of the field lines (section 5 of RFC 9112).
 */
module RequestParser {
  import opened Wrappers
  import opened Text
  import opened HeaderTable

  /** The methods the server recognises. */
  datatype Method = GET | POST | PUT | PATCH | DELETE | HEAD | CONNECT | TRACE | OPTIONS

  /** The token that names `m` on the request line. */
  function MethodName(m: Method): string
  {
    match m
    case GET => "GET"
    case POST => "POST"
    case PUT => "PUT"
    case PATCH => "PATCH"
    case DELETE => "DELETE"
    case HEAD => "HEAD"
    case CONNECT => "CONNECT"
    case TRACE => "TRACE"
    case OPTIONS => "OPTIONS"
  }

  /** The accepted method tokens, in the order the source lists them. */
  const MethodTokens: seq<string> :=
    ["GET", "POST", "PUT", "PATCH", "DELETE", "HEAD", "CONNECT", "TRACE", "OPTIONS"]

  /** The method a token names, if it names one. */
  function MethodOf(s: string): (r: Option<Method>)
    ensures forall m :: MethodName(m) == s <==> r == Some(m)
  {
    if s == "GET" then Some(GET)
    else if s == "POST" then Some(POST)
    else if s == "PUT" then Some(PUT)
    else if s == "PATCH" then Some(PATCH)
    else if s == "DELETE" then Some(DELETE)
    else if s == "HEAD" then Some(HEAD)
    else if s == "CONNECT" then Some(CONNECT)
    else if s == "TRACE" then Some(TRACE)
    else if s == "OPTIONS" then Some(OPTIONS)
    else None
  }

  /** `isValidMethod`: membership of a token in the method list. */
  function IsValidMethod(s: string): (b: bool)
    ensures b <==> exists m :: MethodName(m) == s
  {
    var r := MethodOf(s);
    assert r.Some? ==> MethodName(r.value) == s;
    s in MethodTokens
  }

  /** No method token contains a space. */
  lemma MethodNameHasNoSpace(m: Method)
    ensures ' ' !in MethodName(m)
    ensures MethodName(m) != ""
  {
  }

  /** A parsed request: its request line and its header table (always present). */
  datatype Request = Request(httpMethod: Method, path: string, httpVersion: string, headers: Headers)

  /** `parseRequest` either returns a request or throws, with no detail and no partial result. */
  datatype ParseResult = Parsed(request: Request) | ParseError

  /**
   * The request line's tokens: an empty first line (falsy in JavaScript) gives no
   * tokens; any other is trimmed and split on single spaces.
   */
  function RequestLineTokens(line: string): seq<string>
  {
    if line == "" then [] else Split(Trim(line), ' ')
  }

  /**
   * What one later line contributes to the header table. A blank or white-space-only
   * line contributes nothing. Otherwise the line is split on every colon: the name is the
   * first piece, untrimmed, and the value is the trimmed second piece, or empty when there
   * is no colon. A line whose first piece is empty (it starts with a colon) contributes nothing.
   */
  function HeaderEntry(line: string): Option<Header>
  {
    if line == "" || Trim(line) == "" then None
    else
      var parts := Split(line, ':');
      if parts[0] == "" then None
      else Some((parts[0], Trim(if |parts| > 1 then parts[1] else "")))
  }

  /** What each later line contributes, line by line. */
  function LineEntries(lines: seq<string>): (es: seq<Option<Header>>)
    ensures |es| == |lines|
    ensures forall i :: 0 <= i < |lines| ==> es[i] == HeaderEntry(lines[i])
  {
    seq(|lines|, i requires 0 <= i < |lines| => HeaderEntry(lines[i]))
  }

  /** The header table built from `lines` in order, each entry assigned into the table. */
  function CollectHeaders(lines: seq<string>): Headers
  {
    AssignAll(LineEntries(lines))
  }

  /**
   * `parseRequest`: split the input on line feeds; the first line must give a valid
   * method and a non-empty path and version; every later line goes through `HeaderEntry`.
   */
  function ParseRequest(data: string): ParseResult
  {
    var lines := Split(data, '\n');
    var tokens := RequestLineTokens(lines[0]);
    if |tokens| >= 3 && tokens[0] != "" && IsValidMethod(tokens[0]) && tokens[1] != "" && tokens[2] != "" then
      Parsed(Request(MethodOf(tokens[0]).value, tokens[1], tokens[2], CollectHeaders(lines[1..])))
    else
      ParseError
  }

  // ---------------------------------------------------------------------------
  // Independent descriptions of the input, stated with concatenation instead of split.

  /** The text before the first line feed. */
  function FirstLine(data: string): string
  {
    data[..IndexOf(data, '\n')]
  }

  /** The lines after the first line feed (none when there is no line feed). */
  function LaterLines(data: string): seq<string>
  {
    var i := IndexOf(data, '\n');
    if i == |data| then [] else Split(data[i + 1..], '\n')
  }

  /**
   * The trimmed request line `t` reads: method `m`, one space, path `p`, one space,
   * version `v`, then either nothing or a space and anything at all.
   */
  predicate RequestLineHas(t: string, m: Method, p: string, v: string, rest: string)
  {
    && t == MethodName(m) + " " + p + " " + v + rest
    && p != "" && v != ""
    && ' ' !in p && ' ' !in v
    && (rest == "" || rest[0] == ' ')
  }

  /** Splitting the input on line feeds gives the first line and then the later lines. */
  lemma {:induction false} LinesOfInput(data: string)
    ensures Split(data, '\n')[0] == FirstLine(data)
    ensures Split(data, '\n')[1..] == LaterLines(data)
  {
    var i := IndexOf(data, '\n');
    var parts := Split(data, '\n');
    if i == |data| {
      assert parts == [data];
      assert data[..i] == data;
    } else {
      var tail := Split(data[i + 1..], '\n');
      assert parts == [data[..i]] + tail;
      assert parts[1..] == tail;
    }
  }

  /** The first three space-separated tokens of a line of the described shape. */
  lemma TokensOfRequestLine(t: string, m: Method, p: string, v: string, rest: string)
    requires RequestLineHas(t, m, p, v, rest)
    ensures |Split(t, ' ')| >= 3
    ensures Split(t, ' ')[0] == MethodName(m)
    ensures Split(t, ' ')[1] == p && Split(t, ' ')[2] == v
  {
    MethodNameHasNoSpace(m);
    ThreeTokens(t, MethodName(m), p, v, rest);
  }

  /** Three space-free pieces joined by single spaces, then nothing or a space and more. */
  lemma ThreeTokens(t: string, a: string, b: string, c: string, rest: string)
    requires t == a + " " + b + " " + c + rest
    requires ' ' !in a && ' ' !in b && ' ' !in c
    requires rest == "" || rest[0] == ' '
    ensures |Split(t, ' ')| >= 3
    ensures Split(t, ' ')[0] == a && Split(t, ' ')[1] == b && Split(t, ' ')[2] == c
  {
    Regroup5(a + " ", b, " ", c, rest);
    SplitCons(a, b + " " + c + rest, ' ');
    Assoc(b + " ", c, rest);
    SplitCons(b, c + rest, ' ');
    SplitFirst(c, rest, ' ');
  }

  /**
   * Every request line of the described shape is accepted, and the request carries
   * exactly its method, path and version; tokens after the third are ignored.
   */
  lemma ParseRequestComplete(data: string, m: Method, p: string, v: string, rest: string)
    requires RequestLineHas(Trim(FirstLine(data)), m, p, v, rest)
    ensures ParseRequest(data) == Parsed(Request(m, p, v, CollectHeaders(LaterLines(data))))
  {
    assert FirstLine(data) != "";
    TokensOfRequestLine(Trim(FirstLine(data)), m, p, v, rest);
    MethodTokenAccepted(m);
    ParseRequestByLines(data);
  }

  /** `parseRequest` in terms of the first line and the later lines. */
  lemma ParseRequestByLines(data: string)
    ensures var tokens := RequestLineTokens(FirstLine(data));
      ParseRequest(data) ==
        if |tokens| >= 3 && tokens[0] != "" && IsValidMethod(tokens[0]) && tokens[1] != "" && tokens[2] != ""
        then Parsed(Request(MethodOf(tokens[0]).value, tokens[1], tokens[2], CollectHeaders(LaterLines(data))))
        else ParseError
  {
    LinesOfInput(data);
  }

  /** The token of a method passes the method checks and names that method. */
  lemma MethodTokenAccepted(m: Method)
    ensures MethodName(m) != "" && IsValidMethod(MethodName(m))
    ensures MethodOf(MethodName(m)) == Some(m)
  {
  }

  /** Every accepted request line has the described shape, read from the request's fields. */
  lemma ParseRequestSound(data: string)
    requires ParseRequest(data).Parsed?
    ensures var r := ParseRequest(data).request;
      && (exists rest :: RequestLineHas(Trim(FirstLine(data)), r.httpMethod, r.path, r.httpVersion, rest))
      && r.headers == CollectHeaders(LaterLines(data))
  {
    LinesOfInput(data);
    var r := ParseRequest(data).request;
    var t := Trim(FirstLine(data));
    assert FirstLine(data) != "";
    var tokens := Split(t, ' ');
    assert RequestLineTokens(Split(data, '\n')[0]) == tokens;
    assert MethodName(r.httpMethod) == tokens[0];
    var rest := ShapeOfTokens(t);
    assert RequestLineHas(t, r.httpMethod, r.path, r.httpVersion, rest);
  }

  /** A line with at least three tokens reads as its first three tokens and a remainder. */
  lemma ShapeOfTokens(t: string) returns (rest: string)
    requires |Split(t, ' ')| >= 3
    ensures var tokens := Split(t, ' ');
      && t == tokens[0] + " " + tokens[1] + " " + tokens[2] + rest
      && (rest == "" || rest[0] == ' ')
  {
    JoinSplit(t, ' ');
    rest := JoinOfThree(Split(t, ' '), ' ');
  }

  /** `parseRequest` succeeds exactly on inputs whose first line has the described shape. */
  lemma ParseSucceedsIff(data: string)
    ensures ParseRequest(data).Parsed? <==>
      exists m, p, v, rest :: RequestLineHas(Trim(FirstLine(data)), m, p, v, rest)
  {
    if ParseRequest(data).Parsed? {
      ParseRequestSound(data);
    }
    if exists m, p, v, rest :: RequestLineHas(Trim(FirstLine(data)), m, p, v, rest) {
      var m, p, v, rest :| RequestLineHas(Trim(FirstLine(data)), m, p, v, rest);
      ParseRequestComplete(data, m, p, v, rest);
    }
  }

  /** Two spaces after the method leave an empty path, and the request is refused. */
  lemma ParseRejectsDoubleSpace(data: string, m: Method, tail: string)
    requires Trim(FirstLine(data)) == MethodName(m) + "  " + tail
    ensures ParseRequest(data) == ParseError
  {
    MethodNameHasNoSpace(m);
    EmptySecondToken(Trim(FirstLine(data)), MethodName(m), tail);
    ParseErrorOnEmptyPath(data);
  }

  /** A space-free first piece followed by two spaces leaves an empty second piece. */
  lemma EmptySecondToken(t: string, a: string, tail: string)
    requires t == a + "  " + tail && ' ' !in a
    ensures |Split(t, ' ')| >= 2 && Split(t, ' ')[1] == ""
  {
    assert t == a + [' '] + ([] + [' '] + tail);
    SplitCons(a, [] + [' '] + tail, ' ');
    SplitCons([], tail, ' ');
  }

  /** A trimmed first line whose second space-separated token is empty is refused. */
  lemma ParseErrorOnEmptyPath(data: string)
    requires var tokens := Split(Trim(FirstLine(data)), ' '); |tokens| >= 2 && tokens[1] == ""
    ensures ParseRequest(data) == ParseError
  {
    LinesOfInput(data);
  }

  // ---------------------------------------------------------------------------
  // Header lines.

  /** The three cases of a header line that do not depend on where its colons are. */
  lemma HeaderEntryCases(line: string)
    ensures AllSpace(line) ==> HeaderEntry(line) == None
    ensures |line| > 0 && line[0] == ':' ==> HeaderEntry(line) == None
    ensures !AllSpace(line) && ':' !in line ==> HeaderEntry(line) == Some((line, ""))
  {
    if |line| > 0 && line[0] == ':' {
      assert line == [] + [':'] + line[1..];
      SplitCons([], line[1..], ':');
    }
    if ':' !in line {
      SplitNone(line, ':');
    }
  }

  /**
   * A line `name:value` or `name:value:anything` yields the untrimmed name and the
   * trimmed text between the first and the second colon; the rest is dropped.
   */
  lemma HeaderEntryWithColon(name: string, value: string, rest: string)
    requires name != "" && ':' !in name && ':' !in value
    requires rest == "" || rest[0] == ':'
    ensures HeaderEntry(name + ":" + value + rest) == Some((name, Trim(value)))
  {
    var line := name + ":" + value + rest;
    assert line == name + [':'] + (value + rest);
    assert line[|name|] == ':';
    TrimKeepsNonSpace(line, |name|);
    SplitCons(name, value + rest, ':');
    SplitFirst(value, rest, ':');
    HeaderEntryOfPieces(line, name, value);
  }

  /** A non-blank line whose first two colon-separated pieces are known. */
  lemma HeaderEntryOfPieces(line: string, name: string, value: string)
    requires Trim(line) != ""
    requires |Split(line, ':')| > 1
    requires Split(line, ':')[0] == name && Split(line, ':')[1] == value
    requires name != ""
    ensures HeaderEntry(line) == Some((name, Trim(value)))
  {
  }

  /** Line `line` yields a header named `name`. */
  predicate NamedIn(line: string, name: string)
  {
    Assigns(HeaderEntry(line), name)
  }

  /** Line `i` is the last of `lines` that yields a header named `name`. */
  predicate LastNamed(lines: seq<string>, i: int, name: string)
  {
    && 0 <= i < |lines|
    && NamedIn(lines[i], name)
    && forall j :: i < j < |lines| ==> !NamedIn(lines[j], name)
  }

  /**
   * The table built from the later lines holds each name once, holds exactly the names
   * some line yields, and maps each to the value of the last line that yields it.
   */
  lemma CollectHeadersSpec(lines: seq<string>)
    ensures UniqueNames(CollectHeaders(lines))
    ensures forall n :: HasName(CollectHeaders(lines), n) <==>
      exists i :: 0 <= i < |lines| && NamedIn(lines[i], n)
    ensures forall i, n :: LastNamed(lines, i, n) ==>
      Lookup(CollectHeaders(lines), n) == Some(HeaderEntry(lines[i]).value.1)
  {
    var es := LineEntries(lines);
    AssignAllUnique(es);
    forall n ensures HasName(CollectHeaders(lines), n) <==>
      exists i :: 0 <= i < |lines| && NamedIn(lines[i], n)
    {
      AssignAllNames(es, n);
      if exists i :: 0 <= i < |es| && Assigns(es[i], n) {
        var i :| 0 <= i < |es| && Assigns(es[i], n);
        assert NamedIn(lines[i], n);
      }
    }
    forall i, n | LastNamed(lines, i, n)
      ensures Lookup(CollectHeaders(lines), n) == Some(HeaderEntry(lines[i]).value.1)
    {
      assert LastAssigns(es, i, n);
      AssignAllLastWins(es, i, n);
    }
  }

  /** Header `x` is yielded by some line before any line yields header `y`. */
  predicate NamedBefore(lines: seq<string>, x: string, y: string)
  {
    exists i :: 0 <= i < |lines| && NamedIn(lines[i], x) &&
      forall j :: 0 <= j <= i ==> !NamedIn(lines[j], y)
  }

  /** The table enumerates the names in the order of their first occurrence in the lines. */
  lemma CollectHeadersOrder(lines: seq<string>)
    ensures var h := CollectHeaders(lines);
      forall a, b :: 0 <= a < b < |h| ==> NamedBefore(lines, h[a].0, h[b].0)
  {
    var es := LineEntries(lines);
    var h := AssignAll(es);
    forall a, b | 0 <= a < b < |h| ensures NamedBefore(lines, h[a].0, h[b].0) {
      AssignAllOrder(es, a, b);
      NamedBeforeOfEntries(lines, es, h[a].0, h[b].0);
    }
  }

  /** An order among the line entries is an order among the lines. */
  lemma NamedBeforeOfEntries(lines: seq<string>, es: seq<Option<Header>>, x: string, y: string)
    requires es == LineEntries(lines)
    requires AssignedBefore(es, x, y)
    ensures NamedBefore(lines, x, y)
  {
    var i :| 0 <= i < |es| && Assigns(es[i], x) && forall j :: 0 <= j <= i ==> !Assigns(es[j], y);
    assert NamedIn(lines[i], x);
    forall j | 0 <= j <= i ensures !NamedIn(lines[j], y) {
      assert es[j] == HeaderEntry(lines[j]);
    }
  }
}
