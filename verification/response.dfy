/**
 * The response side of the HTTP message layer (src/http/index.ts): the response value
 * and its serialisation `message`, a status line (section 4 of RFC 9112), one field line
 * per header, an empty line, and the payload. `DecodeMessage` reads a message back and
 * is the inverse the serialiser is checked against.
 */
module Response {
  import opened Wrappers
  import opened Text
  import opened HeaderTable

  const CRLF: string := "\r\n"

  /**
   * An `HTTPResponse`. The builder may hand over a status code, reason phrase or version
   * that was never set; `None` stands for that `undefined`. The header bag is optional,
   * and the payload defaults to the empty string.
   */
  datatype HttpResponse = HttpResponse(
    statusCode: Option<nat>,
    reasonPhrase: Option<string>,
    httpVersion: Option<string>,
    headers: Option<Headers>,
    payload: string)

  /** A string value inside a template literal: `undefined` prints as the word. */
  function Interpolate(s: Option<string>): string
  {
    s.GetOr("undefined")
  }

  /** A status code inside a template literal: its decimal digits, or `undefined`. */
  function InterpolateCode(code: Option<nat>): string
  {
    match code
    case Some(n) => ShowNat(n)
    case None => "undefined"
  }

  /** `statusLine`: version, space, code, space, reason phrase, CRLF. */
  function StatusLine(r: HttpResponse): string
  {
    Interpolate(r.httpVersion) + " " + InterpolateCode(r.statusCode) + " " + Interpolate(r.reasonPhrase) + CRLF
  }

  /** One header as a field line: name, colon, value, CRLF (no space is added). */
  function FieldLine(f: Header): string
  {
    f.0 + ":" + f.1 + CRLF
  }

  /** The `reduce` over the header entries in order, accumulating from the left. */
  function FieldLines(h: Headers): string
  {
    if |h| == 0 then "" else FieldLines(h[..|h| - 1]) + FieldLine(h[|h| - 1])
  }

  /** `header`: the field lines, if there is a header bag, then the empty line. */
  function HeaderSection(r: HttpResponse): string
  {
    (if r.headers.Some? then FieldLines(r.headers.value) else "") + CRLF
  }

  /** `message`: status line, header section, payload. */
  function Message(r: HttpResponse): string
  {
    StatusLine(r) + HeaderSection(r) + r.payload
  }

  // ---------------------------------------------------------------------------
  // Reading a message back.

  /** Splits a status line into version, decimal code and reason phrase. */
  function DecodeStatusLine(line: string): Option<(string, nat, string)>
  {
    var i := IndexOf(line, ' ');
    if i == |line| then None
    else
      var rest := line[i + 1..];
      var j := IndexOf(rest, ' ');
      if j == |rest| then None
      else
        var code := rest[..j];
        if code == "" || exists k :: 0 <= k < |code| && !IsDigit(code[k]) then None
        else Some((line[..i], ReadNat(code), rest[j + 1..]))
  }

  /** Reads field lines up to the empty line; returns them and what follows the empty line. */
  function DecodeFields(s: string): Option<(Headers, string)>
    decreases |s|
  {
    if |s| >= 2 && s[0] == '\r' && s[1] == '\n' then Some(([], s[2..]))
    else
      var i := IndexOf(s, '\r');
      if i + 1 >= |s| || s[i + 1] != '\n' then None
      else
        var line := s[..i];
        var c := IndexOf(line, ':');
        if c == |line| then None
        else
          match DecodeFields(s[i + 2..])
          case None => None
          case Some(more) => Some(([(line[..c], line[c + 1..])] + more.0, more.1))
  }

  /** Reads a whole message: status line, field lines, empty line, payload. */
  function DecodeMessage(s: string): Option<HttpResponse>
  {
    var i := IndexOf(s, '\r');
    if i + 1 >= |s| || s[i + 1] != '\n' then None
    else
      match DecodeStatusLine(s[..i])
      case None => None
      case Some(st) =>
        match DecodeFields(s[i + 2..])
        case None => None
        case Some(fp) => Some(HttpResponse(Some(st.1), Some(st.2), Some(st.0), Some(fp.0), fp.1))
  }

  /**
   * The responses the wire form determines: every field set, a version without spaces,
   * and no carriage return inside a version, reason phrase, header name or header value,
   * nor a colon inside a header name.
   */
  predicate Decodable(r: HttpResponse)
  {
    && r.statusCode.Some? && r.reasonPhrase.Some? && r.httpVersion.Some? && r.headers.Some?
    && ' ' !in r.httpVersion.value && '\r' !in r.httpVersion.value
    && '\r' !in r.reasonPhrase.value
    && FieldsDecodable(r.headers.value)
  }

  /** No header name holds a colon or carriage return, and no value a carriage return. */
  predicate FieldsDecodable(h: Headers)
  {
    forall i :: 0 <= i < |h| ==> ':' !in h[i].0 && '\r' !in h[i].0 && '\r' !in h[i].1
  }

  /** The left fold of the field lines equals emitting the first entry and then the rest. */
  lemma {:induction false} FieldLinesCons(f: Header, h: Headers)
    ensures FieldLines([f] + h) == FieldLine(f) + FieldLines(h)
    decreases |h|
  {
    var fh := [f] + h;
    if |h| > 0 {
      assert fh[..|fh| - 1] == [f] + h[..|h| - 1];
      FieldLinesCons(f, h[..|h| - 1]);
      assert fh[|fh| - 1] == h[|h| - 1];
    } else {
      assert fh[..0] == [];
    }
  }

  /** The field lines followed by the empty line read back as the same headers. */
  lemma {:induction false} DecodeFieldsOf(h: Headers, payload: string)
    requires FieldsDecodable(h)
    ensures DecodeFields(FieldLines(h) + CRLF + payload) == Some((h, payload))
    decreases |h|
  {
    if |h| == 0 {
      assert FieldLines(h) + CRLF + payload == CRLF + payload;
    } else {
      var t := h[1..];
      FieldsDecodableTail(h);
      DecodeFieldsOf(t, payload);
      FieldLinesHead(h);
      Regroup(FieldLine(h[0]), FieldLines(t), CRLF, payload);
      DecodeOneField(h[0], FieldLines(t) + CRLF + payload, t, payload);
      assert [h[0]] + t == h;
    }
  }

  /** The entries after the first of a decodable table are decodable. */
  lemma FieldsDecodableTail(h: Headers)
    requires |h| > 0 && FieldsDecodable(h)
    ensures FieldsDecodable(h[1..])
  {
    var t := h[1..];
    forall i | 0 <= i < |t| ensures ':' !in t[i].0 && '\r' !in t[i].0 && '\r' !in t[i].1 {
      assert t[i] == h[i + 1];
    }
  }

  /** The field lines of a non-empty table: the first entry's line, then the rest. */
  lemma FieldLinesHead(h: Headers)
    requires |h| > 0
    ensures FieldLines(h) == FieldLine(h[0]) + FieldLines(h[1..])
  {
    assert [h[0]] + h[1..] == h;
    FieldLinesCons(h[0], h[1..]);
  }

  /** One field line in front of `after` is read as that header, then `after` is read. */
  lemma DecodeOneField(f: Header, after: string, t: Headers, payload: string)
    requires ':' !in f.0 && '\r' !in f.0 && '\r' !in f.1
    requires DecodeFields(after) == Some((t, payload))
    ensures DecodeFields(FieldLine(f) + after) == Some(([f] + t, payload))
  {
    var line := f.0 + [':'] + f.1;
    var s := line + ['\r'] + (['\n'] + after);
    assert s == FieldLine(f) + after;
    assert '\r' !in line;
    assert line[0] in line;
    CutAtFirst(line, '\r', ['\n'] + after);
    assert s[|line| + 1] == '\n';
    assert s[|line| + 2..] == after;
    CutAtFirst(f.0, ':', f.1);
  }

  /** A status line of a decodable response reads back as its three parts. */
  lemma DecodeStatusLineOf(version: string, code: nat, reason: string)
    requires ' ' !in version
    ensures DecodeStatusLine(version + " " + ShowNat(code) + " " + reason) == Some((version, code, reason))
  {
    var digits := ShowNat(code);
    assert ' ' !in digits;
    var rest := digits + [' '] + reason;
    var line := version + [' '] + rest;
    assert line == version + " " + ShowNat(code) + " " + reason;
    CutAtFirst(version, ' ', rest);
    CutAtFirst(digits, ' ', reason);
    ReadShowNat(code);
  }

  /** No carriage return in a status line whose parts have none. */
  lemma StatusTextHasNoCR(version: string, digits: string, reason: string)
    requires '\r' !in version && '\r' !in reason
    requires forall k :: 0 <= k < |digits| ==> IsDigit(digits[k])
    ensures '\r' !in version + " " + digits + " " + reason
  {
    assert '\r' !in digits;
  }

  /** Decoding the serialisation of a decodable response gives the response back. */
  lemma MessageRoundTrip(r: HttpResponse)
    requires Decodable(r)
    ensures DecodeMessage(Message(r)) == Some(r)
  {
    var version := r.httpVersion.value;
    var reason := r.reasonPhrase.value;
    var code := r.statusCode.value;
    var h := r.headers.value;
    var line := version + " " + ShowNat(code) + " " + reason;
    var after := FieldLines(h) + CRLF + r.payload;
    assert Message(r) == line + CRLF + after;
    StatusTextHasNoCR(version, ShowNat(code), reason);
    DecodeStatusLineOf(version, code, reason);
    DecodeFieldsOf(h, r.payload);
    DecodeMessageOf(line, after);
  }

  /** A message is its first line, CRLF, then the header section and payload to decode. */
  lemma DecodeMessageOf(line: string, after: string)
    requires '\r' !in line
    ensures DecodeMessage(line + CRLF + after) ==
      match DecodeStatusLine(line)
      case None => None
      case Some(st) =>
        match DecodeFields(after)
        case None => None
        case Some(fp) => Some(HttpResponse(Some(st.1), Some(st.2), Some(st.0), Some(fp.0), fp.1))
  {
    var s := line + ['\r'] + (['\n'] + after);
    assert line + CRLF + after == s;
    CutAtFirst(line, '\r', ['\n'] + after);
    assert s[|line| + 1] == '\n';
    assert s[|line| + 2..] == after;
  }

  /** The field lines end with CRLF whenever there is at least one. */
  lemma FieldLinesEndWithCRLF(h: Headers)
    requires |h| > 0
    ensures var s := FieldLines(h); |s| >= 2 && s[|s| - 2..] == CRLF
  {
    var s := FieldLines(h);
    assert s == FieldLines(h[..|h| - 1]) + (h[|h| - 1].0 + ":" + h[|h| - 1].1) + CRLF;
  }

  /**
   * Whatever the headers, the message has the header terminator CRLF CRLF right before
   * the payload, and the payload is the message's tail.
   */
  lemma HeaderBlockTerminated(r: HttpResponse)
    ensures var m := Message(r); var p := |m| - |r.payload|;
      && p >= 4
      && m[p - 4..p] == CRLF + CRLF
      && m[p..] == r.payload
  {
    var m := Message(r);
    var fields := if r.headers.Some? then FieldLines(r.headers.value) else "";
    var before := StatusLine(r) + fields;
    assert m == before + CRLF + r.payload;
    assert |before| >= 2 && before[|before| - 2..] == CRLF by {
      if fields == "" {
        assert before == StatusLine(r);
      } else {
        FieldLinesEndWithCRLF(r.headers.value);
        assert before[|before| - 2..] == fields[|fields| - 2..];
      }
    }
    var p := |m| - |r.payload|;
    assert m[p - 4..p] == before[|before| - 2..] + CRLF;
  }
}
