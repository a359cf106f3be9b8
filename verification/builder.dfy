/**
 * `HTTPResponseBuilder` (src/http/index.ts) as an immutable value: each fluent call is a
 * function from builder to builder, and `Build` hands the fields to an `HTTPResponse`.
 */
module Builder {
  import opened Wrappers
  import opened Text
  import opened HeaderTable
  import opened Response

  /**
   * The builder's fields. Status code, reason phrase, version and payload start out
   * undefined (`None`); the header bag starts out as an empty object.
   */
  datatype ResponseBuilder = ResponseBuilder(
    statusCode: Option<nat>,
    reasonPhrase: Option<string>,
    httpVersion: Option<string>,
    payload: Option<string>,
    headers: Headers)

  /** `new HTTPResponseBuilder()`. */
  const NewBuilder: ResponseBuilder := ResponseBuilder(None, None, None, None, [])

  /** The version the presets use when none is given. */
  const DefaultVersion: string := "1.1"

  /** The header names the `header` setter accepts (the keys of `HttpHeaders`). */
  const KnownHeaderNames: set<string> := {
    "Host", "User-Agent", "Accept", "Accept-Language", "Accept-Encoding", "Connection",
    "Cache-Control", "Content-Type", "Content-Encoding", "Date", "Keep-Alive", "Server",
    "Set-Cookie", "Content-Length", "Content-Range"
  }

  /** `statusCode(code)`: stores the code and changes nothing else. */
  function SetStatusCode(b: ResponseBuilder, code: nat): (r: ResponseBuilder)
    ensures r.statusCode == Some(code)
    ensures r.(statusCode := b.statusCode) == b
  {
    b.(statusCode := Some(code))
  }

  /** `reasonPhrase(phrase)`: stores the phrase and changes nothing else. */
  function SetReasonPhrase(b: ResponseBuilder, phrase: string): (r: ResponseBuilder)
    ensures r.reasonPhrase == Some(phrase)
    ensures r.(reasonPhrase := b.reasonPhrase) == b
  {
    b.(reasonPhrase := Some(phrase))
  }

  /** `httpVersion(version)`: stores the version behind the fixed `HTTP/` prefix. */
  function SetHttpVersion(b: ResponseBuilder, version: string): (r: ResponseBuilder)
    ensures r.httpVersion.Some?
    ensures |r.httpVersion.value| == |version| + 5
    ensures r.httpVersion.value[..5] == "HTTP/" && r.httpVersion.value[5..] == version
    ensures r.(httpVersion := b.httpVersion) == b
  {
    b.(httpVersion := Some("HTTP/" + version))
  }

  /** `payload(payload)`: stores the payload and changes nothing else. */
  function SetPayload(b: ResponseBuilder, payload: string): (r: ResponseBuilder)
    ensures r.payload == Some(payload)
    ensures r.(payload := b.payload) == b
  {
    b.(payload := Some(payload))
  }

  /**
   * `header(name, value)`: assigns into the header bag, so the name now maps to the value,
   * every other name keeps its value, an existing header keeps its position, a new one
   * goes last, and no other field changes.
   */
  function SetHeader(b: ResponseBuilder, name: string, value: string): (r: ResponseBuilder)
    requires name in KnownHeaderNames
    ensures Lookup(r.headers, name) == Some(value)
    ensures forall n :: n != name ==> Lookup(r.headers, n) == Lookup(b.headers, n)
    ensures HasName(b.headers, name) ==> Replaced(b.headers, r.headers, name)
    ensures !HasName(b.headers, name) ==> r.headers == b.headers + [(name, value)]
    ensures UniqueNames(b.headers) ==> UniqueNames(r.headers)
    ensures r.(headers := b.headers) == b
  {
    b.(headers := Put(b.headers, name, value))
  }

  /** `forbidden(version)`: status 403 with the source's reason phrase, spelled `Forbiden`. */
  function Forbidden(b: ResponseBuilder, version: string := DefaultVersion): ResponseBuilder
  {
    SetHttpVersion(b.(statusCode := Some(403), reasonPhrase := Some("Forbiden")), version)
  }

  /** `notFound(version)`: status 404, then the two fixed headers. */
  function NotFound(b: ResponseBuilder, version: string := DefaultVersion): ResponseBuilder
  {
    var b1 := SetHttpVersion(b.(statusCode := Some(404), reasonPhrase := Some("Not Found")), version);
    SetHeader(SetHeader(b1, "Content-Type", "text/plain"), "Connection", "close")
  }

  /** `serverError(version)`: status 500, then the same two headers. */
  function ServerError(b: ResponseBuilder, version: string := DefaultVersion): ResponseBuilder
  {
    var b1 := SetHttpVersion(b.(statusCode := Some(500), reasonPhrase := Some("Internal Server Error")), version);
    SetHeader(SetHeader(b1, "Content-Type", "text/plain"), "Connection", "close")
  }

  /** `build()`: the response; a payload never set becomes the constructor's default, "". */
  function Build(b: ResponseBuilder): HttpResponse
  {
    HttpResponse(b.statusCode, b.reasonPhrase, b.httpVersion, Some(b.headers), b.payload.GetOr(""))
  }

  // ---------------------------------------------------------------------------
  // Properties of built responses.

  /**
   * A builder whose status code, reason phrase and version were set, with wire-safe text,
   * serialises to a message that reads back as exactly its fields, headers in order, and
   * the payload or "" if none was set.
   */
  lemma BuiltMessageReadsBack(b: ResponseBuilder)
    requires b.statusCode.Some? && b.reasonPhrase.Some? && b.httpVersion.Some?
    requires ' ' !in b.httpVersion.value && '\r' !in b.httpVersion.value
    requires '\r' !in b.reasonPhrase.value
    requires FieldsDecodable(b.headers)
    ensures DecodeMessage(Message(Build(b))) ==
      Some(HttpResponse(b.statusCode, b.reasonPhrase, b.httpVersion, Some(b.headers),
                    if b.payload.Some? then b.payload.value else ""))
  {
    MessageRoundTrip(Build(b));
  }

  /**
   * Without a payload the built response's payload is the empty string, so nothing
   * follows the header section and the message ends right at the header terminator.
   */
  lemma UnsetPayloadEndsAtTerminator(b: ResponseBuilder)
    requires b.payload.None?
    ensures Build(b).payload == ""
    ensures Message(Build(b)) == StatusLine(Build(b)) + HeaderSection(Build(b))
    ensures var m := Message(Build(b)); |m| >= 4 && m[|m| - 4..] == CRLF + CRLF
  {
    HeaderBlockTerminated(Build(b));
  }

  /** A version given to the builder appears on the wire as `HTTP/` and the version, first. */
  lemma VersionOnTheWire(b: ResponseBuilder, version: string)
    ensures var m := Message(Build(SetHttpVersion(b, version)));
      |m| > 5 + |version| && m[..5 + |version|] == "HTTP/" + version && m[5 + |version|] == ' '
  {
    var r := Build(SetHttpVersion(b, version));
    var v := "HTTP/" + version;
    var m := Message(r);
    assert m == v + (" " + InterpolateCode(r.statusCode) + " " + Interpolate(r.reasonPhrase) + CRLF + HeaderSection(r) + r.payload);
  }

  /**
   * A builder never configured still builds: each unset field prints as `undefined`,
   * with no headers and no payload.
   */
  lemma UnsetFieldsPrintUndefined()
    ensures Message(Build(NewBuilder)) == "undefined undefined undefined\r\n\r\n"
  {
  }

  /**
   * `forbidden` on any builder: code 403, reason `Forbiden`, the prefixed version, and
   * the header bag and payload left as they were.
   */
  lemma ForbiddenPreset(b: ResponseBuilder, version: string)
    ensures var r := Build(Forbidden(b, version));
      && r.statusCode == Some(403) && r.reasonPhrase == Some("Forbiden")
      && r.httpVersion == Some("HTTP/" + version)
      && r.headers == Some(b.headers) && r.payload == Build(b).payload
  {
  }

  /**
   * `notFound` on any builder: code 404, reason `Not Found`, and the shared preset
   * headers (`PresetHeaders`).
   */
  lemma NotFoundPreset(b: ResponseBuilder, version: string)
    ensures var r := Build(NotFound(b, version));
      && r.statusCode == Some(404) && r.reasonPhrase == Some("Not Found")
      && PresetHeaders(b, r, version)
  {
    PresetHeaderPair(b.headers);
  }

  /**
   * `serverError` on any builder: code 500, reason `Internal Server Error`, and the
   * shared preset headers (`PresetHeaders`).
   */
  lemma ServerErrorPreset(b: ResponseBuilder, version: string)
    ensures var r := Build(ServerError(b, version));
      && r.statusCode == Some(500) && r.reasonPhrase == Some("Internal Server Error")
      && PresetHeaders(b, r, version)
  {
    PresetHeaderPair(b.headers);
  }

  /**
   * What `notFound` and `serverError` share, seen in the built response `r`: the prefixed
   * version, Content-Type `text/plain` and Connection `close` set, every other header
   * unchanged, the two appended in that order when the builder had neither, and the
   * payload left as it was.
   */
  ghost predicate PresetHeaders(b: ResponseBuilder, r: HttpResponse, version: string)
  {
    && r.httpVersion == Some("HTTP/" + version)
    && r.headers == Some(Put(Put(b.headers, "Content-Type", "text/plain"), "Connection", "close"))
    && PairSet(b.headers, r.headers.value)
    && r.payload == Build(b).payload
  }

  /** `h1` is `h` with Content-Type `text/plain` and then Connection `close` assigned. */
  ghost predicate PairSet(h: Headers, h1: Headers)
  {
    && Lookup(h1, "Content-Type") == Some("text/plain")
    && Lookup(h1, "Connection") == Some("close")
    && (forall n :: n != "Content-Type" && n != "Connection" ==> Lookup(h1, n) == Lookup(h, n))
    && (!HasName(h, "Content-Type") && !HasName(h, "Connection") ==>
          h1 == h + [("Content-Type", "text/plain"), ("Connection", "close")])
  }

  /** Assigning the two preset headers into any bag. */
  lemma PresetHeaderPair(h: Headers)
    ensures PairSet(h, Put(Put(h, "Content-Type", "text/plain"), "Connection", "close"))
  {
    PresetPairLookups(h);
    PresetPairAppended(h);
  }

  /** Lookups after assigning the two preset headers. */
  lemma PresetPairLookups(h: Headers)
    ensures var h2 := Put(Put(h, "Content-Type", "text/plain"), "Connection", "close");
      && Lookup(h2, "Content-Type") == Some("text/plain")
      && Lookup(h2, "Connection") == Some("close")
      && forall n :: n != "Content-Type" && n != "Connection" ==> Lookup(h2, n) == Lookup(h, n)
  {
    assert |"Content-Type"| != |"Connection"|;
  }

  /** Into a bag with neither name, the two preset headers are appended in order. */
  lemma PresetPairAppended(h: Headers)
    ensures !HasName(h, "Content-Type") && !HasName(h, "Connection") ==>
      Put(Put(h, "Content-Type", "text/plain"), "Connection", "close") ==
        h + [("Content-Type", "text/plain"), ("Connection", "close")]
  {
    if !HasName(h, "Content-Type") && !HasName(h, "Connection") {
      assert |"Content-Type"| != |"Connection"|;
      PutTwoNew(h, "Content-Type", "text/plain", "Connection", "close");
    }
  }

  /** Two assignments of distinct names that a bag lacks append them in order. */
  lemma PutTwoNew(h: Headers, n1: string, v1: string, n2: string, v2: string)
    requires n1 != n2 && !HasName(h, n1) && !HasName(h, n2)
    ensures Put(Put(h, n1, v1), n2, v2) == h + [(n1, v1), (n2, v2)]
  {
    var h1 := Put(h, n1, v1);
    assert h1 == h + [(n1, v1)];
    assert !HasName(h1, n2) by {
      assert Lookup(h1, n2) == Lookup(h, n2);
    }
    assert Put(h1, n2, v2) == h1 + [(n2, v2)];
    AppendTwo(h, (n1, v1), (n2, v2));
  }

  /** The wire form of `forbidden` on a fresh builder. */
  lemma ForbiddenMessage(version: string)
    ensures Message(Build(Forbidden(NewBuilder, version))) == "HTTP/" + version + " 403 Forbiden\r\n\r\n"
  {
    ShowPresetCodes();
  }

  /** The wire form of `notFound` on a fresh builder. */
  lemma NotFoundMessage(version: string)
    ensures Message(Build(NotFound(NewBuilder, version))) ==
      "HTTP/" + version + " 404 Not Found\r\n" + PresetFieldLines + CRLF
  {
    var b := FreshPreset(404, "Not Found", version);
    NotFoundStatusTail();
    PresetPairFieldLines();
    PresetMessage(b, "HTTP/" + version, " 404 Not Found\r\n");
  }

  /** The wire form of `serverError` on a fresh builder. */
  lemma ServerErrorMessage(version: string)
    ensures Message(Build(ServerError(NewBuilder, version))) ==
      "HTTP/" + version + " 500 Internal Server Error\r\n" + PresetFieldLines + CRLF
  {
    var b := FreshPreset(500, "Internal Server Error", version);
    ServerErrorStatusTail();
    PresetPairFieldLines();
    PresetMessage(b, "HTTP/" + version, " 500 Internal Server Error\r\n");
  }

  /** What follows the version on the status line of `notFound`. */
  lemma NotFoundStatusTail()
    ensures " " + ShowNat(404) + " " + "Not Found" + CRLF == " 404 Not Found\r\n"
  {
    ShowPresetCodes();
  }

  /** What follows the version on the status line of `serverError`. */
  lemma ServerErrorStatusTail()
    ensures " " + ShowNat(500) + " " + "Internal Server Error" + CRLF == " 500 Internal Server Error\r\n"
  {
    ShowPresetCodes();
  }

  /** The decimal renderings of the preset status codes. */
  lemma ShowPresetCodes()
    ensures ShowNat(403) == "403" && ShowNat(404) == "404" && ShowNat(500) == "500"
  {
  }

  /** `notFound` or `serverError` on a fresh builder: the code, reason, version and two headers. */
  lemma FreshPreset(code: nat, reason: string, version: string) returns (b: ResponseBuilder)
    requires (code, reason) in {(404, "Not Found"), (500, "Internal Server Error")}
    ensures b == ResponseBuilder(Some(code), Some(reason), Some("HTTP/" + version), None, PresetPairFresh)
    ensures b == if code == 404 then NotFound(NewBuilder, version) else ServerError(NewBuilder, version)
  {
    PresetPairOfFresh();
    b := if code == 404 then NotFound(NewBuilder, version) else ServerError(NewBuilder, version);
  }

  /** The message of a built builder with the two preset headers and no payload. */
  lemma PresetMessage(b: ResponseBuilder, version: string, rest: string)
    requires b.statusCode.Some? && b.reasonPhrase.Some? && b.httpVersion == Some(version)
    requires " " + ShowNat(b.statusCode.value) + " " + b.reasonPhrase.value + CRLF == rest
    requires b.payload == None && b.headers == PresetPairFresh
    requires FieldLines(PresetPairFresh) == PresetFieldLines
    ensures Message(Build(b)) == version + rest + PresetFieldLines + CRLF
  {
    assert StatusLine(Build(b)) == version + rest;
  }

  /** The two preset headers, as assigned into an empty bag. */
  const PresetPairFresh: Headers := [("Content-Type", "text/plain"), ("Connection", "close")]

  /** The field lines of the two preset headers. */
  const PresetFieldLines: string := "Content-Type:text/plain\r\nConnection:close\r\n"

  /** The two preset headers assigned into an empty bag. */
  lemma PresetPairOfFresh()
    ensures Put(Put([], "Content-Type", "text/plain"), "Connection", "close") == PresetPairFresh
  {
    ContentTypeIntoEmpty();
    ConnectionAfterContentType([("Content-Type", "text/plain")]);
  }

  /** Content-Type into an empty bag is its only entry. */
  lemma ContentTypeIntoEmpty()
    ensures Put([], "Content-Type", "text/plain") == [("Content-Type", "text/plain")]
  {
    assert !HasName([], "Content-Type");
  }

  /** Connection into a bag holding only Content-Type goes after it. */
  lemma ConnectionAfterContentType(h: Headers)
    requires h == [("Content-Type", "text/plain")]
    ensures Put(h, "Connection", "close") == PresetPairFresh
  {
    assert |"Content-Type"| != |"Connection"|;
    assert !HasName(h, "Connection");
    assert h + [("Connection", "close")] == PresetPairFresh;
  }

  /** The field lines of the two preset headers, in order. */
  lemma PresetPairFieldLines()
    ensures FieldLines(PresetPairFresh) == PresetFieldLines
  {
    var h := PresetPairFresh;
    assert FieldLines(h) == FieldLine(h[0]) + FieldLine(h[1]) by {
      assert h[..1] == [h[0]] && h[..1][..0] == [];
    }
    assert FieldLine(h[0]) + FieldLine(h[1]) == PresetFieldLines;
  }
}
