# HTTP/1.x message layer — a Dafny model

This project models the HTTP/1.x message layer of a small TypeScript web server, found in
`src/http/index.ts`. It has two halves.

- **Request parsing** (`isValidMethod`, `parseRequest`).
  - The input is split on line feeds.
  - The first line is trimmed and split on single spaces.
  - The request must carry one of nine method tokens, a non-empty path and a non-empty version.
    Otherwise parsing fails with no detail.
  - Every later non-blank line is split on colons. When the text before the first colon is
    non-empty, the line is assigned into a header object.
  - This is a naive reading of the request line and field lines of RFC 9112 (sections 3 and 5).
- **Responses** (`HTTPResponse`, `HTTPResponseBuilder`).
  - A response serialises as a status line, one `name:value` CRLF line per header in
    insertion order, an empty line, then the payload (section 4 of RFC 9112).
  - A fluent builder sets the fields, adds headers, offers three presets (403, 404, 500)
    and builds the response.

Everything is a pure function over `string` (`seq<char>`). The files are:

| file | module | what it holds |
|---|---|---|
| `wrappers.dfy` | `Wrappers` | `Option`, standing for JavaScript's `undefined` |
| `text.dfy` | `Text` | JavaScript's string operations: `indexOf`, `split`, `join`, `trim`, and `${n}` for a non-negative integer below 10^21 |
| `header_table.dfy` | `HeaderTable` | the header object as a sequence of (name, value) pairs |
| `request.dfy` | `RequestParser` | `Method`, `Request`, `parseRequest` and its properties |
| `response.dfy` | `Response` | `HTTPResponse` (the datatype `HttpResponse`), its serialisation, and a decoder for the wire form |
| `builder.dfy` | `Builder` | `HTTPResponseBuilder` as an immutable value (the datatype `ResponseBuilder`), the presets and `build` |

Each operation is paired with something independent of it:

- **`parseRequest`** is paired with a description of accepted inputs written with
  concatenation instead of `split`: method, one space, path, one space, version, then
  nothing, or a space and anything after it. It is proved both ways.
- **The header loop** is paired with "the last line naming a header wins". The order of the
  resulting table is proved to follow first occurrence.
- **`Lookup` after the loop** is proved equal to `LastValue`, a reference definition that
  scans the entries backwards for the last one assigning the name.
- **`split`** is paired with `join`, both ways round. **`trim`** is paired with a uniqueness
  lemma. **`${n}`** is paired with reading the digits back.
- **Response serialisation** is paired with a decoder. For responses with every field set
  and wire-safe text, decoding a message is proved to give the response back.

## Model

| member | source | states |
|---|---|---|
| `RequestParser.MethodOf` | src/http/index.ts:2 | A token names method `m` exactly when it is `m`'s name, so the nine listed tokens are the only methods. |
| `RequestParser.IsValidMethod` | src/http/index.ts:26-28 | `isValidMethod` holds exactly when some method's name is the token. |
| `RequestParser.ParseRequest` | src/http/index.ts:30-54 | `parseRequest` itself, with no contract of its own. `ParseSucceedsIff`, `ParseRequestComplete` and `ParseRequestSound` describe it without `split`. |
| `RequestParser.RequestLineTokens` | src/http/index.ts:32-33 | The request line's tokens: none for an empty line, else the trimmed line split on spaces. No contract of its own; `TokensOfRequestLine` describes its result. |
| `RequestParser.HeaderEntry` | src/http/index.ts:38-41 | What one later line contributes to the header object. No contract of its own; `HeaderEntryCases` and `HeaderEntryWithColon` describe every case. |
| `RequestParser.CollectHeaders` | src/http/index.ts:36-44 | The header loop over the later lines. No contract of its own; `CollectHeadersSpec` and `CollectHeadersOrder` describe the table it builds. |
| `RequestParser.LinesOfInput` | src/http/index.ts:31-32 | Splitting the input on `\n` gives the text before the first line feed, then the lines after it. |
| `RequestParser.TokensOfRequestLine` | src/http/index.ts:33 | The first three space-separated tokens of a line shaped `METHOD path version[ ...]` are exactly the method's name, the path and the version. |
| `RequestParser.ParseRequestComplete` | src/http/index.ts:30-52 | Suppose the trimmed first line is a method, one space, a non-empty space-free path, one space, a non-empty space-free version, then nothing or a space and anything. Then the input parses to that method, path and version. The headers are those collected from the later lines. Extra tokens are ignored. |
| `RequestParser.ParseRequestSound` | src/http/index.ts:30-54 | Every successful parse has that shape, with the request's own method, path and version as the tokens. Its headers are those collected from the later lines. |
| `RequestParser.ParseSucceedsIff` | src/http/index.ts:30-54 | Parsing succeeds exactly when the trimmed first line has that shape. Otherwise it is `ParseError`, with no partial result. |
| `RequestParser.ParseRejectsDoubleSpace` | src/http/index.ts:33-35 | A method followed by two spaces leaves an empty path token, and the request is refused. |
| `RequestParser.ParseErrorOnEmptyPath` | src/http/index.ts:33-35 | A trimmed first line whose second token is empty is refused. |
| `RequestParser.HeaderEntryCases` | src/http/index.ts:37-41 | A blank or white-space-only line adds no header. A line starting with `:` adds none. A non-blank line without a colon adds the whole untrimmed line as a name with value `""`. |
| `RequestParser.HeaderEntryWithColon` | src/http/index.ts:39-41 | For `name:value` or `name:value:rest`, the header is the untrimmed name with the trimmed text between the first and second colon. Anything after a second colon is dropped. |
| `RequestParser.CollectHeadersSpec` | src/http/index.ts:36-44 | The collected table holds each name once. It holds exactly the names some later line yields, including lines after the empty line. Each name maps to the value of the last line that yields it. |
| `RequestParser.CollectHeadersOrder` | src/http/index.ts:36-44 | The collected table lists names in the order of their first occurrence among the lines. |
| `HeaderTable.Lookup` | src/http/index.ts:41 | Reading a key of the header object: present exactly when some entry has the name, giving the first such entry's value, or any such entry's value when names are unique. |
| `HeaderTable.AssignAll` | src/http/index.ts:37-42 | Assigning the entries in order into `{}`. No contract of its own; `AssignAllLookup`, `AssignAllNames`, `AssignAllUnique` and `AssignAllOrder` describe it. |
| `HeaderTable.Put` | src/http/index.ts:41 | After assigning, the name maps to the value and every other name keeps its value. Uniqueness of names is kept. An existing name keeps its position with only its value changed. A new name is appended. |
| `HeaderTable.AssignAllLookup` | src/http/index.ts:37-42 | Looking a name up in the table built by the loop gives the reference `LastValue`: the value of the last entry assigning that name. |
| `HeaderTable.AssignAllLastWins` | src/http/index.ts:37-42 | The entry that assigns a name last decides its value. |
| `HeaderTable.AssignAllNames` | src/http/index.ts:37-42 | A name is in the table exactly when some entry assigns it. |
| `HeaderTable.AssignAllUnique` | src/http/index.ts:36-42 | The table built by the loop never holds a name twice. |
| `HeaderTable.AssignAllOrder` | src/http/index.ts:37-42 | If name `x` is listed before name `y`, some entry assigns `x` before any entry assigns `y`. |
| `Text.Split` | src/http/index.ts:31 | `split` gives at least one piece, and no piece contains the separator. |
| `Text.JoinSplit` | src/http/index.ts:31 | Joining the pieces of a split with the separator gives back the original string. |
| `Text.SplitJoin` | src/http/index.ts:39 | Splitting the join of a non-empty list of separator-free pieces gives back those pieces. |
| `Text.Trim` | src/http/index.ts:33 | `trim` neither starts nor ends with white space. It is empty exactly when the input is all white space. |
| `Text.TrimUnique` | src/http/index.ts:38 | Take any cut of a string into white space, a middle that starts and ends with kept characters, and white space. The trimmed string is that middle. |
| `Text.ShowNat` | src/http/index.ts:71 | `${n}` is a non-empty string of decimal digits with no leading zero. This is JavaScript's rendering for integers below 10^21 (see Left out). |
| `Text.ReadShowNat` | src/http/index.ts:71 | Reading the decimal rendering of `n` gives `n` back. |
| `Response.StatusLine` | src/http/index.ts:70-72 | The `statusLine` getter. No contract of its own; `DecodeStatusLineOf` reads it back. |
| `Response.FieldLines` | src/http/index.ts:77 | The `reduce` over the header entries. No contract of its own; `FieldLinesCons` and `DecodeFieldsOf` describe it. |
| `Response.HeaderSection` | src/http/index.ts:74-80 | The `header` getter. No contract of its own; `HeaderBlockTerminated` describes how it ends. |
| `Response.Message` | src/http/index.ts:82-84 | The `message` getter. No contract of its own; `MessageRoundTrip` proves that `DecodeMessage` inverts it. |
| `Response.FieldLinesCons` | src/http/index.ts:77 | The left `reduce` over the headers equals the first header's field line followed by the field lines of the rest. |
| `Response.FieldLinesEndWithCRLF` | src/http/index.ts:77 | A non-empty header list serialises to text ending in CRLF. |
| `Response.DecodeStatusLineOf` | src/http/index.ts:70-72 | A status line of a version without spaces, a decimal code and a reason phrase reads back as those three parts. |
| `Response.DecodeFieldsOf` | src/http/index.ts:74-80 | For decodable headers (no colon or CR in a name, no CR in a value), the field lines followed by the empty line read back as the same headers in the same order, followed by the payload. |
| `Response.MessageRoundTrip` | src/http/index.ts:70-84 | The message of any response with every field set and wire-safe text decodes back to exactly that response. |
| `Response.HeaderBlockTerminated` | src/http/index.ts:74-84 | The message always has CRLF CRLF right before the payload, even with no header bag, and ends with the payload. |
| `Builder.SetStatusCode` | src/http/index.ts:96-99 | `statusCode` stores the code and changes no other field. |
| `Builder.SetReasonPhrase` | src/http/index.ts:101-104 | `reasonPhrase` stores the phrase and changes no other field. |
| `Builder.SetHttpVersion` | src/http/index.ts:106-109 | `httpVersion(v)` stores `HTTP/` followed by `v`, and changes no other field. |
| `Builder.SetPayload` | src/http/index.ts:111-114 | `payload` stores the payload and changes no other field. |
| `Builder.SetHeader` | src/http/index.ts:116-121 | `header` assigns into the header object with the properties of `Put`: an existing header keeps its position. No other field changes. |
| `Builder.Forbidden` | src/http/index.ts:123-128 | `forbidden`. No contract of its own; `ForbiddenPreset` and `ForbiddenMessage` describe it. |
| `Builder.NotFound` | src/http/index.ts:130-137 | `notFound`. No contract of its own; `NotFoundPreset` and `NotFoundMessage` describe it. |
| `Builder.ServerError` | src/http/index.ts:139-146 | `serverError`. No contract of its own; `ServerErrorPreset` and `ServerErrorMessage` describe it. |
| `Builder.Build` | src/http/index.ts:148-150 | `build`. No contract of its own; `BuiltMessageReadsBack` and `UnsetPayloadEndsAtTerminator` describe the response it gives. |
| `Builder.ForbiddenPreset` | src/http/index.ts:123-128 | `forbidden` sets 403 with the literal reason `Forbiden` and the prefixed version. It leaves the headers and payload unchanged. |
| `Builder.NotFoundPreset` | src/http/index.ts:130-137 | `notFound` sets 404 `Not Found` and the prefixed version. It sets Content-Type `text/plain` and Connection `close` and leaves other headers alone. |
| `Builder.ServerErrorPreset` | src/http/index.ts:139-146 | `serverError` sets 500 `Internal Server Error`, with the same version and header effects as `notFound`. |
| `Builder.PresetHeaderPair` | src/http/index.ts:134-135 | Assigning Content-Type then Connection sets both and leaves the other headers alone. Into a bag holding neither, they are appended in that order. |
| `Builder.BuiltMessageReadsBack` | src/http/index.ts:148-150 | Suppose the builder has its code, phrase and version set. Suppose also that its version has no space or CR, its phrase has no CR, and its headers are decodable. Then the built response's message decodes to the builder's code, phrase, version, headers in order, and payload. The payload is `""` when never set. |
| `Builder.UnsetPayloadEndsAtTerminator` | src/http/index.ts:68 | Without a payload, the built response's payload is the constructor default `""`. The message is exactly the status line followed by the header section, so it ends right at the CRLF CRLF header terminator. |
| `Builder.VersionOnTheWire` | src/http/index.ts:106-109 | The message begins with `HTTP/`, the given version, then a space. |
| `Builder.UnsetFieldsPrintUndefined` | src/http/index.ts:88-90 | A builder never configured serialises as `undefined undefined undefined` CRLF CRLF. |
| `Builder.ForbiddenMessage` | src/http/index.ts:123-128 | `forbidden` on a fresh builder serialises as `HTTP/<v> 403 Forbiden` CRLF CRLF. |
| `Builder.NotFoundMessage` | src/http/index.ts:130-137 | `notFound` on a fresh builder serialises as `HTTP/<v> 404 Not Found` CRLF, then `Content-Type:text/plain` CRLF, then `Connection:close` CRLF, then CRLF. |
| `Builder.ServerErrorMessage` | src/http/index.ts:139-146 | `serverError` on a fresh builder serialises the same way with `500 Internal Server Error`. |

Three behaviours of `src/http/index.ts` are easy to misread, and the model keeps them as written:

- Each header line is split on every colon (:39). The value is only the text between the
  first and second colon, so `Host: localhost:8080` gives the value `localhost`.
- A non-blank line with no colon still yields a header: the whole line, untrimmed, with
  value `""` (:39-41).
- The 403 preset's reason phrase is `Forbiden` (:125).

## Left out

- `src/index.ts` is not part of this model. It holds the TCP listener, socket callbacks,
  logging and the 4096-byte check. It never calls the parser, and it is network I/O.
- No request dispatcher, file serving or search for the `\r\n\r\n` terminator appears in
  `src/http/index.ts`, so none is modelled.
- JavaScript object-key quirks are not modelled. Integer-like keys are enumerated before
  others, and `__proto__` is special. Header names are assumed to be ordinary keys,
  enumerated in first-insertion order.
- The builder and a built response share one header object, so later `header` calls show
  through. This aliasing is not modelled: the builder is a value, and `Build` copies the
  headers.
- Strings are sequences of Unicode scalar values, not UTF-16 code units. `trim` uses the
  full ECMAScript white-space and line-terminator set, which lies in the Basic Multilingual
  Plane. Lone surrogates and code-unit lengths are not modelled.
- Text.ShowNat: renders every `nat` in plain decimal. JavaScript does so only below 10^21 and
  prints `1e+21` and larger in exponent form. A JavaScript number also loses integer
  precision above 2^53. Neither is modelled, because status codes are three-digit numbers.
- A status code is a `nat` rendered in decimal. JavaScript numbers that are negative,
  fractional, `NaN` or infinite are not modelled.
- The optional `payload` field of a parsed request is never set by `parseRequest`, so it is
  not modelled.
- `throw Error` becomes the value `ParseError`. The thrown value carries no information.
- `Builder.SetHeader` requires the name to be one of the fifteen keys of `HttpHeaders`, as
  the TypeScript signature demands. The parser's header names are unrestricted.
- The `if(this._headers)` guard in `header` is always taken: the builder's header object
  starts as `{}` and is never reassigned. The builder's headers are therefore not optional.
  The response's header bag stays optional, as its constructor allows.
- Builder.BuiltMessageReadsBack: the read-back is promised only for builders that meet three
  conditions. The code, phrase and version must be set. The version must have no space or CR,
  and the phrase no CR. The headers must be decodable: no colon or CR in a name and no CR in a
  value. The reason is the same as for `Response.MessageRoundTrip` below.
- `Response.MessageRoundTrip` covers only responses whose fields are all set and whose text
  is unambiguous on the wire. Excluded are a space in the version, a carriage return in the
  version, reason phrase, a header name or a header value, and a colon in a header name.
  Other responses serialise the same way but cannot be read back uniquely.
