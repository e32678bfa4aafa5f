# HttpClients request core, modelled in Dafny

A model of the request side of the BeetleX `HttpClients` library, with
proofs. It covers `Request` (src/Request.cs) and the two body formatters
(src/IBodyFormater.cs). A `Request` does three things here:

- It renders itself onto a connection's `PipeStream` as an HTTP/1.1 request.
  That is the request line of section 3 of RFC 9112, the header block, and a
  body framed by `Content-Length` as in section 6.2 of RFC 9112.
- It is dispatched over a pooled connection.
- It classifies the response that comes back, moving its `Status` through
  `None → SendCompleted → Received → Completed`, or to `Error`.

The formatters turn a body object into bytes and response bytes back into an
object. Form-urlencoded joins `key=UrlEncode(value)` pairs with `&`, using
.NET's `WebUtility.UrlEncode` and skipping null values. Unlike the WHATWG URL
Standard's serializer, it writes keys unencoded. The other formatter is JSON.

Modules:

- `Basics` — shared vocabulary:
  - `Option`, `Result` and bytes;
  - `Encoding.ASCII`, which writes `?` for a char outside ASCII;
  - `int.ToString()` and `String.PadRight`;
  - the `int.Parse` rules (white space, a sign, digits, the `Int32` range).
- `Streams` — the write side of `PipeStream` as the request writer uses it:
  - a `PipeStream` class whose `cache` is every byte written so far;
  - text written through the stream's encoding;
  - `Allocate`, which reserves a block, and `Full`, which later fills it in
    place.
- `Formatters` — the formatters:
  - the form-urlencoded loop as a method, proved against a specification
    function and a join of the written pairs;
  - the JSON payload choice, including the unwrapping of a one-entry
    dictionary;
  - `Deserialization`'s branch selection;
  - the content types.

  The URL encoder, the JSON library, `ReadString` and the message `int.Parse`
  throws with are functions the model is given (`Library`).
- `Responses` — the response fields the core touches and the exceptions it
  builds:
  - the timeout response of `OnRequestTimeout`;
  - the classification of a received response (`Classify`), with the calls
    it makes on the buffer and the connection recorded as a list of
    `Effect`s, proved against the response it is meant to leave
    (`Classified`) and the fault it is meant to throw (`ClassifyFault`).
- `Requests` — the `Request` class:
  - its defaults and the effective timeout;
  - `Execute(PipeStream)`: the request line written through an `offset`
    cursor into a byte array, the query loop with its counter, and the
    two-phase `Content-Length` write patched in place after the body;
  - `OnExecute`, split into the exchange with the transport and the
    classification that follows it, with the statuses set recorded in a
    ghost sequence, and its final response proved equal to `Outcome`, a
    function of what the transport did.

The main theorem is `Requests.Request.WireContentLength`. For a POST or PUT
with a body, everything `Execute` writes is the request line and headers,
then 30 bytes of framing, then the body. The 10-byte field inside the framing
is what `int.Parse` reads as exactly the number of bytes that follow it.

The model follows the code in these places:

- **Non-200 bodies.** For a non-200 response the source stores the raw body
  text in `Body` and also embeds it in the exception message. It does not
  leave `Body` empty.
- **A delivered response that already carries an exception.** It is not
  classified, and `Status` stays `Received`. It does not end in `Completed`
  or `Error`.
- **Order of the last steps.** `Status = Completed` is set before the host's
  health counter is updated.
- **`Url`.** The constructor does not set `Url`, which stays null until a
  caller sets it.

The misspelt property name `QuestryString` is kept as the source has it.

## Model

| member | source | states |
|---|---|---|
| Basics.Ascii | src/Request.cs:64-97 | `Encoding.ASCII.GetBytes` writes one byte per char: an ASCII char as its own code, any other char as `?` (used at lines 64, 67, 88, 91 and 97) |
| Basics.AsciiRoundTrip | src/Request.cs:64-101 | ASCII text that `Encoding.ASCII` writes reads back as the same text, char for char |
| Basics.DecimalText | src/Request.cs:115 | `count.ToString()` is a non-empty digit string, without a leading zero unless the count is 0, whose value is the count |
| Basics.DecimalWidth | src/Request.cs:115 | a count below 10^w has at most w digits, so every `Int32` count fits the 10-byte field |
| Basics.PadRight | src/Request.cs:115 | `PadRight(10)` keeps the text as its prefix and fills with spaces up to 10 chars; longer text is left as it is |
| Basics.ParseInt | src/Request.cs:194 | `int.Parse` yields a value in the `Int32` range, or nothing when it would throw |
| Basics.DigitsOfValue | src/Request.cs:194 | reading the digits one by one, as `int.Parse` does, succeeds exactly on a run of decimal digits and yields its value |
| Basics.ParseDigits | src/Request.cs:194 | text that trims to a run of digits within the `Int32` range parses to the value of those digits |
| Basics.ParsePaddedDecimal | src/Request.cs:115 | the decimal text of a count, padded on the right with spaces, parses back to the count |
| Basics.JoinSnoc | src/IBodyFormater.cs:52-54 | joining one more piece adds the separator and the piece, except after no pieces |
| Streams.EncodeAppend | src/IBodyFormater.cs:52-61 | writing two strings one after the other writes the bytes of their concatenation |
| Streams.EncodeAscii | src/Request.cs:115 | under an encoding that writes ASCII chars as themselves, ASCII text is written exactly as `Encoding.ASCII` writes it |
| Streams.PipeStream.Allocate | src/Request.cs:110 | reserves a block of the given size at the current end of the stream |
| Streams.PipeStream.Full | src/Request.cs:115 | fills a reserved block with the encoded text and leaves every byte before and after the block unchanged |
| Formatters.ContentType | src/IBodyFormater.cs:33 | the form formatter announces `application/x-www-form-urlencoded`, and the JSON formatter `application/json` (line 77) |
| Formatters.FormPairsSnoc | src/IBodyFormater.cs:47-64 | one more entry adds nothing when its value is null; otherwise it adds its pair, after `&` only when a pair was already written |
| Formatters.FormPairsIsJoin | src/IBodyFormater.cs:43-65 | the loop's text is exactly the non-null pairs `key=UrlEncode(value)`, in enumeration order, joined by `&`; empty-string values are kept |
| Formatters.WritePair | src/IBodyFormater.cs:50-64 | one loop pass for a non-null value appends `&` unless it is the first pair written, then `key=` and the encoded value |
| Formatters.SerializePairs | src/IBodyFormater.cs:46-65 | the `foreach` with counter `i` appends to the stream exactly the encoding of the form text of the entries: their non-null pairs joined by `&` |
| Formatters.SerializeForm | src/IBodyFormater.cs:39-72 | appends nothing for null, the pairs for a dictionary, and any other object's `ToString()` verbatim |
| Formatters.SerializeJson | src/IBodyFormater.cs:105-128 | appends nothing for null, the serialized value alone for a one-entry dictionary, and the serialized data for anything else |
| Formatters.Serialize | src/Request.cs:113 | the request's formatter appends its body bytes to the stream and nothing else |
| Formatters.JsonUnwrapsSingleEntry | src/IBodyFormater.cs:113-124 | a one-entry dictionary is serialized as its value, never as the dictionary; dictionaries of other sizes and all other data are serialized as they are |
| Formatters.JsonSingleEntrySameAsValue | src/IBodyFormater.cs:115-119 | a one-entry dictionary writes the same bytes as its bare value, unless that value is null or is itself a one-entry dictionary |
| Formatters.NullBodyWritesNothing | src/IBodyFormater.cs:41 | neither formatter writes anything for null data |
| Formatters.Deserialize | src/IBodyFormater.cs:79-103 | JSON parses into a generic token when no type is given and into the type otherwise; form returns the first `length` bytes as raw text |
| Formatters.DeserializeIgnores | src/IBodyFormater.cs:35-38 | the form formatter ignores the requested type and reads only `length` bytes; the JSON formatter ignores `length` |
| Responses.TimeoutResponse | src/Request.cs:143-150 | the timeout response has code "408", which parses to 408, message "Request timeout", and an exception that wraps nothing |
| Responses.FailureResponse | src/Request.cs:222-227 | a caught fault gives a fresh response with no code and no body, whose exception carries the fault's message and wraps it |
| Responses.TimeoutIsNotAFault | src/Request.cs:143-150 | a timeout and a caught fault are told apart by the response alone: by the code, and by whether the exception wraps a fault; the timeout's exception carries no numeric code, unlike a rejection's |
| Responses.RejectionMessage | src/Request.cs:216 | the message of a rejected response is the URL, then the code in parentheses, a space, and the body text in square brackets |
| Responses.Classified | src/Request.cs:194-218 | classification run to its end keeps the status line, length and flags; a body is read (through the formatter for 200, as raw text otherwise) and its buffer dropped; exactly a non-200 code attaches an exception carrying that code and the rejection message, and wrapping nothing |
| Responses.ClassifyFault | src/Request.cs:194-203 | classification throws the parse failure exactly when the code does not parse, and otherwise the decoder's error, which only a 200 response with a body can raise |
| Responses.ReadAndFree | src/Request.cs:197-210 | the body is read for the code; whether or not the read throws, the buffer is freed, disposed when chunked, and dropped from the response; the body is replaced only when the read succeeds |
| Responses.HandlingReleasesOnce | src/Request.cs:196-212 | the body buffer is released at most once, and first of all, whenever a parsable code came with a body, even when decoding fails |
| Responses.Classify | src/Request.cs:192-220 | for a response without exception:<br>• a code that does not parse throws before anything is released;<br>• otherwise a body is released whether or not decoding throws, and a connection that is not kept alive is closed once classification runs to its end;<br>• it throws exactly when the response does not classify, and then throws `ClassifyFault`;<br>• otherwise the response it leaves is exactly `Classified` |
| Requests.QueryBytesSnoc | src/Request.cs:72-93 | one more query pair adds nothing when its value is null or empty; otherwise it adds `?` before the first pair written or `&` before a later one, then the pair |
| Requests.QueryJoinSnoc | src/Request.cs:77-91 | one more written pair keeps the query in joined form: `?` opens it, `&` goes before every later pair |
| Requests.QueryIsJoin | src/Request.cs:68-94 | the query is `?` followed by the written pairs `key=UrlEncode(value)`, in enumeration order, joined by `&`; the keys are not encoded; pairs with a null or empty value leave no trace; with no such pair there is no `?` |
| Requests.QueryBytesPrefix | src/Request.cs:71-93 | what is written for the first pairs begins what is written for all of them, so pairs appear in enumeration order |
| Requests.Put | src/Request.cs:64 | `Encoding.ASCII.GetBytes` into the buffer at `offset` writes the bytes there and moves the cursor past them |
| Requests.PutByte | src/Request.cs:65-66 | a single byte stored at `offset`, with the cursor moved past it |
| Requests.PutQueryPair | src/Request.cs:77-91 | one written pair puts `?` or `&` by the counter, the ASCII key, `=` and the encoded value into the buffer |
| Requests.WriteQuery | src/Request.cs:68-94 | the query loop with counter `i` writes exactly the query bytes into the buffer after the URL |
| Requests.WriteRequestLine | src/Request.cs:62-101 | the buffer holds exactly `METHOD SP URL[?query] SP PROTOCOL CR LF`; the query appears only for a non-null, non-empty dictionary |
| Requests.RequestLineText | src/Request.cs:64-101 | with ASCII method, URL and protocol, the request line reads as the method, a space, the URL, the query, a space, the protocol and CRLF |
| Requests.LengthFieldIsTenBytes | src/Request.cs:115 | the padded count is ASCII and is written as exactly 10 bytes, so it fills the reserved block exactly |
| Requests.ContentSectionLayout | src/Request.cs:109-115 | the body section is 16 bytes of header name, the 10-byte ASCII padded count of body bytes, the 4-byte blank line, then the body |
| Requests.ContentLengthSound | src/Request.cs:109-115 | the body section is the 16-byte header name, a field that `int.Parse` reads as the number of bytes after the 4-byte blank line, that blank line, and the body |
| Requests.FramedAfter | src/Request.cs:102-115 | framing that reads back correctly still does so behind any request line and headers |
| Requests.ContentLengthAfter | src/Request.cs:102-115 | the same holds for the body section written after any request line and headers |
| Requests.WriteContent | src/Request.cs:109-115 | reserves 10 bytes, writes the body through the formatter, measures it, and fills the field with the padded count, leaving the result equal to the body section |
| Requests.Request.Execute | src/Request.cs:60-127 | the stream gains exactly the request line, the headers, and:<br>• for POST/PUT with a body, the body section;<br>• for POST/PUT without a body, the zero Content-Length line and the blank line;<br>• otherwise only the blank line |
| Requests.Request.WireContentLength | src/Request.cs:60-127 | for POST or PUT with a body, the whole request is the request line and headers, then framing whose Content-Length field parses to the exact number of bytes after it, then the body |
| Requests.BodyIgnoredUnlessPostOrPut | src/Request.cs:123-126 | for any method other than POST and PUT, only the blank line follows the headers, whatever the body |
| Requests.ProgressOrder | src/Request.cs:242-249 | in statuses that move forward, `SendCompleted` precedes `Received`, and `Completed` or `Error` can only be the last one set |
| Requests.Thrown | src/Request.cs:158-191 | the exchange throws exactly when the transport neither delivers a response nor returns an error as a value; it throws the pool's, the send's or the blocking receive's fault, and a transport fault only from the blocking client |
| Requests.Outcome | src/Request.cs:152-233 | the response an execution ends with has no exception only for a delivered 200 response that classifies; what the exchange throws ends in a response without a code whose exception carries the fault's message and wraps it |
| Requests.SettledSteps | src/Request.cs:152-239 | the statuses of the exchange followed by those of classification move forward, end in `Received`, `Completed` or `Error`, and contain `SendCompleted` exactly when the send is made |
| Requests.SettledStatus | src/Request.cs:152-239 | after the exchange and classification, the status is `Received` exactly for a delivered response that already carries an exception, which is kept; `Completed` exactly when a delivered response is classified to the end, with an exception for a non-200 code; and otherwise `Error` with a fresh response wrapping the fault; the final response is exactly `Outcome` of what the transport did |
| Requests.Request.constructor | src/Request.cs:30-36 | a new request is a GET over HTTP/1.1 with the JSON formatter, with no query, header, body, timeout or response, and status `None` |
| Requests.Request.EffectiveTimeout | src/Request.cs:135 | the request's own `TimeOut` when it is set, the pool's timeout otherwise |
| Requests.Request.Exchange | src/Request.cs:157-191 | the transport half of the dispatch:<br>• `SendCompleted` is set exactly when a send is made and returns, and the event-driven client does not send when its receive has already completed;<br>• then `Received` is set with the delivered response, or, for an error the receive returns as a value, `Error` with a fresh response;<br>• any other failure is a fault thrown from the pool, the send or the receive, exactly the fault `Thrown` names |
| Requests.Request.Conclude | src/Request.cs:192-227 | a response without exception is classified and ends in `Completed` with exactly the `Classified` response, or in `Error` with a fresh response wrapping `ClassifyFault` when classification throws; a fault thrown earlier ends in `Error` with a fresh response wrapping that fault; a response that already carries an exception is left as it is |
| Requests.Request.OnExecute | src/Request.cs:152-239 | the statuses set strictly move forward and the last one is the status, which is `Completed`, `Received` or `Error`:<br>• `SendCompleted` is set exactly when the send is made;<br>• `Completed` is reached exactly when classification of a delivered response runs to its end, whatever the code;<br>• the calls made are, in order, the send, the classification's release and disconnect, `AddError` exactly when the final response has an exception and otherwise `AddSuccess`, and a pool push exactly when a client was popped;<br>• the request's `Response` is exactly `Outcome` of what the transport did |

## Left out

- The transport is not modelled:
  - socket I/O, `AsyncTcpClient.ReceiveMessage`/`Send`, `TcpClient.SendMessage`/`ReceiveMessage`, and `DisConnect`;
  - the completion source and its timer (`CompletionSourceFactory`, `IAnyCompletionSource`), `async`/`await`, and delivery through `Task.Run`.

  These are foreign code and concurrency. A client is a value that says whether its receive had already completed, whether its send throws, and what its receive yields. The race between the timeout response and the real response, where the first to resolve wins, is therefore not modelled. `Execute()` is modelled only through its timeout choice, and `OnRequestTimeout` only through the response it builds.
- The pool's pop and push policy and the host's health counters are not modelled beyond which of them is called. `AddError`'s socket-error argument is not modelled.
- The `GetConnection` callback is not modelled, because it is user code. The assignments to `Client` and `RequestCommpletionSource` are not modelled either: nothing in the core reads them back.
- `Response.Current` is an ambient global with no logic and is not modelled.
- `HttpClientException`'s request and host fields (`HttpHost.Uri`) are not modelled. The exception is its message, its numeric code and the fault it wraps.
- `Header.Write` is not modelled; the header block is an opaque byte sequence.
- The `HeaderTypeFactory` byte arrays are opaque. Only the prefix lengths the code writes (16, 4 and 2 bytes) are used.
- The internals of `WebUtility.UrlEncode`, the Newtonsoft JSON encoder and parser, `PipeStream.ReadString` and `stream.LockFree()` are not modelled. They are given functions.
- Formatters.Deserialize: form `Deserialization` calls `ReadString` (src/IBodyFormater.cs:37), which is taken never to throw, so on the 200 path only the JSON formatter can fail to decode. `ReadString` on the non-200 path (src/Request.cs:202) is likewise taken never to throw.
- Responses.Classify: requires a delivered response with a positive `Length` to hold a body buffer of at least that many bytes (`BufferHeld`). Requests.Request.OnExecute requires the same of every response the transport may deliver (`HoldsBuffers`). In the source a null or short `Stream` would throw at src/Request.cs:200/202 and again in the `finally` at line 206; the model does not promise what happens then.
- Requests.WriteContent: the formatter's serialization is taken never to throw. `Formatters.Serialize` likewise makes `ToString()` (src/IBodyFormater.cs:54, 61, 69) and the JSON writer (lines 119 and 123) total. In the source an exception there escapes `Execute(PipeStream)` (src/Request.cs:113) and leaves the reserved Content-Length field unfilled.
- An awaited result that is neither an exception nor a `Response` is not modelled.
- The `LoadedState` enum is not modelled, because the core never uses it.
- Only the two formatters of src/IBodyFormater.cs are modelled; `Formater` ranges over them.
- Null `Method`, `Url` or `HttpProtocol` is not modelled. In the source it throws a `NullReferenceException` inside `Execute(PipeStream)`. A null query key cannot occur: `QuestryString` is a `Dictionary<string, string>`, which rejects a null key on insertion.
- Requests.Request.Execute: requires the request line to fit the byte array `HttpParse.GetByteBuffer()` returns. The source does not check this; writing past the end would throw.
- Requests.Request.Execute: requires the stream's encoding to write ASCII chars as single bytes, as UTF-8 does. Under any other encoding the padded count would not fill the 10 reserved bytes exactly.
- Requests.Request.Execute: requires the stream to stay below 2^31 bytes. `CacheLength` and `count` are .NET `int`s, so the model assumes no wrap-around.
- Basics.Ascii: strings are sequences of Unicode scalar values, not of .NET's UTF-16 units. A char above U+FFFF is one char here and is written as one `?`; in .NET it is a surrogate pair, written as `??`, so a `Method`, `Url`, query key, encoded value or `HttpProtocol` holding such a char is one byte shorter per char in `Requests.WriteRequestLine` than in the source. Text of chars up to U+FFFF (in particular ASCII) is written exactly as the source writes it.
- Basics.ParseInt: models `NumberStyles.Integer` with invariant-culture signs and the white space ' ' and '\t'..'\r'. It does not model culture-specific sign symbols or the trailing NUL characters .NET also accepts.
