/** The response side of `Request.OnExecute` and `Request.OnRequestTimeout`
    (src/Request.cs): the response the transport hands back, the classified
    exception attached to it, the calls made on collaborators, and the
    classification of a received response. */
module Responses {
  import opened Basics
  import opened Formatters

  /** Where a fault was thrown. */
  datatype FaultKind =
    | PoolFault       // HttpHost.Pool.Pop
    | SendFault       // Send / SendMessage
    | TransportFault  // the receive delivered an error, or ReceiveMessage threw
    | CodeFault       // int.Parse(response.Code)
    | DecodeFault     // the formatter, while decoding the body

  /** A thrown exception: where it came from and its `Message`. */
  datatype Fault = Fault(kind: FaultKind, message: string)

  /** `HttpClientException`: its message, the numeric code it is given for a
      response other than 200 (None when the code does not set it), and the
      fault it wraps. */
  datatype ClientException = ClientException(Message: string, Code: Option<int>, Inner: Option<Fault>)

  /** The response fields the core reads and writes. `Code` is the status
      code as text (null until the transport sets it), `Stream` the body
      buffer still owned by the transport (null once released). */
  datatype Response = Response(
    Code: Option<string>,
    CodeMsg: Option<string>,
    Length: int,
    Chunked: bool,
    KeepAlive: bool,
    Stream: Option<seq<byte>>,
    Body: Obj,
    Exception: Option<ClientException>)

  /** `new Response()`. */
  function NewResponse(): Response {
    Response(None, None, 0, false, false, None, Null, None)
  }

  /** The calls the core makes on the buffer, the connection and the host. */
  datatype Effect =
    | Send              // the request was handed to the client and the call returned
    | ReadFree(length: int)
    | DisposeStream
    | Disconnect
    | AddError
    | AddSuccess
    | PoolPush

  // ---------------------------------------------------------------------------
  // Responses made by the core itself

  /** `OnRequestTimeout`: the response the timer delivers. */
  function TimeoutResponse(): (r: Response)
    ensures r.Code == Some("408") && r.CodeMsg == Some("Request timeout")
    ensures r.Exception == Some(ClientException("Request timeout", None, None))
    ensures ParseInt(r.Code) == Some(408)
  {
    var r := NewResponse().(Code := Some("408"), CodeMsg := Some("Request timeout"));
    assert DigitsValue("408") == 408 by {
      assert "408"[..2] == "40" && "40"[..1] == "4" && "4"[..0] == "";
    }
    TrimDigits("408");
    ParseDigits("408", "408");
    r.(Exception := Some(ClientException("Request timeout", None, None)))
  }

  /** A caught fault becomes a fresh response whose exception carries the
      fault's message and wraps the fault. */
  function FailureResponse(f: Fault): (r: Response)
    ensures r.Exception == Some(ClientException(f.message, None, Some(f)))
    ensures r.Code.None? && r.Stream.None? && r.Body == Null
  {
    NewResponse().(Exception := Some(ClientException(f.message, None, Some(f))))
  }

  /** A timeout, a wrapped fault and a rejected status code are told apart
      by the response alone: the timeout has code 408 and its exception
      carries no numeric code and wraps nothing, a fault response has no
      code and wraps its fault, and a rejection's exception carries its code
      (see `Classified`). */
  lemma TimeoutIsNotAFault(f: Fault)
    ensures TimeoutResponse().Code != FailureResponse(f).Code
    ensures TimeoutResponse().Exception.value.Inner.None? && TimeoutResponse().Exception.value.Code.None?
    ensures FailureResponse(f).Exception.value.Inner == Some(f)
  {
  }

  // ---------------------------------------------------------------------------
  // Classification of a received response

  /** The transport hands over a body buffer holding at least `Length` bytes
      whenever `Length` is positive. */
  predicate BufferHeld(r: Response) {
    r.Length > 0 ==> r.Stream.Some? && r.Length <= |r.Stream.value|
  }

  /** The body as it is read for a status code: through the request's
      formatter for 200, as raw text for any other code. */
  function ReadBody(f: Formatter, r: Response, code: int, bodyType: Option<TypeName>, lib: Library): Result<Obj, string>
    requires r.Length > 0 && BufferHeld(r)
  {
    if code == 200 then Deserialize(f, r.Stream.value, bodyType, r.Length, lib)
    else Success(Str(lib.readString(r.Stream.value[..r.Length])))
  }

  /** The `finally` block: free the body bytes, dispose a chunked buffer. */
  function Release(r: Response): seq<Effect> {
    [ReadFree(r.Length)] + (if r.Chunked then [DisposeStream] else [])
  }

  /** Classification runs to the end: the code parses and, when there is a
      body, reading it does not throw. */
  predicate Classifies(r: Response, f: Formatter, bodyType: Option<TypeName>, lib: Library)
    requires BufferHeld(r)
  {
    ParseInt(r.Code).Some? && (r.Length > 0 ==> ReadBody(f, r, ParseInt(r.Code).value, bodyType, lib).Success?)
  }

  /** The calls classification makes: none when the code does not parse;
      otherwise the release of a body, and the disconnect of a connection
      that is not kept alive once classification has run to its end. */
  function Handling(r: Response, f: Formatter, bodyType: Option<TypeName>, lib: Library): seq<Effect>
    requires BufferHeld(r)
  {
    if ParseInt(r.Code).None? then []
    else (if r.Length > 0 then Release(r) else [])
         + (if Classifies(r, f, bodyType, lib) && !r.KeepAlive then [Disconnect] else [])
  }

  /** A release followed by at most a disconnect frees the buffer only in
      its first call. */
  lemma FreedFirst(r: Response, release: seq<Effect>, close: seq<Effect>)
    requires release == [] || release == Release(r)
    requires close == [] || close == [Disconnect]
    ensures forall i :: 0 < i < |release + close| ==> !(release + close)[i].ReadFree?
  {
    var h := release + close;
    forall i | 0 < i < |h|
      ensures !h[i].ReadFree?
    {
      if i < |release| {
        assert h[i] == release[i] == DisposeStream;
      } else {
        assert h[i] == close[i - |release|] == Disconnect;
      }
    }
  }

  /** The body buffer is released at most once, as the first call, and it is
      released whenever a code that parses came with a body, even when
      decoding the body fails. */
  lemma HandlingReleasesOnce(r: Response, f: Formatter, bodyType: Option<TypeName>, lib: Library)
    requires BufferHeld(r)
    ensures forall i :: 0 < i < |Handling(r, f, bodyType, lib)| ==> !Handling(r, f, bodyType, lib)[i].ReadFree?
    ensures ParseInt(r.Code).Some? && r.Length > 0 ==> Handling(r, f, bodyType, lib)[0] == ReadFree(r.Length)
  {
    if ParseInt(r.Code).Some? {
      var release: seq<Effect> := if r.Length > 0 then Release(r) else [];
      var close: seq<Effect> := if Classifies(r, f, bodyType, lib) && !r.KeepAlive then [Disconnect] else [];
      assert Handling(r, f, bodyType, lib) == release + close;
      FreedFirst(r, release, close);
    }
  }

  /** `{Url}({Code}) [{Body}]`, the message of a rejected response. */
  function RejectionMessage(url: string, code: string, body: Obj): (m: string)
    ensures |m| == |url| + |code| + |ToText(body)| + 5
    ensures m[..|url|] == url && m[|url|] == '('
    ensures m[|url| + 1..|url| + 1 + |code|] == code
    ensures m[|url| + 1 + |code|..|url| + 4 + |code|] == ") ["
    ensures m[|url| + 4 + |code|..|m| - 1] == ToText(body) && m[|m| - 1] == ']'
  {
    url + "(" + code + ") [" + ToText(body) + "]"
  }

  /** The response classification leaves when it runs to its end: a body
      is read and its buffer given up, and a code other than 200 attaches a
      rejection carrying that code and wrapping nothing. */
  function Classified(r: Response, f: Formatter, bodyType: Option<TypeName>, url: string, lib: Library): (c: Response)
    requires r.Exception.None? && BufferHeld(r) && Classifies(r, f, bodyType, lib)
    ensures c == r.(Stream := c.Stream, Body := c.Body, Exception := c.Exception)
    ensures r.Length > 0 ==> c.Stream.None? && c.Body == ReadBody(f, r, ParseInt(r.Code).value, bodyType, lib).value
    ensures r.Length <= 0 ==> c.Stream == r.Stream && c.Body == r.Body
    ensures c.Exception.Some? <==> ParseInt(r.Code).value != 200
    ensures c.Exception.Some? ==>
              c.Exception.value.Code == ParseInt(r.Code) && c.Exception.value.Inner.None?
              && c.Exception.value.Message == RejectionMessage(url, r.Code.value, c.Body)
  {
    var code := ParseInt(r.Code).value;
    var read := if r.Length > 0 then r.(Stream := None, Body := ReadBody(f, r, code, bodyType, lib).value) else r;
    if code == 200 then read
    else read.(Exception := Some(ClientException(RejectionMessage(url, r.Code.value, read.Body), Some(code), None)))
  }

  /** What classification throws when it does not run to its end: the
      parse failure of the code, or else the decoder's error, which only a
      200 response can raise since any other body is read as plain text. */
  function ClassifyFault(r: Response, f: Formatter, bodyType: Option<TypeName>, lib: Library): (fault: Fault)
    requires BufferHeld(r) && !Classifies(r, f, bodyType, lib)
    ensures fault.kind == CodeFault <==> ParseInt(r.Code).None?
    ensures fault.kind == CodeFault || fault.kind == DecodeFault
    ensures fault.kind == DecodeFault ==> ParseInt(r.Code) == Some(200) && r.Length > 0
  {
    if ParseInt(r.Code).None? then Fault(CodeFault, lib.parseFailure(r.Code))
    else Fault(DecodeFault, ReadBody(f, r, ParseInt(r.Code).value, bodyType, lib).error)
  }

  /** The steps of `OnExecute` after a response without exception arrived,
      up to `Status = Completed`. `fault` is what they throw, if anything;
      `result` is the response afterwards (meaningless after a fault, which
      replaces it). */
  method Classify(response: Response, f: Formatter, bodyType: Option<TypeName>, url: string, lib: Library)
    returns (result: Response, fault: Option<Fault>, effects: seq<Effect>)
    requires response.Exception.None?
    requires BufferHeld(response)
    // int.Parse throws before anything is released
    ensures ParseInt(response.Code).None? ==>
              fault == Some(Fault(CodeFault, lib.parseFailure(response.Code))) && effects == []
    // past parsing, the buffer is released exactly once when there is a body,
    // whether or not decoding succeeds, and a persistent connection is kept
    ensures effects == Handling(response, f, bodyType, lib)
    ensures fault.None? <==> Classifies(response, f, bodyType, lib)
    // run to its end, it leaves the classified response; otherwise it throws
    // the parse failure or the decoder's error
    ensures fault.None? ==> result == Classified(response, f, bodyType, url, lib)
    ensures fault.Some? ==> fault.value == ClassifyFault(response, f, bodyType, lib)
    ensures ParseInt(response.Code).Some? && fault.Some? ==>
              fault == Some(Fault(DecodeFault, ReadBody(f, response, ParseInt(response.Code).value, bodyType, lib).error))
  {
    result, fault, effects := response, None, [];
    var parsed := ParseInt(response.Code);
    if parsed.None? {
      fault := Some(Fault(CodeFault, lib.parseFailure(response.Code)));
      return;
    }
    var code := parsed.value;
    if response.Length > 0 {
      var body;
      result, body, effects := ReadAndFree(response, f, code, bodyType, lib);
      if body.Failure? {
        fault := Some(Fault(DecodeFault, body.error));
        assert effects == Release(response) + [];
        return;
      }
    }
    assert Classifies(response, f, bodyType, lib);
    ghost var released := effects;
    assert released == if response.Length > 0 then Release(response) else [];
    if !response.KeepAlive {
      effects := effects + [Disconnect];
    } else {
      assert effects == released + [];
    }
    if code != 200 {
      result := result.(Exception := Some(ClientException(RejectionMessage(url, response.Code.value, result.Body), Some(code), None)));
    }
  }

  /** The inner `try`/`finally` of classification: the body is read for the
      code, and whether or not that throws, the buffer is freed, disposed
      when chunked, and dropped from the response. `body` is what the read
      returned or threw. */
  method ReadAndFree(response: Response, f: Formatter, code: int, bodyType: Option<TypeName>, lib: Library)
    returns (result: Response, body: Result<Obj, string>, effects: seq<Effect>)
    requires response.Length > 0 && BufferHeld(response)
    ensures body == ReadBody(f, response, code, bodyType, lib)
    ensures effects == Release(response) && effects[0] == ReadFree(response.Length)
    ensures result == response.(Stream := None, Body := if body.Success? then body.value else response.Body)
  {
    body := ReadBody(f, response, code, bodyType, lib);
    result := response;
    if body.Success? {
      result := result.(Body := body.value);
    }
    // finally
    effects := [ReadFree(response.Length)];
    if response.Chunked {
      effects := effects + [DisposeStream];
    }
    result := result.(Stream := None);
  }
}
