/** `Request` of src/Request.cs: its defaults, the HTTP/1.1 request it writes
    to the connection's stream (request line as in section 3 of RFC 9112,
    the header block, and a body framed by Content-Length as in section 6.2
    of RFC 9112), the effective timeout, and the status machine of
    `OnExecute`. */
module Requests {
  import opened Basics
  import opened Streams
  import opened Formatters
  import opened Responses

  const POST: string := "POST"
  const GET: string := "GET"
  const DELETE: string := "DELETE"
  const PUT: string := "PUT"

  // Single bytes of HeaderTypeFactory.
  const SPACE: byte := 32  // _SPACE_BYTE
  const QMARK: byte := 63  // _QMARK, '?'
  const AND: byte := 38    // _AND, '&'
  const EQ: byte := 61     // _EQ, '='
  const CR: byte := 13     // _LINE_R
  const LF: byte := 10     // _LINE_N

  /** The byte arrays of HeaderTypeFactory the writer copies from; their
      contents are not part of this model, only the prefix lengths used. */
  datatype HeaderConstants = HeaderConstants(
    contentLength: seq<byte>,      // CONTENT_LENGTH_BYTES, first 16 written
    towLine: seq<byte>,            // TOW_LINE_BYTES, first 4 written
    line: seq<byte>,               // LINE_BYTES, first 2 written
    nullContentLength: seq<byte>)  // NULL_CONTENT_LENGTH_BYTES, all written
  {
    predicate Sized() {
      16 <= |contentLength| && 4 <= |towLine| && 2 <= |line|
    }
  }

  /** The width of the reserved Content-Length field. */
  const FieldWidth: nat := 10

  // ---------------------------------------------------------------------------
  // The query string

  /** An entry of `QuestryString`, a `Dictionary<string, string>` whose values
      may be null. */
  datatype QueryPair = QueryPair(key: string, value: Option<string>)

  /** `string.IsNullOrEmpty(value)` is false: the pair is written. */
  predicate Survives(p: QueryPair) {
    p.value.Some? && p.value.value != ""
  }

  /** How many pairs are written: the counter `i` after the pairs. */
  function Written(q: seq<QueryPair>): nat {
    if q == [] then 0 else Written(q[..|q| - 1]) + (if Survives(q[|q| - 1]) then 1 else 0)
  }

  /** `key=UrlEncode(value)` in ASCII: the key is not encoded. */
  function QueryPiece(p: QueryPair, urlEncode: string -> string): seq<byte>
    requires Survives(p)
  {
    Ascii(p.key) + [EQ] + Ascii(urlEncode(p.value.value))
  }

  /** What one pair adds, given how many pairs were written before it:
      nothing when its value is null or empty, else `?` for the first
      pair or `&` for a later one, then the pair. */
  function QueryStep(written: nat, p: QueryPair, urlEncode: string -> string): seq<byte> {
    if !Survives(p) then [] else [if written == 0 then QMARK else AND] + QueryPiece(p, urlEncode)
  }

  /** The bytes the `foreach` over the query pairs writes. */
  function QueryBytes(q: seq<QueryPair>, urlEncode: string -> string): seq<byte> {
    if q == [] then []
    else QueryBytes(q[..|q| - 1], urlEncode) + QueryStep(Written(q[..|q| - 1]), q[|q| - 1], urlEncode)
  }

  /** The written pairs, in dictionary enumeration order. */
  function QueryPieces(q: seq<QueryPair>, urlEncode: string -> string): (ps: seq<seq<byte>>)
    ensures |ps| == Written(q)
  {
    if q == [] then []
    else
      var p := q[|q| - 1];
      QueryPieces(q[..|q| - 1], urlEncode) + (if Survives(p) then [QueryPiece(p, urlEncode)] else [])
  }

  lemma QueryBytesSnoc(q: seq<QueryPair>, j: nat, urlEncode: string -> string)
    requires j < |q|
    ensures Written(q[..j + 1]) == Written(q[..j]) + (if Survives(q[j]) then 1 else 0)
    ensures QueryBytes(q[..j + 1], urlEncode) == QueryBytes(q[..j], urlEncode) + QueryStep(Written(q[..j]), q[j], urlEncode)
  {
    assert q[..j + 1][..j] == q[..j];
  }

  /** One more written pair keeps the query in joined form: `?` opens it,
      `&` goes before every later pair. */
  lemma QueryJoinSnoc(bytes: seq<byte>, ps: seq<seq<byte>>, piece: seq<byte>)
    requires bytes == if |ps| == 0 then [] else [QMARK] + Join([AND], ps)
    ensures bytes + ([if |ps| == 0 then QMARK else AND] + piece) == [QMARK] + Join([AND], ps + [piece])
  {
    JoinSnoc([AND], ps, piece);
    if |ps| > 0 {
      AppendAssoc([QMARK] + Join([AND], ps), [AND], piece);
      AppendAssoc([QMARK], Join([AND], ps), [AND]);
      AppendAssoc([QMARK], Join([AND], ps) + [AND], piece);
    }
  }

  /** The query is the written pairs joined by `&` behind one `?`, and
      nothing at all, not even `?`, when no pair is written. */
  lemma {:induction false} QueryIsJoin(q: seq<QueryPair>, urlEncode: string -> string)
    ensures QueryBytes(q, urlEncode)
         == if Written(q) == 0 then [] else [QMARK] + Join([AND], QueryPieces(q, urlEncode))
  {
    if q != [] {
      var done := q[..|q| - 1];
      var p := q[|q| - 1];
      QueryIsJoin(done, urlEncode);
      var ps := QueryPieces(done, urlEncode);
      assert QueryBytes(q, urlEncode) == QueryBytes(done, urlEncode) + QueryStep(Written(done), p, urlEncode);
      if Survives(p) {
        var piece := QueryPiece(p, urlEncode);
        assert QueryPieces(q, urlEncode) == ps + [piece];
        QueryJoinSnoc(QueryBytes(done, urlEncode), ps, piece);
      } else {
        assert QueryPieces(q, urlEncode) == ps + [];
        assert ps + [] == ps;
        assert QueryStep(Written(done), p, urlEncode) == [];
      }
    }
  }

  /** The bytes written for the first j pairs begin the bytes written for
      all of them. */
  lemma {:induction false} QueryBytesPrefix(q: seq<QueryPair>, j: nat, urlEncode: string -> string)
    requires j <= |q|
    ensures QueryBytes(q[..j], urlEncode) <= QueryBytes(q, urlEncode)
    decreases |q| - j
  {
    if j < |q| {
      QueryBytesSnoc(q, j, urlEncode);
      QueryBytesPrefix(q, j + 1, urlEncode);
    } else {
      assert q[..j] == q;
    }
  }

  // ---------------------------------------------------------------------------
  // The request on the wire

  /** `METHOD SP URL[?query] SP PROTOCOL CRLF` in ASCII. The query is written
      when the dictionary is non-null and non-empty. */
  function RequestLine(verb: string, url: string, query: Option<seq<QueryPair>>, protocol: string,
                       urlEncode: string -> string): seq<byte>
  {
    Ascii(verb) + [SPACE] + Ascii(url)
    + (if query.Some? && |query.value| > 0 then QueryBytes(query.value, urlEncode) else [])
    + [SPACE] + Ascii(protocol) + [CR, LF]
  }

  /** The bytes `Header.Write(stream)` writes; nothing for a null header. */
  function HeaderBytes(header: Option<seq<byte>>): seq<byte> {
    if header.Some? then header.value else []
  }

  /** The padded count that fills the reserved Content-Length field. */
  function LengthField(count: nat, encoding: char -> seq<byte>): seq<byte> {
    Encode(encoding, PadRight(DecimalText(count), FieldWidth))
  }

  /** The body section of a POST or PUT with a body: the Content-Length
      name, the field holding the count of body bytes, the blank line and
      the body. */
  function ContentSection(f: Formatter, body: Obj, lib: Library, consts: HeaderConstants,
                          encoding: char -> seq<byte>): seq<byte>
    requires consts.Sized()
  {
    var b := BodyBytes(f, body, lib, encoding);
    consts.contentLength[..16] + LengthField(|b|, encoding) + consts.towLine[..4] + b
  }

  /** What follows the headers: for POST and PUT with a body, the
      Content-Length name, the field, the blank line and the body; for POST
      and PUT without one, the zero Content-Length line and the blank line;
      for any other method, the blank line only. */
  function Tail(verb: string, body: Obj, f: Formatter, lib: Library, consts: HeaderConstants,
                encoding: char -> seq<byte>): seq<byte>
    requires consts.Sized()
  {
    if verb == POST || verb == PUT then
      if body != Null then ContentSection(f, body, lib, consts, encoding)
      else
        consts.nullContentLength + consts.line[..2]
    else
      consts.line[..2]
  }

  lemma LengthFieldIsTenBytes(count: nat, encoding: char -> seq<byte>)
    requires AsciiCompatible(encoding) && count <= MaxInt32
    ensures IsAscii(PadRight(DecimalText(count), FieldWidth))
    ensures LengthField(count, encoding) == Ascii(PadRight(DecimalText(count), FieldWidth))
    ensures |LengthField(count, encoding)| == FieldWidth
  {
    var d := DecimalText(count);
    assert Pow10(10) == 10_000_000_000;
    DecimalWidth(count, 10);
    var t := PadRight(d, FieldWidth);
    assert IsAscii(t) by {
      forall i | 0 <= i < |t| ensures t[i] as int < 128 {
        if i < |d| { assert t[i] == d[i] && IsDigit(d[i]); }
      }
    }
    EncodeAscii(encoding, t);
  }

  /** Where the parts of the body section sit. */
  lemma ContentSectionLayout(f: Formatter, body: Obj, lib: Library, consts: HeaderConstants,
                             encoding: char -> seq<byte>)
    requires consts.Sized() && AsciiCompatible(encoding)
    requires |BodyBytes(f, body, lib, encoding)| <= MaxInt32
    ensures var w := ContentSection(f, body, lib, consts, encoding);
            var b := BodyBytes(f, body, lib, encoding);
            |w| == 30 + |b| && w[..16] == consts.contentLength[..16]
            && w[16..26] == Ascii(PadRight(DecimalText(|b|), FieldWidth))
            && w[26..30] == consts.towLine[..4] && w[30..] == b
  {
    var b := BodyBytes(f, body, lib, encoding);
    LengthFieldIsTenBytes(|b|, encoding);
    var field := LengthField(|b|, encoding);
    var w := consts.contentLength[..16] + field + consts.towLine[..4] + b;
    assert w[16..26] == field;
  }

  /** The body section read back: sixteen bytes of header name, then a
      ten-byte field that `int.Parse` reads as exactly the number of bytes
      after the four-byte blank line, and those bytes are the body. */
  lemma ContentLengthSound(f: Formatter, body: Obj, lib: Library, consts: HeaderConstants,
                           encoding: char -> seq<byte>)
    requires consts.Sized() && AsciiCompatible(encoding)
    requires |BodyBytes(f, body, lib, encoding)| <= MaxInt32
    ensures var w := ContentSection(f, body, lib, consts, encoding);
            |w| >= 30 && w[..16] == consts.contentLength[..16] && w[26..30] == consts.towLine[..4]
            && w[30..] == BodyBytes(f, body, lib, encoding)
            && ParseInt(Some(Chars(w[16..26]))) == Some(|w| - 30)
  {
    var b := BodyBytes(f, body, lib, encoding);
    var w := ContentSection(f, body, lib, consts, encoding);
    var text := PadRight(DecimalText(|b|), FieldWidth);
    ContentSectionLayout(f, body, lib, consts, encoding);
    LengthFieldIsTenBytes(|b|, encoding);
    AsciiRoundTrip(text);
    assert Chars(w[16..26]) == text;
    ParsePaddedDecimal(|b|, FieldWidth);
  }

  /** `w` is `head`, then thirty bytes of framing whose ten-byte field
      `int.Parse` reads as the number of bytes after them, then `body`. */
  predicate LengthFramed(w: seq<byte>, head: seq<byte>, body: seq<byte>) {
    var p := |head|;
    |w| >= p + 30 && w[..p] == head && w[p + 30..] == body
    && ParseInt(Some(Chars(w[p + 16..p + 26]))) == Some(|w| - (p + 30))
  }

  /** Framing is kept behind any prefix. */
  lemma FramedAfter(head: seq<byte>, c: seq<byte>, body: seq<byte>)
    requires LengthFramed(c, [], body)
    ensures LengthFramed(head + c, head, body)
  {
    var w := head + c;
    var p := |head|;
    SliceOfSuffix(head, c, 16, 26);
    SliceOfSuffix(head, c, 30, |c|);
    assert Chars(w[p + 16..p + 26]) == Chars(c[16..26]);
    assert c[..0] == [];
  }

  /** The same, with the body section behind any prefix. */
  lemma ContentLengthAfter(head: seq<byte>, f: Formatter, body: Obj, lib: Library, consts: HeaderConstants,
                           encoding: char -> seq<byte>)
    requires consts.Sized() && AsciiCompatible(encoding)
    requires |BodyBytes(f, body, lib, encoding)| <= MaxInt32
    ensures LengthFramed(head + ContentSection(f, body, lib, consts, encoding), head, BodyBytes(f, body, lib, encoding))
  {
    var c := ContentSection(f, body, lib, consts, encoding);
    ContentLengthSound(f, body, lib, consts, encoding);
    assert c[..0] == [];
    FramedAfter(head, c, BodyBytes(f, body, lib, encoding));
  }

  lemma SliceOfSuffix(head: seq<byte>, c: seq<byte>, i: nat, j: nat)
    requires i <= j <= |c|
    ensures (head + c)[..|head|] == head
    ensures (head + c)[|head| + i..|head| + j] == c[i..j]
    ensures (head + c)[|head| + i..] == c[i..]
  {
  }

  /** Bytes read back as chars split where the bytes split. */
  lemma CharsAppend(a: seq<byte>, b: seq<byte>)
    ensures Chars(a + b) == Chars(a) + Chars(b)
  {
  }

  /** The request line is, char for char, the method, a space, the URL, the
      query, a space, the protocol and CRLF, when those are ASCII. */
  lemma RequestLineText(verb: string, url: string, query: Option<seq<QueryPair>>, protocol: string,
                        urlEncode: string -> string)
    requires IsAscii(verb) && IsAscii(url) && IsAscii(protocol)
    ensures Chars(RequestLine(verb, url, query, protocol, urlEncode))
         == verb + " " + url
            + Chars(if query.Some? && |query.value| > 0 then QueryBytes(query.value, urlEncode) else [])
            + " " + protocol + "\r\n"
  {
    var q := if query.Some? && |query.value| > 0 then QueryBytes(query.value, urlEncode) else [];
    AsciiRoundTrip(verb);
    AsciiRoundTrip(url);
    AsciiRoundTrip(protocol);
    CharsAppend(Ascii(verb), [SPACE]);
    CharsAppend(Ascii(verb) + [SPACE], Ascii(url));
    CharsAppend(Ascii(verb) + [SPACE] + Ascii(url), q);
    CharsAppend(Ascii(verb) + [SPACE] + Ascii(url) + q, [SPACE]);
    CharsAppend(Ascii(verb) + [SPACE] + Ascii(url) + q + [SPACE], Ascii(protocol));
    CharsAppend(Ascii(verb) + [SPACE] + Ascii(url) + q + [SPACE] + Ascii(protocol), [CR, LF]);
    assert Chars([SPACE]) == " ";
    assert Chars([CR, LF]) == "\r\n";
  }

  /** Only POST and PUT write a body section; for any other method the body
      makes no difference to what is written. */
  lemma BodyIgnoredUnlessPostOrPut(verb: string, body1: Obj, body2: Obj, f: Formatter, lib: Library,
                                   consts: HeaderConstants, encoding: char -> seq<byte>)
    requires consts.Sized() && verb != POST && verb != PUT
    ensures Tail(verb, body1, f, lib, consts, encoding) == Tail(verb, body2, f, lib, consts, encoding) == consts.line[..2]
  {
  }

  /** The request line fits the byte buffer `HttpParse.GetByteBuffer()`
      returns. */
  predicate Fits(line: seq<byte>, buffer: array<byte>) {
    |line| <= buffer.Length
  }

  // ---------------------------------------------------------------------------
  // The request status

  datatype RequestStatus = None | SendCompleted | Received | Completed | Error

  /** The order the statuses are reached in; Completed and Error are both last. */
  function Rank(s: RequestStatus): nat {
    match s
    case None => 0
    case SendCompleted => 1
    case Received => 2
    case Completed => 3
    case Error => 3
  }

  /** Each status set during one execution comes strictly after the ones set
      before it. */
  predicate Progresses(steps: seq<RequestStatus>) {
    forall i, j :: 0 <= i < j < |steps| ==> Rank(steps[i]) < Rank(steps[j])
  }

  /** So SendCompleted, when set, comes before Received, and a terminal
      status, once set, is the last one. */
  lemma ProgressOrder(steps: seq<RequestStatus>, i: nat, j: nat)
    requires Progresses(steps) && i < |steps| && j < |steps|
    ensures steps[i] == SendCompleted && steps[j] == Received ==> i < j
    ensures i < |steps| - 1 ==> steps[i] != Completed && steps[i] != Error
  {
    if i < |steps| - 1 {
      assert Rank(steps[i]) < Rank(steps[|steps| - 1]) <= 3;
    }
  }

  // ---------------------------------------------------------------------------
  // The connection as the dispatcher sees it

  /** What the receive hands back: a response, or an error (the async result
      is an `Exception`, or the blocking `ReceiveMessage` throws). */
  datatype Reply = Message(response: Response) | ErrorResult(message: string)

  /** The pooled client: event-driven (`AsyncTcpClient`, whose receive may
      already be complete before anything is sent) or blocking (`TcpClient`).
      `sendFault` is the message the send throws with, if it throws. */
  datatype Client =
    | AsyncTcpClient(receiveCompleted: bool, sendFault: Option<string>, reply: Reply)
    | TcpClient(sendFault: Option<string>, reply: Reply)

  /** `HttpHost.Pool.Pop()`: a client, or the message it throws with. */
  datatype Acquire = Popped(client: Client) | PopFault(message: string)

  /** The send is made and returns. */
  predicate Sends(a: Acquire) {
    a.Popped? &&
    match a.client
    case AsyncTcpClient(completed, sendFault, _) => !completed && sendFault.None?
    case TcpClient(sendFault, _) => sendFault.None?
  }

  /** The response the transport delivers to the request, when it gets that far. */
  function Delivered(a: Acquire): Option<Response> {
    if a.PopFault? then Basics.None
    else
      match a.client
      case AsyncTcpClient(completed, sendFault, reply) =>
        if (completed || sendFault.None?) && reply.Message? then Some(reply.response) else Basics.None
      case TcpClient(sendFault, reply) =>
        if sendFault.None? && reply.Message? then Some(reply.response) else Basics.None
  }

  /** The receive hands back an error instead of a response (only the
      event-driven client delivers it as a value rather than throwing). */
  predicate ReceiveFails(a: Acquire) {
    a.Popped? && a.client.AsyncTcpClient? && a.client.reply.ErrorResult?
    && (a.client.receiveCompleted || a.client.sendFault.None?)
  }

  /** What the exchange throws: the pool's fault, the send's fault, or the
      error the blocking receive throws with. */
  function Thrown(a: Acquire): (fault: Option<Fault>)
    ensures fault.None? <==> Delivered(a).Some? || ReceiveFails(a)
    ensures fault.Some? ==> fault.value.kind != CodeFault && fault.value.kind != DecodeFault
    ensures fault.Some? && fault.value.kind == TransportFault ==> a.Popped? && a.client.TcpClient?
  {
    match a
    case PopFault(message) => Some(Fault(PoolFault, message))
    case Popped(client) =>
      match client
      case AsyncTcpClient(completed, sendFault, _) =>
        if !completed && sendFault.Some? then Some(Fault(SendFault, sendFault.value)) else Basics.None
      case TcpClient(sendFault, reply) =>
        if sendFault.Some? then Some(Fault(SendFault, sendFault.value))
        else if reply.ErrorResult? then Some(Fault(TransportFault, reply.message))
        else Basics.None
  }

  /** Every response the transport may deliver holds its body buffer. */
  predicate HoldsBuffers(a: Acquire) {
    Delivered(a).Some? ==> BufferHeld(Delivered(a).value)
  }

  /** The response an execution ends with, read off what the transport
      does: a fresh response wrapping what the exchange throws or the error
      the receive delivers; a delivered response that already carries an
      exception, as it is; otherwise the classified response, or a fresh
      response wrapping what classification throws. */
  function Outcome(a: Acquire, f: Formatter, bodyType: Option<TypeName>, url: string, lib: Library): (r: Response)
    requires HoldsBuffers(a)
    // only a delivered 200 response that classifies ends without exception
    ensures r.Exception.None? ==>
              Delivered(a).Some? && Delivered(a).value.Exception.None?
              && Classifies(Delivered(a).value, f, bodyType, lib) && ParseInt(Delivered(a).value.Code) == Some(200)
    // what the exchange throws is wrapped in a response without a code
    ensures Thrown(a).Some? ==>
              r.Code.None? && r.Exception == Some(ClientException(Thrown(a).value.message, Basics.None, Thrown(a)))
  {
    if Thrown(a).Some? then FailureResponse(Thrown(a).value)
    else if ReceiveFails(a) then FailureResponse(Fault(TransportFault, a.client.reply.message))
    else
      var r := Delivered(a).value;
      if r.Exception.Some? then r
      else if Classifies(r, f, bodyType, lib) then Classified(r, f, bodyType, url, lib)
      else FailureResponse(ClassifyFault(r, f, bodyType, lib))
  }

  // ---------------------------------------------------------------------------
  // How the two halves of `OnExecute` combine

  /** What the exchange leaves, as `Request.Exchange` promises it. */
  ghost predicate Exchanged(a: Acquire, response: Response, fault: Option<Fault>, sent: bool, steps: seq<RequestStatus>) {
    && sent == Sends(a)
    && steps == (if sent then [SendCompleted] else [])
                + (if Delivered(a).Some? then [Received] else if fault.None? then [Error] else [])
    && Progresses(steps)
    && fault == Thrown(a)
    && (Delivered(a).Some? ==> response == Delivered(a).value)
    && (ReceiveFails(a) ==> response == FailureResponse(Fault(TransportFault, a.client.reply.message)))
  }

  /** What the classification leaves, as `Request.Conclude` promises it. */
  ghost predicate Concluded(response: Response, fault: Option<Fault>, f: Formatter, bodyType: Option<TypeName>,
                            url: string, lib: Library, final: Response, steps: seq<RequestStatus>)
    requires fault.None? && response.Exception.None? ==> BufferHeld(response)
  {
    && steps == (if fault.Some? then [Error]
                 else if response.Exception.Some? then []
                 else if Classifies(response, f, bodyType, lib) then [Completed]
                 else [Error])
    && (steps == [] ==> final == response)
    && (steps == [Completed] ==> final == Classified(response, f, bodyType, url, lib))
    && (steps == [Error] ==>
          final == FailureResponse(if fault.Some? then fault.value else ClassifyFault(response, f, bodyType, lib)))
  }

  /** The exchange and then the classification ran; `status` is the status
      after both. */
  ghost predicate Settles(a: Acquire, f: Formatter, bodyType: Option<TypeName>, url: string, lib: Library,
                          received: Response, fault: Option<Fault>, sent: bool, exchanged: seq<RequestStatus>,
                          final: Response, concluded: seq<RequestStatus>, status: RequestStatus)
  {
    && Exchanged(a, received, fault, sent, exchanged)
    && (fault.None? && received.Exception.None? ==> BufferHeld(received))
    && Concluded(received, fault, f, bodyType, url, lib, final, concluded)
    && (concluded != [] ==> status == concluded[0])
    && (concluded == [] && exchanged != [] ==> status == exchanged[|exchanged| - 1])
  }

  /** The statuses set over a whole execution move forward, end in a
      received or terminal status, and include `SendCompleted` exactly when
      the send is made: the exchange sets `SendCompleted` when it sends, then
      `Received`, or `Error` for a failed receive, unless something is
      thrown; classification, which only runs on a delivered response or
      after a throw, then sets `Completed` or `Error`. */
  lemma SettledSteps(sent: bool, delivered: bool, thrown: bool, exchanged: seq<RequestStatus>,
                     concluded: seq<RequestStatus>, status: RequestStatus)
    requires exchanged == (if sent then [SendCompleted] else [])
                          + (if delivered then [Received] else if !thrown then [Error] else [])
    requires concluded == [] || concluded == [Completed] || concluded == [Error]
    requires concluded != [] ==> delivered || thrown
    requires concluded == [] ==> !thrown
    requires concluded != [] ==> status == concluded[0]
    requires concluded == [] && exchanged != [] ==> status == exchanged[|exchanged| - 1]
    ensures var steps := exchanged + concluded;
            steps != [] && Progresses(steps) && status == steps[|steps| - 1]
            && (status == Completed || status == Received || status == Error)
            && ((SendCompleted in steps) <==> sent)
  {
    var head: seq<RequestStatus> := if sent then [SendCompleted] else [];
    var rest := (if delivered then [Received] else if !thrown then [Error] else []) + concluded;
    assert exchanged + concluded == head + rest;
    if concluded == [] {
      assert rest == [Received] || rest == [Error];
    } else if delivered {
      assert rest == [Received, concluded[0]];
    } else {
      assert rest == concluded;
    }
  }

  /** The status after a whole execution, read off what the transport
      delivered. */
  lemma SettledStatus(a: Acquire, f: Formatter, bodyType: Option<TypeName>, url: string, lib: Library,
                      received: Response, fault: Option<Fault>, sent: bool, exchanged: seq<RequestStatus>,
                      final: Response, concluded: seq<RequestStatus>, status: RequestStatus)
    requires HoldsBuffers(a)
    requires Settles(a, f, bodyType, url, lib, received, fault, sent, exchanged, final, concluded, status)
    ensures final == Outcome(a, f, bodyType, url, lib)
    ensures status == Received <==> Delivered(a).Some? && Delivered(a).value.Exception.Some?
    ensures status == Received ==> final == Delivered(a).value
    ensures status == Completed <==>
              Delivered(a).Some? && Delivered(a).value.Exception.None? && Classifies(Delivered(a).value, f, bodyType, lib)
    ensures status == Completed ==>
              var code := ParseInt(Delivered(a).value.Code).value;
              final.Code == Delivered(a).value.Code
              && (final.Exception.Some? <==> code != 200)
              && (code != 200 ==> final.Exception.value.Code == Some(code))
    ensures status == Error ==>
              final.Code.None? && final.Exception.Some? && final.Exception.value.Inner.Some?
  {
  }

  // ---------------------------------------------------------------------------
  // The request

  class Request {
    var Formater: Formatter
    var QuestryString: Option<seq<QueryPair>>
    /** The bytes `Header.Write` writes, or null. */
    var Header: Option<seq<byte>>
    var Url: string
    var Method: string
    var HttpProtocol: string
    var Response: Option<Response>
    var Body: Obj
    var BodyType: Option<TypeName>
    var TimeOut: Option<int>
    var Status: RequestStatus

    /** `new Request()`: a GET over HTTP/1.1 with the JSON formatter. */
    constructor ()
      ensures Method == GET && HttpProtocol == "HTTP/1.1" && Formater == JsonFormater
      ensures QuestryString.None? && Header.None? && Body == Null && BodyType.None?
      ensures TimeOut.None? && Response.None? && Status == RequestStatus.None
    {
      Method := GET;
      HttpProtocol := "HTTP/1.1";
      Formater := JsonFormater;
      QuestryString := Basics.None;
      Header := Basics.None;
      Body := Null;
      BodyType := Basics.None;
      TimeOut := Basics.None;
      Response := Basics.None;
      Status := RequestStatus.None;
    }

    /** `TimeOut` when it is set, otherwise the pool's timeout. */
    function EffectiveTimeout(poolTimeout: int): (t: int)
      reads this
      ensures TimeOut.Some? ==> t == TimeOut.value
      ensures TimeOut.None? ==> t == poolTimeout
    {
      if TimeOut.Some? then TimeOut.value else poolTimeout
    }

    function Line(urlEncode: string -> string): seq<byte>
      reads this
    {
      RequestLine(Method, Url, QuestryString, HttpProtocol, urlEncode)
    }

    /** Everything `Execute(stream)` writes to the stream. */
    function Wire(lib: Library, consts: HeaderConstants, encoding: char -> seq<byte>): seq<byte>
      reads this
      requires consts.Sized()
    {
      Line(lib.urlEncode) + HeaderBytes(Header) + Tail(Method, Body, Formater, lib, consts, encoding)
    }

    /** In the whole request, the Content-Length field holds the number of
        bytes that follow the blank line, and those bytes are the body. */
    lemma WireContentLength(lib: Library, consts: HeaderConstants, encoding: char -> seq<byte>)
      requires consts.Sized() && AsciiCompatible(encoding)
      requires (Method == POST || Method == PUT) && Body != Null
      requires |BodyBytes(Formater, Body, lib, encoding)| <= MaxInt32
      ensures LengthFramed(Wire(lib, consts, encoding), Line(lib.urlEncode) + HeaderBytes(Header),
                           BodyBytes(Formater, Body, lib, encoding))
    {
      var head := Line(lib.urlEncode) + HeaderBytes(Header);
      assert Wire(lib, consts, encoding) == head + ContentSection(Formater, Body, lib, consts, encoding);
      ContentLengthAfter(head, Formater, Body, lib, consts, encoding);
    }

    /** `Execute(stream)`: the request line into the byte buffer, then the
        buffer, the headers and the body section onto the stream. */
    method Execute(stream: PipeStream, buffer: array<byte>, lib: Library, consts: HeaderConstants)
      requires consts.Sized() && AsciiCompatible(stream.encoding)
      requires Fits(Line(lib.urlEncode), buffer)
      requires |stream.cache| + |Wire(lib, consts, stream.encoding)| <= MaxInt32
      modifies stream, buffer
      ensures stream.cache == old(stream.cache) + Wire(lib, consts, stream.encoding)
    {
      var offset := WriteRequestLine(buffer, Method, Url, QuestryString, HttpProtocol, lib.urlEncode);
      stream.Write(buffer[..offset]);
      if Header.Some? {
        stream.Write(Header.value);
      }
      ghost var head := stream.cache;
      ghost var tail := Tail(Method, Body, Formater, lib, consts, stream.encoding);
      assert head == old(stream.cache) + Line(lib.urlEncode) + HeaderBytes(Header);
      if Method == POST || Method == PUT {
        if Body != Null {
          assert |BodyBytes(Formater, Body, lib, stream.encoding)| <= |tail|;
          WriteContent(stream, Formater, Body, lib, consts);
        } else {
          stream.Write(consts.nullContentLength);
          stream.Write(consts.line[..2]);
          AppendAssoc(head, consts.nullContentLength, consts.line[..2]);
        }
      } else {
        stream.Write(consts.line[..2]);
      }
      assert stream.cache == head + tail;
      AppendAssoc(old(stream.cache), Line(lib.urlEncode), HeaderBytes(Header));
      AppendAssoc(old(stream.cache), Line(lib.urlEncode) + HeaderBytes(Header), tail);
    }

    /** The transport half of `OnExecute`'s `try` block: take a client from
        the pool, send unless the receive has already completed, receive.
        `fault` is what it throws, `sent` whether the send was made and
        returned, `steps` the statuses it sets, in order. */
    method Exchange(acquire: Acquire) returns (response: Response, fault: Option<Fault>, sent: bool,
                                               ghost steps: seq<RequestStatus>)
      modifies this`Status
      ensures sent == Sends(acquire)
      ensures steps == (if sent then [SendCompleted] else [])
                       + (if Delivered(acquire).Some? then [Received] else if fault.None? then [Error] else [])
      ensures Status == if steps == [] then old(Status) else steps[|steps| - 1]
      ensures Progresses(steps)
      // the receive either delivers a response, or fails as a value, or
      // something throws
      ensures fault.None? <==> Delivered(acquire).Some? || ReceiveFails(acquire)
      ensures Delivered(acquire).Some? ==> response == Delivered(acquire).value
      ensures ReceiveFails(acquire) ==>
                response == FailureResponse(Fault(TransportFault, acquire.client.reply.message))
      ensures fault.Some? ==> fault.value.kind != CodeFault && fault.value.kind != DecodeFault
      // and what it throws is the pool's, the send's or the blocking receive's fault
      ensures fault == Thrown(acquire)
    {
      steps := [];
      response := NewResponse();
      fault := Basics.None;
      sent := false;
      match acquire {
        case PopFault(message) =>
          fault := Some(Fault(PoolFault, message));
        case Popped(client) =>
          match client {
            case AsyncTcpClient(completed, sendFault, reply) =>
              if !completed {
                if sendFault.Some? {
                  fault := Some(Fault(SendFault, sendFault.value));
                } else {
                  sent := true;
                  Status := SendCompleted;
                  steps := steps + [Status];
                }
              }
              if fault.None? {
                match reply {
                  case ErrorResult(message) =>
                    response := FailureResponse(Fault(TransportFault, message));
                    Status := Error;
                    steps := steps + [Status];
                  case Message(r) =>
                    response := r;
                    Status := Received;
                    steps := steps + [Status];
                }
              }
            case TcpClient(sendFault, reply) =>
              if sendFault.Some? {
                fault := Some(Fault(SendFault, sendFault.value));
              } else {
                sent := true;
                Status := SendCompleted;
                steps := steps + [Status];
                match reply {
                  case ErrorResult(message) =>
                    fault := Some(Fault(TransportFault, message));
                  case Message(r) =>
                    response := r;
                    Status := Received;
                    steps := steps + [Status];
                }
              }
          }
      }
    }

    /** The classification half of `OnExecute`'s `try` block and its
        `catch`: a response without exception is classified; whatever was
        thrown, here or during the exchange, ends in a fresh response
        wrapping it. `handled` are the calls classification makes, `steps`
        the statuses set. */
    method Conclude(response: Response, fault: Option<Fault>, lib: Library)
      returns (final: Response, handled: seq<Effect>, ghost steps: seq<RequestStatus>)
      requires fault.None? && response.Exception.None? ==> BufferHeld(response)
      modifies this`Status
      ensures handled == if fault.None? && response.Exception.None?
                         then Handling(response, Formater, BodyType, lib) else []
      ensures steps == if fault.Some? then [Error]
                       else if response.Exception.Some? then []
                       else if Classifies(response, Formater, BodyType, lib) then [Completed]
                       else [Error]
      ensures steps == [] ==> Status == old(Status) && final == response
      ensures steps != [] ==> Status == steps[0]
      ensures steps == [Completed] ==>
                var code := ParseInt(response.Code).value;
                final.Code == response.Code
                && (final.Exception.Some? <==> code != 200)
                && (code != 200 ==> final.Exception.value.Code == Some(code))
      ensures steps == [Error] ==>
                final.Code.None? && final.Exception.Some? && final.Exception.value.Inner.Some?
      // exactly: the classified response, or a fresh one wrapping the fault
      // thrown before or during classification
      ensures steps == [Completed] ==> final == Classified(response, Formater, BodyType, Url, lib)
      ensures steps == [Error] ==>
                final == FailureResponse(if fault.Some? then fault.value else ClassifyFault(response, Formater, BodyType, lib))
    {
      final, handled, steps := response, [], [];
      var thrown := fault;
      if fault.None? && response.Exception.None? {
        var classified;
        classified, thrown, handled := Classify(response, Formater, BodyType, Url, lib);
        if thrown.None? {
          final := classified;
          Status := Completed;
          steps := [Status];
        }
      }
      if thrown.Some? {
        final := FailureResponse(thrown.value);
        Status := Error;
        steps := [Status];
      }
    }

    /** `OnExecute`: the exchange, then the classification of a response
        without exception, then the host's counters and the return of the
        client to the pool. Faults, which the source catches, end in a fresh
        response wrapping them. `effects` are the calls made on the
        connection, the buffer and the host, in order; `steps` the statuses
        set, in order. */
    method OnExecute(acquire: Acquire, lib: Library) returns (effects: seq<Effect>, ghost steps: seq<RequestStatus>)
      requires HoldsBuffers(acquire)
      modifies this`Status, this`Response
      // the statuses set move forward, and the last one is the status
      ensures steps != [] && Progresses(steps) && Status == steps[|steps| - 1]
      ensures Status == Completed || Status == Received || Status == Error
      // SendCompleted is set exactly when the send is made and returns
      ensures (SendCompleted in steps) <==> Sends(acquire)
      ensures Response == Some(Outcome(acquire, Formater, BodyType, Url, lib))
      // the calls made, in order: the send, the classification's release and
      // disconnect, one health counter, and the return of a popped client
      ensures effects == (if Sends(acquire) then [Send] else [])
                         + (if Delivered(acquire).Some? && Delivered(acquire).value.Exception.None?
                            then Handling(Delivered(acquire).value, Formater, BodyType, lib) else [])
                         + [if Response.value.Exception.Some? then AddError else AddSuccess]
                         + (if acquire.Popped? then [PoolPush] else [])
      // a delivered response that already carries an exception is left as it is
      ensures Status == Received <==> Delivered(acquire).Some? && Delivered(acquire).value.Exception.Some?
      ensures Status == Received ==> Response == Delivered(acquire)
      // Completed exactly when classification runs to its end, whatever the
      // code; an exception with the code is attached unless it is 200
      ensures Status == Completed <==>
                Delivered(acquire).Some? && Delivered(acquire).value.Exception.None?
                && Classifies(Delivered(acquire).value, Formater, BodyType, lib)
      ensures Status == Completed ==>
                var code := ParseInt(Delivered(acquire).value.Code).value;
                Response.value.Code == Delivered(acquire).value.Code
                && (Response.value.Exception.Some? <==> code != 200)
                && (code != 200 ==> Response.value.Exception.value.Code == Some(code))
      // anything else is an error: a fresh response wrapping the fault
      ensures Status == Error ==>
                Response.value.Code.None? && Response.value.Exception.Some? && Response.value.Exception.value.Inner.Some?
    {
      var response, fault, sent;
      ghost var exchanged, concluded;
      response, fault, sent, exchanged := Exchange(acquire);
      ghost var received := response;
      ghost var exchangeStatus := Status;
      assert Exchanged(acquire, received, fault, sent, exchanged);
      effects := if sent then [Send] else [];
      var handled;
      response, handled, concluded := Conclude(response, fault, lib);
      Response := Some(response);
      effects := effects + handled;
      assert Concluded(received, fault, Formater, BodyType, Url, lib, response, concluded);
      assert fault.None? && Delivered(acquire).None? ==> received.Exception.Some?;
      SettledSteps(sent, Delivered(acquire).Some?, fault.Some?, exchanged, concluded, Status);
      steps := exchanged + concluded;
      if response.Exception.Some? {
        effects := effects + [AddError];
      } else {
        effects := effects + [AddSuccess];
      }
      if acquire.Popped? {
        effects := effects + [PoolPush];
      } else {
        assert effects == effects + [];
      }
      SettledStatus(acquire, Formater, BodyType, Url, lib, received, fault, sent, exchanged, response, concluded, Status);
    }
  }

  /** Writes the body section: the Content-Length name, a reserved field of
      ten bytes, the blank line and the body; the field is filled in
      afterwards with the count of body bytes written, padded with spaces. */
  method WriteContent(stream: PipeStream, f: Formatter, body: Obj, lib: Library, consts: HeaderConstants)
    requires consts.Sized() && AsciiCompatible(stream.encoding)
    requires |BodyBytes(f, body, lib, stream.encoding)| <= MaxInt32
    modifies stream
    ensures stream.cache == old(stream.cache) + ContentSection(f, body, lib, consts, stream.encoding)
  {
    ghost var start := stream.cache;
    ghost var b := BodyBytes(f, body, lib, stream.encoding);
    stream.Write(consts.contentLength[..16]);
    ghost var before := stream.cache;
    var contentLength := stream.Allocate(FieldWidth);
    stream.Write(consts.towLine[..4]);
    var len := stream.CacheLength();
    Serialize(f, body, stream, lib);
    var count := stream.CacheLength() - len;
    ghost var after := consts.towLine[..4] + b;
    AppendAssoc(before + Reserved(FieldWidth), consts.towLine[..4], b);
    FillReserved(before, FieldWidth, after);
    LengthFieldIsTenBytes(count, stream.encoding);
    stream.Full(contentLength, PadRight(DecimalText(count), FieldWidth));
    ghost var field := LengthField(count, stream.encoding);
    assert stream.cache == before + field + after;
    Regroup(start, consts.contentLength[..16], field, consts.towLine[..4], b);
  }

  // ---------------------------------------------------------------------------
  // Writing into the request-line buffer

  /** Writes the request line into `buffer` from index 0 and returns the
      offset after it. */
  method WriteRequestLine(buffer: array<byte>, verb: string, url: string, query: Option<seq<QueryPair>>,
                          protocol: string, urlEncode: string -> string) returns (offset: nat)
    requires |RequestLine(verb, url, query, protocol, urlEncode)| <= buffer.Length
    modifies buffer
    ensures offset == |RequestLine(verb, url, query, protocol, urlEncode)|
    ensures buffer[..offset] == RequestLine(verb, url, query, protocol, urlEncode)
  {
    ghost var q := if query.Some? && |query.value| > 0 then QueryBytes(query.value, urlEncode) else [];
    ghost var head := Ascii(verb) + [SPACE] + Ascii(url) + q + [SPACE] + Ascii(protocol);
    assert RequestLine(verb, url, query, protocol, urlEncode) == head + [CR, LF];
    offset := Put(buffer, 0, Ascii(verb));
    assert buffer[..offset] == Ascii(verb);
    offset := PutByte(buffer, offset, SPACE);
    offset := Put(buffer, offset, Ascii(url));
    ghost var target := Ascii(verb) + [SPACE] + Ascii(url);
    assert buffer[..offset] == target;
    if query.Some? && |query.value| > 0 {
      offset := WriteQuery(buffer, offset, query.value, urlEncode);
    } else {
      assert target + q == target;
    }
    target := target + q;
    assert buffer[..offset] == target;
    offset := PutByte(buffer, offset, SPACE);
    offset := Put(buffer, offset, Ascii(protocol));
    assert buffer[..offset] == head;
    offset := PutByte(buffer, offset, CR);
    offset := PutByte(buffer, offset, LF);
    AppendAssoc(head, [CR], [LF]);
  }

  /** `Encoding.ASCII.GetBytes(..., buffer, offset)` and friends: the bytes
      land at `offset`, and the count written moves the cursor. */
  method Put(buffer: array<byte>, offset: nat, bytes: seq<byte>) returns (next: nat)
    requires offset + |bytes| <= buffer.Length
    modifies buffer
    ensures next == offset + |bytes|
    ensures buffer[..next] == old(buffer[..offset]) + bytes
  {
    forall k | 0 <= k < |bytes| {
      buffer[offset + k] := bytes[k];
    }
    next := offset + |bytes|;
  }

  /** `buffer[offset] = b; offset++;` */
  method PutByte(buffer: array<byte>, offset: nat, b: byte) returns (next: nat)
    requires offset < buffer.Length
    modifies buffer
    ensures next == offset + 1
    ensures buffer[..next] == old(buffer[..offset]) + [b]
  {
    buffer[offset] := b;
    next := offset + 1;
  }

  /** One pass of the `foreach` that writes: `?` before the first pair
      written and `&` before any later one, then `key=value` with the value
      URL-encoded. */
  method PutQueryPair(buffer: array<byte>, offset: nat, written: nat, p: QueryPair, urlEncode: string -> string)
    returns (next: nat)
    requires Survives(p)
    requires offset + |QueryStep(written, p, urlEncode)| <= buffer.Length
    modifies buffer
    ensures next == offset + |QueryStep(written, p, urlEncode)|
    ensures buffer[..next] == old(buffer[..offset]) + QueryStep(written, p, urlEncode)
  {
    var encoded := urlEncode(p.value.value);
    ghost var start := buffer[..offset];
    ghost var mark := if written == 0 then QMARK else AND;
    next := PutByte(buffer, offset, if written == 0 then QMARK else AND);
    next := Put(buffer, next, Ascii(p.key));
    next := PutByte(buffer, next, EQ);
    assert buffer[..next] == start + [mark] + Ascii(p.key) + [EQ];
    next := Put(buffer, next, Ascii(encoded));
    Nest(start, [mark], Ascii(p.key), [EQ], Ascii(encoded));
  }

  /** The `foreach` over the query pairs, with the counter `i` of pairs
      written; a pair whose value is null or empty is skipped. */
  method WriteQuery(buffer: array<byte>, offset: nat, q: seq<QueryPair>, urlEncode: string -> string)
    returns (next: nat)
    requires offset + |QueryBytes(q, urlEncode)| <= buffer.Length
    modifies buffer
    ensures next == offset + |QueryBytes(q, urlEncode)|
    ensures buffer[..next] == old(buffer[..offset]) + QueryBytes(q, urlEncode)
  {
    ghost var start := buffer[..offset];
    next := offset;
    var i := 0;
    var j := 0;
    while j < |q|
      invariant 0 <= j <= |q| && i == Written(q[..j])
      invariant QueryBytes(q[..j], urlEncode) <= QueryBytes(q, urlEncode)
      invariant next == offset + |QueryBytes(q[..j], urlEncode)|
      invariant buffer[..next] == start + QueryBytes(q[..j], urlEncode)
    {
      QueryBytesSnoc(q, j, urlEncode);
      QueryBytesPrefix(q, j + 1, urlEncode);
      ghost var step := QueryStep(i, q[j], urlEncode);
      if q[j].value.Some? && q[j].value.value != "" {
        next := PutQueryPair(buffer, next, i, q[j], urlEncode);
        AppendAssoc(start, QueryBytes(q[..j], urlEncode), step);
        i := i + 1;
      } else {
        assert step == [];
        assert QueryBytes(q[..j], urlEncode) + step == QueryBytes(q[..j], urlEncode);
      }
      j := j + 1;
    }
    assert q[..j] == q;
  }
}
