/** A stream of requests or of responses, read as a sequence of messages, independently of any
    decoder state. */
module MessageGrammar {
  import opened Scan
  import opened BodyGrammar
  import Framing

  datatype BodyKind = ContentLength(len: nat) | Chunked | CloseDelimited | NoBody | TunnelKind

  datatype StartLine =
    | RequestLine(method_: bytes, target: bytes, version: bytes)
    | StatusLine(version: bytes, status: nat, reason: bytes)

  datatype Head = Head(line: StartLine, headers: seq<Field>)

  datatype Message = Message(head: Head, body: Option<bytes>)

  /** Requests arrive at a server, responses at a client. */
  datatype Side = Server | Client

  /** The body rules, the side, and the judgements on head text that are not modelled further:
      the syntax of the parts of a start line, and the Host field. */
  datatype Rules = Rules(
    body: Config,
    side: Side,
    lineOk: StartLine -> bool,
    hostOk: seq<Field> -> bool)

  const CONNECT: bytes := [67, 79, 78, 78, 69, 67, 84]
  const HEAD: bytes := [72, 69, 65, 68]
  const HTTP11: bytes := [72, 84, 84, 80, 47, 49, 46, 49]
  const PLUS: byte := 43

  predicate NotSp(b: byte) { b != SP }

  /** METHOD SP target SP version; the third part is the rest of the line. */
  function SplitRequestLine(text: bytes): Option<StartLine> {
    var a := Span(text, NotSp);
    if a == |text| then None
    else
      var rest := text[a + 1..];
      var b := Span(rest, NotSp);
      if b == |rest| then None else Some(RequestLine(text[..a], rest[..b], rest[b + 1..]))
  }

  /** A number as `parse::<u16>` reads it, in the range of status codes. */
  function StatusCode(text: bytes): Option<nat> {
    var digits := if [PLUS] <= text then text[1..] else text;
    if digits == [] || !All(digits, IsDigit) then None
    else
      var n := Framing.DecimalValue(digits);
      if 100 <= n <= 599 then Some(n) else None
  }

  /** version SP status [ SP reason ]; an absent reason is an empty one. */
  function SplitStatusLine(text: bytes): Option<StartLine> {
    var a := Span(text, NotSp);
    if a == |text| then None
    else
      var rest := text[a + 1..];
      var b := Span(rest, NotSp);
      var status := StatusCode(rest[..b]);
      if status.None? then None
      else Some(StatusLine(text[..a], status.value, if b == |rest| then [] else rest[b + 1..]))
  }

  function ParseStartLine(r: Rules, text: bytes): Result<StartLine, Error> {
    if CR in text || LF in text then Err(InvalidData)
    else
      var line := if r.side.Server? then SplitRequestLine(text) else SplitStatusLine(text);
      if line.None? || !r.lineOk(line.value) then Err(InvalidData) else Ok(line.value)
  }

  function CheckHeaderLine(r: Rules, count: nat, text: bytes): Option<Error> {
    CheckTrailerLine(r.body, count, text)
  }

  /** A length that the Content-Length field announces, within the limit. */
  function SizedKind(max: nat, len: nat): Result<BodyKind, Error> {
    if len > max then Err(BodyTooLarge(len, max)) else Ok(ContentLength(len))
  }

  /** The Host rule, CONNECT, and `determine_body_kind` for requests. */
  function RequestKind(r: Rules, method_: bytes, version: bytes, headers: seq<Field>): Result<BodyKind, Error> {
    if version == HTTP11 && !r.hostOk(headers) then Err(InvalidData)
    else if method_ == CONNECT then Ok(TunnelKind)
    else
      var f := Framing.RequestFrame(headers);
      if f.Err? then Err(f.error)
      else if f.value.chunked then
        if version != HTTP11 then Err(InvalidData) else Ok(Chunked)
      else if f.value.length.None? then Ok(NoBody)
      else SizedKind(r.body.limits.maxBodySize, f.value.length.value)
  }

  predicate StatusHasBody(status: nat) { !(100 <= status < 200 || status == 204 || status == 304) }

  /** `determine_body_kind` for responses: section 6.3 of RFC 9112, in order of precedence. */
  function ResponseKind(r: Rules, requestMethod: Option<bytes>, version: bytes, status: nat, headers: seq<Field>)
    : Result<BodyKind, Error>
  {
    if requestMethod == Some(HEAD) || !StatusHasBody(status) then Ok(NoBody)
    else if requestMethod == Some(CONNECT) && 200 <= status < 300 then Ok(TunnelKind)
    else if version != HTTP11 && Framing.HasHeader(headers, Framing.TRANSFER_ENCODING) then Err(InvalidData)
    else
      var f := Framing.ResponseFrame(headers);
      if f.Err? then Err(f.error)
      else if f.value.0.ChunkedLast? then Ok(Chunked)
      else if f.value.0.OtherLast? || f.value.1.None? then Ok(CloseDelimited)
      else SizedKind(r.body.limits.maxBodySize, f.value.1.value)
  }

  function Kind(r: Rules, requestMethod: Option<bytes>, head: Head): (k: Result<BodyKind, Error>)
    ensures k.Ok? && k.value.ContentLength? ==> k.value.len <= r.body.limits.maxBodySize
  {
    match head.line
    case RequestLine(method_, _, version) => RequestKind(r, method_, version, head.headers)
    case StatusLine(version, status, _) => ResponseKind(r, requestMethod, version, status, head.headers)
  }

  // ---- What the framing fields decide ----

  /** The request is admitted and is not a CONNECT. */
  ghost predicate IsAdmitted(r: Rules, head: Head)
    requires head.line.RequestLine?
  {
    (head.line.version == HTTP11 ==> r.hostOk(head.headers)) && head.line.method_ != CONNECT
  }

  /** The body of a request, by what its fields say and not by the order of the code: chunked if
      the one coding is "chunked" and nothing says a length, a length if no coding is named and
      everything that is said about the length agrees, and nothing if nothing is said. */
  lemma RequestKindExactly(r: Rules, m: Option<bytes>, head: Head, n: nat)
    requires head.line.RequestLine?
    ensures var k := Kind(r, m, head);
            var coded := Framing.FieldElements(head.headers, Framing.TRANSFER_ENCODING) != [];
            var sized := Framing.HasHeader(head.headers, Framing.CONTENT_LENGTH);
            && (k == Ok(Chunked) <==>
                  IsAdmitted(r, head) && head.line.version == HTTP11 && Framing.OneChunked(head.headers) && !sized)
            && (k == Ok(ContentLength(n)) <==>
                  IsAdmitted(r, head) && !coded && sized && Framing.AllSay(head.headers, n)
                  && n <= r.body.limits.maxBodySize)
            && (k == Ok(NoBody) <==> IsAdmitted(r, head) && !coded && !sized)
            && (k == Ok(TunnelKind) <==>
                  (head.line.version == HTTP11 ==> r.hostOk(head.headers)) && head.line.method_ == CONNECT)
            && k != Ok(CloseDelimited)
  {
    hide Framing.ChunkedRequest, Framing.DeclaredLength, Framing.FieldElements, Framing.HasHeader;
    hide Framing.AllSay, Framing.OneChunked;
    Framing.RequestIsChunked(head.headers);
    Framing.ContentLengthIsUnanimous(head.headers, n);
    Framing.DeclaredIsSaid(head.headers);
  }

  /** The response has a body that its fields frame. */
  ghost predicate IsFramed(m: Option<bytes>, head: Head)
    requires head.line.StatusLine?
  {
    && m != Some(HEAD) && StatusHasBody(head.line.status)
    && !(m == Some(CONNECT) && 200 <= head.line.status < 300)
    && (head.line.version == HTTP11 || !Framing.HasHeader(head.headers, Framing.TRANSFER_ENCODING))
  }

  /** The body of a response likewise; it lasts until the connection is closed when nothing is said
      or the last coding is not "chunked". */
  lemma ResponseKindExactly(r: Rules, m: Option<bytes>, head: Head, n: nat)
    requires head.line.StatusLine?
    ensures var k := Kind(r, m, head);
            var coded := Framing.FieldElements(head.headers, Framing.TRANSFER_ENCODING) != [];
            var sized := Framing.HasHeader(head.headers, Framing.CONTENT_LENGTH);
            && (k == Ok(NoBody) <==> m == Some(HEAD) || !StatusHasBody(head.line.status))
            && (k == Ok(TunnelKind) <==>
                  m == Some(CONNECT) && 200 <= head.line.status < 300 && StatusHasBody(head.line.status))
            && (k == Ok(Chunked) <==> IsFramed(m, head) && Framing.EndsInChunked(head.headers) && !sized)
            && (k == Ok(ContentLength(n)) <==>
                  IsFramed(m, head) && !coded && sized && Framing.AllSay(head.headers, n)
                  && n <= r.body.limits.maxBodySize)
            && (k == Ok(CloseDelimited) <==>
                  IsFramed(m, head) && !sized && (!coded || Framing.EndsInOther(head.headers)))
  {
    hide Framing.ResponseCodings, Framing.DeclaredLength, Framing.FieldElements, Framing.HasHeader, Framing.AllSay;
    hide Framing.EndsInChunked, Framing.EndsInOther;
    Framing.ResponseIsChunked(head.headers);
    Framing.ContentLengthIsUnanimous(head.headers, n);
    Framing.DeclaredIsSaid(head.headers);
  }

  /** A head that names a coding and also has a Content-Length is given no body on either side,
      whatever the order of its fields. */
  lemma NeverBoth(r: Rules, m: Option<bytes>, head: Head)
    requires Framing.FieldElements(head.headers, Framing.TRANSFER_ENCODING) != []
    requires Framing.HasHeader(head.headers, Framing.CONTENT_LENGTH)
    ensures Kind(r, m, head).Ok? ==> Kind(r, m, head).value.NoBody? || Kind(r, m, head).value.TunnelKind?
  {
    hide Framing.FieldElements, Framing.HasHeader, Kind, IsAdmitted, IsFramed;
    var k := Kind(r, m, head);
    var n := if k.Ok? && k.value.ContentLength? then k.value.len else 0;
    if head.line.RequestLine? {
      RequestKindExactly(r, m, head, n);
    } else {
      ResponseKindExactly(r, m, head, n);
    }
  }

  /** A Transfer-Encoding field without elements is no coding: the Content-Length beside it counts. */
  lemma EmptyCodingCountsForNothing(r: Rules, m: Option<bytes>, line: StartLine, value: bytes, n: nat)
    requires line.RequestLine? && line.method_ != CONNECT && n <= r.body.limits.maxBodySize
    requires Framing.Elements(value) == [[48 + n]] && n < 10
    ensures var headers := [Field(Framing.TRANSFER_ENCODING, [COMMA]), Field(Framing.CONTENT_LENGTH, value)];
            (line.version == HTTP11 ==> r.hostOk(headers)) ==> Kind(r, m, Head(line, headers)) == Ok(ContentLength(n))
  {
    hide Kind, Framing.Elements, ToLower;
    var headers := [Field(Framing.TRANSFER_ENCODING, [COMMA]), Field(Framing.CONTENT_LENGTH, value)];
    RequestKindExactly(r, m, Head(line, headers), n);
    Framing.EmptyCoding(value, n);
  }

  /** A successful response to CONNECT loses its framing fields; other heads stay as they are. */
  function Kept(head: Head, k: BodyKind): Head {
    if head.line.StatusLine? && k.TunnelKind? then
      head.(headers := WithoutFraming(head.headers))
    else head
  }

  /** `retain`. */
  function WithoutFraming(headers: seq<Field>): seq<Field>
    decreases |headers|
  {
    if headers == [] then []
    else
      (if Framing.Named(headers[0], Framing.TRANSFER_ENCODING) || Framing.Named(headers[0], Framing.CONTENT_LENGTH)
       then [] else [headers[0]]) + WithoutFraming(headers[1..])
  }

  /** The phase a message body starts in. Only a response is ever close-delimited. */
  function BodyPhase(k: BodyKind): Phase {
    match k
    case ContentLength(len) => if len > 0 then BodyContentLength(len) else Complete
    case Chunked => BodyChunkedSize
    case CloseDelimited => BodyCloseDelimited
    case NoBody => Complete
    case TunnelKind => Tunnel
  }

  function FreshBody(head: Head, k: BodyKind): Body {
    Body(BodyPhase(k), 0, [], 0, Framing.Declared(head.headers))
  }

  /** How reading a message ends. A close-delimited body grows until the connection is closed, and
      is refused once it is too long. */
  datatype MessageEnd =
    | Got(message: Message, trailers: seq<Field>, rest: bytes)
    | AtTunnel(unread: bytes)
    | UntilClose(message: Message)
    | Overlong
    | Broken(error: Error)
    | Waiting

  /** The rest of a message whose head is known and whose body started with `sofar`. */
  function ReadBody(r: Rules, head: Head, k: BodyKind, b: Body, sofar: bytes, s: bytes): MessageEnd {
    match k
    case TunnelKind => AtTunnel(s)
    case CloseDelimited =>
      if |sofar| + |s| > r.body.limits.maxBodySize then Overlong else UntilClose(Message(head, Some(sofar + s)))
    case NoBody => Got(Message(head, None), [], s)
    case _ =>
      var reading := Read(r.body, b, s);
      match reading.end
      case Done(rest) => Got(Message(head, Some(sofar + reading.body)), reading.trailers, rest)
      case Failed(e) => Broken(e)
      case Pending => Waiting
  }

  /** field-lines CRLF [ message-body ], after `headers`. */
  function ReadHeaders(r: Rules, m: Option<bytes>, line: StartLine, headers: seq<Field>, s: bytes): MessageEnd
    decreases |s|
  {
    var pos := FindLine(s);
    if pos.None? then Waiting
    else if pos.value == 0 then
      var head := Head(line, headers);
      var k := Kind(r, m, head);
      if k.Err? then Broken(k.error)
      else ReadBody(r, Kept(head, k.value), k.value, FreshBody(Kept(head, k.value), k.value), [], s[2..])
    else
      var bad := CheckHeaderLine(r, |headers|, s[..pos.value]);
      if bad.Some? then Broken(bad.value)
      else
        var f := ParseHeaderLine(s[..pos.value]);
        if f.Err? then Broken(f.error) else ReadHeaders(r, m, line, headers + [f.value], s[pos.value + 2..])
  }

  function ReadMessage(r: Rules, m: Option<bytes>, s: bytes): MessageEnd {
    var pos := FindLine(s);
    if pos.None? then Waiting
    else if !r.body.utf8(s[..pos.value]) then Broken(InvalidData)
    else
      var line := ParseStartLine(r, s[..pos.value]);
      if line.Err? then Broken(line.error) else ReadHeaders(r, m, line.value, [], s[pos.value + 2..])
  }

  // ---- A message takes bytes ----

  lemma {:induction false} TrailersTake(c: Config, b: Body, s: bytes)
    ensures var e := ReadTrailers(c, b, s).end; e.Done? ==> |e.rest| <= |s|
    decreases |s|
  {
    hide CheckTrailerLine, ParseTrailer;
    var line := FindLine(s);
    if line.Some? && line.value != 0 && ParseTrailer(c, b.declared, s[..line.value]).Ok? {
      var f := ParseTrailer(c, b.declared, s[..line.value]).value;
      TrailersTake(c, b.(trailers := b.trailers + [f], trailerCount := b.trailerCount + 1), s[line.value + 2..]);
    }
  }

  lemma {:induction false} BodyTakes(c: Config, b: Body, s: bytes)
    ensures var e := Read(c, b, s).end; e.Done? ==> |e.rest| <= |s|
    decreases |s|, if b.phase.BodyChunkedData? then 2 else 1
  {
    hide CheckChunkLine, CheckChunkSize, ReadTrailers;
    match b.phase
    case BodyChunkedSize =>
      var line := FindLine(s);
      if line.Some? && CheckChunkLine(c.limits, s[..line.value]).Ok? {
        var n := CheckChunkLine(c.limits, s[..line.value]).value;
        TrailersTake(c, b.(phase := ChunkedTrailer), s[line.value + 2..]);
        BodyTakes(c, b.(phase := BodyChunkedData(n)), s[line.value + 2..]);
      }
    case BodyChunkedData(n) =>
      if n <= |s| {
        BodyTakes(c, b.(phase := BodyChunkedDataCrlf, consumed := b.consumed + n), s[n..]);
      }
    case BodyChunkedDataCrlf =>
      if |s| >= 2 {
        BodyTakes(c, b.(phase := BodyChunkedSize), s[2..]);
      }
    case ChunkedTrailer => TrailersTake(c, b, s);
    case _ =>
  }

  lemma {:induction false} HeadersTake(r: Rules, m: Option<bytes>, line: StartLine, headers: seq<Field>, s: bytes)
    ensures var e := ReadHeaders(r, m, line, headers, s); e.Got? ==> |e.rest| < |s|
    decreases |s|
  {
    hide Read, CheckHeaderLine, ParseHeaderLine, Kind;
    var pos := FindLine(s);
    if pos.Some? {
      if pos.value == 0 {
        var head := Head(line, headers);
        var k := Kind(r, m, head);
        if k.Ok? {
          BodyTakes(r.body, FreshBody(Kept(head, k.value), k.value), s[2..]);
        }
      } else if ParseHeaderLine(s[..pos.value]).Ok? {
        HeadersTake(r, m, line, headers + [ParseHeaderLine(s[..pos.value]).value], s[pos.value + 2..]);
      }
    }
  }

  lemma MessageTakes(r: Rules, m: Option<bytes>, s: bytes)
    ensures var e := ReadMessage(r, m, s); e.Got? ==> |e.rest| < |s|
  {
    hide ReadHeaders, ParseStartLine;
    var pos := FindLine(s);
    if pos.Some? && ParseStartLine(r, s[..pos.value]).Ok? {
      HeadersTake(r, m, ParseStartLine(r, s[..pos.value]).value, [], s[pos.value + 2..]);
    }
  }

  /** All messages of a stream, and what stops it. */
  datatype Transcript = Transcript(messages: seq<Message>, end: MessageEnd)

  function Prepend(messages: seq<Message>, t: Transcript): Transcript {
    Transcript(messages + t.messages, t.end)
  }

  /** The method of the request that each message answers, as the caller announces it; for
      requests it is never looked at. */
  type Methods = nat -> Option<bytes>

  /** The messages from number `k` on. */
  function ReadMessages(r: Rules, ms: Methods, k: nat, s: bytes): Transcript
    decreases |s|
  {
    var e := ReadMessage(r, ms(k), s);
    if e.Got? then
      MessageTakes(r, ms(k), s);
      Prepend([e.message], ReadMessages(r, ms, k + 1, e.rest))
    else Transcript([], e)
  }
}
