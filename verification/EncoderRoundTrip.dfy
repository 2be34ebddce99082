/** What the encoder writes is what the decoder reads, whatever way the bytes arrive. */
module EncoderRoundTrip {
  import opened Scan
  import opened BodyGrammar
  import opened MessageGrammar
  import opened Framing
  import opened Encoder
  import ChunkWriter
  import MessageRuns

  /** The decoder drops the white space around a value. */
  function Received(f: Field): Field { Field(f.name, TrimOws(f.value)) }

  function ReceivedAll(headers: seq<Field>): (r: seq<Field>)
    ensures |r| == |headers| && forall i :: 0 <= i < |r| ==> r[i] == Received(headers[i])
  {
    seq(|headers|, i requires 0 <= i < |headers| => Received(headers[i]))
  }

  // ---- One line ----

  lemma {:induction false} TrimKeepsAll(s: bytes, p: byte -> bool)
    requires All(s, p)
    ensures All(TrimOws(s), p)
    decreases |s|
  {
    if s != [] && IsBws(s[0]) {
      TrimKeepsAll(s[1..], p);
    } else if s != [] && IsBws(s[|s| - 1]) {
      TrimKeepsAll(s[..|s| - 1], p);
    }
  }

  lemma TrimAfterSpace(s: bytes)
    ensures TrimOws([SP] + s) == TrimOws(s)
  {
    assert ([SP] + s)[1..] == s;
  }

  lemma FieldTextParts(f: Field)
    requires f.name != []
    ensures var line, n := FieldText(f), |f.name|;
            && n < |line| && line[..n] == f.name && line[n] == COLON
            && line[n + 1..] == [SP] + f.value && line[0] == f.name[0]
  {
  }

  lemma FieldTextHasNoBreak(f: Field)
    requires HeaderOk(f)
    ensures CR !in FieldText(f) && LF !in FieldText(f)
  {
    assert forall b :: b in FieldText(f) ==> b in f.name || b == COLON || b == SP || b in f.value;
  }

  lemma NameEndsAtColon(f: Field)
    requires HeaderOk(f)
    ensures Span(FieldText(f), NotColon) == |f.name| && !IsBws(FieldText(f)[0])
  {
    SpanOfSplit(f.name, [COLON, SP] + f.value, NotColon);
  }

  /** A field line has no line break in it and is parsed to the field, trimmed. */
  lemma FieldLineRead(f: Field)
    requires HeaderOk(f)
    ensures var line := FieldText(f);
            line != [] && CR !in line && ParseHeaderLine(line) == Ok(Received(f))
  {
    hide TrimOws, FieldText, IsTchar, IsFieldVchar;
    FieldTextParts(f);
    FieldTextHasNoBreak(f);
    NameEndsAtColon(f);
    TrimAfterSpace(f.value);
    TrimKeepsAll(f.value, IsFieldVchar);
  }

  lemma DecimalStatus(n: nat)
    requires 100 <= n <= 599
    ensures StatusCode(Decimal(n)) == Some(n)
  {
    hide Decimal, DecimalValue;
    assert IsDigit(Decimal(n)[0]);
  }

  lemma SplitThree(a: bytes, b: bytes, c: bytes)
    requires All(a, NotSp) && All(b, NotSp)
    ensures var s := a + ([SP] + (b + ([SP] + c)));
            var t := b + ([SP] + c);
            && Span(s, NotSp) == |a| < |s| && s[..|a|] == a && s[|a| + 1..] == t
            && Span(t, NotSp) == |b| < |t| && t[..|b|] == b && t[|b| + 1..] == c
  {
    var t := b + ([SP] + c);
    SpanOfSplit(a, [SP] + t, NotSp);
    SpanOfSplit(b, [SP] + c, NotSp);
    assert (a + ([SP] + t))[|a|..] == [SP] + t;
    assert t[|b|..] == [SP] + c;
  }

  lemma NoBreaks(a: bytes, b: bytes, c: bytes)
    requires All(a, IsFieldVchar) && All(b, IsFieldVchar) && All(c, IsFieldVchar)
    ensures var s := a + ([SP] + (b + ([SP] + c))); CR !in s && LF !in s
  {
    var s := a + ([SP] + (b + ([SP] + c)));
    assert forall x :: x in s ==> x in a || x == SP || x in b || x in c;
  }

  lemma PlainText(s: bytes)
    ensures All(s, IsTchar) ==> All(s, NotSp) && All(s, IsFieldVchar)
    ensures All(s, IsVisible) ==> All(s, NotSp) && All(s, IsFieldVchar)
    ensures All(s, IsDigit) ==> All(s, NotSp) && All(s, IsFieldVchar)
  {
  }

  lemma RequestLineRead(method_: bytes, target: bytes, version: bytes)
    requires All(method_, NotSp) && All(target, NotSp)
    ensures SplitRequestLine(method_ + ([SP] + (target + ([SP] + version))))
            == Some(RequestLine(method_, target, version))
  {
    hide NotSp;
    SplitThree(method_, target, version);
  }

  lemma StatusLineRead(version: bytes, status: nat, reason: bytes)
    requires All(version, NotSp) && 100 <= status <= 599
    ensures SplitStatusLine(version + ([SP] + (Decimal(status) + ([SP] + reason))))
            == Some(StatusLine(version, status, reason))
  {
    hide NotSp, StatusCode, Decimal;
    DecimalStatus(status);
    PlainText(Decimal(status));
    SplitThree(version, Decimal(status), reason);
  }

  /** The decoder reads a start line back, if it finds nothing wrong with its parts. */
  lemma StartLineRead(c: Checks, r: Rules, line: StartLine)
    requires StartLineOk(c, line) && r.lineOk(line) && (r.side.Server? <==> line.RequestLine?)
    ensures CR !in StartText(line) && ParseStartLine(r, StartText(line)) == Ok(line)
  {
    hide IsTchar, IsVisible, IsDigit, IsFieldVchar, NotSp, Decimal, SplitRequestLine, SplitStatusLine;
    match line
    case RequestLine(method_, target, version) =>
      PlainText(method_);
      PlainText(target);
      PlainText(version);
      RequestLineRead(method_, target, version);
      NoBreaks(method_, target, version);
    case StatusLine(version, status, reason) =>
      PlainText(version);
      PlainText(Decimal(status));
      StatusLineRead(version, status, reason);
      NoBreaks(version, Decimal(status), reason);
  }

  // ---- The head ----

  /** The decoder's limits and its judgements on text have nothing against this head. */
  ghost predicate Carries(r: Rules, line: StartLine, headers: seq<Field>) {
    && r.body.utf8(StartText(line)) && r.lineOk(line) && (r.side.Server? <==> line.RequestLine?)
    && |headers| <= r.body.limits.maxHeadersCount
    && All(headers, HeaderOk)
    && forall i :: 0 <= i < |headers| ==> LineFits(r, headers[i])
  }

  predicate LineFits(r: Rules, f: Field) {
    |FieldText(f)| <= r.body.limits.maxHeaderLineSize && r.body.utf8(FieldText(f))
  }

  lemma HeaderLineTaken(r: Rules, m: Option<bytes>, line: StartLine, done: seq<Field>, f: Field, rest: bytes)
    requires HeaderOk(f) && LineFits(r, f) && |done| < r.body.limits.maxHeadersCount
    ensures ReadHeaders(r, m, line, done, FieldText(f) + (CRLF + rest))
            == ReadHeaders(r, m, line, done + [Received(f)], rest)
  {
    hide FieldText, Kind, ReadBody, ParseHeaderLine;
    var s, n := FieldText(f) + (CRLF + rest), |FieldText(f)|;
    FieldLineRead(f);
    ChunkWriter.LineThenRest(FieldText(f), rest);
    assert s[..n] == FieldText(f) && s[n + 2..] == rest;
    ReadHeadersOnce(r, m, line, done, s);
  }

  lemma ReadHeadersOnce(r: Rules, m: Option<bytes>, line: StartLine, headers: seq<Field>, s: bytes)
    requires FindLine(s).Some? && FindLine(s).value > 0
    requires CheckHeaderLine(r, |headers|, s[..FindLine(s).value]).None?
    requires ParseHeaderLine(s[..FindLine(s).value]).Ok?
    ensures ReadHeaders(r, m, line, headers, s)
         == (var f := ParseHeaderLine(s[..FindLine(s).value]).value;
             ReadHeaders(r, m, line, headers + [f], s[FindLine(s).value + 2..]))
  {
    hide Kind, ReadBody, ParseHeaderLine, CheckHeaderLine;
  }

  lemma {:induction false} FieldsRead(
      r: Rules, m: Option<bytes>, line: StartLine, done: seq<Field>, headers: seq<Field>, rest: bytes)
    requires All(headers, HeaderOk) && |done| + |headers| <= r.body.limits.maxHeadersCount
    requires forall i :: 0 <= i < |headers| ==> LineFits(r, headers[i])
    ensures ReadHeaders(r, m, line, done, FieldsText(headers, rest))
            == ReadHeaders(r, m, line, done + ReceivedAll(headers), rest)
    decreases |headers|
  {
    hide ReadHeaders, FieldText, HeaderOk, LineFits;
    if headers == [] {
      EmptyConcat(done);
    } else {
      HeaderLineTaken(r, m, line, done, headers[0], FieldsText(headers[1..], rest));
      FieldsRead(r, m, line, done + [Received(headers[0])], headers[1..], rest);
      assert ReceivedAll(headers) == [Received(headers[0])] + ReceivedAll(headers[1..]);
      ConcatAssociative(done, [Received(headers[0])], ReceivedAll(headers[1..]));
    }
  }

  /** The meaning of what follows a head. */
  ghost function AfterHead(r: Rules, m: Option<bytes>, head: Head, rest: bytes): MessageEnd {
    var k := Kind(r, m, head);
    if k.Err? then Broken(k.error)
    else ReadBody(r, Kept(head, k.value), k.value, FreshBody(Kept(head, k.value), k.value), [], rest)
  }

  lemma EmptyLineRead(r: Rules, m: Option<bytes>, line: StartLine, headers: seq<Field>, rest: bytes)
    ensures ReadHeaders(r, m, line, headers, CRLF + rest) == AfterHead(r, m, Head(line, headers), rest)
  {
    hide Kind, ReadBody, Kept;
    ChunkWriter.LineThenRest([], rest);
    EmptyConcat(CRLF + rest);
    assert (CRLF + rest)[2..] == rest;
  }

  /** A head that is written is the head that is read. */
  lemma HeadRead(c: Checks, r: Rules, m: Option<bytes>, line: StartLine, headers: seq<Field>, rest: bytes)
    requires StartLineOk(c, line) && Carries(r, line, headers)
    ensures ReadMessage(r, m, HeadText(line, headers, rest)) == AfterHead(r, m, Head(line, ReceivedAll(headers)), rest)
  {
    hide ReadHeaders, AfterHead, StartText, ParseStartLine, LineFits, HeaderOk, ReceivedAll;
    var tail := FieldsText(headers, CRLF + rest);
    var s, n := StartText(line) + (CRLF + tail), |StartText(line)|;
    StartLineRead(c, r, line);
    ChunkWriter.LineThenRest(StartText(line), tail);
    assert s[..n] == StartText(line) && s[n + 2..] == tail;
    FieldsRead(r, m, line, [], headers, CRLF + rest);
    EmptyConcat(ReceivedAll(headers));
    EmptyLineRead(r, m, line, ReceivedAll(headers), rest);
  }

  // ---- The two sides agree on the framing ----

  lemma ReceivedNames(headers: seq<Field>, name: bytes)
    ensures HasHeader(ReceivedAll(headers), name) <==> HasHeader(headers, name)
  {
    hide TrimOws, ToLower;
    var received := ReceivedAll(headers);
    assert forall i :: 0 <= i < |headers| ==> (Named(received[i], name) <==> Named(headers[i], name));
  }

  lemma DigitsAreOneElement(s: bytes)
    requires s != [] && All(s, IsDigit)
    ensures Elements(s) == [s] && TrimOws(s) == s
  {
    EmptyConcat(s);
    SpanOfSplit(s, [], NotComma);
    assert s[..|s|] == s;
  }

  lemma DigitsLength(s: bytes)
    requires s != [] && Number(s).Some?
    ensures LengthOfField(s) == Ok(Number(s))
  {
    hide Elements;
    DigitsAreOneElement(s);
    LengthsOfOne(s);
  }

  lemma LengthsOfOne(s: bytes)
    requires Number(s).Some?
    ensures Lengths([s]) == Ok(Number(s))
  {
    hide Number;
    var none: seq<bytes> := [];
    assert [s][1..] == none && Lengths(none) == Ok(None);
  }

  lemma ContentLengthStep(headers: seq<Field>)
    requires headers != []
    ensures DeclaredLength(headers)
         == Both(if Named(headers[0], CONTENT_LENGTH) then LengthOfField(headers[0].value) else Ok(None),
                 DeclaredLength(headers[1..]))
    ensures ReceivedAll(headers)[1..] == ReceivedAll(headers[1..])
  {
  }

  /** What the encoder accepts as Content-Length, the decoder reads as the same number. */
  lemma {:induction false} AnnouncedAgrees(headers: seq<Field>, prev: Option<nat>)
    requires AnnouncedLength(headers, prev).Ok?
    ensures Both(Ok(prev), DeclaredLength(ReceivedAll(headers))) == Ok(AnnouncedLength(headers, prev).value)
    decreases |headers|
  {
    hide LengthOfField, Number, TrimOws, ToLower, ReceivedAll, DeclaredLength;
    var received := ReceivedAll(headers);
    if headers == [] {
      NoLength(received);
    } else {
      ContentLengthStep(received);
      ReceivedTail(headers);
      ContentLengthIsLength(received[1..]);
      var trimmed := TrimOws(headers[0].value);
      if Named(headers[0], CONTENT_LENGTH) {
        DigitsLength(trimmed);
        AnnouncedAgrees(headers[1..], Number(trimmed));
      } else {
        AnnouncedAgrees(headers[1..], prev);
      }
    }
  }

  lemma NoLength(headers: seq<Field>)
    requires headers == []
    ensures DeclaredLength(headers) == Ok(None)
  {
  }

  lemma ReceivedTail(headers: seq<Field>)
    requires headers != []
    ensures ReceivedAll(headers)[0] == Received(headers[0]) && ReceivedAll(headers)[1..] == ReceivedAll(headers[1..])
  {
  }

  lemma {:induction false} NoFieldNoElements(headers: seq<Field>, name: bytes)
    requires !HasHeader(headers, name)
    ensures FieldElements(headers, name) == []
    decreases |headers|
  {
    hide Named;
    if headers != [] {
      HasHeaderStep(headers, name);
      NoFieldNoElements(headers[1..], name);
    }
  }

  lemma {:induction false} LengthAppended(headers: seq<Field>, n: nat)
    requires n <= USIZE_MAX && !HasHeader(headers, CONTENT_LENGTH)
    ensures DeclaredLength(headers + [LengthField(n)]) == Ok(Some(n))
    decreases |headers|
  {
    hide Named, LengthOfField, DeclaredLength;
    var all := headers + [LengthField(n)];
    ContentLengthOnce(all);
    if headers == [] {
      LengthFieldSays(n);
      assert all[1..] == [];
      NoLength(all[1..]);
    } else {
      HasHeaderStep(headers, CONTENT_LENGTH);
      assert all[1..] == headers[1..] + [LengthField(n)];
      LengthAppended(headers[1..], n);
    }
  }

  lemma ContentLengthOnce(headers: seq<Field>)
    requires headers != []
    ensures DeclaredLength(headers)
         == Both(if Named(headers[0], CONTENT_LENGTH) then LengthOfField(headers[0].value) else Ok(None),
                 DeclaredLength(headers[1..]))
  {
  }

  lemma LengthFieldSays(n: nat)
    requires n <= USIZE_MAX
    ensures Named(LengthField(n), CONTENT_LENGTH) && !Named(LengthField(n), TRANSFER_ENCODING)
    ensures LengthOfField(LengthField(n).value) == Ok(Some(n)) && Received(LengthField(n)) == LengthField(n)
    ensures HeaderOk(LengthField(n))
  {
    hide LengthOfField;
    DigitsLength(Decimal(n));
    DigitsAreOneElement(Decimal(n));
  }

  lemma HasHeaderConcat(a: seq<Field>, b: seq<Field>, name: bytes)
    ensures HasHeader(a + b, name) <==> HasHeader(a, name) || HasHeader(b, name)
  {
    hide Named;
    assert forall i :: 0 <= i < |a| ==> (a + b)[i] == a[i];
    assert forall i :: 0 <= i < |b| ==> (a + b)[|a| + i] == b[i];
    if i :| 0 <= i < |b| && Named(b[i], name) {
      assert Named((a + b)[|a| + i], name);
    }
    if i :| 0 <= i < |a| && Named(a[i], name) {
      assert Named((a + b)[i], name);
    }
  }

  /** The length that the fields announce, with the one that is added. */
  function Announced(headers: seq<Field>, body: Option<bytes>, added: bool): Option<nat> {
    if added then Some(|Bytes(body)|)
    else if AnnouncedLength(headers, None).Ok? then AnnouncedLength(headers, None).value
    else None
  }

  function Added(body: Option<bytes>, added: bool): seq<Field> {
    if added then [LengthField(|Bytes(body)|)] else []
  }

  /** Without a Transfer-Encoding the decoder finds the length that the encoder meant. */
  lemma FramesAgree(headers: seq<Field>, body: Option<bytes>, added: bool)
    requires !HasHeader(headers, TRANSFER_ENCODING) && AnnouncedLength(headers, None).Ok?
    requires added ==> !HasHeader(headers, CONTENT_LENGTH) && |Bytes(body)| <= USIZE_MAX
    ensures var received := ReceivedAll(headers + Added(body, added));
            && !HasHeader(received, TRANSFER_ENCODING)
            && FieldElements(received, TRANSFER_ENCODING) == []
            && DeclaredLength(received) == Ok(Announced(headers, body, added))
  {
    hide Named, AnnouncedLength, DeclaredLength, ReceivedAll;
    var n := |Bytes(body)|;
    var fields := headers + Added(body, added);
    ReceivedNames(headers, CONTENT_LENGTH);
    ReceivedNames(fields, TRANSFER_ENCODING);
    HasHeaderConcat(headers, Added(body, added), TRANSFER_ENCODING);
    ReceivedConcat(headers, Added(body, added));
    if added {
      LengthFieldSays(n);
      ReceivedOne(LengthField(n));
      LengthAppended(ReceivedAll(headers), n);
    } else {
      AnnouncedAgrees(headers, None);
      ContentLengthIsLength(ReceivedAll(headers));
      EmptyConcat(headers);
    }
    NoFieldNoElements(ReceivedAll(fields), TRANSFER_ENCODING);
  }

  lemma ReceivedConcat(a: seq<Field>, b: seq<Field>)
    ensures ReceivedAll(a + b) == ReceivedAll(a) + ReceivedAll(b)
  {
  }

  lemma ReceivedOne(f: Field)
    ensures ReceivedAll([f]) == [Received(f)]
  {
  }

  lemma NothingToCode(headers: seq<Field>)
    requires FieldElements(headers, TRANSFER_ENCODING) == []
    ensures ChunkedRequest(headers) == Ok(false) && ResponseCodings(headers) == Ok(NoCoding)
  {
  }

  /** Something is announced exactly when there is a Content-Length. */
  lemma {:induction false} AnnouncedSome(headers: seq<Field>, prev: Option<nat>)
    requires AnnouncedLength(headers, prev).Ok?
    ensures AnnouncedLength(headers, prev).value.Some? <==> prev.Some? || HasHeader(headers, CONTENT_LENGTH)
    decreases |headers|
  {
    hide Named, TrimOws, Number;
    if headers != [] {
      HasHeaderStep(headers, CONTENT_LENGTH);
      if Named(headers[0], CONTENT_LENGTH) {
        AnnouncedSome(headers[1..], Number(TrimOws(headers[0].value)));
      } else {
        AnnouncedSome(headers[1..], prev);
      }
    }
  }

  // ---- Requests ----

  lemma SizedBodyRead(r: Rules, head: Head, body: bytes, rest: bytes)
    requires |body| <= r.body.limits.maxBodySize
    ensures var k := ContentLength(|body|);
            ReadBody(r, head, k, FreshBody(head, k), [], body + rest) == Got(Message(head, Some(body)), [], rest)
  {
    EmptyConcat(body);
    EmptyConcat(rest);
  }

  lemma ChunkedBodyRead(r: Rules, head: Head, chunks: seq<bytes>, rest: bytes)
    requires [] !in chunks && ChunkWriter.Fits(r.body, 0, chunks)
    ensures ReadBody(r, head, Chunked, FreshBody(head, Chunked), [], ChunkWriter.ChunksText(chunks, []) + rest)
         == Got(Message(head, Some(Concat(chunks))), [], rest)
  {
    hide Read;
    var b := FreshBody(head, Chunked);
    ChunkWriter.ChunksTextAppend(chunks, rest);
    ChunkWriter.EncodedChunksRead(r.body, b, chunks, rest);
    ChunkWriter.LeadingAll(chunks, rest);
    EmptyConcat(Concat(chunks));
  }

  /** What one encoding is and what it should be read as: a head as it is written, the bytes behind
      it, and the message. */
  datatype Parcel = Parcel(line: StartLine, fields: seq<Field>, content: bytes, message: Message)

  function ParcelText(p: Parcel, rest: bytes): bytes { HeadText(p.line, p.fields, p.content + rest) }

  /** Whatever follows it, the text is read as the message, to its last byte and not beyond. */
  ghost predicate Arrives(r: Rules, m: Option<bytes>, p: Parcel) {
    forall rest :: ReadMessage(r, m, ParcelText(p, rest)) == Got(p.message, [], rest)
  }

  /** An accepted request without Transfer-Encoding. */
  function PlainRequest(line: StartLine, headers: seq<Field>, body: Option<bytes>): Parcel {
    var fields := RequestFields(headers, body);
    var back := if body.None? && !HasHeader(headers, CONTENT_LENGTH) then None else Some(Bytes(body));
    Parcel(line, fields, Bytes(body), Message(Head(line, ReceivedAll(fields)), back))
  }

  /** The decoder has no objection that the encoder cannot know of: its limits, and its own
      judgements on the start line and on Host. CONNECT opens a tunnel instead. */
  ghost predicate RequestAdmitted(r: Rules, line: StartLine, fields: seq<Field>) {
    && r.side.Server? && line.RequestLine? && line.method_ != CONNECT
    && Carries(r, line, fields)
    && (line.version == HTTP11 ==> r.hostOk(ReceivedAll(fields)))
  }

  lemma HeadErrorFree(c: Checks, line: StartLine, headers: seq<Field>)
    requires HeadError(c, line, headers).None?
    ensures StartLineOk(c, line) && All(headers, HeaderOk)
    ensures !(HasHeader(headers, TRANSFER_ENCODING) && HasHeader(headers, CONTENT_LENGTH))
  {
  }

  lemma LengthErrorFree(headers: seq<Field>, n: nat, validate: bool)
    requires LengthError(headers, n, validate).None? && !HasHeader(headers, TRANSFER_ENCODING)
    ensures AnnouncedLength(headers, None).Ok?
    ensures validate ==> AnnouncedLength(headers, None).value.None? || AnnouncedLength(headers, None).value == Some(n)
  {
  }

  /** Encoding and decoding a request gives it back: the method, the target, the version, the fields
      without the white space around their values and with a Content-Length where one was added,
      and the body - unless there was none and a Content-Length of 0 was sent, when it comes back
      empty. */
  lemma PlainRequestArrives(
      c: Checks, r: Rules, m: Option<bytes>, line: StartLine, headers: seq<Field>, body: Option<bytes>)
    requires line.RequestLine? && RequestError(c, line, headers, body).None?
    requires !HasHeader(headers, TRANSFER_ENCODING)
    requires |Bytes(body)| <= r.body.limits.maxBodySize
    requires RequestAdmitted(r, line, RequestFields(headers, body))
    ensures Arrives(r, m, PlainRequest(line, headers, body))
    ensures PlainRequest(line, headers, body).message.body == body
       <==> !(body == None && HasHeader(headers, CONTENT_LENGTH))
  {
    hide HeadText, ReadMessage, AfterHead, HasHeader, Carries, AnnouncedLength, ReceivedAll, HeadError, StartLineOk;
    var p := PlainRequest(line, headers, body);
    HeadErrorFree(c, line, headers);
    LengthErrorFree(headers, |Bytes(body)|, true);
    AnnouncedSome(headers, None);
    var added := body.Some? && !HasFraming(headers);
    FramesAgree(headers, body, added);
    NothingToCode(ReceivedAll(p.fields));
    forall rest
      ensures ReadMessage(r, m, ParcelText(p, rest)) == Got(p.message, [], rest)
    {
      HeadRead(c, r, m, line, p.fields, p.content + rest);
      PlainRequestBody(r, m, p, headers, body, rest);
    }
  }

  lemma PlainRequestBody(r: Rules, m: Option<bytes>, p: Parcel, headers: seq<Field>, body: Option<bytes>, rest: bytes)
    requires p == PlainRequest(p.line, headers, body) && RequestAdmitted(r, p.line, p.fields)
    requires |Bytes(body)| <= r.body.limits.maxBodySize
    requires RequestFrame(p.message.head.headers)
          == Ok(Frame(false, if body.None? && !HasHeader(headers, CONTENT_LENGTH) then None else Some(|Bytes(body)|)))
    ensures AfterHead(r, m, p.message.head, p.content + rest) == Got(p.message, [], rest)
  {
    hide HasHeader, Carries, ReceivedAll, RequestFields, RequestFrame, Read;
    EmptyConcat(rest);
    SizedBodyRead(r, p.message.head, Bytes(body), rest);
  }

  /** An accepted message that says it is chunked, with a body that `encode_chunks` wrote. */
  function ChunkedParcel(line: StartLine, headers: seq<Field>, chunks: seq<bytes>): Parcel {
    Parcel(line, headers, ChunkWriter.ChunksText(chunks, []),
           Message(Head(line, ReceivedAll(headers)), Some(Concat(chunks))))
  }

  lemma ChunkedRequestArrives(
      c: Checks, r: Rules, m: Option<bytes>, line: StartLine, headers: seq<Field>, chunks: seq<bytes>)
    requires line.RequestLine? && RequestError(c, line, headers, Some(ChunkWriter.ChunksText(chunks, []))).None?
    requires line.version == HTTP11 && DecodedChunked(headers)
    requires [] !in chunks && ChunkWriter.Fits(r.body, 0, chunks)
    requires RequestAdmitted(r, line, headers)
    ensures RequestFields(headers, Some(ChunkWriter.ChunksText(chunks, []))) == headers
    ensures Arrives(r, m, ChunkedParcel(line, headers, chunks))
  {
    hide HeadText, ReadMessage, Kind, HasHeader, Carries, AnnouncedLength, ReceivedAll, HeadError;
    hide StartLineOk, ReadBody, ChunkedRequest;
    var p := ChunkedParcel(line, headers, chunks);
    HeadErrorFree(c, line, headers);
    EmptyConcat(headers);
    ReceivedNames(headers, TRANSFER_ENCODING);
    ReceivedNames(headers, CONTENT_LENGTH);
    ChunkedHasField(ReceivedAll(headers));
    DeclaredNothing(ReceivedAll(headers));
    ChunkedKind(r, m, p.message.head);
    forall rest
      ensures ReadMessage(r, m, ParcelText(p, rest)) == Got(p.message, [], rest)
    {
      HeadRead(c, r, m, line, headers, p.content + rest);
      ChunkedBodyRead(r, p.message.head, chunks, rest);
    }
  }

  /** The decoder sees one coding, "chunked". */
  ghost predicate DecodedChunked(headers: seq<Field>) { ChunkedRequest(ReceivedAll(headers)) == Ok(true) }

  lemma ChunkedHasField(headers: seq<Field>)
    requires ChunkedRequest(headers) == Ok(true)
    ensures HasHeader(headers, TRANSFER_ENCODING)
  {
    hide ChunkedRequest, HasHeader;
    RequestIsChunked(headers);
    if !HasHeader(headers, TRANSFER_ENCODING) {
      NoFieldNoElements(headers, TRANSFER_ENCODING);
    }
  }

  lemma DeclaredNothing(headers: seq<Field>)
    requires !HasHeader(headers, CONTENT_LENGTH)
    ensures DeclaredLength(headers) == Ok(None)
  {
    ContentLengthIsUnanimous(headers, 0);
  }

  lemma ChunkedKind(r: Rules, m: Option<bytes>, head: Head)
    requires head.line.RequestLine? && head.line.method_ != CONNECT && head.line.version == HTTP11
    requires r.hostOk(head.headers)
    requires ChunkedRequest(head.headers) == Ok(true) && DeclaredLength(head.headers) == Ok(None)
    ensures Kind(r, m, head) == Ok(Chunked) && Kept(head, Chunked) == head
  {
    hide ChunkedRequest, DeclaredLength;
  }

  // ---- Responses ----

  /** A body of `n` bytes, taken from the front of `s`. */
  function SizedReading(r: Rules, head: Head, n: nat, s: bytes): MessageEnd {
    if n > r.body.limits.maxBodySize then Broken(BodyTooLarge(n, r.body.limits.maxBodySize))
    else if |s| < n then Waiting
    else Got(Message(head, Some(s[..n])), [], s[n..])
  }

  /** The length that a response announces. */
  function ResponseLength(status: nat, headers: seq<Field>, body: Option<bytes>, omit: bool): Option<nat> {
    Announced(headers, body, AddsLength(status, headers, body, omit))
  }

  /** What an accepted response without Transfer-Encoding is read as, when the request it answers
      was made with method `m`: the method and the status decide whether there is a body, and the
      announced length where it ends - also when the encoder was told to omit the body. */
  lemma PlainResponseRead(
      c: Checks, r: Rules, m: Option<bytes>, line: StartLine, headers: seq<Field>, body: Option<bytes>,
      omit: bool, rest: bytes)
    requires line.StatusLine? && ResponseError(c, line, headers, body, omit).None?
    requires !HasHeader(headers, TRANSFER_ENCODING) && |Bytes(body)| <= USIZE_MAX
    requires r.side.Client? && Carries(r, line, ResponseFields(line.status, headers, body, omit))
    ensures var fields := ResponseFields(line.status, headers, body, omit);
            var head := Head(line, ReceivedAll(fields));
            var sent := ResponseBytes(line.status, body, omit);
            var length := ResponseLength(line.status, headers, body, omit);
            var reading := ReadMessage(r, m, HeadText(line, fields, sent + rest));
            if m == Some(HEAD) || !StatusHasBody(line.status) then
              reading == Got(Message(head, None), [], sent + rest)
            else if m == Some(CONNECT) && 200 <= line.status < 300 then
              reading == AtTunnel(sent + rest)
            else if length.None? then
              reading == if |sent + rest| > r.body.limits.maxBodySize then Overlong
                         else UntilClose(Message(head, Some(sent + rest)))
            else
              reading == SizedReading(r, head, length.value, sent + rest)
    ensures StatusHasBody(line.status) ==>
              var length := ResponseLength(line.status, headers, body, omit);
              && (length.Some? <==> AddsLength(line.status, headers, body, omit) || HasHeader(headers, CONTENT_LENGTH))
              && (length.Some? && (!omit || Bytes(body) != []) ==> length.value == |Bytes(body)|)
  {
    hide HeadText, ReadMessage, HasHeader, Carries, AnnouncedLength, ReceivedAll, HeadError, StartLineOk;
    hide StatusError, ReadBody;
    hide SizedReading;
    var status := line.status;
    var fields := ResponseFields(status, headers, body, omit);
    var head := Head(line, ReceivedAll(fields));
    var sent := ResponseBytes(status, body, omit);
    HeadErrorFree(c, line, headers);
    HeadRead(c, r, m, line, fields, sent + rest);
    if StatusHasBody(status) {
      LengthErrorFree(headers, |Bytes(body)|, !omit || Bytes(body) != []);
      AnnouncedSome(headers, None);
      var added := AddsLength(status, headers, body, omit);
      FramesAgree(headers, body, added);
      NothingToCode(ReceivedAll(fields));
      if m != Some(HEAD) {
        PlainResponseBody(r, m, head, Announced(headers, body, added), sent + rest);
      }
    }
    NoBodyRead(r, head, sent + rest);
  }

  lemma NoBodyRead(r: Rules, head: Head, s: bytes)
    ensures ReadBody(r, head, NoBody, FreshBody(head, NoBody), [], s) == Got(Message(head, None), [], s)
  {
  }

  lemma PlainResponseBody(r: Rules, m: Option<bytes>, head: Head, length: Option<nat>, s: bytes)
    requires head.line.StatusLine? && StatusHasBody(head.line.status) && m != Some(HEAD)
    requires !HasHeader(head.headers, TRANSFER_ENCODING)
    requires ResponseFrame(head.headers) == Ok((NoCoding, length))
    ensures var reading := AfterHead(r, m, head, s);
            if m == Some(CONNECT) && 200 <= head.line.status < 300 then reading == AtTunnel(s)
            else if length.None? then
              reading == if |s| > r.body.limits.maxBodySize then Overlong else UntilClose(Message(head, Some(s)))
            else reading == SizedReading(r, head, length.value, s)
  {
    hide HasHeader, ResponseFrame, WithoutFraming;
    EmptyConcat(s);
    if length.Some? {
      EmptyConcat(s[..if length.value <= |s| then length.value else 0]);
    }
  }

  /** An accepted response without Transfer-Encoding, to a request made with method `m`. */
  function PlainResponse(
      m: Option<bytes>, line: StartLine, headers: seq<Field>, body: Option<bytes>, omit: bool): Parcel
    requires line.StatusLine?
  {
    var fields := ResponseFields(line.status, headers, body, omit);
    var back := if m == Some(HEAD) || !StatusHasBody(line.status) then None else Some(Bytes(body));
    Parcel(line, fields, ResponseBytes(line.status, body, omit), Message(Head(line, ReceivedAll(fields)), back))
  }

  /** Whether the end of a response can be seen from its text. */
  ghost predicate HasEnd(
      m: Option<bytes>, status: nat, headers: seq<Field>, body: Option<bytes>, omit: bool)
  {
    if m == Some(HEAD) || !StatusHasBody(status) then !StatusHasBody(status) || omit || Bytes(body) == []
    else if m == Some(CONNECT) && 200 <= status < 300 then false
    else if omit then ResponseLength(status, headers, body, omit) == Some(0)
    else body.Some? || HasHeader(headers, CONTENT_LENGTH)
  }

  /** A response can be followed by another on the same connection exactly when it answers HEAD
      without sending a body, or has a status without a body, or sends a body or a Content-Length of
      its own, or omits its body and announces that it is empty; never when it opens a tunnel. */
  lemma PlainResponseArrives(
      c: Checks, r: Rules, m: Option<bytes>, line: StartLine, headers: seq<Field>, body: Option<bytes>, omit: bool)
    requires line.StatusLine? && ResponseError(c, line, headers, body, omit).None?
    requires !HasHeader(headers, TRANSFER_ENCODING) && |Bytes(body)| <= r.body.limits.maxBodySize
    requires r.side.Client? && Carries(r, line, ResponseFields(line.status, headers, body, omit))
    ensures Arrives(r, m, PlainResponse(m, line, headers, body, omit)) <==> HasEnd(m, line.status, headers, body, omit)
  {
    hide HeadText, ReadMessage, HasHeader, Carries, ReceivedAll, ResponseError, ResponseLength, SizedReading;
    hide AddsLength;
    var p := PlainResponse(m, line, headers, body, omit);
    var bodiless := m == Some(HEAD) || !StatusHasBody(line.status);
    WhenLengthIsAdded(line.status, headers, body, omit);
    if HasEnd(m, line.status, headers, body, omit) || bodiless {
      forall rest
        ensures ReadMessage(r, m, ParcelText(p, rest))
                == Got(p.message, [], if bodiless then p.content + rest else rest)
      {
        PlainResponseRead(c, r, m, line, headers, body, omit, rest);
        SizedReadingOf(r, p.message.head, p.content, rest);
      }
    } else {
      PlainResponseRead(c, r, m, line, headers, body, omit, []);
      EmptyConcat(p.content);
      SizedReadingOfNothing(r, p.message.head, ResponseLength(line.status, headers, body, omit));
    }
    ArrivesOrNot(r, m, p);
  }

  lemma SizedReadingOfNothing(r: Rules, head: Head, length: Option<nat>)
    ensures length.Some? && length.value > 0 ==> !SizedReading(r, head, length.value, []).Got?
  {
  }

  lemma SizedReadingOf(r: Rules, head: Head, body: bytes, rest: bytes)
    requires |body| <= r.body.limits.maxBodySize
    ensures SizedReading(r, head, |body|, body + rest) == Got(Message(head, Some(body)), [], rest)
  {
    assert (body + rest)[..|body|] == body && (body + rest)[|body|..] == rest;
  }

  lemma WhenLengthIsAdded(status: nat, headers: seq<Field>, body: Option<bytes>, omit: bool)
    requires !HasHeader(headers, TRANSFER_ENCODING)
    ensures AddsLength(status, headers, body, omit) || HasHeader(headers, CONTENT_LENGTH) ==>
              body.Some? || HasHeader(headers, CONTENT_LENGTH)
    ensures StatusHasBody(status) && !omit && body.Some? ==>
              AddsLength(status, headers, body, omit) || HasHeader(headers, CONTENT_LENGTH)
  {
    hide HasHeader;
  }

  /** To arrive is to be read with nothing behind it left over and nothing in front of it missing. */
  lemma ArrivesOrNot(r: Rules, m: Option<bytes>, p: Parcel)
    ensures (forall rest :: ReadMessage(r, m, ParcelText(p, rest)) == Got(p.message, [], p.content + rest)) ==>
              (Arrives(r, m, p) <==> p.content == [])
    ensures !ReadMessage(r, m, ParcelText(p, [])).Got? ==> !Arrives(r, m, p)
  {
    hide ReadMessage, ParcelText;
    if forall rest :: ReadMessage(r, m, ParcelText(p, rest)) == Got(p.message, [], p.content + rest) {
      assert ReadMessage(r, m, ParcelText(p, [])) == Got(p.message, [], p.content + []);
      EmptyConcat(p.content);
      forall rest: bytes
        ensures [] + rest == rest
      {
        EmptyConcat(rest);
      }
    }
    if Arrives(r, m, p) {
      assert ReadMessage(r, m, ParcelText(p, [])) == Got(p.message, [], []);
    }
  }

  /** The chunked counterpart, for a response that has a body. */
  lemma ChunkedResponseArrives(
      c: Checks, r: Rules, m: Option<bytes>, line: StartLine, headers: seq<Field>, chunks: seq<bytes>)
    requires line.StatusLine? && ResponseError(c, line, headers, Some(ChunkWriter.ChunksText(chunks, [])), false).None?
    requires line.version == HTTP11 && ResponseCodings(ReceivedAll(headers)) == Ok(ChunkedLast)
    requires StatusHasBody(line.status) && m != Some(HEAD) && !(m == Some(CONNECT) && 200 <= line.status < 300)
    requires [] !in chunks && ChunkWriter.Fits(r.body, 0, chunks)
    requires r.side.Client? && Carries(r, line, headers)
    ensures ResponseFields(line.status, headers, Some(ChunkWriter.ChunksText(chunks, [])), false) == headers
    ensures Arrives(r, m, ChunkedParcel(line, headers, chunks))
  {
    hide HeadText, ReadMessage, Kind, HasHeader, Carries, AnnouncedLength, ReceivedAll, HeadError;
    hide StartLineOk, ReadBody;
    hide ResponseCodings, StatusError;
    var p := ChunkedParcel(line, headers, chunks);
    HeadErrorFree(c, line, headers);
    EmptyConcat(headers);
    ReceivedNames(headers, TRANSFER_ENCODING);
    ReceivedNames(headers, CONTENT_LENGTH);
    CodedHasField(ReceivedAll(headers));
    DeclaredNothing(ReceivedAll(headers));
    ChunkedResponseKind(r, m, p.message.head);
    forall rest
      ensures ReadMessage(r, m, ParcelText(p, rest)) == Got(p.message, [], rest)
    {
      HeadRead(c, r, m, line, headers, p.content + rest);
      ChunkedBodyRead(r, p.message.head, chunks, rest);
    }
  }

  lemma CodedHasField(headers: seq<Field>)
    requires ResponseCodings(headers) == Ok(ChunkedLast) || ResponseCodings(headers) == Ok(OtherLast)
    ensures HasHeader(headers, TRANSFER_ENCODING)
  {
    hide ResponseCodings, HasHeader;
    if !HasHeader(headers, TRANSFER_ENCODING) {
      NoFieldNoElements(headers, TRANSFER_ENCODING);
      NothingToCode(headers);
    }
  }

  lemma ChunkedResponseKind(r: Rules, m: Option<bytes>, head: Head)
    requires head.line.StatusLine? && head.line.version == HTTP11 && StatusHasBody(head.line.status)
    requires m != Some(HEAD) && !(m == Some(CONNECT) && 200 <= head.line.status < 300)
    requires ResponseCodings(head.headers) == Ok(ChunkedLast) && DeclaredLength(head.headers) == Ok(None)
    ensures Kind(r, m, head) == Ok(Chunked) && Kept(head, Chunked) == head
  {
    hide ResponseCodings, DeclaredLength, HasHeader;
  }

  /** A response whose last coding is not "chunked" lasts until the connection is closed. */
  lemma OtherCodedResponseRead(
      c: Checks, r: Rules, m: Option<bytes>, line: StartLine, headers: seq<Field>, body: Option<bytes>, rest: bytes)
    requires line.StatusLine? && ResponseError(c, line, headers, body, false).None?
    requires line.version == HTTP11 && ResponseCodings(ReceivedAll(headers)) == Ok(OtherLast)
    requires StatusHasBody(line.status) && m != Some(HEAD) && !(m == Some(CONNECT) && 200 <= line.status < 300)
    requires r.side.Client? && Carries(r, line, headers)
    ensures ResponseFields(line.status, headers, body, false) == headers
    ensures var s := Bytes(body) + rest;
            ReadMessage(r, m, HeadText(line, headers, s))
            == if |s| > r.body.limits.maxBodySize then Overlong
               else UntilClose(Message(Head(line, ReceivedAll(headers)), Some(s)))
  {
    hide HeadText, ReadMessage, Kind, HasHeader, Carries, AnnouncedLength, ReceivedAll, HeadError, StartLineOk;
    hide ResponseCodings, StatusError, AfterHead;
    var head := Head(line, ReceivedAll(headers));
    HeadErrorFree(c, line, headers);
    EmptyConcat(headers);
    ReceivedNames(headers, TRANSFER_ENCODING);
    ReceivedNames(headers, CONTENT_LENGTH);
    CodedHasField(ReceivedAll(headers));
    DeclaredNothing(ReceivedAll(headers));
    OtherCodedKind(r, m, head);
    HeadRead(c, r, m, line, headers, Bytes(body) + rest);
    CloseDelimitedRead(r, m, head, Bytes(body) + rest);
  }

  lemma OtherCodedKind(r: Rules, m: Option<bytes>, head: Head)
    requires head.line.StatusLine? && head.line.version == HTTP11 && StatusHasBody(head.line.status)
    requires m != Some(HEAD) && !(m == Some(CONNECT) && 200 <= head.line.status < 300)
    requires ResponseCodings(head.headers) == Ok(OtherLast) && DeclaredLength(head.headers) == Ok(None)
    ensures Kind(r, m, head) == Ok(CloseDelimited)
  {
    hide ResponseCodings, DeclaredLength, HasHeader;
  }

  lemma CloseDelimitedRead(r: Rules, m: Option<bytes>, head: Head, s: bytes)
    requires Kind(r, m, head) == Ok(CloseDelimited)
    ensures AfterHead(r, m, head, s)
         == if |s| > r.body.limits.maxBodySize then Overlong else UntilClose(Message(head, Some(s)))
  {
    hide Kind;
    EmptyConcat(s);
  }

  /** A CONNECT request opens a tunnel behind its head, whatever its framing fields say. */
  lemma ConnectRequestRead(
      c: Checks, r: Rules, m: Option<bytes>, line: StartLine, headers: seq<Field>, body: Option<bytes>, rest: bytes)
    requires line.RequestLine? && line.method_ == CONNECT && RequestError(c, line, headers, body).None?
    requires var fields := RequestFields(headers, body);
             r.side.Server? && Carries(r, line, fields) && (line.version == HTTP11 ==> r.hostOk(ReceivedAll(fields)))
    ensures ReadMessage(r, m, HeadText(line, RequestFields(headers, body), Bytes(body) + rest))
            == AtTunnel(Bytes(body) + rest)
  {
    hide HeadText, ReadMessage, HasHeader, Carries, ReceivedAll, StartLineOk, RequestFields;
    HeadErrorFree(c, line, headers);
    HeadRead(c, r, m, line, RequestFields(headers, body), Bytes(body) + rest);
  }

  // ---- From encoder to decoder, whatever happens in between ----

  /** The texts of some messages, one behind the other. */
  function Stream(ps: seq<Parcel>, rest: bytes): bytes
    decreases |ps|
  {
    if ps == [] then rest else ParcelText(ps[0], Stream(ps[1..], rest))
  }

  /** What `EncodeRequest` and `EncodeResponse` return for each. */
  function Texts(ps: seq<Parcel>): seq<bytes> {
    seq(|ps|, i requires 0 <= i < |ps| => HeadText(ps[i].line, ps[i].fields, ps[i].content))
  }

  function Messages(ps: seq<Parcel>): seq<Message> {
    seq(|ps|, i requires 0 <= i < |ps| => ps[i].message)
  }

  /** With nothing behind it, the text of a parcel is the encoding. */
  lemma ParcelIsEncoding(p: Parcel)
    ensures ParcelText(p, []) == HeadText(p.line, p.fields, p.content)
  {
    hide HeadText;
    EmptyConcat(p.content);
  }

  lemma ParcelTextThen(p: Parcel, rest: bytes)
    ensures ParcelText(p, rest) == ParcelText(p, []) + rest
  {
    hide StartText, FieldsText;
    var body := CRLF + p.content;
    EmptyConcat(p.content);
    ConcatAssociative(CRLF, p.content, rest);
    FieldsTextThen(p.fields, CRLF + (p.content + rest));
    FieldsTextThen(p.fields, body);
    ConcatAssociative(FieldsText(p.fields, []), body, rest);
    ConcatAssociative(CRLF, FieldsText(p.fields, []) + body, rest);
    ConcatAssociative(StartText(p.line), CRLF + (FieldsText(p.fields, []) + body), rest);
  }

  lemma {:induction false} TextsAreStream(ps: seq<Parcel>, rest: bytes)
    ensures Concat(Texts(ps)) + rest == Stream(ps, rest)
    decreases |ps|
  {
    hide ParcelText, HeadText;
    if ps == [] {
      EmptyConcat(rest);
    } else {
      assert Texts(ps)[1..] == Texts(ps[1..]);
      TextsAreStream(ps[1..], rest);
      ParcelIsEncoding(ps[0]);
      ParcelTextThen(ps[0], Stream(ps[1..], rest));
      ConcatAssociative(Texts(ps)[0], Concat(Texts(ps[1..])), rest);
    }
  }

  lemma ReadMessagesOnce(r: Rules, ms: Methods, k: nat, s: bytes)
    requires ReadMessage(r, ms(k), s).Got?
    ensures var e := ReadMessage(r, ms(k), s);
            ReadMessages(r, ms, k, s) == Prepend([e.message], ReadMessages(r, ms, k + 1, e.rest))
  {
    hide ReadMessage;
  }

  lemma {:induction false} StreamRead(r: Rules, ms: Methods, k: nat, ps: seq<Parcel>, rest: bytes)
    requires forall i :: 0 <= i < |ps| ==> Arrives(r, ms(k + i), ps[i])
    ensures ReadMessages(r, ms, k, Stream(ps, rest)) == Prepend(Messages(ps), ReadMessages(r, ms, k + |ps|, rest))
    decreases |ps|
  {
    hide ParcelText, ReadMessages, ReadMessage;
    if ps == [] {
      EmptyConcat(ReadMessages(r, ms, k, rest).messages);
    } else {
      var tail := Stream(ps[1..], rest);
      assert Arrives(r, ms(k + 0), ps[0]);
      assert ReadMessage(r, ms(k), ParcelText(ps[0], tail)) == Got(ps[0].message, [], tail);
      ReadMessagesOnce(r, ms, k, ParcelText(ps[0], tail));
      forall i | 0 <= i < |ps[1..]|
        ensures Arrives(r, ms(k + 1 + i), ps[1..][i])
      {
        assert Arrives(r, ms(k + (i + 1)), ps[i + 1]);
      }
      StreamRead(r, ms, k + 1, ps[1..], rest);
      assert Messages(ps) == [ps[0].message] + Messages(ps[1..]);
      ConcatAssociative([ps[0].message], Messages(ps[1..]), ReadMessages(r, ms, k + |ps|, rest).messages);
    }
  }

  lemma LastToRead(r: Rules, ms: Methods, k: nat, last: bytes)
    requires !ReadMessage(r, ms(k), last).Got?
    ensures ReadMessages(r, ms, k, last) == Transcript([], ReadMessage(r, ms(k), last))
  {
    hide ReadMessage;
  }

  lemma NothingToRead(r: Rules, m: Option<bytes>)
    ensures ReadMessage(r, m, []) == Waiting
  {
  }

  lemma StreamThenLast(r: Rules, ms: Methods, ps: seq<Parcel>, last: bytes)
    requires forall i :: 0 <= i < |ps| ==> Arrives(r, ms(i), ps[i])
    requires !ReadMessage(r, ms(|ps|), last).Got?
    ensures ReadMessages(r, ms, 0, Concat(Texts(ps)) + last)
         == Transcript(Messages(ps), ReadMessage(r, ms(|ps|), last))
  {
    hide ReadMessages, ReadMessage, Arrives, Stream, Texts;
    TextsAreStream(ps, last);
    forall i | 0 <= i < |ps|
      ensures Arrives(r, ms(0 + i), ps[i])
    {
    }
    StreamRead(r, ms, 0, ps, last);
    LastToRead(r, ms, |ps|, last);
    EmptyConcat(Messages(ps));
  }

  /** An exhausted run over a text: fed in any pieces, with `decode` called at any time. */
  ghost predicate RunsOver(r: Rules, ms: Methods, ops: seq<MessageRuns.Op>, text: bytes) {
    && MessageRuns.Sound(r, MessageRuns.Start(ms)) && MessageRuns.Legal(r, ms, MessageRuns.Start(ms), ops)
    && MessageRuns.Exhausted(r, Final(r, ms, ops)) && Final(r, ms, ops).fed == text
  }

  /** Where it ends. */
  function Final(r: Rules, ms: Methods, ops: seq<MessageRuns.Op>): (w: MessageRuns.World)
    requires MessageRuns.Sound(r, MessageRuns.Start(ms)) && MessageRuns.Legal(r, ms, MessageRuns.Start(ms), ops)
    ensures MessageRuns.Sound(r, w)
  {
    MessageRuns.RunAll(r, ms, MessageRuns.Start(ms), ops)
  }

  lemma RunKnows(r: Rules, ms: Methods, ops: seq<MessageRuns.Op>, text: bytes)
    requires RunsOver(r, ms, ops, text)
    ensures MessageRuns.Known(Final(r, ms, ops)) == ReadMessages(r, ms, 0, text)
  {
    hide ReadMessages, MessageRuns.Legal, MessageRuns.RunAll, MessageRuns.Exhausted, MessageRuns.Sound;
    MessageRuns.PipelineIsFragmentationFree(r, ms, ops);
  }

  /** End to end: messages that were encoded one after the other, and a last text that is not
      followed by another message, cut into pieces in any way and brought in by `feed` or by
      reserved buffers, with `decode` called at any time, come out as the same messages in the same
      order, and then the caller knows what the last text means: an incomplete message, a tunnel, a
      body that lasts until the connection is closed, or an error. */
  lemma EndToEndThen(r: Rules, ms: Methods, ps: seq<Parcel>, last: bytes, ops: seq<MessageRuns.Op>)
    requires forall i :: 0 <= i < |ps| ==> Arrives(r, ms(i), ps[i])
    requires !ReadMessage(r, ms(|ps|), last).Got?
    requires RunsOver(r, ms, ops, Concat(Texts(ps)) + last)
    ensures MessageRuns.Known(Final(r, ms, ops)) == Transcript(Messages(ps), ReadMessage(r, ms(|ps|), last))
  {
    hide ReadMessages, ReadMessage, Arrives, Texts, RunsOver, Final, MessageRuns.Known;
    RunKnows(r, ms, ops, Concat(Texts(ps)) + last);
    StreamThenLast(r, ms, ps, last);
  }

  /** With nothing behind the messages, the decoder waits for more. */
  lemma EndToEnd(r: Rules, ms: Methods, ps: seq<Parcel>, ops: seq<MessageRuns.Op>)
    requires forall i :: 0 <= i < |ps| ==> Arrives(r, ms(i), ps[i])
    requires RunsOver(r, ms, ops, Concat(Texts(ps)))
    ensures MessageRuns.Known(Final(r, ms, ops)) == Transcript(Messages(ps), Waiting)
  {
    hide ReadMessage, Arrives, RunsOver, Final, MessageRuns.Known;
    EmptyConcat(Concat(Texts(ps)));
    NothingToRead(r, ms(|ps|));
    EndToEndThen(r, ms, ps, [], ops);
  }

  /** With a close-delimited response behind them, `mark_eof` and one more `decode` return that
      response with its whole body. */
  lemma EndToEndThenClose(
      r: Rules, ms: Methods, ps: seq<Parcel>, last: bytes, message: Message, ops: seq<MessageRuns.Op>)
    requires forall i :: 0 <= i < |ps| ==> Arrives(r, ms(i), ps[i])
    requires ReadMessage(r, ms(|ps|), last) == UntilClose(message)
    requires RunsOver(r, ms, ops, Concat(Texts(ps)) + last)
    ensures Final(r, ms, ops).messages == Messages(ps) && MessageRuns.ClosesWith(r, Final(r, ms, ops), message)
  {
    hide ReadMessages, ReadMessage, Arrives, Texts, RunsOver;
    StreamThenLast(r, ms, ps, last);
    RunCloses(r, ms, ops, Concat(Texts(ps)) + last);
  }

  lemma RunCloses(r: Rules, ms: Methods, ops: seq<MessageRuns.Op>, text: bytes)
    requires RunsOver(r, ms, ops, text) && ReadMessages(r, ms, 0, text).end.UntilClose?
    ensures var t := ReadMessages(r, ms, 0, text);
            Final(r, ms, ops).messages == t.messages && MessageRuns.ClosesWith(r, Final(r, ms, ops), t.end.message)
  {
    hide ReadMessages, MessageRuns.Legal, MessageRuns.RunAll, MessageRuns.Exhausted, MessageRuns.Sound;
    hide MessageRuns.ClosesWith;
    MessageRuns.ClosedConnection(r, ms, ops);
  }
}
