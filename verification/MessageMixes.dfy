/** Any mixture of calls: which limits hold whatever the caller does, and exactly which call breaks
    the limit on bodies. */
module MessageMixes {
  import opened Scan
  import opened BodyGrammar
  import opened BodyDecoder
  import opened MessageGrammar
  import opened MessageDecoder
  import opened Encoder
  import opened EncoderRoundTrip
  import BodyRuns
  import Buffer
  import ChunkWriter
  import Framing
  import MessageRuns
  import MessageStreams

  /** Every call there is, with any argument. */
  datatype Op =
    | Input(step: Buffer.Step)
    | CallDecode
    | CallHeaders
    | Consume(len: nat)
    | Eof
    | SetMethod(method_: bytes)
    | Take
    | Reset

  /** The decoder, and the messages that `decode` handed out. */
  datatype Mix = Mix(s: State, b: Buffer.Buf, given: seq<Message>)

  predicate Legal(w: Mix, op: Op) {
    match op
    case Input(step) => Buffer.LegalStep(w.b, step)
    case _ => w.b.pending == 0
  }

  /** The limits on the buffer, on the body and the trailers that are being read, and on the fields. */
  predicate Resources(r: Rules, w: Mix) {
    w.b.Valid() && |w.b.data| <= r.body.limits.maxBufferSize && Bounds(r, w.s)
  }

  predicate Bounds(r: Rules, s: State) {
    && BodyRuns.Bounded(r.body.limits, s.body)
    && |s.headers| <= r.body.limits.maxHeadersCount
    && (s.head.Some? ==> s.kind.Some?)
    && (s.body.phase.StartLine? || s.body.phase.Headers? ==> s.body.consumed == 0)
  }

  function Do(r: Rules, w: Mix, op: Op): Mix
    requires Resources(r, w) && Legal(w, op)
  {
    match op
    case Input(step) => w.(b := Buffer.Take(w.b, r.body.limits.maxBufferSize, step))
    case CallDecode =>
      var d := Decode(r, w.s, w.b.data);
      Mix(d.s, Buffer.Buf(d.buf, 0), w.given + if d.r.Ok? && d.r.value.Some? then [d.r.value.value] else [])
    case CallHeaders =>
      var h := DecodeHeaders(r, w.s, w.b.data);
      w.(s := h.s, b := Buffer.Buf(h.buf, 0))
    case Consume(len) =>
      var a := ConsumeBody(r.body, w.s.body, w.b.data, len);
      w.(s := w.s.(body := a.b), b := Buffer.Buf(a.buf, 0))
    case Eof => w.(s := MarkEof(w.s))
    case SetMethod(m) => w.(s := MessageRuns.Announce(w.s, Some(m)))
    case Take => w.(b := Buffer.Buf([], 0))
    case Reset => w.(s := INITIAL, b := Buffer.Buf([], 0))
  }

  // ---- What always holds ----

  lemma ConsumeKeepsBounds(r: Rules, s: State, buf: bytes, len: nat, decoded: bytes)
    requires Bounds(r, s)
    ensures Bounds(r, s.(body := ConsumeBody(r.body, s.body, buf, len).b, decoded := decoded))
  {
    hide ConsumeBody, BodyRuns.Bounded;
    BodyRuns.ConsumeBounded(r.body, s.body, buf, len);
    HeadPhaseStays(r.body, s.body, buf, len);
  }

  lemma HeadPhaseStays(c: Config, b: Body, buf: bytes, len: nat)
    ensures var p := ConsumeBody(c, b, buf, len).b.phase;
            p.StartLine? || p.Headers? ==> ConsumeBody(c, b, buf, len).b == b
  {
    hide ProcessChunkedSize, ProcessTrailers;
    if b.phase.BodyChunkedSize? {
      BodyRuns.SizeShape(c, b, buf);
    } else if b.phase.ChunkedTrailer? {
      BodyRuns.TrailersShape(c, b, buf, false);
    }
  }

  lemma {:induction false} HeadersKeepBounds(r: Rules, s: State, buf: bytes)
    requires Bounds(r, s)
    ensures Bounds(r, DecodeHeaders(r, s, buf).s)
    decreases |buf|, if s.body.phase.Complete? then 1 else 0
  {
    hide DecodeHeaders, EndOfHead, ParseStartLine, ParseHeaderLine, CheckHeaderLine;
    DecodeHeadersOnce(r, s, buf);
    var pos, p := FindLine(buf), s.body.phase;
    if p.Complete? {
      HeadersKeepBounds(r, s.(body := FRESH_BODY, line := None, headers := [], requestMethod := None), buf);
    } else if pos.Some? {
      var text, rest := buf[..pos.value], buf[pos.value + 2..];
      if p.StartLine? && ParseStartLine(r, text).Ok? {
        HeadersKeepBounds(r, AtPhase(s, Headers).(line := Some(ParseStartLine(r, text).value)), rest);
      } else if p.Headers? && pos.value == 0 {
        EndKeepsBounds(r, s, buf[2..]);
      } else if p.Headers? && CheckHeaderLine(r, |s.headers|, text).None? && ParseHeaderLine(text).Ok? {
        MessageRuns.HeaderCounted(r, s, text);
        HeadersKeepBounds(r, s.(headers := s.headers + [ParseHeaderLine(text).value]), rest);
      }
    }
  }

  lemma EndKeepsBounds(r: Rules, s: State, buf: bytes)
    requires Bounds(r, s) && s.body.phase.Headers?
    ensures Bounds(r, EndOfHead(r, s, buf).s)
  {
    hide Kind, Kept;
  }

  lemma {:induction false} DrainKeepsBounds(r: Rules, s: State, buf: bytes)
    requires Bounds(r, s) && s.head.Some?
    ensures Bounds(r, DrainBody(r, s, buf).s)
    decreases |buf|
  {
    hide ConsumeBody, BodyRuns.Bounded;
    var data := PeekBody(s.body, buf);
    var a := ConsumeBody(r.body, s.body, buf, |data|);
    var s' := s.(body := a.b, decoded := s.decoded + data);
    LoopShrinks(r.body, s.body, buf, |data|);
    ConsumeKeepsBounds(r, s, buf, |data|, s'.decoded);
    InitialKeepsBounds(r);
    if a.r.Ok? && (data != [] || a.r.value.Advanced?) {
      DrainKeepsBounds(r, s', a.buf);
    }
  }

  lemma InitialKeepsBounds(r: Rules)
    ensures BodyRuns.Bounded(r.body.limits, FRESH_BODY) && Bounds(r, INITIAL)
  {
  }

  lemma BodyKeepsBounds(r: Rules, s: State, buf: bytes)
    requires Bounds(r, s) && s.head.Some?
    ensures Bounds(r, DecodeBody(r, s, buf).s)
  {
    hide ConsumeBody, DrainBody, BodyRuns.Bounded;
    DrainKeepsBounds(r, s, buf);
    InitialKeepsBounds(r);
    var data := PeekBody(s.body, buf);
    ConsumeKeepsBounds(r, s, buf, |data|, s.decoded + data);
    assert s.(body := s.body, decoded := s.decoded + data) == s.(decoded := s.decoded + data);
  }

  lemma DecodeKeepsBounds(r: Rules, s: State, buf: bytes)
    requires Bounds(r, s)
    ensures Bounds(r, Decode(r, s, buf).s)
  {
    hide DecodeBody, DecodeHeaders, BodyRuns.Bounded;
    if s.head.Some? {
      BodyKeepsBounds(r, s, buf);
    } else {
      HeadersKeepBounds(r, s, buf);
      var h := DecodeHeaders(r, s, buf);
      if h.r.Ok? && h.r.value.Some? {
        BodyKeepsBounds(r, h.s.(head := Some(h.r.value.value.0), kind := Some(h.r.value.value.1)), h.buf);
      }
    }
  }

  /** No call, in any state that any calls have led to, outgrows the limits on the buffer, on the
      body that is being read, on its trailers and on the fields. */
  lemma AnyCallKeepsResources(r: Rules, w: Mix, op: Op)
    requires Resources(r, w) && Legal(w, op)
    ensures Resources(r, Do(r, w, op))
  {
    hide Decode, DecodeHeaders, ConsumeBody;
    match op
    case Input(step) => Buffer.StepsStayWithinLimit(w.b, r.body.limits.maxBufferSize, step);
    case CallDecode =>
      DecodeKeepsBounds(r, w.s, w.b.data);
      MessageRuns.DecodeShrinks(r, w.s, w.b.data);
    case CallHeaders =>
      HeadersKeepBounds(r, w.s, w.b.data);
      MessageRuns.HeadersShrink(r, w.s, w.b.data);
    case Consume(len) =>
      ConsumeKeepsBounds(r, w.s, w.b.data, len, w.s.decoded);
      MessageStreams.ConsumeShrinks(r.body, w.s.body, w.b.data, len);
      assert w.s.(body := ConsumeBody(r.body, w.s.body, w.b.data, len).b, decoded := w.s.decoded)
          == w.s.(body := ConsumeBody(r.body, w.s.body, w.b.data, len).b);
    case _ => InitialKeepsBounds(r);
  }

  // ---- What holds as long as the caller lets `decode` finish what it began ----

  predicate IsSized(k: BodyKind) { k.ContentLength? || k.Chunked? }

  /** What `decode` has collected belongs to the message that is being read. */
  predicate Collected(r: Rules, s: State) {
    if s.head.None? then s.decoded == []
    else
      s.kind.Some? &&
      match s.kind.value
      case TunnelKind => s.body.phase.Tunnel? && s.decoded == []
      case CloseDelimited =>
        (s.body.phase.BodyCloseDelimited? || s.body.phase.Complete?) && |s.decoded| <= r.body.limits.maxBodySize
      case NoBody => false
      case _ => BodyRuns.InBody(s.body.phase) && |s.decoded| <= s.body.consumed
  }

  predicate BodyFits(r: Rules, m: Message) { |Bytes(m.body)| <= r.body.limits.maxBodySize }

  /** The bodies that `decode` collects and hands out are within the limit. */
  predicate BodiesFit(r: Rules, w: Mix) {
    |w.s.decoded| <= r.body.limits.maxBodySize && forall i :: 0 <= i < |w.given| ==> BodyFits(r, w.given[i])
  }

  /** The one call to avoid: asking for the next head while `decode` holds a head whose body other
      calls have completed. `decode` would hand that message out. */
  predicate IsDisciplined(s: State, op: Op) {
    op.CallHeaders? && s.head.Some? ==> !s.body.phase.Complete?
  }

  lemma CollectedFits(r: Rules, s: State)
    requires Bounds(r, s) && Collected(r, s)
    ensures |s.decoded| <= r.body.limits.maxBodySize
  {
  }

  lemma ConsumedGrows(c: Config, b: Body, buf: bytes, len: nat)
    ensures ConsumeBody(c, b, buf, len).b.consumed >= b.consumed
    ensures b.phase.BodyCloseDelimited? ==> ConsumeBody(c, b, buf, len).b.phase.BodyCloseDelimited?
    ensures b.phase.Complete? || b.phase.Tunnel? ==> ConsumeBody(c, b, buf, len).b.phase == b.phase
  {
    hide ProcessChunkedSize, ProcessTrailers;
    if b.phase.BodyChunkedSize? {
      BodyRuns.SizeShape(c, b, buf);
    } else if b.phase.ChunkedTrailer? {
      BodyRuns.TrailersShape(c, b, buf, false);
    }
  }

  lemma ConsumeKeepsCollected(r: Rules, s: State, buf: bytes, len: nat)
    requires Collected(r, s)
    ensures Collected(r, s.(body := ConsumeBody(r.body, s.body, buf, len).b))
  {
    hide ConsumeBody;
    ConsumedGrows(r.body, s.body, buf, len);
    BodyRuns.PhaseStaysSized(r.body, s.body, buf, len);
  }

  /** What a call of `decode` leaves, and what it hands out. */
  predicate DecodeFits(r: Rules, d: Outcome<Option<Message>>) {
    Collected(r, d.s) && (d.r.Ok? && d.r.value.Some? ==> BodyFits(r, d.r.value.value))
  }

  lemma {:induction false} DrainFits(r: Rules, s: State, buf: bytes)
    requires Bounds(r, s) && Collected(r, s) && s.head.Some? && IsSized(s.kind.value)
    ensures DecodeFits(r, DrainBody(r, s, buf))
    decreases |buf|
  {
    hide ConsumeBody, PeekBody, BodyRuns.Bounded;
    var data := PeekBody(s.body, buf);
    var a := ConsumeBody(r.body, s.body, buf, |data|);
    var s' := s.(body := a.b, decoded := s.decoded + data);
    LoopShrinks(r.body, s.body, buf, |data|);
    ConsumeKeepsBounds(r, s, buf, |data|, s'.decoded);
    BodyRuns.PhaseStaysSized(r.body, s.body, buf, |data|);
    CollectedFits(r, s');
    if a.r.Ok? && (data != [] || a.r.value.Advanced?) {
      DrainFits(r, s', a.buf);
    }
  }

  lemma UntilCloseFits(r: Rules, s: State, buf: bytes)
    requires Collected(r, s) && s.head.Some? && s.kind == Some(CloseDelimited)
    ensures DecodeFits(r, DrainUntilClose(r, s, buf))
  {
    hide ConsumeBody;
    ConsumedGrows(r.body, s.body, buf, |PeekBody(s.body, buf)|);
  }

  lemma BodyIsFit(r: Rules, s: State, buf: bytes)
    requires Bounds(r, s) && Collected(r, s) && s.head.Some?
    ensures DecodeFits(r, DecodeBody(r, s, buf))
  {
    hide DrainBody, DrainUntilClose;
    match s.kind.value
    case CloseDelimited => UntilCloseFits(r, s, buf);
    case TunnelKind =>
    case _ => DrainFits(r, s, buf);
  }

  lemma DecodeIsFit(r: Rules, s: State, buf: bytes)
    requires Bounds(r, s) && Collected(r, s)
    ensures DecodeFits(r, Decode(r, s, buf))
  {
    hide DecodeBody, DecodeHeaders, BodyRuns.Bounded;
    if s.head.Some? {
      BodyIsFit(r, s, buf);
    } else {
      HeadersKeepBounds(r, s, buf);
      MessageStreams.HeadersKeep(r, s, buf);
      var h := DecodeHeaders(r, s, buf);
      if h.r.Ok? && h.r.value.Some? {
        FreshIsFit(r, h.s, h.r.value.value.0, h.r.value.value.1, h.buf);
      }
    }
  }

  /** A message whose head `decode` has just read. */
  lemma FreshIsFit(r: Rules, s: State, head: Head, kind: BodyKind, buf: bytes)
    requires Bounds(r, s) && s.decoded == [] && s.body.phase == BodyPhase(kind)
    ensures DecodeFits(r, DecodeBody(r, s.(head := Some(head), kind := Some(kind)), buf))
  {
    hide DrainBody, DrainUntilClose, BodyRuns.Bounded;
    var s' := s.(head := Some(head), kind := Some(kind));
    if !kind.NoBody? {
      BodyIsFit(r, s', buf);
    }
  }

  /** A disciplined call keeps what is collected in step with what is read, and bodies fit. */
  lemma DisciplinedCallFits(r: Rules, w: Mix, op: Op)
    requires Resources(r, w) && Legal(w, op) && IsDisciplined(w.s, op)
    requires Collected(r, w.s) && BodiesFit(r, w)
    ensures Collected(r, Do(r, w, op).s) && BodiesFit(r, Do(r, w, op))
  {
    hide Decode, DecodeHeaders, ConsumeBody, Bounds, BodyFits;
    AnyCallKeepsResources(r, w, op);
    match op {
      case CallDecode => DecodeIsFit(r, w.s, w.b.data);
      case CallHeaders =>
        MessageStreams.HeadersKeep(r, w.s, w.b.data);
        if w.s.head.Some? {
          HeadersRefused(r, w.s, w.b.data);
        }
      case Consume(len) => ConsumeKeepsCollected(r, w.s, w.b.data, len);
      case _ =>
    }
    CollectedFits(r, Do(r, w, op).s);
  }

  /** While a body is being read, `decode_headers` is refused and changes nothing. */
  lemma HeadersRefused(r: Rules, s: State, buf: bytes)
    requires Collected(r, s) && s.head.Some? && !s.body.phase.Complete?
    ensures DecodeHeaders(r, s, buf) == Outcome(s, buf, Err(InvalidData))
  {
    DecodeHeadersOnce(r, s, buf);
  }

  predicate LegalRun(r: Rules, w: Mix, ops: seq<Op>)
    requires Resources(r, w)
    decreases |ops|
  {
    ops == [] ||
    (Legal(w, ops[0]) && (AnyCallKeepsResources(r, w, ops[0]); LegalRun(r, Do(r, w, ops[0]), ops[1..])))
  }

  function RunAll(r: Rules, w: Mix, ops: seq<Op>): (v: Mix)
    requires Resources(r, w) && LegalRun(r, w, ops)
    ensures Resources(r, v)
    decreases |ops|
  {
    if ops == [] then w else AnyCallKeepsResources(r, w, ops[0]); RunAll(r, Do(r, w, ops[0]), ops[1..])
  }

  predicate DisciplinedRun(r: Rules, w: Mix, ops: seq<Op>)
    requires Resources(r, w) && LegalRun(r, w, ops)
    decreases |ops|
  {
    ops == [] ||
    (AnyCallKeepsResources(r, w, ops[0]);
     IsDisciplined(w.s, ops[0]) && DisciplinedRun(r, Do(r, w, ops[0]), ops[1..]))
  }

  const START := Mix(INITIAL, Buffer.Buf([], 0), [])

  /** In every disciplined run, whatever calls are mixed in it, no body that `decode` collects or
      hands out is longer than max_body_size. */
  lemma {:induction false} DisciplinedRunFits(r: Rules, w: Mix, ops: seq<Op>)
    requires Resources(r, w) && LegalRun(r, w, ops) && DisciplinedRun(r, w, ops)
    requires Collected(r, w.s) && BodiesFit(r, w)
    ensures Collected(r, RunAll(r, w, ops).s) && BodiesFit(r, RunAll(r, w, ops))
    decreases |ops|
  {
    hide Resources, Collected, BodiesFit, Do, Legal, IsDisciplined;
    if ops != [] {
      AnyCallKeepsResources(r, w, ops[0]);
      DisciplinedCallFits(r, w, ops[0]);
      DisciplinedRunFits(r, Do(r, w, ops[0]), ops[1..]);
    }
  }

  lemma StartFits(r: Rules)
    ensures Resources(r, START) && Collected(r, START.s) && BodiesFit(r, START)
  {
    InitialKeepsBounds(r);
  }

  // ---- Reading a head from its text ----

  /** The state in which the empty line behind a head is read. */
  function BehindHead(s: State, line: StartLine, headers: seq<Field>, m: Option<bytes>): State {
    s.(body := FRESH_BODY.(phase := Headers), line := Some(line), headers := headers, requestMethod := m)
  }

  lemma {:induction false} FieldsDecoded(r: Rules, s: State, headers: seq<Field>, rest: bytes)
    requires s.body.phase.Headers? && All(headers, HeaderOk)
    requires |s.headers| + |headers| <= r.body.limits.maxHeadersCount
    requires forall i :: 0 <= i < |headers| ==> LineFits(r, headers[i])
    ensures DecodeHeaders(r, s, FieldsText(headers, CRLF + rest))
         == EndOfHead(r, s.(headers := s.headers + ReceivedAll(headers)), rest)
    decreases |headers|
  {
    hide DecodeHeaders, EndOfHead, FieldText, HeaderOk, ParseHeaderLine;
    if headers == [] {
      EmptyConcat(s.headers);
      DecodeHeadersOnce(r, s, CRLF + rest);
      ChunkWriter.LineThenRest([], rest);
      EmptyConcat(CRLF + rest);
      assert (CRLF + rest)[2..] == rest;
    } else {
      var f, tail := headers[0], FieldsText(headers[1..], CRLF + rest);
      var text, n := FieldText(f) + (CRLF + tail), |FieldText(f)|;
      FieldLineRead(f);
      ChunkWriter.LineThenRest(FieldText(f), tail);
      assert text[..n] == FieldText(f) && text[n + 2..] == tail;
      DecodeHeadersOnce(r, s, text);
      var s' := s.(headers := s.headers + [Received(f)]);
      FieldsDecoded(r, s', headers[1..], rest);
      assert ReceivedAll(headers) == [Received(f)] + ReceivedAll(headers[1..]);
      ConcatAssociative(s.headers, [Received(f)], ReceivedAll(headers[1..]));
    }
  }

  /** A head is decoded from its text at the start of a stream or behind a complete message, by the
      method that governs it. */
  lemma HeadDecoded(c: Checks, r: Rules, s: State, line: StartLine, headers: seq<Field>, rest: bytes)
    requires StartLineOk(c, line) && Carries(r, line, headers)
    requires s.body.phase.Complete? || (s.body == FRESH_BODY && s.headers == [])
    ensures DecodeHeaders(r, s, HeadText(line, headers, rest))
         == EndOfHead(r, BehindHead(s, line, ReceivedAll(headers), MessageStreams.Governing(s)), rest)
  {
    hide DecodeHeaders, EndOfHead, StartText, FieldsText, ParseStartLine, HeaderOk, StartLineOk;
    var text, n := HeadText(line, headers, rest), |StartText(line)|;
    var tail := FieldsText(headers, CRLF + rest);
    StartLineRead(c, r, line);
    ChunkWriter.LineThenRest(StartText(line), tail);
    assert text[..n] == StartText(line) && text[n + 2..] == tail;
    var s0 := s.(body := FRESH_BODY, line := None, headers := [], requestMethod := MessageStreams.Governing(s));
    var s1 := if s.body.phase.Complete? then s0 else s;
    DecodeHeadersOnce(r, s, text);
    DecodeHeadersOnce(r, s1, text);
    var s2 := AtPhase(s1, Headers).(line := Some(line));
    EmptyConcat(ReceivedAll(headers));
    FieldsDecoded(r, s2, headers, rest);
  }

  // ---- The undisciplined call ----

  lemma DrainPart(r: Rules, s: State, buf: bytes, n: nat)
    requires s.head.Some? && s.kind.Some? && s.body.phase == BodyContentLength(n)
    requires |buf| < n && s.body.consumed + |buf| <= USIZE_MAX
    ensures var b := s.body.(phase := BodyContentLength(n - |buf|), consumed := s.body.consumed + |buf|);
            DrainBody(r, s, buf) == Outcome(s.(body := b, decoded := s.decoded + buf), [], Ok(None))
  {
    var b := s.body.(phase := BodyContentLength(n - |buf|), consumed := s.body.consumed + |buf|);
    var s' := s.(body := b, decoded := s.decoded + buf);
    assert PeekBody(s.body, buf) == buf;
    EmptyConcat(s.decoded);
    if buf != [] {
      assert buf[|buf|..] == [];
      assert ConsumeBody(r.body, s.body, buf, |buf|) == After(b, [], Ok(Advanced));
      DrainWaits(r, s', n - |buf|);
    } else {
      DrainWaits(r, s, n);
    }
  }

  lemma DrainWaits(r: Rules, s: State, n: nat)
    requires s.head.Some? && s.kind.Some? && s.body.phase == BodyContentLength(n) && n > 0
    requires s.body.consumed <= USIZE_MAX
    ensures DrainBody(r, s, []) == Outcome(s, [], Ok(None))
  {
    EmptyConcat(s.decoded);
    assert s.(body := s.body, decoded := s.decoded + []) == s;
  }

  lemma DrainWhole(r: Rules, s: State, buf: bytes)
    requires s.head.Some? && s.kind.Some? && IsSized(s.kind.value)
    requires buf != [] && s.body.phase == BodyContentLength(|buf|) && s.body.consumed + |buf| <= USIZE_MAX
    ensures DrainBody(r, s, buf).r == Ok(Some(Message(s.head.value, Some(s.decoded + buf))))
  {
    assert PeekBody(s.body, buf) == buf;
    assert buf[|buf|..] == [];
  }

  /** `decode` holds the head of a sized body that other calls have completed. */
  predicate IsHeld(r: Rules, s: State) {
    Bounds(r, s) && Collected(r, s) && s.head.Some? && IsSized(s.kind.value) && s.body.phase.Complete?
  }

  /** `decode_headers` and then `decode`, over the text `x`. */
  function HeadersThenDecode(r: Rules, s: State, x: bytes): Outcome<Option<Message>>
    requires s.head.Some? && s.kind.Some?
  {
    var h := DecodeHeaders(r, s, x);
    MessageStreams.HeadersKeep(r, s, x);
    Decode(r, h.s, h.buf)
  }

  /** After the undisciplined call, `decode` goes on collecting for the head it holds: the body of
      the next message is added to what it has, and handed out as one. */
  lemma HeldBodyGrows(c: Checks, r: Rules, s: State, line: StartLine, headers: seq<Field>, n: nat, body: bytes)
    requires IsHeld(r, s) && StartLineOk(c, line) && Carries(r, line, headers)
    requires Kind(r, None, Head(line, ReceivedAll(headers))) == Ok(ContentLength(n)) && 0 < n && |body| <= n
    ensures var d := HeadersThenDecode(r, s, HeadText(line, headers, body));
            && (|body| < n ==> d.r == Ok(None) && d.s.head == s.head && d.s.decoded == s.decoded + body)
            && (|body| == n ==> d.r == Ok(Some(Message(s.head.value, Some(s.decoded + body)))))
  {
    hide DecodeHeaders, HeadText, Carries, StartLineOk, DrainBody, Kind, ReceivedAll;
    HeadDecoded(c, r, s, line, headers, body);
    LengthFits(r, Head(line, ReceivedAll(headers)), n);
    EndOfSizedHead(r, s, line, ReceivedAll(headers), n, body);
    var h := DecodeHeaders(r, s, HeadText(line, headers, body));
    if |body| < n {
      DrainPart(r, h.s, body, n);
    } else {
      DrainWhole(r, h.s, body);
    }
  }

  lemma LengthFits(r: Rules, head: Head, n: nat)
    requires Kind(r, None, head) == Ok(ContentLength(n))
    ensures n <= r.body.limits.maxBodySize <= USIZE_MAX
  {
    hide RequestKind, ResponseKind;
  }

  lemma EndOfSizedHead(r: Rules, s: State, line: StartLine, headers: seq<Field>, n: nat, rest: bytes)
    requires Kind(r, None, Head(line, headers)) == Ok(ContentLength(n)) && n > 0
    ensures var h := EndOfHead(r, BehindHead(s, line, headers, None), rest);
            && h.buf == rest && h.s.body.phase == BodyContentLength(n) && h.s.body.consumed == 0
            && h.s.head == s.head && h.s.kind == s.kind && h.s.decoded == s.decoded
  {
    hide Kind;
  }

  /** The limit is broken: more is held, or was handed out. */
  predicate Breaks(r: Rules, d: Outcome<Option<Message>>) {
    || |d.s.decoded| > r.body.limits.maxBodySize
    || (d.r.Ok? && d.r.value.Some? && !BodyFits(r, d.r.value.value))
  }

  /** Requests are never close-delimited. */
  lemma {:induction false} ServerHeads(r: Rules, s: State, buf: bytes)
    requires r.side.Server? && !s.body.phase.BodyCloseDelimited?
    requires s.body.phase.Headers? && s.line.Some? ==> s.line.value.RequestLine?
    ensures !DecodeHeaders(r, s, buf).s.body.phase.BodyCloseDelimited?
    decreases |buf|, if s.body.phase.Complete? then 1 else 0
  {
    hide DecodeHeaders, Kind, ParseStartLine, ParseHeaderLine, CheckHeaderLine;
    DecodeHeadersOnce(r, s, buf);
    var pos, p := FindLine(buf), s.body.phase;
    if p.Complete? {
      ServerHeads(r, s.(body := FRESH_BODY, line := None, headers := [], requestMethod := None), buf);
    } else if pos.Some? {
      var text, rest := buf[..pos.value], buf[pos.value + 2..];
      if p.StartLine? && ParseStartLine(r, text).Ok? {
        ServerLine(r, text);
        ServerHeads(r, AtPhase(s, Headers).(line := Some(ParseStartLine(r, text).value)), rest);
      } else if p.Headers? && pos.value > 0 && ParseHeaderLine(text).Ok? {
        ServerHeads(r, s.(headers := s.headers + [ParseHeaderLine(text).value]), rest);
      } else if p.Headers? && s.line.Some? {
        ServerKind(r, s.requestMethod, Head(s.line.value, s.headers));
      }
    }
  }

  lemma ServerLine(r: Rules, text: bytes)
    requires r.side.Server? && ParseStartLine(r, text).Ok?
    ensures ParseStartLine(r, text).value.RequestLine?
  {
  }

  lemma ServerKind(r: Rules, m: Option<bytes>, head: Head)
    requires head.line.RequestLine?
    ensures Kind(r, m, head) != Ok(CloseDelimited)
  {
  }

  /** With nothing collected, the undisciplined call is harmless to the limit. */
  lemma NothingHeldFits(r: Rules, s: State, x: bytes)
    requires r.side.Server? && IsHeld(r, s) && s.decoded == []
    ensures !Breaks(r, HeadersThenDecode(r, s, x))
  {
    hide DecodeHeaders, DrainBody, BodyRuns.Bounded;
    HeadersKeepBounds(r, s, x);
    MessageStreams.HeadersKeep(r, s, x);
    ServerHeads(r, s, x);
    var h := DecodeHeaders(r, s, x);
    if BodyRuns.InBody(h.s.body.phase) {
      DrainFits(r, h.s, h.buf);
      DecodeKeepsBounds(r, h.s, h.buf);
      CollectedFits(r, DrainBody(r, h.s, h.buf).s);
    } else {
      DrainRefused(r, h.s, h.buf);
    }
  }

  lemma DrainRefused(r: Rules, s: State, buf: bytes)
    requires s.head.Some? && s.kind.Some? && !BodyRuns.InBody(s.body.phase) && !s.body.phase.BodyCloseDelimited?
    ensures DrainBody(r, s, buf).r.Err? && DrainBody(r, s, buf).s.decoded == s.decoded
  {
    EmptyConcat(s.decoded);
  }

  /** Exactly when the undisciplined call breaks the limit for requests: if `decode` has collected
      anything for the head it holds, some next message makes it hand out too much; if it has not,
      none does. `line` and `headers` announce a body of the greatest length allowed. */
  lemma UndisciplinedExactly(c: Checks, r: Rules, s: State, line: StartLine, headers: seq<Field>)
    requires r.side.Server? && IsHeld(r, s) && StartLineOk(c, line) && Carries(r, line, headers)
    requires Kind(r, None, Head(line, ReceivedAll(headers))) == Ok(ContentLength(r.body.limits.maxBodySize))
    requires r.body.limits.maxBodySize > 0
    ensures (exists x :: Breaks(r, HeadersThenDecode(r, s, x))) <==> s.decoded != []
  {
    hide HeadersThenDecode, IsHeld, Kind, Carries, StartLineOk, HeadText;
    HeldIsStated(r, s);
    if s.decoded == [] {
      forall x
        ensures !Breaks(r, HeadersThenDecode(r, s, x))
      {
        NothingHeldFits(r, s, x);
      }
    } else {
      var n := r.body.limits.maxBodySize;
      var body: bytes := seq(n, _ => 0);
      HeldBodyGrows(c, r, s, line, headers, n, body);
      assert Breaks(r, HeadersThenDecode(r, s, HeadText(line, headers, body)));
    }
  }

  lemma HeldIsStated(r: Rules, s: State)
    requires IsHeld(r, s)
    ensures s.head.Some? && s.kind.Some?
  {
  }

  /** For responses a close-delimited one breaks it in any case: `decode` takes all of it for the
      head it holds before the length is looked at. */
  lemma HeldBodyGrowsUntilClose(
      c: Checks, r: Rules, s: State, line: StartLine, headers: seq<Field>, body: bytes)
    requires IsHeld(r, s) && StartLineOk(c, line) && Carries(r, line, headers)
    requires Kind(r, None, Head(line, ReceivedAll(headers))) == Ok(CloseDelimited)
    requires |body| > r.body.limits.maxBodySize
    ensures HeadersThenDecode(r, s, HeadText(line, headers, body)).s.decoded == s.decoded + body
    ensures Breaks(r, HeadersThenDecode(r, s, HeadText(line, headers, body)))
  {
    hide DecodeHeaders, HeadText, Carries, StartLineOk, DrainBody, Kind, ReceivedAll;
    HeadDecoded(c, r, s, line, headers, body);
    EndOfOpenHead(r, s, line, ReceivedAll(headers), body);
    DrainTooLong(r, DecodeHeaders(r, s, HeadText(line, headers, body)).s, body);
  }

  lemma EndOfOpenHead(r: Rules, s: State, line: StartLine, headers: seq<Field>, rest: bytes)
    requires Kind(r, None, Head(line, headers)) == Ok(CloseDelimited)
    ensures var h := EndOfHead(r, BehindHead(s, line, headers, None), rest);
            && h.buf == rest && h.s.body.phase == BodyCloseDelimited && h.s.body.consumed == 0
            && h.s.head == s.head && h.s.kind == s.kind && h.s.decoded == s.decoded
  {
    hide Kind;
  }

  lemma DrainTooLong(r: Rules, s: State, buf: bytes)
    requires s.head.Some? && s.kind.Some? && s.body.phase.BodyCloseDelimited? && s.body.consumed == 0
    requires |buf| > r.body.limits.maxBodySize
    ensures DrainBody(r, s, buf).s.decoded == s.decoded + buf
  {
    assert PeekBody(s.body, buf) == buf;
  }

  // ---- One run that breaks the limit ----

  /** GET / HTTP/1.0 */
  const EXAMPLE_LINE := RequestLine([71, 69, 84], [47], [72, 84, 84, 80, 47, 49, 46, 48])

  const EXAMPLE_HEADERS: seq<Field> := [LengthField(5)]

  const EXAMPLE_CHECKS := Checks(_ => true, (_, _) => true)

  /** Rules with a limit of five under which the example's head is accepted, and room for its text. */
  ghost predicate ExampleRules(r: Rules, four: bytes) {
    && r.side.Server? && r.body.limits.maxBodySize == 5 && |four| == 4
    && |HeadText(EXAMPLE_LINE, EXAMPLE_HEADERS, four)| <= r.body.limits.maxBufferSize
    && Carries(r, EXAMPLE_LINE, EXAMPLE_HEADERS)
  }

  lemma ExampleHead(r: Rules)
    ensures StartLineOk(EXAMPLE_CHECKS, EXAMPLE_LINE)
    ensures r.body.limits.maxBodySize == 5 ==>
              Kind(r, None, Head(EXAMPLE_LINE, ReceivedAll(EXAMPLE_HEADERS))) == Ok(ContentLength(5))
  {
    hide Framing.ChunkedRequest, Framing.DeclaredLength, ReceivedAll, Framing.Named, LengthField;
    LengthFieldSays(5);
    ReceivedOne(LengthField(5));
    EmptyConcat(EXAMPLE_HEADERS);
    LengthAppended([], 5);
    assert !Framing.HasHeader(EXAMPLE_HEADERS, Framing.TRANSFER_ENCODING);
    NoFieldNoElements(EXAMPLE_HEADERS, Framing.TRANSFER_ENCODING);
    NothingToCode(EXAMPLE_HEADERS);
    ExampleVersion();
  }

  lemma ExampleVersion()
    ensures EXAMPLE_LINE.version != HTTP11 && EXAMPLE_LINE.method_ != CONNECT
    ensures StartLineOk(EXAMPLE_CHECKS, EXAMPLE_LINE)
  {
  }

  /** `decode` reads the head and takes four bytes of its body of five. */
  lemma ExampleBegins(r: Rules, four: bytes)
    requires ExampleRules(r, four)
    ensures var d := Decode(r, INITIAL, HeadText(EXAMPLE_LINE, EXAMPLE_HEADERS, four));
            && d.buf == [] && d.r == Ok(None) && d.s.head.Some? && d.s.kind == Some(ContentLength(5))
            && d.s.decoded == four && d.s.body.phase == BodyContentLength(1) && d.s.body.consumed == 4
  {
    hide DecodeHeaders, HeadText, Carries, StartLineOk, DrainBody, Kind, ReceivedAll;
    ExampleHead(r);
    HeadDecoded(EXAMPLE_CHECKS, r, INITIAL, EXAMPLE_LINE, EXAMPLE_HEADERS, four);
    EndOfExampleHead(r, four);
    var h := DecodeHeaders(r, INITIAL, HeadText(EXAMPLE_LINE, EXAMPLE_HEADERS, four));
    var s := h.s.(head := Some(h.r.value.value.0), kind := Some(ContentLength(5)));
    DrainPart(r, s, four, 5);
    EmptyConcat(four);
  }

  lemma EndOfExampleHead(r: Rules, rest: bytes)
    requires Kind(r, None, Head(EXAMPLE_LINE, ReceivedAll(EXAMPLE_HEADERS))) == Ok(ContentLength(5))
    ensures var h := EndOfHead(r, BehindHead(INITIAL, EXAMPLE_LINE, ReceivedAll(EXAMPLE_HEADERS), None), rest);
            && h.buf == rest && h.r.Ok? && h.r.value.Some? && h.r.value.value.1 == ContentLength(5)
            && h.s.body.phase == BodyContentLength(5) && h.s.body.consumed == 0
            && h.s.head == None && h.s.kind == None && h.s.decoded == []
  {
    hide Kind, ReceivedAll;
  }

  lemma LastByte(c: Config, b: Body, one: bytes)
    requires b.phase == BodyContentLength(1) && b.consumed == 4 && |one| == 1
    ensures var a := ConsumeBody(c, b, one, 1);
            a.b.phase == Complete && a.b.consumed == 5 && a.buf == []
  {
  }

  /** `decode` takes four bytes of a body of five, `consume_body` the fifth, `decode_headers` the
      next head, and `decode` four bytes of its body. */
  function ExampleRun(four: bytes, one: bytes): seq<Op> {
    var text := HeadText(EXAMPLE_LINE, EXAMPLE_HEADERS, four);
    [Input(Buffer.Feed(text))] + ([CallDecode] + ([Input(Buffer.Feed(one))] + ([Consume(1)] +
    ([Input(Buffer.Feed(text))] + ([CallHeaders] + ([CallDecode] + []))))))
  }

  lemma RunCons(r: Rules, w: Mix, op: Op, rest: seq<Op>)
    requires Resources(r, w) && Legal(w, op)
    ensures Resources(r, Do(r, w, op))
    ensures LegalRun(r, Do(r, w, op), rest) ==>
              LegalRun(r, w, [op] + rest) && RunAll(r, w, [op] + rest) == RunAll(r, Do(r, w, op), rest)
  {
    hide Resources, Do, Legal;
    AnyCallKeepsResources(r, w, op);
    assert ([op] + rest)[1..] == rest;
  }

  /** The limit is five, and eight bytes are held. */
  lemma UndisciplinedExample(r: Rules, four: bytes, one: bytes)
    requires ExampleRules(r, four) && |one| == 1
    ensures Resources(r, START) && LegalRun(r, START, ExampleRun(four, one))
    ensures RunAll(r, START, ExampleRun(four, one)).s.decoded == four + four
    ensures |RunAll(r, START, ExampleRun(four, one)).s.decoded| == 8 > r.body.limits.maxBodySize
  {
    hide DecodeHeaders, HeadText, Carries, StartLineOk, DrainBody, Kind, ConsumeBody, Bounds, Collected;
    hide LegalRun, RunAll, ReceivedAll, Decode;
    var text := HeadText(EXAMPLE_LINE, EXAMPLE_HEADERS, four);
    StartFits(r);
    ExampleHead(r);
    HeadIsLong(EXAMPLE_LINE, EXAMPLE_HEADERS, four);
    var w1 := Do(r, START, Input(Buffer.Feed(text)));
    EmptyConcat(text);
    AnyCallKeepsResources(r, START, Input(Buffer.Feed(text)));
    ExampleBegins(r, four);
    DisciplinedCallFits(r, w1, CallDecode);
    AnyCallKeepsResources(r, w1, CallDecode);
    var w2 := Do(r, w1, CallDecode);
    AnyCallKeepsResources(r, w2, Input(Buffer.Feed(one)));
    var w3 := Do(r, w2, Input(Buffer.Feed(one)));
    EmptyConcat(one);
    LastByte(r.body, w3.s.body, one);
    ConsumeKeepsCollected(r, w3.s, one, 1);
    AnyCallKeepsResources(r, w3, Consume(1));
    var w4 := Do(r, w3, Consume(1));
    AnyCallKeepsResources(r, w4, Input(Buffer.Feed(text)));
    var w5 := Do(r, w4, Input(Buffer.Feed(text)));
    HeldBodyGrows(EXAMPLE_CHECKS, r, w5.s, EXAMPLE_LINE, EXAMPLE_HEADERS, 5, four);
    AnyCallKeepsResources(r, w5, CallHeaders);
    var w6 := Do(r, w5, CallHeaders);
    AnyCallKeepsResources(r, w6, CallDecode);
    var w7 := Do(r, w6, CallDecode);
    assert w7.s.decoded == four + four;
    EmptyRun(r, w7);
    RunCons(r, w6, CallDecode, []);
    RunCons(r, w5, CallHeaders, [CallDecode] + []);
    RunCons(r, w4, Input(Buffer.Feed(text)), [CallHeaders] + ([CallDecode] + []));
    var tail := [Input(Buffer.Feed(text))] + ([CallHeaders] + ([CallDecode] + []));
    RunCons(r, w3, Consume(1), tail);
    RunCons(r, w2, Input(Buffer.Feed(one)), [Consume(1)] + tail);
    RunCons(r, w1, CallDecode, [Input(Buffer.Feed(one))] + ([Consume(1)] + tail));
    RunCons(r, START, Input(Buffer.Feed(text)), [CallDecode] + ([Input(Buffer.Feed(one))] + ([Consume(1)] + tail)));
  }

  lemma HeadIsLong(line: StartLine, headers: seq<Field>, rest: bytes)
    ensures |HeadText(line, headers, rest)| >= 2
  {
    hide StartText, FieldsText;
  }

  lemma EmptyRun(r: Rules, w: Mix)
    requires Resources(r, w)
    ensures LegalRun(r, w, []) && RunAll(r, w, []) == w
  {
  }

  // ---- Announcements ----

  /** HTTP/1.1 200, without a reason. */
  const OK_LINE := StatusLine(HTTP11, 200, [])

  /** An announcement counts for the next head exactly when it is made behind the way there, at the
      start of a message; made when a message is complete it counts for nothing. */
  lemma AnnouncementGoverns(r: Rules, s: State)
    requires r.side.Client? && Carries(r, OK_LINE, [])
    requires s.body.phase.Complete? || (s.body == FRESH_BODY && s.headers == [])
    ensures (forall m, m', buf :: SameHead(r, s, m, m', buf)) <==> s.body.phase.Complete?
  {
    hide DecodeHeaders, HeadText, EndOfHead, Carries;
    if s.body.phase.Complete? {
      forall m, m', buf
        ensures SameHead(r, s, m, m', buf)
      {
        MessageStreams.AnnouncementIsLost(r, s, m, m', buf);
      }
    } else {
      OkLineIsOk();
      var text := HeadText(OK_LINE, [], []);
      HeadDecoded(EXAMPLE_CHECKS, r, MessageRuns.Announce(s, Some(HEAD)), OK_LINE, [], []);
      HeadDecoded(EXAMPLE_CHECKS, r, MessageRuns.Announce(s, None), OK_LINE, [], []);
      OkKinds(r, s);
      assert !SameHead(r, s, Some(HEAD), None, text);
    }
  }

  predicate SameHead(r: Rules, s: State, m: Option<bytes>, m': Option<bytes>, buf: bytes) {
    DecodeHeaders(r, MessageRuns.Announce(s, m), buf).r == DecodeHeaders(r, MessageRuns.Announce(s, m'), buf).r
  }

  lemma OkLineIsOk()
    ensures StartLineOk(EXAMPLE_CHECKS, OK_LINE)
  {
  }

  lemma OkKinds(r: Rules, s: State)
    ensures EndOfHead(r, BehindHead(s, OK_LINE, [], Some(HEAD)), []).r
         != EndOfHead(r, BehindHead(s, OK_LINE, [], None), []).r
  {
    var none: seq<Field> := [];
    assert Framing.FieldElements(none, Framing.TRANSFER_ENCODING) == [];
    NothingToCode(none);
  }
}
