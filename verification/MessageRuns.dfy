/** Pipelined messages: no way of delivering the bytes can be observed in them. */
module MessageRuns {
  import opened Scan
  import opened BodyGrammar
  import opened BodyDecoder
  import opened MessageGrammar
  import opened MessageDecoder
  import BodyRuns
  import Buffer

  /** What every call of `decode` keeps, also one that fails. */
  predicate Inv(r: Rules, s: State) {
    && BodyRuns.Bounded(r.body.limits, s.body)
    && |s.headers| <= r.body.limits.maxHeadersCount
    && (s.head.Some? <==> s.kind.Some?)
    && if s.head.None? then
         && s.decoded == [] && s.body == FRESH_BODY.(phase := s.body.phase)
         && (s.body.phase.StartLine? || (s.body.phase.Headers? && s.line.Some?))
         && (s.body.phase.StartLine? ==> s.line == None && s.headers == [])
       else
         && s.line == None && s.headers == []
         && InMessage(s.kind.value, s.body, s.decoded)
  }

  /** The phase fits the kind, and the body collected is the body consumed. */
  predicate InMessage(k: BodyKind, b: Body, decoded: bytes) {
    if k.TunnelKind? then b.phase.Tunnel?
    else if k.CloseDelimited? then b.phase.BodyCloseDelimited? && |decoded| == b.consumed
    else BodyRuns.InBody(b.phase) && |decoded| == b.consumed
  }

  /** The meaning of the bytes still to come, in any state. */
  ghost function ReadFrom(r: Rules, s: State, x: bytes): MessageEnd
    requires Inv(r, s)
  {
    if s.head.Some? then ReadBody(r, s.head.value, s.kind.value, s.body, s.decoded, x)
    else if s.body.phase.StartLine? then ReadMessage(r, s.requestMethod, x)
    else ReadHeaders(r, s.requestMethod, s.line.value, s.headers, x)
  }

  lemma FreshBodyBounded(r: Rules, m: Option<bytes>, raw: Head)
    requires Kind(r, m, raw).Ok?
    ensures var k := Kind(r, m, raw).value;
            var head := Kept(raw, k);
            BodyRuns.Bounded(r.body.limits, FreshBody(head, k)) && InMessage(k, FreshBody(head, k), [])
  {
    hide RequestKind, ResponseKind, Kept;
  }

  ghost predicate HeadersAgreeWith(r: Rules, s: State, buf: bytes, h: Outcome<Option<(Head, BodyKind)>>, x: bytes)
    requires Inv(r, s)
  {
    if h.r.Err? then Inv(r, h.s) && h.s.head.None? && ReadFrom(r, s, buf + x) == Broken(h.r.error)
    else if h.r.value.None? then
      && Inv(r, h.s) && h.s.head.None? && FindLine(h.buf) == None
      && ReadFrom(r, s, buf + x) == ReadFrom(r, h.s, h.buf + x)
    else
      var s' := h.s.(head := Some(h.r.value.value.0), kind := Some(h.r.value.value.1));
      Inv(r, s') && ReadFrom(r, s, buf + x) == ReadFrom(r, s', h.buf + x)
  }

  lemma EndOfHeadAgrees(r: Rules, s: State, buf: bytes, x: bytes)
    requires Inv(r, s) && s.head.None? && s.body.phase.Headers? && FindLine(buf) == Some(0)
    ensures HeadersAgreeWith(r, s, buf, EndOfHead(r, s, buf[2..]), x)
  {
    hide Kind, Kept, Read;
    BodyRuns.TakeLine(buf, x);
    var head := Head(s.line.value, s.headers);
    if Kind(r, s.requestMethod, head).Ok? {
      FreshBodyBounded(r, s.requestMethod, head);
    }
  }

  /** The state after a request line, and after one more header. */
  function WithLine(s: State, line: StartLine): State { AtPhase(s, Headers).(line := Some(line)) }

  function WithHeader(s: State, f: Field): State { s.(headers := s.headers + [f]) }

  lemma StartLineAgrees(r: Rules, s: State, buf: bytes, x: bytes)
    requires Inv(r, s) && s.head.None? && s.body.phase.StartLine? && FindLine(buf).Some?
    ensures var text, rest := buf[..FindLine(buf).value], buf[FindLine(buf).value + 2..];
            var line := ParseStartLine(r, text);
            if !r.body.utf8(text) then ReadFrom(r, s, buf + x) == Broken(InvalidData)
            else if line.Err? then ReadFrom(r, s, buf + x) == Broken(line.error)
            else
              && Inv(r, WithLine(s, line.value))
              && ReadFrom(r, s, buf + x) == ReadFrom(r, WithLine(s, line.value), rest + x)
  {
    hide ParseStartLine, ReadHeaders;
    BodyRuns.TakeLine(buf, x);
  }

  lemma HeaderLineAgrees(r: Rules, s: State, buf: bytes, x: bytes)
    requires Inv(r, s) && s.head.None? && s.body.phase.Headers?
    requires FindLine(buf).Some? && FindLine(buf).value > 0
    ensures var text, rest := buf[..FindLine(buf).value], buf[FindLine(buf).value + 2..];
            var bad, f := CheckHeaderLine(r, |s.headers|, text), ParseHeaderLine(text);
            if bad.Some? then ReadFrom(r, s, buf + x) == Broken(bad.value)
            else if f.Err? then ReadFrom(r, s, buf + x) == Broken(f.error)
            else
              && Inv(r, WithHeader(s, f.value))
              && ReadFrom(r, s, buf + x) == ReadFrom(r, WithHeader(s, f.value), rest + x)
  {
    hide ParseHeaderLine, CheckHeaderLine, Kind;
    BodyRuns.TakeLine(buf, x);
    HeaderCounted(r, s, buf[..FindLine(buf).value]);
  }

  lemma HeaderCounted(r: Rules, s: State, text: bytes)
    ensures CheckHeaderLine(r, |s.headers|, text).None? ==> |s.headers| < r.body.limits.maxHeadersCount
  {
  }

  lemma {:induction false} HeadersAgree(r: Rules, s: State, buf: bytes, x: bytes)
    requires Inv(r, s) && s.head.None?
    ensures HeadersAgreeWith(r, s, buf, DecodeHeaders(r, s, buf), x)
    decreases |buf|
  {
    hide EndOfHead, ParseStartLine, ParseHeaderLine, CheckHeaderLine, ReadFrom, BodyRuns.Bounded;
    var pos := FindLine(buf);
    if pos.Some? {
      var text, rest := buf[..pos.value], buf[pos.value + 2..];
      if s.body.phase.StartLine? {
        StartLineAgrees(r, s, buf, x);
        if r.body.utf8(text) && ParseStartLine(r, text).Ok? {
          HeadersAgree(r, WithLine(s, ParseStartLine(r, text).value), rest, x);
        }
      } else if pos.value == 0 {
        EndOfHeadAgrees(r, s, buf, x);
      } else {
        HeaderLineAgrees(r, s, buf, x);
        if CheckHeaderLine(r, |s.headers|, text).None? && ParseHeaderLine(text).Ok? {
          HeadersAgree(r, WithHeader(s, ParseHeaderLine(text).value), rest, x);
        }
      }
    }
  }

  // ---- The body loop ----

  /** Trailers that were handed out before the message was complete. */
  function Handing(trailers: seq<Field>, e: MessageEnd): MessageEnd {
    if e.Got? then e.(trailers := trailers + e.trailers) else e
  }

  /** `decode` does not hand out trailers. */
  function Forget(e: MessageEnd): MessageEnd {
    if e.Got? then e.(trailers := []) else e
  }

  lemma ReadBodyStep(r: Rules, head: Head, k: BodyKind, b: Body, sofar: bytes, buf: bytes, len: nat, x: bytes)
    requires k.ContentLength? || k.Chunked?
    requires BodyRuns.Bounded(r.body.limits, b) && BodyRuns.InBody(b.phase) && BodyRuns.LegalCall(b, buf, len)
    ensures var a := ConsumeBody(r.body, b, buf, len);
            ReadBody(r, head, k, b, sofar, buf + x) ==
            if a.r.Err? then Broken(a.r.error)
            else Handing(BodyRuns.Handed(a.r), ReadBody(r, head, k, a.b, sofar + buf[..len], a.buf + x))
  {
    hide Read, ConsumeBody;
    var a := ConsumeBody(r.body, b, buf, len);
    BodyRuns.ConsumeAgrees(r.body, b, buf, len, x);
    ConcatAssociative(sofar, buf[..len], Read(r.body, a.b, a.buf + x).body);
  }

  lemma FinishedIsComplete(c: Config, b: Body, buf: bytes, len: nat)
    requires ConsumeBody(c, b, buf, len).r.Ok? && ConsumeBody(c, b, buf, len).r.value.Finished?
    ensures ConsumeBody(c, b, buf, len).b.phase.Complete?
  {
    hide ProcessChunkedSize, ProcessTrailers;
  }

  /** Nothing is on offer and nothing moves: the loop can only wait. */
  ghost predicate Stuck(r: Rules, s: State, buf: bytes) {
    PeekBody(s.body, buf) == [] && ConsumeBody(r.body, s.body, buf, 0) == After(s.body, buf, Ok(NeedData))
  }

  /** The message, and what follows it. */
  predicate Gets(e: MessageEnd, message: Message, rest: bytes) {
    e.Got? && e.message == message && e.rest == rest
  }

  ghost predicate DecodeAgreesWith(r: Rules, s: State, buf: bytes, d: Outcome<Option<Message>>, x: bytes)
    requires Inv(r, s)
  {
    Inv(r, d.s) &&
    if d.r.Err? then
      ReadFrom(r, s, buf + x) ==
      if d.s.kind == Some(TunnelKind) then AtTunnel(d.buf + x)
      else if d.s.kind == Some(CloseDelimited) then Overlong
      else Broken(d.r.error)
    else if d.r.value.None? then Forget(ReadFrom(r, s, buf + x)) == Forget(ReadFrom(r, d.s, d.buf + x))
    else d.s == INITIAL && Gets(ReadFrom(r, s, buf + x), d.r.value.value, d.buf + x)
  }

  ghost predicate Draining(r: Rules, s: State) {
    Inv(r, s) && s.head.Some? && (s.kind.value.ContentLength? || s.kind.value.Chunked?)
  }

  lemma LoopStep(r: Rules, s: State, buf: bytes, x: bytes)
    requires Draining(r, s)
    ensures var data := PeekBody(s.body, buf);
            var a := ConsumeBody(r.body, s.body, buf, |data|);
            var s' := s.(body := a.b, decoded := s.decoded + data);
            && Draining(r, s')
            && Forget(ReadFrom(r, s, buf + x))
               == (if a.r.Err? then Broken(a.r.error) else Forget(ReadFrom(r, s', a.buf + x)))
  {
    hide Read, ConsumeBody;
    var data := PeekBody(s.body, buf);
    assert data == buf[..|data|];
    ReadBodyStep(r, s.head.value, s.kind.value, s.body, s.decoded, buf, |data|, x);
    BodyRuns.ConsumeBounded(r.body, s.body, buf, |data|);
    BodyRuns.PhaseStaysSized(r.body, s.body, buf, |data|);
  }

  lemma FinishAgrees(r: Rules, s: State, buf: bytes, x: bytes)
    requires Inv(r, s) && s.head.Some? && !s.kind.value.TunnelKind?
    requires !s.kind.value.CloseDelimited? && (s.body.phase.Complete? || s.kind.value.NoBody?)
    ensures Finish(s, buf).s == INITIAL && Finish(s, buf).buf == buf
    ensures Finish(s, buf).r.Ok? && Finish(s, buf).r.value.Some?
    ensures Gets(ReadFrom(r, s, buf + x), Finish(s, buf).r.value.value, buf + x)
    ensures ReadFrom(r, s, buf + x).trailers == if s.kind.value.NoBody? then [] else s.body.trailers
  {
    EmptyConcat(s.decoded);
  }

  lemma {:induction false} DrainAgrees(r: Rules, s: State, buf: bytes, x: bytes)
    requires Draining(r, s)
    ensures DecodeAgreesWith(r, s, buf, DrainBody(r, s, buf), x)
    ensures DrainBody(r, s, buf).r == Ok(None) ==>
              Draining(r, DrainBody(r, s, buf).s) && Stuck(r, DrainBody(r, s, buf).s, DrainBody(r, s, buf).buf)
    decreases |buf|
  {
    hide ConsumeBody, PeekBody, ReadFrom, Finish, Inv;
    var data := PeekBody(s.body, buf);
    var a := ConsumeBody(r.body, s.body, buf, |data|);
    var s' := s.(body := a.b, decoded := s.decoded + data);
    LoopStep(r, s, buf, x);
    LoopShrinks(r.body, s.body, buf, |data|);
    EmptyConcat(s.decoded);
    if a.r.Ok? {
      if a.r.value.Finished? {
        FinishedIsComplete(r.body, s.body, buf, |data|);
      }
      if a.b.phase.Complete? && (data != [] || a.r.value.Finished?) {
        FinishAgrees(r, s', a.buf, x);
        InitialInv(r);
      } else if data != [] || a.r.value.Advanced? {
        DrainAgrees(r, s', a.buf, x);
      } else {
        assert s' == s && a == After(s.body, buf, Ok(NeedData));
      }
    }
  }

  lemma InitialInv(r: Rules)
    ensures Inv(r, INITIAL)
  {
  }

  // ---- Close-delimited bodies ----

  lemma CloseDelimitedCall(c: Config, b: Body, buf: bytes)
    requires b.phase.BodyCloseDelimited? && PeekBody(b, buf) != [] && b.consumed + |buf| <= c.limits.maxBodySize
    ensures ConsumeBody(c, b, buf, |PeekBody(b, buf)|) == After(b.(consumed := b.consumed + |buf|), [], Ok(Advanced))
  {
  }

  lemma UntilCloseAgrees(r: Rules, s: State, buf: bytes, x: bytes)
    requires Inv(r, s) && s.head.Some? && s.kind == Some(CloseDelimited)
    ensures var d := DrainUntilClose(r, s, buf);
            && DecodeAgreesWith(r, s, buf, d, x) && d.s.kind == s.kind && d.s.head == s.head
            && (d.r.Ok? ==> d.r == Ok(None) && d.buf == [] && d.s.decoded == s.decoded + buf)
  {
    hide ConsumeBody, Finish;
    EmptyConcat(s.decoded);
    assert PeekBody(s.body, buf) == buf;
    if buf != [] && s.body.consumed + |buf| <= r.body.limits.maxBodySize {
      CloseDelimitedCall(r.body, s.body, buf);
    }
    ConcatAssociative(s.decoded, buf, x);
    EmptyConcat(x);
  }

  // ---- One call of decode ----

  /** What a body that is not complete waits for. */
  ghost predicate Idle(r: Rules, s: State, buf: bytes) {
    if s.kind == Some(CloseDelimited) then Inv(r, s) && s.head.Some? && buf == []
    else Draining(r, s) && Stuck(r, s, buf)
  }

  lemma DecodeBodyAgrees(r: Rules, s: State, buf: bytes, x: bytes)
    requires Inv(r, s) && s.head.Some?
    ensures var d := DecodeBody(r, s, buf);
            DecodeAgreesWith(r, s, buf, d, x)
            && (d.r == Ok(None) ==> Idle(r, d.s, d.buf))
  {
    hide DrainBody, DrainUntilClose, Finish, Read;
    match s.kind.value
    case TunnelKind =>
    case ContentLength(_) => DrainAgrees(r, s, buf, x);
    case Chunked => DrainAgrees(r, s, buf, x);
    case CloseDelimited => UntilCloseAgrees(r, s, buf, x);
    case NoBody =>
      FinishAgrees(r, s, buf, x);
      InitialInv(r);
  }

  /** `decode` takes nothing it does not account for: whatever bytes x come later, the message it
      returns, the error, the tunnel or the state it waits in is the meaning of the stream. */
  lemma DecodeAgrees(r: Rules, s: State, buf: bytes, x: bytes)
    requires Inv(r, s)
    ensures DecodeAgreesWith(r, s, buf, Decode(r, s, buf), x)
  {
    hide DecodeBody, DecodeHeaders, ReadFrom, BodyRuns.Bounded, InMessage;
    if s.head.Some? {
      DecodeBodyAgrees(r, s, buf, x);
    } else {
      HeadersAgree(r, s, buf, x);
      var h := DecodeHeaders(r, s, buf);
      if h.r.Ok? && h.r.value.Some? {
        DecodeBodyAgrees(r, h.s.(head := Some(h.r.value.value.0), kind := Some(h.r.value.value.1)), h.buf, x);
      }
    }
  }

  /** A call that returns `None` has done all that can be done: calling again changes nothing. */
  ghost predicate Quiescent(r: Rules, s: State, buf: bytes)
    requires Inv(r, s)
  {
    Decode(r, s, buf) == Outcome(s, buf, Ok(None))
  }

  lemma StuckIsQuiescent(r: Rules, s: State, buf: bytes)
    requires Draining(r, s) && Stuck(r, s, buf)
    ensures Quiescent(r, s, buf) && ReadFrom(r, s, buf) == Waiting
  {
    hide ConsumeBody, PeekBody, Finish, Read;
    EmptyConcat(s.decoded);
    assert s.(body := s.body, decoded := s.decoded + []) == s;
    BodyRuns.QuietReading(r.body, s.body, buf);
    StuckIsNotComplete(r, s, buf);
  }

  lemma StuckIsNotComplete(r: Rules, s: State, buf: bytes)
    requires Stuck(r, s, buf)
    ensures !s.body.phase.Complete?
  {
  }

  /** What is known of a message that is not complete. */
  function Held(s: State): MessageEnd {
    if s.head.Some? && s.kind == Some(CloseDelimited) then UntilClose(Message(s.head.value, Some(s.decoded)))
    else Waiting
  }

  lemma IdleIsQuiescent(r: Rules, s: State, buf: bytes)
    requires Idle(r, s, buf)
    ensures Inv(r, s) && Quiescent(r, s, buf) && ReadFrom(r, s, buf) == Held(s)
  {
    hide ConsumeBody, Finish, Read, BodyRuns.Bounded, Stuck, DrainBody;
    if s.kind == Some(CloseDelimited) {
      CloseIsWithinLimit(r, s);
      EmptyConcat(s.decoded);
    } else {
      StuckIsQuiescent(r, s, buf);
    }
  }

  lemma CloseIsWithinLimit(r: Rules, s: State)
    requires Inv(r, s) && s.kind == Some(CloseDelimited)
    ensures |s.decoded| <= r.body.limits.maxBodySize
  {
  }

  lemma NoLineIsQuiescent(r: Rules, s: State, buf: bytes)
    requires Inv(r, s) && s.head.None? && FindLine(buf) == None
    ensures Quiescent(r, s, buf) && ReadFrom(r, s, buf) == Waiting
  {
  }

  lemma DecodeNoneIsQuiescent(r: Rules, s: State, buf: bytes)
    requires Inv(r, s) && Decode(r, s, buf).r == Ok(None)
    ensures var d := Decode(r, s, buf);
            Inv(r, d.s) && Quiescent(r, d.s, d.buf) && ReadFrom(r, d.s, d.buf) == Held(d.s)
  {
    hide DecodeBody, DecodeHeaders, ReadFrom, BodyRuns.Bounded, InMessage, Quiescent, Idle;
    var h := DecodeHeaders(r, s, buf);
    if s.head.Some? {
      DecodeBodyAgrees(r, s, buf, []);
      IdleIsQuiescent(r, DecodeBody(r, s, buf).s, DecodeBody(r, s, buf).buf);
    } else {
      HeadersAgree(r, s, buf, []);
      if h.r.Ok? && h.r.value.Some? {
        var s' := h.s.(head := Some(h.r.value.value.0), kind := Some(h.r.value.value.1));
        DecodeBodyAgrees(r, s', h.buf, []);
        IdleIsQuiescent(r, DecodeBody(r, s', h.buf).s, DecodeBody(r, s', h.buf).buf);
      } else {
        NoLineIsQuiescent(r, h.s, h.buf);
      }
    }
  }

  lemma {:induction false} HeadersShrink(r: Rules, s: State, buf: bytes)
    ensures |DecodeHeaders(r, s, buf).buf| <= |buf|
    decreases |buf|, if s.body.phase.Complete? then 1 else 0
  {
    hide Kind, ParseStartLine, ParseHeaderLine, CheckHeaderLine;
    var pos := FindLine(buf);
    if s.body.phase.Complete? {
      HeadersShrink(r, s.(body := FRESH_BODY, line := None, headers := [], requestMethod := None), buf);
    } else if pos.Some? {
      var rest := buf[pos.value + 2..];
      if s.body.phase.StartLine? && ParseStartLine(r, buf[..pos.value]).Ok? {
        HeadersShrink(r, AtPhase(s, Headers).(line := Some(ParseStartLine(r, buf[..pos.value]).value)), rest);
      } else if s.body.phase.Headers? && ParseHeaderLine(buf[..pos.value]).Ok? {
        HeadersShrink(r, s.(headers := s.headers + [ParseHeaderLine(buf[..pos.value]).value]), rest);
      }
    }
  }

  lemma {:induction false} DrainShrinks(r: Rules, s: State, buf: bytes)
    requires s.head.Some? && s.kind.Some?
    ensures |DrainBody(r, s, buf).buf| <= |buf|
    decreases |buf|
  {
    hide ConsumeBody;
    var data := PeekBody(s.body, buf);
    var a := ConsumeBody(r.body, s.body, buf, |data|);
    LoopShrinks(r.body, s.body, buf, |data|);
    if a.r.Ok? && (data != [] || a.r.value.Advanced?) {
      DrainShrinks(r, s.(body := a.b, decoded := s.decoded + data), a.buf);
    }
  }

  lemma UntilCloseShrinks(r: Rules, s: State, buf: bytes)
    requires s.head.Some? && s.kind.Some?
    ensures |DrainUntilClose(r, s, buf).buf| <= |buf|
  {
    hide ConsumeBody;
    LoopShrinks(r.body, s.body, buf, |PeekBody(s.body, buf)|);
  }

  lemma DecodeShrinks(r: Rules, s: State, buf: bytes)
    requires s.head.Some? ==> s.kind.Some?
    ensures |Decode(r, s, buf).buf| <= |buf|
  {
    hide DrainBody, DrainUntilClose, DecodeHeaders;
    var h := DecodeHeaders(r, s, buf);
    if s.head.Some? {
      DrainShrinks(r, s, buf);
      UntilCloseShrinks(r, s, buf);
    } else {
      HeadersShrink(r, s, buf);
      if h.r.Ok? && h.r.value.Some? {
        var s' := h.s.(head := Some(h.r.value.value.0), kind := Some(h.r.value.value.1));
        DrainShrinks(r, s', h.buf);
        UntilCloseShrinks(r, s', h.buf);
      }
    }
  }

  // ---- Runs ----

  /** Bytes enter by `feed`, or by `mut_buf`, the caller's own writes, and `advance_buf`. */
  datatype Op = Input(step: Buffer.Step) | CallDecode

  datatype Stop = DecodeFailed(error: Error) | TooLong | InTunnel

  /** The decoder, every byte it accepted, and the messages it returned. */
  datatype World = World(s: State, buf: Buffer.Buf, fed: bytes, messages: seq<Message>, stop: Option<Stop>)

  predicate LegalOp(w: World, op: Op) {
    match op
    case Input(step) => Buffer.LegalStep(w.buf, step)
    case CallDecode => w.buf.pending == 0
  }

  predicate Sound(r: Rules, w: World) {
    Inv(r, w.s) && w.buf.Valid() && |w.buf.data| <= r.body.limits.maxBufferSize
    && (w.stop == Some(InTunnel) ==> w.s.kind == Some(TunnelKind))
  }

  /** The buffer moves to `b`; what it has committed beyond the old buffer is accepted. */
  function Accept(w: World, b: Buffer.Buf): World
    requires w.buf.Valid() && b.Valid()
  {
    var kept := |w.buf.Committed()|;
    w.(buf := b, fed := w.fed + (if kept <= |b.Committed()| then b.Committed()[kept..] else []))
  }

  function Announce(s: State, m: Option<bytes>): State { s.(requestMethod := m) }

  /** After a message the caller announces the request that the next one answers. */
  function AfterDecode(ms: Methods, w: World, d: Outcome<Option<Message>>): World {
    if d.r.Ok? && d.r.value.Some? then
      w.(s := Announce(d.s, ms(|w.messages| + 1)), buf := Buffer.Buf(d.buf, 0),
         messages := w.messages + [d.r.value.value], stop := None)
    else
      w.(s := d.s, buf := Buffer.Buf(d.buf, 0),
         stop := if d.r.Ok? then None
                 else if d.s.kind == Some(TunnelKind) then Some(InTunnel)
                 else if d.s.kind == Some(CloseDelimited) then Some(TooLong)
                 else Some(DecodeFailed(d.r.error)))
  }

  /** One operation; a run that has failed or reached a tunnel decodes no more. */
  function Do(r: Rules, ms: Methods, w: World, op: Op): World
    requires Sound(r, w) && LegalOp(w, op)
  {
    match op
    case Input(step) =>
      Buffer.StepsStayWithinLimit(w.buf, r.body.limits.maxBufferSize, step);
      Accept(w, Buffer.Take(w.buf, r.body.limits.maxBufferSize, step))
    case CallDecode =>
      if w.stop.Some? then w else AfterDecode(ms, w, Decode(r, w.s, w.buf.data))
  }

  /** The stream as the run presents it: messages returned, then the meaning of what is left. */
  ghost function Presented(r: Rules, ms: Methods, w: World, x: bytes): Transcript
    requires Sound(r, w)
  {
    match w.stop
    case Some(DecodeFailed(e)) => Transcript(w.messages, Broken(e))
    case Some(InTunnel) => Transcript(w.messages, AtTunnel(w.buf.Committed() + x))
    case Some(TooLong) => Transcript(w.messages, Overlong)
    case None => Prepend(w.messages, TranscriptFrom(r, ms, |w.messages|, w.s, w.buf.Committed() + x))
  }

  /** Message number `k` is the one that state `s` is in. */
  ghost function TranscriptFrom(r: Rules, ms: Methods, k: nat, s: State, x: bytes): Transcript
    requires Inv(r, s)
  {
    var e := ReadFrom(r, s, x);
    if e.Got? then Prepend([e.message], ReadMessages(r, ms, k + 1, e.rest)) else Transcript([], e)
  }

  /** The run has presented the accepted bytes faithfully, and will whatever comes next. */
  ghost predicate Faithful(r: Rules, ms: Methods, w: World) {
    Sound(r, w) && forall x :: Presented(r, ms, w, x) == ReadMessages(r, ms, 0, w.fed + x)
  }

  lemma AcceptIsFaithful(r: Rules, ms: Methods, w: World, b: Buffer.Buf)
    requires Faithful(r, ms, w) && b.Valid() && |b.data| <= r.body.limits.maxBufferSize
    requires w.buf.Committed() <= b.Committed()
    ensures Faithful(r, ms, Accept(w, b))
  {
    hide ReadMessages, TranscriptFrom, Inv;
    var w' := Accept(w, b);
    var more := b.Committed()[|w.buf.Committed()|..];
    forall x
      ensures Presented(r, ms, w', x) == ReadMessages(r, ms, 0, w'.fed + x)
    {
      ConcatAssociative(w.fed, more, x);
      ConcatAssociative(w.buf.Committed(), more, x);
      assert b.Committed() == w.buf.Committed() + more;
      assert Presented(r, ms, w, more + x) == ReadMessages(r, ms, 0, w.fed + (more + x));
    }
  }

  lemma PrependPrepend(a: seq<Message>, b: seq<Message>, t: Transcript)
    ensures Prepend(a, Prepend(b, t)) == Prepend(a + b, t)
  {
    ConcatAssociative(a, b, t.messages);
  }

  lemma TranscriptFromInitial(r: Rules, ms: Methods, k: nat, x: bytes)
    ensures var s := Announce(INITIAL, ms(k));
            Inv(r, s) && TranscriptFrom(r, ms, k, s, x) == ReadMessages(r, ms, k, x)
  {
  }

  lemma DecodePresents(r: Rules, ms: Methods, w: World, x: bytes)
    requires Sound(r, w) && w.stop == None && w.buf.pending == 0
    requires Sound(r, AfterDecode(ms, w, Decode(r, w.s, w.buf.data)))
    ensures Presented(r, ms, AfterDecode(ms, w, Decode(r, w.s, w.buf.data)), x) == Presented(r, ms, w, x)
  {
    hide ReadMessages, ReadFrom, Decode, BodyRuns.Bounded, InMessage;
    var d := Decode(r, w.s, w.buf.data);
    DecodeAgrees(r, w.s, w.buf.data, x);
    assert w.buf.Committed() == w.buf.data;
    assert Buffer.Buf(d.buf, 0).Committed() == d.buf;
    EmptyConcat(w.messages);
    if d.r.Ok? && d.r.value.Some? {
      var k := |w.messages| + 1;
      TranscriptFromInitial(r, ms, k, d.buf + x);
      PrependPrepend(w.messages, [d.r.value.value], ReadMessages(r, ms, k, d.buf + x));
    }
  }

  lemma DoIsFaithful(r: Rules, ms: Methods, w: World, op: Op)
    requires Faithful(r, ms, w) && LegalOp(w, op)
    ensures Faithful(r, ms, Do(r, ms, w, op))
  {
    hide Inv, Decode, ReadMessages, Presented;
    if op.CallDecode? {
      if w.stop == None {
        DecodeIsFaithful(r, ms, w);
      }
    } else {
      Buffer.StepsStayWithinLimit(w.buf, r.body.limits.maxBufferSize, op.step);
      AcceptIsFaithful(r, ms, w, Do(r, ms, w, op).buf);
    }
  }

  lemma DecodeIsFaithful(r: Rules, ms: Methods, w: World)
    requires Faithful(r, ms, w) && w.stop == None && w.buf.pending == 0
    ensures Faithful(r, ms, AfterDecode(ms, w, Decode(r, w.s, w.buf.data)))
  {
    hide Decode, ReadMessages, Presented, BodyRuns.Bounded, InMessage, ReadFrom;
    var w' := AfterDecode(ms, w, Decode(r, w.s, w.buf.data));
    DecodeAgrees(r, w.s, w.buf.data, []);
    DecodeShrinks(r, w.s, w.buf.data);
    forall x
      ensures Presented(r, ms, w', x) == ReadMessages(r, ms, 0, w'.fed + x)
    {
      DecodePresents(r, ms, w, x);
    }
  }

  /** Every reachable state keeps the resource bounds, also after an operation that fails. */
  lemma StaysSound(r: Rules, ms: Methods, w: World, op: Op)
    requires Sound(r, w) && LegalOp(w, op)
    ensures Sound(r, Do(r, ms, w, op))
  {
    hide Decode, ReadFrom, BodyRuns.Bounded, InMessage;
    if op.CallDecode? {
      DecodeAgrees(r, w.s, w.buf.data, []);
      DecodeShrinks(r, w.s, w.buf.data);
    } else {
      Buffer.StepsStayWithinLimit(w.buf, r.body.limits.maxBufferSize, op.step);
    }
  }

  predicate Legal(r: Rules, ms: Methods, w: World, ops: seq<Op>)
    requires Sound(r, w)
    decreases |ops|
  {
    ops == [] || (LegalOp(w, ops[0]) && (StaysSound(r, ms, w, ops[0]); Legal(r, ms, Do(r, ms, w, ops[0]), ops[1..])))
  }

  function RunAll(r: Rules, ms: Methods, w: World, ops: seq<Op>): (v: World)
    requires Sound(r, w) && Legal(r, ms, w, ops)
    ensures Sound(r, v)
    decreases |ops|
  {
    if ops == [] then w else StaysSound(r, ms, w, ops[0]); RunAll(r, ms, Do(r, ms, w, ops[0]), ops[1..])
  }

  lemma {:induction false} RunIsFaithful(r: Rules, ms: Methods, w: World, ops: seq<Op>)
    requires Faithful(r, ms, w) && Legal(r, ms, w, ops)
    ensures Faithful(r, ms, RunAll(r, ms, w, ops))
    decreases |ops|
  {
    hide Inv, Presented;
    if ops != [] {
      StaysSound(r, ms, w, ops[0]);
      DoIsFaithful(r, ms, w, ops[0]);
      RunIsFaithful(r, ms, Do(r, ms, w, ops[0]), ops[1..]);
    }
  }

  lemma StartIsSound(r: Rules, ms: Methods)
    ensures Sound(r, Start(ms))
  {
  }

  function Start(ms: Methods): World { World(Announce(INITIAL, ms(0)), Buffer.Buf([], 0), [], [], None) }

  lemma StartIsFaithful(r: Rules, ms: Methods)
    ensures Faithful(r, ms, Start(ms))
  {
    hide ReadMessages;
    forall x
      ensures Presented(r, ms, Start(ms), x) == ReadMessages(r, ms, 0, Start(ms).fed + x)
    {
      TranscriptFromInitial(r, ms, 0, x);
      EmptyConcat(x);
      EmptyConcat(ReadMessages(r, ms, 0, x).messages);
    }
  }

  /** Nothing more can be decoded. */
  ghost predicate Exhausted(r: Rules, w: World)
    requires Sound(r, w)
  {
    w.buf.pending == 0 && (w.stop.Some? || Decode(r, w.s, w.buf.data) == Outcome(w.s, w.buf.data, Ok(None)))
  }

  /** What the caller of an exhausted run knows. */
  function Known(w: World): Transcript
    requires w.buf.Valid()
  {
    Transcript(w.messages,
               match w.stop
               case Some(DecodeFailed(e)) => Broken(e)
               case Some(InTunnel) => AtTunnel(w.buf.Committed())
               case Some(TooLong) => Overlong
               case None => Held(w.s))
  }

  /** Under any fragmentation, by `feed` or by reserving and advancing, with reservations abandoned
      at will and `decode` called at any time, an exhausted run has returned exactly the messages
      of the accepted bytes up to the first error or tunnel, and in a tunnel the buffer is exactly
      what follows the head. */
  lemma PipelineIsFragmentationFree(r: Rules, ms: Methods, ops: seq<Op>)
    requires Legal(r, ms, Start(ms), ops) && Exhausted(r, RunAll(r, ms, Start(ms), ops))
    ensures var w := RunAll(r, ms, Start(ms), ops);
            Known(w) == ReadMessages(r, ms, 0, w.fed)
  {
    hide ReadMessages, BodyRuns.Bounded, InMessage, ReadFrom, Decode;
    StartIsSound(r, ms);
    var w := RunAll(r, ms, Start(ms), ops);
    StartIsFaithful(r, ms);
    RunIsFaithful(r, ms, Start(ms), ops);
    assert Presented(r, ms, w, []) == ReadMessages(r, ms, 0, w.fed + []);
    EmptyConcat(w.fed);
    EmptyConcat(w.buf.Committed());
    if w.stop == None {
      assert w.buf.Committed() == w.buf.data;
      DecodeNoneIsQuiescent(r, w.s, w.buf.data);
      EmptyConcat(w.messages);
    }
  }

  // ---- The end of the connection ----

  /** `mark_eof` and `decode` hand out what has been collected of a close-delimited body and leave
      the buffer alone, so the body is whole exactly when the buffer is empty. */
  lemma EndOfConnection(r: Rules, s: State, buf: bytes)
    requires Inv(r, s) && s.head.Some? && s.kind == Some(CloseDelimited)
    ensures Decode(r, MarkEof(s), buf) == Outcome(INITIAL, buf, Ok(Some(Message(s.head.value, Some(s.decoded)))))
    ensures ReadFrom(r, s, buf) == UntilClose(Message(s.head.value, Some(s.decoded))) <==> buf == []
  {
    EmptyConcat(s.decoded);
    CloseIsWithinLimit(r, s);
  }

  /** `mark_eof` and one more `decode` return the message and leave nothing behind. */
  ghost predicate ClosesWith(r: Rules, w: World, message: Message)
    requires Sound(r, w)
  {
    Decode(r, MarkEof(w.s), w.buf.data) == Outcome(INITIAL, [], Ok(Some(message)))
  }

  /** A run that ends inside a close-delimited body: once nothing more can be decoded, `mark_eof`
      and one more `decode` return the message with the whole body, however it arrived. */
  lemma ClosedConnection(r: Rules, ms: Methods, ops: seq<Op>)
    requires Legal(r, ms, Start(ms), ops) && Exhausted(r, RunAll(r, ms, Start(ms), ops))
    requires ReadMessages(r, ms, 0, RunAll(r, ms, Start(ms), ops).fed).end.UntilClose?
    ensures var w := RunAll(r, ms, Start(ms), ops);
            var t := ReadMessages(r, ms, 0, w.fed);
            ClosesWith(r, w, t.end.message) && w.messages == t.messages
  {
    hide ReadMessages, BodyRuns.Bounded, ReadFrom, Decode, InMessage;
    StartIsSound(r, ms);
    var w := RunAll(r, ms, Start(ms), ops);
    PipelineIsFragmentationFree(r, ms, ops);
    EndOfConnection(r, w.s, w.buf.data);
    DecodeNoneIsQuiescent(r, w.s, w.buf.data);
  }
}
