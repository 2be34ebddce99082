/** The streaming calls - `decode_headers`, `consume_body`, `progress` - see the same messages as
    `decode`, and their trailers. */
module MessageStreams {
  import opened Scan
  import opened BodyGrammar
  import opened BodyDecoder
  import opened MessageGrammar
  import opened MessageDecoder
  import BodyRuns
  import Buffer
  import MessageRuns

  // ---- The meaning of a stream, with trailers ----

  datatype Log = Log(messages: Transcript, trailers: seq<seq<Field>>)

  function ReadTrailers(r: Rules, ms: Methods, k: nat, s: bytes): seq<seq<Field>>
    decreases |s|
  {
    var e := ReadMessage(r, ms(k), s);
    if e.Got? then
      MessageTakes(r, ms(k), s);
      [e.trailers] + ReadTrailers(r, ms, k + 1, e.rest)
    else []
  }

  /** The messages from number `k` on, and the trailers of each. */
  function ReadLog(r: Rules, ms: Methods, k: nat, s: bytes): Log {
    Log(ReadMessages(r, ms, k, s), ReadTrailers(r, ms, k, s))
  }

  /** The same, when the first message ends with `e`. */
  function LogFrom(r: Rules, ms: Methods, k: nat, e: MessageEnd): Log {
    if e.Got? then OneThen(e.message, e.trailers, ReadLog(r, ms, k + 1, e.rest)) else Log(Transcript([], e), [])
  }

  function OneThen(message: Message, trailers: seq<Field>, l: Log): Log {
    Log(Prepend([message], l.messages), [trailers] + l.trailers)
  }

  function AllThen(messages: seq<Message>, trailers: seq<seq<Field>>, l: Log): Log {
    Log(Prepend(messages, l.messages), trailers + l.trailers)
  }

  lemma AllThenOne(
      messages: seq<Message>, trailers: seq<seq<Field>>, message: Message, ts: seq<Field>, l: Log)
    ensures AllThen(messages, trailers, OneThen(message, ts, l)) == AllThen(messages + [message], trailers + [ts], l)
  {
    ConcatAssociative(messages, [message], l.messages.messages);
    ConcatAssociative(trailers, [ts], l.trailers);
  }

  lemma NothingThen(l: Log)
    ensures AllThen([], [], l) == l
  {
    EmptyConcat(l.messages.messages);
    EmptyConcat(l.trailers);
  }

  lemma LogIsFrom(r: Rules, ms: Methods, k: nat, s: bytes)
    ensures ReadLog(r, ms, k, s) == LogFrom(r, ms, k, ReadMessage(r, ms(k), s))
  {
    hide ReadMessage;
  }

  // ---- Streaming runs ----

  datatype Op =
    | Input(step: Buffer.Step)
    | SetMethod(method_: bytes)
    | CallHeaders
    | Consume(len: nat)
    | CallProgress

  /** The decoder, every byte it accepted, the head whose body is being read with what was taken of
      that body and its trailers, the messages that are complete with theirs, and the request
      method by which each head was judged. */
  datatype World = World(
    s: State,
    buf: Buffer.Buf,
    fed: bytes,
    current: Option<(Head, BodyKind)>,
    sofar: bytes,
    handed: seq<Field>,
    messages: seq<Message>,
    trailers: seq<seq<Field>>,
    methods: seq<Option<bytes>>,
    stop: Option<MessageRuns.Stop>)

  /** A method may be announced at any time, a head is asked for between messages, and of a body no
      more is taken than is on offer. */
  predicate LegalOp(w: World, op: Op) {
    match op
    case Input(step) => Buffer.LegalStep(w.buf, step)
    case SetMethod(_) => true
    case CallHeaders => w.buf.pending == 0 && w.current.None?
    case Consume(len) => w.buf.pending == 0 && w.current.Some? && 0 < len <= |PeekBody(w.s.body, w.buf.data)|
    case CallProgress => w.buf.pending == 0 && w.current.Some?
  }

  /** The state of a decoder that would have got here by `decode`. */
  function View(w: World): State {
    if w.current.Some? then
      w.s.(head := Some(w.current.value.0), kind := Some(w.current.value.1), decoded := w.sofar)
    else if w.s.body.phase.Complete? then INITIAL
    else w.s
  }

  predicate Sound(r: Rules, w: World) {
    && w.buf.Valid() && |w.buf.data| <= r.body.limits.maxBufferSize
    && w.s.head.None? && w.s.kind.None? && w.s.decoded == []
    && MessageRuns.Inv(r, View(w))
    && (w.current.None? ==> w.handed == [])
    && (w.stop == None ==> |w.methods| == |w.messages| + if w.current.Some? then 1 else 0)
    && (w.current.Some? ==>
          && (w.stop == None ==> !w.s.body.phase.Complete? && !w.current.value.1.NoBody?)
          && (w.current.value.1.TunnelKind? ==> w.stop == Some(MessageRuns.InTunnel)))
  }

  function Accept(w: World, b: Buffer.Buf): World
    requires w.buf.Valid() && b.Valid()
  {
    var kept := |w.buf.Committed()|;
    w.(buf := b, fed := w.fed + (if kept <= |b.Committed()| then b.Committed()[kept..] else []))
  }

  /** A body that is complete completes its message; trailers that were not handed out yet are what
      the next `progress` hands out. */
  function Settle(w: World): World {
    if w.current.Some? && w.s.body.phase.Complete? then
      var bodiless := w.current.value.1.NoBody?;
      w.(current := None, sofar := [], handed := [],
         messages := w.messages + [Message(w.current.value.0, if bodiless then None else Some(w.sofar))],
         trailers := w.trailers + [w.handed + if bodiless then [] else w.s.body.trailers])
    else w
  }

  /** The method that governs the next head: what was announced, unless the way to that head leads
      through a complete message, which clears it. */
  function Governing(s: State): Option<bytes> {
    if s.body.phase.Complete? then None else s.requestMethod
  }

  function AfterHeaders(w: World, h: Outcome<Option<(Head, BodyKind)>>): World {
    var w' := w.(s := h.s, buf := Buffer.Buf(h.buf, 0));
    if h.r.Ok? && h.r.value.None? then w'
    else
      var judged := w'.(methods := w.methods + [Governing(w.s)]);
      if h.r.Err? then judged.(stop := Some(MessageRuns.DecodeFailed(h.r.error)))
      else
        var found := judged.(current := h.r.value, sofar := [], handed := []);
        if h.r.value.value.1.TunnelKind? then found.(stop := Some(MessageRuns.InTunnel)) else Settle(found)
  }

  function AfterConsume(w: World, a: After<Progress>, taken: bytes): World
    requires w.current.Some?
  {
    if a.r.Err? && w.current.value.1.CloseDelimited? then w.(stop := Some(MessageRuns.TooLong))
    else
      var w' := w.(s := w.s.(body := a.b), buf := Buffer.Buf(a.buf, 0),
                   sofar := w.sofar + taken, handed := w.handed + BodyRuns.Handed(a.r));
      if a.r.Err? then w'.(stop := Some(MessageRuns.DecodeFailed(a.r.error))) else Settle(w')
  }

  function Do(r: Rules, w: World, op: Op): World
    requires Sound(r, w) && LegalOp(w, op)
  {
    match op
    case Input(step) =>
      Buffer.StepsStayWithinLimit(w.buf, r.body.limits.maxBufferSize, step);
      Accept(w, Buffer.Take(w.buf, r.body.limits.maxBufferSize, step))
    case SetMethod(m) => w.(s := MessageRuns.Announce(w.s, Some(m)))
    case CallHeaders => if w.stop.Some? then w else AfterHeaders(w, DecodeHeaders(r, w.s, w.buf.data))
    case Consume(len) =>
      if w.stop.Some? then w
      else AfterConsume(w, ConsumeBody(r.body, w.s.body, w.buf.data, len), w.buf.data[..len])
    case CallProgress =>
      if w.stop.Some? then w else AfterConsume(w, ConsumeBody(r.body, w.s.body, w.buf.data, 0), [])
  }

  /** The choice of methods by which the heads so far were judged. */
  ghost predicate Chosen(ms: Methods, methods: seq<Option<bytes>>) {
    forall i :: 0 <= i < |methods| ==> ms(i) == methods[i]
  }

  /** While a head is incomplete, what is announced may still change, and has had no effect. */
  function Announced(w: World, ms: Methods): State {
    if w.current.Some? then View(w) else MessageRuns.Announce(View(w), ms(|w.messages|))
  }

  ghost function Left(r: Rules, ms: Methods, w: World, x: bytes): Log
    requires Sound(r, w) || Settling(r, w)
  {
    var e := MessageRuns.ReadFrom(r, Announced(w, ms), w.buf.Committed() + x);
    AllThen(w.messages, w.trailers, LogFrom(r, ms, |w.messages|, MessageRuns.Handing(w.handed, e)))
  }

  /** The stream as the run presents it: messages completed, then the meaning of what is left. */
  ghost function Presented(r: Rules, ms: Methods, w: World, x: bytes): Log
    requires Sound(r, w)
  {
    match w.stop
    case Some(DecodeFailed(e)) => Log(Transcript(w.messages, Broken(e)), w.trailers)
    case Some(TooLong) => Log(Transcript(w.messages, Overlong), w.trailers)
    case Some(InTunnel) => Log(Transcript(w.messages, AtTunnel(w.buf.Committed() + x)), w.trailers)
    case None => Left(r, ms, w, x)
  }

  lemma StoppedLog(r: Rules, ms: Methods, w: World, e: MessageEnd)
    requires !e.Got?
    ensures AllThen(w.messages, w.trailers, LogFrom(r, ms, |w.messages|, e))
            == Log(Transcript(w.messages, e), w.trailers)
  {
    EmptyConcat(w.messages);
    EmptyConcat(w.trailers);
  }

  // ---- decode_headers ----

  lemma HeadersOfView(r: Rules, w: World)
    requires Sound(r, w) && w.current.None?
    ensures DecodeHeaders(r, w.s, w.buf.data) == DecodeHeaders(r, View(w), w.buf.data)
    ensures Governing(w.s) == View(w).requestMethod
  {
    hide DecodeHeaders, MessageRuns.Inv;
    if w.s.body.phase.Complete? {
      DecodeHeadersOnce(r, w.s, w.buf.data);
      assert w.s.(body := FRESH_BODY, line := None, headers := [], requestMethod := None) == INITIAL;
    }
  }

  /** Whatever is announced, a head is judged by the governing method. */
  lemma {:induction false} HeadIsJudged(r: Rules, s: State, buf: bytes) returns (raw: Head)
    requires DecodeHeaders(r, s, buf).r.Ok? && DecodeHeaders(r, s, buf).r.value.Some?
    ensures var (head, kind) := DecodeHeaders(r, s, buf).r.value.value;
            Kind(r, Governing(s), raw) == Ok(kind) && head == Kept(raw, kind)
    decreases |buf|, if s.body.phase.Complete? then 1 else 0
  {
    hide DecodeHeaders, Kind, Kept, ParseStartLine, ParseHeaderLine, CheckHeaderLine;
    DecodeHeadersOnce(r, s, buf);
    var pos, p := FindLine(buf), s.body.phase;
    if p.Complete? {
      raw := HeadIsJudged(r, s.(body := FRESH_BODY, line := None, headers := [], requestMethod := None), buf);
    } else {
      var text, rest := buf[..pos.value], buf[pos.value + 2..];
      if p.StartLine? {
        raw := HeadIsJudged(r, AtPhase(s, Headers).(line := Some(ParseStartLine(r, text).value)), rest);
      } else if pos.value > 0 {
        raw := HeadIsJudged(r, s.(headers := s.headers + [ParseHeaderLine(text).value]), rest);
      } else {
        raw := Head(s.line.value, s.headers);
      }
    }
  }

  /** An announcement made when a message is complete is lost: the way to the next head clears it. */
  lemma AnnouncementIsLost(r: Rules, s: State, m: Option<bytes>, m': Option<bytes>, buf: bytes)
    requires s.body.phase.Complete?
    ensures DecodeHeaders(r, MessageRuns.Announce(s, m), buf) == DecodeHeaders(r, MessageRuns.Announce(s, m'), buf)
  {
    hide DecodeHeaders;
    DecodeHeadersOnce(r, MessageRuns.Announce(s, m), buf);
    DecodeHeadersOnce(r, MessageRuns.Announce(s, m'), buf);
  }

  /** While the head is incomplete, an announcement only replaces the one before it. */
  lemma {:induction false} IncompleteHead(r: Rules, s: State, m: Option<bytes>, buf: bytes)
    requires (s.body.phase.StartLine? || s.body.phase.Headers?) && DecodeHeaders(r, s, buf).r == Ok(None)
    ensures var h := DecodeHeaders(r, s, buf);
            DecodeHeaders(r, MessageRuns.Announce(s, m), buf) == h.(s := MessageRuns.Announce(h.s, m))
    decreases |buf|
  {
    hide DecodeHeaders, EndOfHead, ParseStartLine, ParseHeaderLine, CheckHeaderLine;
    DecodeHeadersOnce(r, s, buf);
    DecodeHeadersOnce(r, MessageRuns.Announce(s, m), buf);
    var pos := FindLine(buf);
    if pos.Some? {
      var text, rest := buf[..pos.value], buf[pos.value + 2..];
      if s.body.phase.StartLine? {
        var line := ParseStartLine(r, text).value;
        IncompleteHead(r, AtPhase(s, Headers).(line := Some(line)), m, rest);
      } else if pos.value > 0 {
        IncompleteHead(r, s.(headers := s.headers + [ParseHeaderLine(text).value]), m, rest);
      } else {
        HeadIsEither(r, s, buf[2..]);
      }
    }
  }

  lemma HeadIsEither(r: Rules, s: State, buf: bytes)
    ensures EndOfHead(r, s, buf).r != Ok(None)
  {
    hide Kind, Kept;
  }

  lemma {:induction false} HeadersKeep(r: Rules, s: State, buf: bytes)
    ensures var h := DecodeHeaders(r, s, buf);
            && h.s.head == s.head && h.s.kind == s.kind && h.s.decoded == s.decoded
            && (h.r.Ok? && h.r.value.Some? ==> h.s.body.phase == BodyPhase(h.r.value.value.1))
    decreases |buf|, if s.body.phase.Complete? then 1 else 0
  {
    hide DecodeHeaders, Kind, ParseStartLine, ParseHeaderLine, CheckHeaderLine;
    DecodeHeadersOnce(r, s, buf);
    var pos, p := FindLine(buf), s.body.phase;
    if p.Complete? {
      HeadersKeep(r, s.(body := FRESH_BODY, line := None, headers := [], requestMethod := None), buf);
    } else if pos.Some? {
      var rest := buf[pos.value + 2..];
      if p.StartLine? && ParseStartLine(r, buf[..pos.value]).Ok? {
        HeadersKeep(r, AtPhase(s, Headers).(line := Some(ParseStartLine(r, buf[..pos.value]).value)), rest);
      } else if p.Headers? && ParseHeaderLine(buf[..pos.value]).Ok? {
        HeadersKeep(r, s.(headers := s.headers + [ParseHeaderLine(buf[..pos.value]).value]), rest);
      }
    }
  }

  /** The body may just have become complete, and is not a tunnel. */
  predicate Settling(r: Rules, w: World) {
    && w.buf.Valid() && |w.buf.data| <= r.body.limits.maxBufferSize
    && w.s.head.None? && w.s.kind.None? && w.s.decoded == []
    && w.stop == None && w.current.Some? && !w.current.value.1.TunnelKind?
    && |w.methods| == |w.messages| + 1
    && (w.current.value.1.NoBody? ==> w.s.body.phase.Complete?)
    && MessageRuns.Inv(r, View(w))
  }

  lemma SettleIsFaithful(r: Rules, ms: Methods, w: World, x: bytes)
    requires Settling(r, w)
    ensures Sound(r, Settle(w)) && Presented(r, ms, Settle(w), x) == Left(r, ms, w, x)
  {
    hide ReadLog, ReadMessage, BodyRuns.Bounded;
    if w.s.body.phase.Complete? {
      var buf, k := w.buf.Committed(), |w.messages| + 1;
      MessageRuns.FinishAgrees(r, View(w), buf, x);
      MessageRuns.InitialInv(r);
      var w' := Settle(w);
      LogIsFrom(r, ms, k, buf + x);
      AnnouncedInitial(r, ms(k), buf + x);
      EmptyHanding(ReadMessage(r, ms(k), buf + x));
      var message, ts := w'.messages[|w.messages|], w'.trailers[|w.trailers|];
      AllThenOne(w.messages, w.trailers, message, ts, ReadLog(r, ms, k, buf + x));
    }
  }

  lemma AnnouncedInitial(r: Rules, m: Option<bytes>, x: bytes)
    ensures MessageRuns.Inv(r, MessageRuns.Announce(INITIAL, m))
    ensures MessageRuns.ReadFrom(r, MessageRuns.Announce(INITIAL, m), x) == ReadMessage(r, m, x)
  {
    hide ReadMessage;
  }

  lemma EmptyHanding(e: MessageEnd)
    ensures MessageRuns.Handing([], e) == e
  {
    if e.Got? {
      EmptyConcat(e.trailers);
    }
  }

  lemma HandingTwice(a: seq<Field>, b: seq<Field>, e: MessageEnd)
    ensures MessageRuns.Handing(a, MessageRuns.Handing(b, e)) == MessageRuns.Handing(a + b, e)
  {
    if e.Got? {
      ConcatAssociative(a, b, e.trailers);
    }
  }

  lemma CommittedAll(b: bytes)
    ensures Buffer.Buf(b, 0).Committed() == b
  {
  }

  lemma AnnounceKeepsInv(r: Rules, s: State, m: Option<bytes>)
    ensures MessageRuns.Inv(r, MessageRuns.Announce(s, m)) <==> MessageRuns.Inv(r, s)
  {
  }

  /** `decode_headers` presents the stream as before, whatever will be announced for a head that is
      still incomplete. */
  lemma HeadersAreFaithful(r: Rules, ms: Methods, w: World, x: bytes)
    requires Sound(r, w) && LegalOp(w, CallHeaders) && w.stop == None
    requires Chosen(ms, AfterHeaders(w, DecodeHeaders(r, w.s, w.buf.data)).methods)
    ensures var w' := AfterHeaders(w, DecodeHeaders(r, w.s, w.buf.data));
            Sound(r, w') && Presented(r, ms, w', x) == Presented(r, ms, w, x)
  {
    hide ReadLog, MessageRuns.ReadFrom, BodyRuns.Bounded, DecodeHeaders, MessageRuns.InMessage, LogFrom;
    var s, buf, k := View(w), w.buf.data, |w.messages|;
    HeadersOfView(r, w);
    MessageRuns.InitialInv(r);
    MessageRuns.HeadersShrink(r, s, buf);
    HeadersKeep(r, s, buf);
    var h := DecodeHeaders(r, s, buf);
    var w' := AfterHeaders(w, h);
    CommittedAll(buf);
    CommittedAll(h.buf);
    AnnounceKeepsInv(r, s, ms(k));
    if h.r == Ok(None) {
      MessageRuns.HeadersAgree(r, s, buf, x);
      IncompleteHead(r, s, ms(k), buf);
      MessageRuns.HeadersAgree(r, MessageRuns.Announce(s, ms(k)), buf, x);
    } else {
      MethodsGrow(w, h);
      assert w'.methods[k] == Governing(w.s);
      assert MessageRuns.Announce(s, ms(k)) == s;
      MessageRuns.HeadersAgree(r, s, buf, x);
      CompleteHead(r, ms, w, h, x);
    }
  }

  lemma MethodsGrow(w: World, h: Outcome<Option<(Head, BodyKind)>>)
    requires h.r != Ok(None)
    ensures AfterHeaders(w, h).methods == w.methods + [Governing(w.s)]
  {
  }

  /** The head is complete, or refused. */
  lemma CompleteHead(r: Rules, ms: Methods, w: World, h: Outcome<Option<(Head, BodyKind)>>, x: bytes)
    requires Sound(r, w) && w.current.None? && w.stop == None && w.buf.pending == 0 && h.r != Ok(None)
    requires MessageRuns.Inv(r, View(w)) && |h.buf| <= |w.buf.data|
    requires h.s.head.None? && h.s.kind.None? && h.s.decoded == []
    requires h.r.Ok? ==> h.s.body.phase == BodyPhase(h.r.value.value.1)
    requires MessageRuns.HeadersAgreeWith(r, View(w), w.buf.data, h, x)
    requires MessageRuns.Announce(View(w), ms(|w.messages|)) == View(w)
    ensures Sound(r, AfterHeaders(w, h)) && Presented(r, ms, AfterHeaders(w, h), x) == Presented(r, ms, w, x)
  {
    hide ReadLog, MessageRuns.ReadFrom, BodyRuns.Bounded, MessageRuns.InMessage, LogFrom;
    var s, buf := View(w), w.buf.data;
    CommittedAll(buf);
    CommittedAll(h.buf);
    EmptyHanding(MessageRuns.ReadFrom(r, s, buf + x));
    if h.r.Err? {
      StoppedLog(r, ms, w, Broken(h.r.error));
    } else {
      var found := w.(s := h.s, buf := Buffer.Buf(h.buf, 0), methods := w.methods + [Governing(w.s)],
                      current := h.r.value, sofar := [], handed := []);
      var s' := h.s.(head := Some(h.r.value.value.0), kind := Some(h.r.value.value.1));
      assert View(found) == s';
      if h.r.value.value.1.TunnelKind? {
        TunnelReads(r, s', h.buf + x);
        StoppedLog(r, ms, w, AtTunnel(h.buf + x));
      } else {
        EmptyHanding(MessageRuns.ReadFrom(r, s', h.buf + x));
        SettleIsFaithful(r, ms, found, x);
      }
    }
  }

  lemma TunnelReads(r: Rules, s: State, x: bytes)
    requires MessageRuns.Inv(r, s) && s.head.Some? && s.kind == Some(TunnelKind)
    ensures MessageRuns.ReadFrom(r, s, x) == AtTunnel(x) && s.body.phase.Tunnel?
  {
  }

  // ---- consume_body and progress ----

  lemma SizedConsume(r: Rules, s: State, buf: bytes, len: nat, x: bytes)
    requires MessageRuns.Draining(r, s) && BodyRuns.LegalCall(s.body, buf, len)
    ensures var a := ConsumeBody(r.body, s.body, buf, len);
            var s' := s.(body := a.b, decoded := s.decoded + buf[..len]);
            && MessageRuns.Inv(r, s')
            && MessageRuns.ReadFrom(r, s, buf + x)
               == if a.r.Err? then Broken(a.r.error)
                  else MessageRuns.Handing(BodyRuns.Handed(a.r), MessageRuns.ReadFrom(r, s', a.buf + x))
  {
    hide Read, ConsumeBody;
    MessageRuns.ReadBodyStep(r, s.head.value, s.kind.value, s.body, s.decoded, buf, len, x);
    BodyRuns.ConsumeBounded(r.body, s.body, buf, len);
    BodyRuns.PhaseStaysSized(r.body, s.body, buf, len);
  }

  lemma CloseConsume(r: Rules, s: State, buf: bytes, len: nat, x: bytes)
    requires MessageRuns.Inv(r, s) && s.head.Some? && s.kind == Some(CloseDelimited) && len <= |buf|
    ensures var a := ConsumeBody(r.body, s.body, buf, len);
            var s' := s.(body := a.b, decoded := s.decoded + buf[..len]);
            && (a.r.Err? ==> a.b == s.body && a.buf == buf && MessageRuns.ReadFrom(r, s, buf + x) == Overlong)
            && (a.r.Ok? ==>
                  && MessageRuns.Inv(r, s') && BodyRuns.Handed(a.r) == []
                  && MessageRuns.ReadFrom(r, s, buf + x) == MessageRuns.ReadFrom(r, s', a.buf + x))
  {
    assert buf == buf[..len] + buf[len..];
    ConcatAssociative(buf[..len], buf[len..], x);
    ConcatAssociative(s.decoded, buf[..len], buf[len..] + x);
  }

  lemma ConsumeShrinks(c: Config, b: Body, buf: bytes, len: nat)
    ensures |ConsumeBody(c, b, buf, len).buf| <= |buf|
  {
    hide ProcessChunkedSize, ProcessTrailers;
    if b.phase.BodyChunkedSize? {
      BodyRuns.SizeShape(c, b, buf);
    } else if b.phase.ChunkedTrailer? {
      BodyRuns.TrailersShape(c, b, buf, false);
    }
  }

  /** `consume_body` and `progress` present the stream as before. */
  lemma ConsumeIsFaithful(r: Rules, ms: Methods, w: World, len: nat, x: bytes)
    requires Sound(r, w) && w.stop == None && w.current.Some? && w.buf.pending == 0
    requires BodyRuns.LegalCall(w.s.body, w.buf.data, len)
    ensures var w' := AfterConsume(w, ConsumeBody(r.body, w.s.body, w.buf.data, len), w.buf.data[..len]);
            Sound(r, w') && Presented(r, ms, w', x) == Presented(r, ms, w, x)
  {
    hide ReadLog, MessageRuns.ReadFrom, BodyRuns.Bounded, ConsumeBody, PeekBody, Settle, LogFrom;
    var s, buf := View(w), w.buf.data;
    var a := ConsumeBody(r.body, s.body, buf, len);
    CommittedAll(buf);
    CommittedAll(a.buf);
    ConsumeShrinks(r.body, s.body, buf, len);
    PeekIsPrefix(s.body, buf);
    var ts := BodyRuns.Handed(a.r);
    var w' := w.(s := w.s.(body := a.b), buf := Buffer.Buf(a.buf, 0), sofar := w.sofar + buf[..len],
                 handed := w.handed + ts);
    assert View(w') == s.(body := a.b, decoded := s.decoded + buf[..len]);
    if w.current.value.1.CloseDelimited? {
      CloseConsume(r, s, buf, len, x);
      EmptyConcat(w.handed);
      StoppedLog(r, ms, w, Overlong);
    } else {
      SizedConsume(r, s, buf, len, x);
      HandingTwice(w.handed, ts, MessageRuns.ReadFrom(r, View(w'), a.buf + x));
      if a.r.Err? {
        StoppedLog(r, ms, w, Broken(a.r.error));
      }
    }
    if a.r.Ok? {
      SettleIsFaithful(r, ms, w', x);
    }
  }

  lemma PeekIsPrefix(b: Body, buf: bytes)
    ensures |PeekBody(b, buf)| <= |buf|
  {
  }

  // ---- All runs ----

  lemma AcceptIsFaithful(r: Rules, ms: Methods, w: World, b: Buffer.Buf, x: bytes)
    requires Sound(r, w) && b.Valid() && |b.data| <= r.body.limits.maxBufferSize
    requires w.buf.Committed() <= b.Committed()
    ensures var w' := Accept(w, b);
            var more := b.Committed()[|w.buf.Committed()|..];
            && Sound(r, w') && w'.fed == w.fed + more && w'.methods == w.methods
            && Presented(r, ms, w', x) == Presented(r, ms, w, more + x)
  {
    hide MessageRuns.ReadFrom, MessageRuns.Inv, LogFrom;
    var more := b.Committed()[|w.buf.Committed()|..];
    ConcatAssociative(w.buf.Committed(), more, x);
    assert b.Committed() == w.buf.Committed() + more;
  }

  lemma AnnounceIsFaithful(r: Rules, ms: Methods, w: World, m: bytes, x: bytes)
    requires Sound(r, w)
    ensures var w' := w.(s := MessageRuns.Announce(w.s, Some(m)));
            Sound(r, w') && Presented(r, ms, w', x) == Presented(r, ms, w, x)
  {
    hide LogFrom, ReadBody, ReadHeaders, ReadMessage, BodyRuns.Bounded;
  }

  ghost predicate Faithful(r: Rules, w: World) {
    Sound(r, w) &&
    forall ms: Methods, x :: Chosen(ms, w.methods) ==> Presented(r, ms, w, x) == ReadLog(r, ms, 0, w.fed + x)
  }

  lemma DoIsFaithful(r: Rules, w: World, op: Op)
    requires Faithful(r, w) && LegalOp(w, op)
    ensures Faithful(r, Do(r, w, op))
  {
    hide ReadLog, Presented, Sound, Chosen, Do;
    var w' := Do(r, w, op);
    StaysSound(r, w, op);
    forall ms: Methods, x | Chosen(ms, w'.methods)
      ensures Presented(r, ms, w', x) == ReadLog(r, ms, 0, w'.fed + x)
    {
      var more := StepIsFaithful(r, ms, w, op, x);
      ConcatAssociative(w.fed, more, x);
      assert Presented(r, ms, w, more + x) == ReadLog(r, ms, 0, w.fed + (more + x));
    }
  }

  /** One operation: `more` is what it accepted. */
  lemma StepIsFaithful(r: Rules, ms: Methods, w: World, op: Op, x: bytes) returns (more: bytes)
    requires Sound(r, w) && LegalOp(w, op) && Chosen(ms, Do(r, w, op).methods)
    ensures var w' := Do(r, w, op);
            && Sound(r, w') && Chosen(ms, w.methods) && w'.fed == w.fed + more
            && Presented(r, ms, w', x) == Presented(r, ms, w, more + x)
  {
    hide Presented, MessageRuns.Inv, DecodeHeaders, ConsumeBody, AfterHeaders, AfterConsume, Sound, PeekBody;
    more := [];
    EmptyConcat(x);
    EmptyConcat(w.fed);
    SoundBuffer(r, w);
    match op
    case Input(step) =>
      Buffer.StepsStayWithinLimit(w.buf, r.body.limits.maxBufferSize, step);
      var b := Buffer.Take(w.buf, r.body.limits.maxBufferSize, step);
      AcceptIsFaithful(r, ms, w, b, x);
      more := b.Committed()[|w.buf.Committed()|..];
    case SetMethod(m) => AnnounceIsFaithful(r, ms, w, m, x);
    case CallHeaders =>
      if w.stop == None {
        HeadersAreFaithful(r, ms, w, x);
        FedStays(ms, w, DecodeHeaders(r, w.s, w.buf.data));
      }
    case Consume(len) =>
      if w.stop == None {
        PeekIsPrefix(w.s.body, w.buf.data);
        ConsumeIsFaithful(r, ms, w, len, x);
        FedStaysToo(w, ConsumeBody(r.body, w.s.body, w.buf.data, len), w.buf.data[..len]);
      }
    case CallProgress =>
      if w.stop == None {
        ConsumeIsFaithful(r, ms, w, 0, x);
        assert w.buf.data[..0] == [];
        FedStaysToo(w, ConsumeBody(r.body, w.s.body, w.buf.data, 0), []);
      }
  }

  lemma SoundBuffer(r: Rules, w: World)
    requires Sound(r, w)
    ensures w.buf.Valid() && |w.buf.data| <= r.body.limits.maxBufferSize
  {
  }

  lemma FedStays(ms: Methods, w: World, h: Outcome<Option<(Head, BodyKind)>>)
    ensures AfterHeaders(w, h).fed == w.fed
    ensures Chosen(ms, AfterHeaders(w, h).methods) ==> Chosen(ms, w.methods)
  {
    assert forall i :: 0 <= i < |w.methods| ==> (w.methods + [Governing(w.s)])[i] == w.methods[i];
  }

  lemma FedStaysToo(w: World, a: After<Progress>, taken: bytes)
    requires w.current.Some?
    ensures AfterConsume(w, a, taken).fed == w.fed && AfterConsume(w, a, taken).methods == w.methods
  {
  }

  function Choose(methods: seq<Option<bytes>>): Methods {
    (k: nat) => if k < |methods| then methods[k] else None
  }

  lemma StaysSound(r: Rules, w: World, op: Op)
    requires Sound(r, w) && LegalOp(w, op)
    ensures Sound(r, Do(r, w, op))
  {
    hide Sound, Do;
    var _ := StepIsFaithful(r, Choose(Do(r, w, op).methods), w, op, []);
  }

  predicate Legal(r: Rules, w: World, ops: seq<Op>)
    requires Sound(r, w)
    decreases |ops|
  {
    ops == [] || (LegalOp(w, ops[0]) && (StaysSound(r, w, ops[0]); Legal(r, Do(r, w, ops[0]), ops[1..])))
  }

  function RunAll(r: Rules, w: World, ops: seq<Op>): (v: World)
    requires Sound(r, w) && Legal(r, w, ops)
    ensures Sound(r, v)
    decreases |ops|
  {
    if ops == [] then w else StaysSound(r, w, ops[0]); RunAll(r, Do(r, w, ops[0]), ops[1..])
  }

  lemma {:induction false} RunIsFaithful(r: Rules, w: World, ops: seq<Op>)
    requires Faithful(r, w) && Legal(r, w, ops)
    ensures Faithful(r, RunAll(r, w, ops))
    decreases |ops|
  {
    hide Sound, Presented, Do, LegalOp, ReadLog, Chosen;
    if ops != [] {
      StaysSound(r, w, ops[0]);
      DoIsFaithful(r, w, ops[0]);
      RunIsFaithful(r, Do(r, w, ops[0]), ops[1..]);
    }
  }

  const START := World(INITIAL, Buffer.Buf([], 0), [], None, [], [], [], [], [], None)

  lemma StartIsFaithful(r: Rules)
    ensures Faithful(r, START)
  {
    hide ReadLog, LogFrom, ReadMessage;
    MessageRuns.InitialInv(r);
    forall ms: Methods, x | Chosen(ms, START.methods)
      ensures Presented(r, ms, START, x) == ReadLog(r, ms, 0, START.fed + x)
    {
      LogIsFrom(r, ms, 0, x);
      AnnouncedInitial(r, ms(0), x);
      EmptyHanding(ReadMessage(r, ms(0), x));
      EmptyConcat(x);
      NothingThen(ReadLog(r, ms, 0, x));
    }
  }

  /** No call changes anything any more. */
  ghost predicate Exhausted(r: Rules, w: World) {
    w.buf.pending == 0 &&
    (w.stop.Some?
     || (if w.current.Some? then BodyRuns.Quiet(r.body, w.s.body, w.buf.data)
         else DecodeHeaders(r, w.s, w.buf.data) == Outcome(w.s, w.buf.data, Ok(None))))
  }

  /** What the caller of an exhausted run knows. */
  function Known(w: World): Log
    requires w.buf.Valid()
  {
    Log(Transcript(w.messages,
                   match w.stop
                   case Some(DecodeFailed(e)) => Broken(e)
                   case Some(InTunnel) => AtTunnel(w.buf.Committed())
                   case Some(TooLong) => Overlong
                   case None => MessageRuns.Held(View(w))),
        w.trailers)
  }

  lemma ExhaustedReads(r: Rules, ms: Methods, w: World)
    requires Sound(r, w) && Exhausted(r, w) && w.stop == None
    ensures MessageRuns.Inv(r, Announced(w, ms))
    ensures MessageRuns.ReadFrom(r, Announced(w, ms), w.buf.data) == MessageRuns.Held(View(w))
  {
    hide Read, ConsumeBody, BodyRuns.Bounded, DecodeHeaders, ReadMessage, ReadHeaders;
    var s, buf := View(w), w.buf.data;
    if w.current.None? {
      HeadersOfView(r, w);
      MessageRuns.InitialInv(r);
      MessageRuns.HeadersAgree(r, s, buf, []);
      NoLineReads(r, MessageRuns.Announce(s, ms(|w.messages|)), buf);
    } else if w.current.value.1.CloseDelimited? {
      MessageRuns.CloseIsWithinLimit(r, s);
      EmptyConcat(w.sofar);
    } else {
      BodyRuns.QuietReading(r.body, s.body, buf);
    }
  }

  lemma NoLineReads(r: Rules, s: State, buf: bytes)
    requires MessageRuns.Inv(r, s) && s.head.None? && FindLine(buf) == None
    ensures MessageRuns.ReadFrom(r, s, buf) == Waiting
  {
  }

  /** However the bytes arrive, however the bodies are taken and whenever methods are announced, an
      exhausted streaming run has completed exactly the messages of the accepted bytes, with their
      trailers, each head judged by the method that governed it. */
  lemma StreamingIsFragmentationFree(r: Rules, ms: Methods, ops: seq<Op>)
    requires Sound(r, START) && Legal(r, START, ops) && Exhausted(r, RunAll(r, START, ops))
    requires Chosen(ms, RunAll(r, START, ops).methods)
    ensures var w := RunAll(r, START, ops);
            Known(w) == ReadLog(r, ms, 0, w.fed)
  {
    hide ReadLog, MessageRuns.ReadFrom, MessageRuns.Inv, Exhausted, Chosen, LogFrom;
    var w := RunAll(r, START, ops);
    StartIsFaithful(r);
    RunIsFaithful(r, START, ops);
    assert Presented(r, ms, w, []) == ReadLog(r, ms, 0, w.fed + []);
    EmptyConcat(w.fed);
    EmptyConcat(w.buf.Committed());
    if w.stop == None {
      ExhaustedBuffer(r, w);
      ExhaustedReads(r, ms, w);
      StoppedLog(r, ms, w, MessageRuns.Held(View(w)));
    }
  }

  lemma ExhaustedBuffer(r: Rules, w: World)
    requires w.buf.Valid() && Exhausted(r, w)
    ensures w.buf.Committed() == w.buf.data
  {
    hide BodyRuns.Quiet, DecodeHeaders;
  }

  /** A streaming caller and a caller of `decode` who fed the same bytes know the same messages, if
      the latter announced the methods that governed the former's heads. */
  lemma StreamingIsDecode(r: Rules, ms: Methods, ops: seq<Op>, ops': seq<MessageRuns.Op>)
    requires Sound(r, START) && Legal(r, START, ops) && Exhausted(r, RunAll(r, START, ops))
    requires Chosen(ms, RunAll(r, START, ops).methods)
    requires MessageRuns.Legal(r, ms, MessageRuns.Start(ms), ops')
    requires var w' := MessageRuns.RunAll(r, ms, MessageRuns.Start(ms), ops');
             MessageRuns.Exhausted(r, w') && w'.fed == RunAll(r, START, ops).fed
    ensures Known(RunAll(r, START, ops)).messages
         == MessageRuns.Known(MessageRuns.RunAll(r, ms, MessageRuns.Start(ms), ops'))
  {
    hide ReadMessages, ReadTrailers, Sound, Exhausted, MessageRuns.Exhausted, Legal, RunAll, Chosen;
    hide MessageRuns.Legal, MessageRuns.RunAll;
    StreamingIsFragmentationFree(r, ms, ops);
    MessageRuns.PipelineIsFragmentationFree(r, ms, ops');
  }
}
