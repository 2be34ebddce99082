/** The message decoder: `decode_headers` and `decode` as functions of the decoder's state and
    buffer, and the class whose methods do the same in place. `RequestDecoder` and
    `ResponseDecoder` share this machine: they differ in the start line, in the framing rule, in
    the announced request method and in close-delimited bodies, which only a response has. */
module MessageDecoder {
  import opened Scan
  import opened BodyGrammar
  import opened BodyDecoder
  import opened MessageGrammar
  import BodyRuns
  import Buffer
  import Framing

  /** The fields of `MessageDecoder`, apart from the buffer. */
  datatype State = State(
    body: Body,
    line: Option<StartLine>,
    headers: seq<Field>,
    head: Option<Head>,
    kind: Option<BodyKind>,
    decoded: bytes,
    requestMethod: Option<bytes>)

  const FRESH_BODY := Body(StartLine, 0, [], 0, [])
  const INITIAL := State(FRESH_BODY, None, [], None, None, [], None)

  datatype Outcome<T> = Outcome(s: State, buf: bytes, r: Result<T, Error>)

  function AtPhase(s: State, p: Phase): State { s.(body := s.body.(phase := p)) }

  /** The empty line: the head is complete, and its framing decides the phase. */
  function EndOfHead(r: Rules, s: State, buf: bytes): Outcome<Option<(Head, BodyKind)>> {
    if s.line.None? then Outcome(s, buf, Err(InvalidData))
    else
      var k := Kind(r, s.requestMethod, Head(s.line.value, s.headers));
      if k.Err? then Outcome(s, buf, Err(k.error))
      else
        var head := Kept(Head(s.line.value, s.headers), k.value);
        var body := s.body.(phase := BodyPhase(k.value), declared := Framing.Declared(head.headers));
        Outcome(s.(body := body, line := None, headers := []), buf, Ok(Some((head, k.value))))
  }

  /** `decode_headers`. */
  function DecodeHeaders(r: Rules, s: State, buf: bytes): Outcome<Option<(Head, BodyKind)>>
    decreases |buf|, if s.body.phase.Complete? then 1 else 0
  {
    var pos := FindLine(buf);
    match s.body.phase
    case StartLine =>
      if pos.None? then Outcome(s, buf, Ok(None))
      else if !r.body.utf8(buf[..pos.value]) then Outcome(s, buf, Err(InvalidData))
      else
        var rest := buf[pos.value + 2..];
        var line := ParseStartLine(r, buf[..pos.value]);
        if line.Err? then Outcome(s, rest, Err(line.error))
        else DecodeHeaders(r, AtPhase(s, Headers).(line := Some(line.value)), rest)
    case Headers =>
      if pos.None? then Outcome(s, buf, Ok(None))
      else if pos.value == 0 then EndOfHead(r, s, buf[2..])
      else
        var bad := CheckHeaderLine(r, |s.headers|, buf[..pos.value]);
        if bad.Some? then Outcome(s, buf, Err(bad.value))
        else
          var rest := buf[pos.value + 2..];
          var f := ParseHeaderLine(buf[..pos.value]);
          if f.Err? then Outcome(s, rest, Err(f.error))
          else DecodeHeaders(r, s.(headers := s.headers + [f.value]), rest)
    case Complete => DecodeHeaders(r, s.(body := FRESH_BODY, line := None, headers := [], requestMethod := None), buf)
    case _ => Outcome(s, buf, Err(InvalidData))
  }

  /** One round of the loop. */
  lemma DecodeHeadersOnce(r: Rules, s: State, buf: bytes)
    ensures var pos, p := FindLine(buf), s.body.phase;
            DecodeHeaders(r, s, buf) ==
            if p.StartLine? then
              if pos.None? then Outcome(s, buf, Ok(None))
              else if !r.body.utf8(buf[..pos.value]) then Outcome(s, buf, Err(InvalidData))
              else
                var line := ParseStartLine(r, buf[..pos.value]);
                if line.Err? then Outcome(s, buf[pos.value + 2..], Err(line.error))
                else DecodeHeaders(r, AtPhase(s, Headers).(line := Some(line.value)), buf[pos.value + 2..])
            else if p.Headers? then
              if pos.None? then Outcome(s, buf, Ok(None))
              else if pos.value == 0 then EndOfHead(r, s, buf[2..])
              else
                var bad := CheckHeaderLine(r, |s.headers|, buf[..pos.value]);
                var f := ParseHeaderLine(buf[..pos.value]);
                if bad.Some? then Outcome(s, buf, Err(bad.value))
                else if f.Err? then Outcome(s, buf[pos.value + 2..], Err(f.error))
                else DecodeHeaders(r, s.(headers := s.headers + [f.value]), buf[pos.value + 2..])
            else if p.Complete? then
              DecodeHeaders(r, s.(body := FRESH_BODY, line := None, headers := [], requestMethod := None), buf)
            else Outcome(s, buf, Err(InvalidData))
  {
    hide EndOfHead, ParseStartLine, ParseHeaderLine, CheckHeaderLine, FindLine;
  }

  /** The message is complete: hand it out and start over. */
  function Finish(s: State, buf: bytes): Outcome<Option<Message>>
    requires s.head.Some? && s.kind.Some?
  {
    var body := if s.kind.value.NoBody? || s.kind.value.TunnelKind? then None else Some(s.decoded);
    Outcome(s.(body := FRESH_BODY, head := None, kind := None, decoded := [], requestMethod := None), buf,
          Ok(Some(Message(s.head.value, body))))
  }

  /** A step of the body loop that goes on has shortened the buffer. */
  lemma LoopShrinks(c: Config, b: Body, buf: bytes, len: nat)
    requires BodyRuns.LegalCall(b, buf, len)
    ensures var a := ConsumeBody(c, b, buf, len);
            && |a.buf| <= |buf|
            && (len > 0 && a.r.Ok? ==> |a.buf| < |buf|)
            && (len == 0 && a.r == Ok(Advanced) ==> |a.buf| < |buf|)
            && (len == 0 && a.r == Ok(NeedData) ==> a.b == b && a.buf == buf)
  {
    hide ProcessChunkedSize, ProcessTrailers;
    if b.phase.BodyChunkedSize? {
      BodyRuns.SizeShape(c, b, buf);
    } else if b.phase.ChunkedTrailer? {
      BodyRuns.TrailersShape(c, b, buf, false);
    }
  }

  /** The loop of `decode` over a sized body: take what is on offer, otherwise make progress. */
  function DrainBody(r: Rules, s: State, buf: bytes): Outcome<Option<Message>>
    requires s.head.Some? && s.kind.Some?
    decreases |buf|
  {
    var data := PeekBody(s.body, buf);
    var a := ConsumeBody(r.body, s.body, buf, |data|);
    var s' := s.(body := a.b, decoded := s.decoded + data);
    LoopShrinks(r.body, s.body, buf, |data|);
    if a.r.Err? then Outcome(s', a.buf, Err(a.r.error))
    else if data != [] then
      if a.b.phase.Complete? then Finish(s', a.buf) else DrainBody(r, s', a.buf)
    else match a.r.value
      case Finished(_) => Finish(s', a.buf)
      case Advanced => DrainBody(r, s', a.buf)
      case NeedData => Outcome(s', a.buf, Ok(None))
  }

  /** The body of a response without a length: take what is there, and wait for the end of the
      connection, which `mark_eof` reports. */
  function DrainUntilClose(r: Rules, s: State, buf: bytes): Outcome<Option<Message>>
    requires s.head.Some? && s.kind.Some?
  {
    var data, max := PeekBody(s.body, buf), r.body.limits.maxBodySize;
    var size := |s.decoded| + |data|;
    if data != [] && size > USIZE_MAX then Outcome(s, buf, Err(BodyTooLarge(USIZE_MAX, max)))
    else if data != [] && size > max then Outcome(s, buf, Err(BodyTooLarge(size, max)))
    else
      var a := if data == [] then After(s.body, buf, Ok(NeedData)) else ConsumeBody(r.body, s.body, buf, |data|);
      var s' := s.(body := a.b, decoded := s.decoded + data);
      if a.r.Err? then Outcome(s', a.buf, Err(a.r.error))
      else if !a.b.phase.Complete? then Outcome(s', a.buf, Ok(None))
      else Finish(s', a.buf)
  }

  /** `mark_eof`. */
  function MarkEof(s: State): State {
    if s.body.phase.BodyCloseDelimited? then AtPhase(s, Complete) else s
  }

  function DecodeBody(r: Rules, s: State, buf: bytes): Outcome<Option<Message>>
    requires s.head.Some? && s.kind.Some?
  {
    match s.kind.value
    case TunnelKind => Outcome(s, buf, Err(InvalidData))
    case ContentLength(_) => DrainBody(r, s, buf)
    case Chunked => DrainBody(r, s, buf)
    case CloseDelimited => DrainUntilClose(r, s, buf)
    case NoBody => Finish(s, buf)
  }

  /** `decode`. */
  function Decode(r: Rules, s: State, buf: bytes): Outcome<Option<Message>>
    requires s.head.Some? ==> s.kind.Some?
  {
    if s.head.Some? then DecodeBody(r, s, buf)
    else if s.body.phase.StartLine? || s.body.phase.Headers? then
      var h := DecodeHeaders(r, s, buf);
      if h.r.Err? then Outcome(h.s, h.buf, Err(h.r.error))
      else if h.r.value.None? then Outcome(h.s, h.buf, Ok(None))
      else DecodeBody(r, h.s.(head := Some(h.r.value.value.0), kind := Some(h.r.value.value.1)), h.buf)
    else Outcome(s, buf, Err(InvalidData))
  }

  // ---- The code ----

  method DetermineBodyKind(r: Rules, requestMethod: Option<bytes>, head: Head) returns (k: Result<BodyKind, Error>)
    ensures k == Kind(r, requestMethod, head)
  {
    hide Framing.RequestFrame, Framing.ResponseFrame, Framing.HasHeader;
    match head.line
    case RequestLine(method_, _, version) =>
      if version == HTTP11 && !r.hostOk(head.headers) {
        return Err(InvalidData);
      }
      if method_ == CONNECT {
        return Ok(TunnelKind);
      }
      var f := Framing.ResolveRequest(head.headers);
      if f.Err? {
        return Err(f.error);
      }
      if f.value.chunked {
        return if version != HTTP11 then Err(InvalidData) else Ok(Chunked);
      }
      k := if f.value.length.None? then Ok(NoBody) else SizedKind(r.body.limits.maxBodySize, f.value.length.value);
    case StatusLine(version, status, _) =>
      if requestMethod == Some(HEAD) || !StatusHasBody(status) {
        return Ok(NoBody);
      }
      if requestMethod == Some(CONNECT) && 200 <= status < 300 {
        return Ok(TunnelKind);
      }
      if version != HTTP11 && Framing.HasHeader(head.headers, Framing.TRANSFER_ENCODING) {
        return Err(InvalidData);
      }
      var f := Framing.ResolveResponse(head.headers);
      if f.Err? {
        return Err(f.error);
      }
      if f.value.0.ChunkedLast? {
        return Ok(Chunked);
      }
      k := if f.value.0.OtherLast? || f.value.1.None? then Ok(CloseDelimited)
           else SizedKind(r.body.limits.maxBodySize, f.value.1.value);
  }

  class MessageDecoder {
    const rules: Rules
    const bodyDecoder: BodyDecoder
    var buf: bytes
    var phase: Phase
    var startLine: Option<StartLine>
    var headers: seq<Field>
    var decodedHead: Option<Head>
    var decodedBodyKind: Option<BodyKind>
    var decodedBody: bytes
    var requestMethod: Option<bytes>
    var pending: nat

    ghost function View(): State
      reads this, bodyDecoder
    {
      State(bodyDecoder.State(phase), startLine, headers, decodedHead, decodedBodyKind, decodedBody, requestMethod)
    }

    ghost function Input(): Buffer.Buf
      reads this
    {
      Buffer.Buf(buf, pending)
    }

    constructor (rules: Rules)
      ensures this.rules == rules && fresh(bodyDecoder)
      ensures View() == INITIAL && Input() == Buffer.Buf([], 0)
    {
      this.rules := rules;
      bodyDecoder := new BodyDecoder();
      buf, phase, startLine, headers := [], StartLine, None, [];
      decodedHead, decodedBodyKind, decodedBody, requestMethod, pending := None, None, [], None, 0;
    }

    method Feed(data: bytes) returns (r: Result<(), Error>)
      requires pending == 0
      modifies this`buf
      ensures Input() == Buffer.Fed(old(Input()), rules.body.limits.maxBufferSize, data)
      ensures r == var bad := Buffer.Overflow(rules.body.limits.maxBufferSize, old(|buf|), |data|);
                   if bad.Some? then Err(bad.value) else Ok(())
      ensures View() == old(View())
    {
      var max := rules.body.limits.maxBufferSize;
      if |buf| + |data| > USIZE_MAX {
        return Err(BufferOverflow(USIZE_MAX, max));
      }
      if |buf| + |data| > max {
        return Err(BufferOverflow(|buf| + |data|, max));
      }
      buf := buf + data;
      r := Ok(());
    }

    method MutBuf(len: nat) returns (r: Result<(), Error>)
      requires pending <= |buf|
      modifies this`buf, this`pending
      ensures Input() == Buffer.Reserved(old(Input()), rules.body.limits.maxBufferSize, len)
      ensures r == var bad := Buffer.Overflow(rules.body.limits.maxBufferSize, old(|buf| - pending), len);
                   if bad.Some? then Err(bad.value) else Ok(())
      ensures View() == old(View())
    {
      var max := rules.body.limits.maxBufferSize;
      if pending > 0 {
        buf := buf[..|buf| - pending];
        pending := 0;
      }
      assert buf == old(Input()).Committed();
      if |buf| + len > USIZE_MAX {
        return Err(BufferOverflow(USIZE_MAX, max));
      }
      if |buf| + len > max {
        return Err(BufferOverflow(|buf| + len, max));
      }
      buf := buf + seq(len, _ => 0);
      pending := len;
      r := Ok(());
    }

    /** The caller's writes into the slice that `MutBuf` reserved. */
    method WriteReserved(data: bytes)
      requires |data| <= pending <= |buf|
      modifies this`buf
      ensures Input() == Buffer.Written(old(Input()), data)
      ensures View() == old(View())
    {
      buf := buf[..|buf| - pending] + data + buf[|buf| - pending + |data|..];
    }

    method AdvanceBuf(len: nat)
      requires pending <= |buf|
      modifies this`buf, this`pending
      ensures Input() == Buffer.Advanced(old(Input()), len)
      ensures View() == old(View())
    {
      var kept := if len <= pending then len else pending;
      var drop := pending - kept;
      if drop > 0 {
        buf := buf[..|buf| - drop];
      }
      assert old(buf)[..|old(buf)|] == old(buf);
      pending := 0;
    }

    method Reset()
      modifies this, bodyDecoder
      ensures View() == INITIAL && Input() == Buffer.Buf([], 0)
    {
      buf, phase, startLine, headers := [], StartLine, None, [];
      bodyDecoder.Reset();
      decodedHead, decodedBodyKind, decodedBody, requestMethod, pending := None, None, [], None, 0;
    }

    method TakeRemaining() returns (rest: bytes)
      requires pending == 0
      modifies this
      ensures rest == old(buf) && Input() == Buffer.Buf([], 0)
      ensures View() == old(View())
    {
      rest := buf;
      buf, pending := [], 0;
    }

    method FinishHead() returns (r: Result<Option<(Head, BodyKind)>, Error>)
      modifies this, bodyDecoder
      ensures Outcome(View(), buf, r) == EndOfHead(rules, old(View()), old(buf))
      ensures pending == old(pending)
    {
      if startLine.None? {
        return Err(InvalidData);
      }
      var kind := DetermineBodyKind(rules, requestMethod, Head(startLine.value, headers));
      if kind.Err? {
        return Err(kind.error);
      }
      if startLine.value.StatusLine? && kind.value.TunnelKind? {
        headers := WithoutFraming(headers);
      }
      phase := BodyPhase(kind.value);
      var declared := Framing.CollectDeclaredTrailers(headers);
      bodyDecoder.SetDeclaredTrailers(declared);
      r := Ok(Some((Head(startLine.value, headers), kind.value)));
      startLine, headers := None, [];
    }

    method DecodeHeadersInPlace() returns (r: Result<Option<(Head, BodyKind)>, Error>)
      requires pending == 0
      modifies this, bodyDecoder
      ensures Outcome(View(), buf, r) == DecodeHeaders(rules, old(View()), old(buf))
      ensures pending == 0
    {
      hide EndOfHead, ParseStartLine, ParseHeaderLine, CheckHeaderLine, FindLine, DecodeHeaders;
      ghost var goal := DecodeHeaders(rules, View(), buf);
      while true
        invariant DecodeHeaders(rules, View(), buf) == goal && pending == 0
        decreases |buf|, if phase.Complete? then 1 else 0
      {
        DecodeHeadersOnce(rules, View(), buf);
        match phase {
          case StartLine =>
            var pos := LocateLine(buf);
            if pos.None? {
              return Ok(None);
            }
            var text := buf[..pos.value];
            if !rules.body.utf8(text) {
              return Err(InvalidData);
            }
            buf := buf[pos.value + 2..];
            var line := ParseStartLine(rules, text);
            if line.Err? {
              return Err(line.error);
            }
            startLine, phase := Some(line.value), Headers;
          case Headers =>
            var pos := LocateLine(buf);
            if pos.None? {
              return Ok(None);
            }
            if pos.value == 0 {
              buf := buf[2..];
              r := FinishHead();
              return;
            }
            var text := buf[..pos.value];
            var bad := CheckHeaderLine(rules, |headers|, text);
            if bad.Some? {
              return Err(bad.value);
            }
            buf := buf[pos.value + 2..];
            var field := ParseHeaderLine(text);
            if field.Err? {
              return Err(field.error);
            }
            headers := headers + [field.value];
          case Complete =>
            phase, startLine, headers, requestMethod := StartLine, None, [], None;
            bodyDecoder.Reset();
          case _ =>
            return Err(InvalidData);
        }
      }
    }

    method FinishMessage() returns (r: Result<Option<Message>, Error>)
      requires decodedHead.Some? && decodedBodyKind.Some?
      modifies this, bodyDecoder
      ensures Outcome(View(), buf, r) == Finish(old(View()), old(buf))
      ensures pending == old(pending)
    {
      var kind := decodedBodyKind.value;
      var body := if kind.NoBody? || kind.TunnelKind? then None else Some(decodedBody);
      r := Ok(Some(Message(decodedHead.value, body)));
      decodedHead, phase, decodedBodyKind, decodedBody, requestMethod := None, StartLine, None, [], None;
      bodyDecoder.Reset();
    }

    method DecodeBodyInPlace() returns (r: Result<Option<Message>, Error>)
      requires pending == 0 && decodedHead.Some? && decodedBodyKind.Some?
      modifies this, bodyDecoder
      ensures Outcome(View(), buf, r) == DrainBody(rules, old(View()), old(buf))
      ensures pending == 0
    {
      hide ConsumeBody, Finish, PeekBody;
      ghost var goal := DrainBody(rules, View(), buf);
      while true
        invariant decodedHead.Some? && decodedBodyKind.Some? && pending == 0
        invariant DrainBody(rules, View(), buf) == goal
        decreases |buf|
      {
        ghost var body, input := bodyDecoder.State(phase), buf;
        var offer := bodyDecoder.Peek(buf, phase);
        var progress;
        if offer.Some? {
          var data := offer.value;
          LoopShrinks(rules.body, body, input, |data|);
          decodedBody := decodedBody + data;
          buf, phase, progress := bodyDecoder.Consume(rules.body, buf, phase, |data|);
          if progress.Err? {
            return Err(progress.error);
          }
          if phase.Complete? {
            break;
          }
        } else {
          LoopShrinks(rules.body, body, input, 0);
          EmptyConcat(decodedBody);
          buf, phase, progress := bodyDecoder.Consume(rules.body, buf, phase, 0);
          if progress.Err? {
            return Err(progress.error);
          }
          match progress.value {
            case Finished(_) => break;
            case Advanced =>
            case NeedData => return Ok(None);
          }
        }
      }
      r := FinishMessage();
    }

    /** `decode`. */
    method DecodeInPlace() returns (r: Result<Option<Message>, Error>)
      requires pending == 0 && (decodedHead.Some? ==> decodedBodyKind.Some?)
      modifies this, bodyDecoder
      ensures Outcome(View(), buf, r) == Decode(rules, old(View()), old(buf))
      ensures pending == 0
    {
      hide DecodeHeaders, DrainBody, Finish;
      if decodedHead.None? {
        match phase {
          case StartLine =>
          case Headers =>
          case _ => return Err(InvalidData);
        }
        var h := DecodeHeadersInPlace();
        if h.Err? {
          return Err(h.error);
        }
        if h.value.None? {
          return Ok(None);
        }
        decodedHead, decodedBodyKind := Some(h.value.value.0), Some(h.value.value.1);
      }
      match decodedBodyKind.value {
        case TunnelKind => r := Err(InvalidData);
        case ContentLength(_) => r := DecodeBodyInPlace();
        case Chunked => r := DecodeBodyInPlace();
        case CloseDelimited => r := DecodeUntilCloseInPlace();
        case NoBody => r := FinishMessage();
      }
    }

    method DecodeUntilCloseInPlace() returns (r: Result<Option<Message>, Error>)
      requires pending == 0 && decodedHead.Some? && decodedBodyKind.Some?
      modifies this, bodyDecoder
      ensures Outcome(View(), buf, r) == DrainUntilClose(rules, old(View()), old(buf))
      ensures pending == 0
    {
      hide ConsumeBody, Finish, PeekBody;
      var max := rules.body.limits.maxBodySize;
      var offer := bodyDecoder.Peek(buf, phase);
      EmptyConcat(decodedBody);
      if offer.Some? {
        var data := offer.value;
        if |decodedBody| + |data| > USIZE_MAX {
          return Err(BodyTooLarge(USIZE_MAX, max));
        }
        if |decodedBody| + |data| > max {
          return Err(BodyTooLarge(|decodedBody| + |data|, max));
        }
        decodedBody := decodedBody + data;
        var progress;
        buf, phase, progress := bodyDecoder.Consume(rules.body, buf, phase, |data|);
        if progress.Err? {
          return Err(progress.error);
        }
      }
      if !phase.Complete? {
        return Ok(None);
      }
      r := FinishMessage();
    }

    /** `set_request_method`. */
    method SetRequestMethod(method_: bytes)
      modifies this`requestMethod
      ensures View() == old(View()).(requestMethod := Some(method_))
    {
      requestMethod := Some(method_);
    }

    /** `mark_eof`: the buffer is left as it is. */
    method MarkEofInPlace()
      requires pending == 0
      modifies this`phase
      ensures View() == MarkEof(old(View()))
    {
      if phase.BodyCloseDelimited? {
        phase := Complete;
      }
    }

    method PeekBodyInPlace() returns (r: Option<bytes>)
      requires pending == 0
      ensures r == var offer := PeekBody(bodyDecoder.State(phase), buf); if offer == [] then None else Some(offer)
    {
      r := bodyDecoder.Peek(buf, phase);
    }

    /** `consume_body`: consuming nothing is refused, `progress` is for that. */
    method ConsumeBodyInPlace(len: nat) returns (r: Result<Progress, Error>)
      requires pending == 0
      modifies this, bodyDecoder
      ensures len == 0 ==> r == Err(InvalidData) && View() == old(View()) && buf == old(buf)
      ensures len > 0 ==> After(View().body, buf, r) == ConsumeBody(rules.body, old(View()).body, old(buf), len)
      ensures View() == old(View()).(body := View().body) && pending == 0
    {
      if len == 0 {
        return Err(InvalidData);
      }
      buf, phase, r := bodyDecoder.Consume(rules.body, buf, phase, len);
    }

    method Progress() returns (r: Result<Progress, Error>)
      requires pending == 0
      modifies this, bodyDecoder
      ensures After(View().body, buf, r) == ConsumeBody(rules.body, old(View()).body, old(buf), 0)
      ensures View() == old(View()).(body := View().body) && pending == 0
    {
      buf, phase, r := bodyDecoder.Consume(rules.body, buf, phase, 0);
    }
  }
}
