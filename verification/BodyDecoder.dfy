/** The streaming body decoder: what one call does to the phase, the buffer and the counters,
    and the class whose methods do it in place. */
module BodyDecoder {
  import opened Scan
  import opened BodyGrammar
  import ChunkExt

  datatype Progress = Advanced | NeedData | Finished(trailers: seq<Field>)

  /** The state after a call, the buffer after it, and what it returned. */
  datatype After<R> = After(b: Body, buf: bytes, r: Result<R, Error>)

  /** `process_trailers`; `some` tells whether a trailer line was processed already. */
  function ProcessTrailers(c: Config, b: Body, buf: bytes, some: bool): After<bool>
    decreases |buf|
  {
    var line := FindLine(buf);
    if line.None? then After(b, buf, Ok(some))
    else
      var text, rest := buf[..line.value], buf[line.value + 2..];
      if line.value == 0 then After(b.(phase := Complete), rest, Ok(true))
      else
        var bad := CheckTrailerLine(c, b.trailerCount, text);
        if bad.Some? then After(b, buf, Err(bad.value))
        else
          var f := ParseTrailer(c, b.declared, text);
          if f.Err? then After(b, rest, Err(f.error))
          else
            ProcessTrailers(c, b.(trailers := b.trailers + [f.value], trailerCount := b.trailerCount + 1), rest, true)
  }

  /** `process_chunked_size`; the result tells whether a size line was processed. */
  function ProcessChunkedSize(c: Config, b: Body, buf: bytes): After<bool> {
    var line := FindLine(buf);
    if line.None? then After(b, buf, Ok(false))
    else
      var size := CheckChunkLine(c.limits, buf[..line.value]);
      var rest := buf[line.value + 2..];
      if size.Err? then After(b, buf, Err(size.error))
      else
        var bad := CheckChunkSize(c.limits, b.consumed, size.value);
        if bad.Some? then After(b, rest, Err(bad.value))
        else if size.value == 0 then
          var t := ProcessTrailers(c, b.(phase := ChunkedTrailer), rest, false);
          if t.r.Err? then t else t.(r := Ok(true))
        else After(b.(phase := BodyChunkedData(size.value)), rest, Ok(true))
  }

  /** What a call reports once the phase reached is known; reaching the end hands out the trailers. */
  function Report(t: After<bool>): After<Progress> {
    if t.r.Err? then After(t.b, t.buf, Err(t.r.error))
    else if t.b.phase.Complete? then After(t.b.(trailers := []), t.buf, Ok(Finished(t.b.trailers)))
    else After(t.b, t.buf, Ok(if t.r.value then Advanced else NeedData))
  }

  /** The CRLF that ends a chunk, when both of its bytes are there. */
  function ProcessDataCrlf(b: Body, buf: bytes): After<Progress>
  {
    if |buf| < 2 then After(b, buf, Ok(NeedData))
    else if buf[..2] != CRLF then After(b, buf, Err(InvalidData))
    else After(b.(phase := BodyChunkedSize), buf[2..], Ok(Advanced))
  }

  /** `checked_add` of the bytes consumed so far and the bytes consumed now. */
  function Counted(c: Config, b: Body, len: nat): Result<nat, Error> {
    if b.consumed + len > USIZE_MAX then Err(BodyTooLarge(USIZE_MAX, c.limits.maxBodySize))
    else Ok(b.consumed + len)
  }

  function ConsumeContentLength(c: Config, b: Body, buf: bytes, len: nat): After<Progress>
    requires b.phase.BodyContentLength?
  {
    var n := b.phase.remaining;
    if len > n || len > |buf| then After(b, buf, Err(InvalidData))
    else
      var total := Counted(c, b, len);
      var b' := b.(phase := BodyContentLength(n - len));
      if total.Err? then After(b', buf[len..], Err(total.error))
      else if len == n then After(b'.(phase := Complete, consumed := total.value), buf[len..], Ok(Finished([])))
      else After(b'.(consumed := total.value), buf[len..], Ok(if len > 0 then Advanced else NeedData))
  }

  function ConsumeChunkedData(c: Config, b: Body, buf: bytes, len: nat): After<Progress>
    requires b.phase.BodyChunkedData?
  {
    var n := b.phase.left;
    if len > n || len > |buf| then After(b, buf, Err(InvalidData))
    else if len == 0 then After(b, buf, Ok(NeedData))
    else
      var total := Counted(c, b, len);
      var b' := b.(phase := BodyChunkedData(n - len));
      if total.Err? then After(b', buf[len..], Err(total.error))
      else if len == n then
        ProcessDataCrlf(b'.(phase := BodyChunkedDataCrlf, consumed := total.value), buf[len..])
      else After(b'.(consumed := total.value), buf[len..], Ok(Advanced))
  }

  function ConsumeCloseDelimited(c: Config, b: Body, buf: bytes, len: nat): After<Progress> {
    if len > |buf| then After(b, buf, Err(InvalidData))
    else if len == 0 then After(b, buf, Ok(NeedData))
    else
      var total := Counted(c, b, len);
      if total.Err? then After(b, buf, Err(total.error))
      else if total.value > c.limits.maxBodySize then
        After(b, buf, Err(BodyTooLarge(total.value, c.limits.maxBodySize)))
      else After(b.(consumed := total.value), buf[len..], Ok(Advanced))
  }

  /** `BodyDecoder::consume_body`; `len == 0` is how `progress` calls it. */
  function ConsumeBody(c: Config, b: Body, buf: bytes, len: nat): After<Progress> {
    match b.phase
    case BodyContentLength(_) => ConsumeContentLength(c, b, buf, len)
    case BodyChunkedSize => Report(ProcessChunkedSize(c, b, buf))
    case BodyChunkedData(_) => ConsumeChunkedData(c, b, buf, len)
    case BodyChunkedDataCrlf => ProcessDataCrlf(b, buf)
    case ChunkedTrailer => Report(ProcessTrailers(c, b, buf, false))
    case BodyCloseDelimited => ConsumeCloseDelimited(c, b, buf, len)
    case Complete => After(b.(trailers := []), buf, Ok(Finished(b.trailers)))
    case _ => After(b, buf, Err(InvalidData))
  }

  /** `peek_body`: the body bytes on offer, empty where the source returns `None`. */
  function PeekBody(b: Body, buf: bytes): bytes {
    match b.phase
    case BodyContentLength(n) => if n >= |buf| then buf else buf[..n]
    case BodyChunkedData(n) => if n >= |buf| then buf else buf[..n]
    case BodyCloseDelimited => buf
    case _ => []
  }

  // ---- The code ----

  /** `find_line`: the first window of two bytes that is CRLF. */
  method LocateLine(buf: bytes) returns (r: Option<nat>)
    ensures r == FindLine(buf)
  {
    var i := 0;
    while i + 2 <= |buf|
      invariant forall j: nat :: j < i ==> !Occurs(buf, CRLF, j)
    {
      if buf[i..i + 2] == CRLF {
        FindIs(buf, CRLF, i);
        return Some(i);
      }
      i := i + 1;
    }
    return None;
  }

  /** 1*HEXDIG up to `k`, and, if anything follows, BWS up to `j` and chunk extensions. */
  ghost predicate IsSizeLine(line: bytes, k: nat, j: nat, n: nat) {
    && 0 < k <= j <= |line| && All(line[..k], IsHexDigit) && HexValue(line[..k]) == n <= USIZE_MAX
    && (k == |line| || (j < |line| && All(line[k..j], IsBws) && line[j] == SEMI && ChunkExt.InLanguage(line[j..])))
  }

  /** A chunk-size line is accepted exactly when it has the form of section 7.1 of RFC 9112 and its
      number fits in a `usize`. */
  lemma SizeLineExactly(line: bytes, n: nat)
    ensures ParseChunkSize(line) == Ok(n) <==> exists k: nat, j: nat :: IsSizeLine(line, k, j, n)
  {
    hide HexValue, ChunkExt.Accepts, ChunkExt.InLanguage;
    var j := Span(line, NotSemi);
    var k := Span(line[..j], IsHexDigit);
    assert line[..j][..k] == line[..k] && line[..j][k..] == line[k..j];
    ChunkExt.AcceptsExactly(line[j..]);
    if ParseChunkSize(line) == Ok(n) {
      assert IsSizeLine(line, k, j, n);
    }
    if k', j' :| IsSizeLine(line, k', j', n) {
      SizeLineIsUnique(line, k', j', n);
    }
  }

  lemma SizeLineIsUnique(line: bytes, k: nat, j: nat, n: nat)
    requires IsSizeLine(line, k, j, n)
    ensures Span(line, NotSemi) == if k == |line| then k else j
    ensures Span(line[..Span(line, NotSemi)], IsHexDigit) == k
  {
    hide HexValue, ChunkExt.InLanguage;
    var head := line[..if k == |line| then k else j];
    assert line == head + line[|head|..] && head == line[..k] + line[k..|head|];
    assert line[k..|head|] == [] || IsBws(line[k..|head|][0]);
    SpanOfSplit(line[..k], line[k..|head|], IsHexDigit);
    assert forall i :: k <= i < |head| ==> head[i] == line[k..|head|][i - k];
    assert forall i :: 0 <= i < k ==> head[i] == line[..k][i];
    SpanOfSplit(head, line[|head|..], NotSemi);
  }

  method ReadChunkSize(line: bytes) returns (r: Result<nat, Error>)
    ensures r == ParseChunkSize(line)
  {
    var sizeEnd := SkipWhile(line, 0, NotSemi);
    assert line[0..] == line;
    var size := line[..sizeEnd];
    var hexEnd := SkipWhile(size, 0, IsHexDigit);
    assert size[0..] == size;
    if hexEnd == 0 {
      return Err(InvalidData);
    }
    if hexEnd < |size| && (sizeEnd == |line| || !All(size[hexEnd..], IsBws)) {
      return Err(InvalidData);
    }
    var n := HexValue(size[..hexEnd]);
    if n > USIZE_MAX {
      return Err(InvalidData);
    }
    if sizeEnd < |line| {
      ChunkExt.AcceptsExactly(line[sizeEnd..]);
      var ok := ChunkExt.ValidateChunkExt(line[sizeEnd..]);
      if !ok {
        return Err(InvalidData);
      }
    }
    return Ok(n);
  }

  class BodyDecoder {
    var trailers: seq<Field>
    var bodyConsumed: nat
    var trailerCount: nat
    var declaredTrailers: seq<bytes>

    ghost function State(phase: Phase): Body
      reads this
    {
      Body(phase, bodyConsumed, trailers, trailerCount, declaredTrailers)
    }

    constructor ()
      ensures State(StartLine) == Body(StartLine, 0, [], 0, [])
    {
      trailers, bodyConsumed, trailerCount, declaredTrailers := [], 0, 0, [];
    }

    method Reset()
      modifies this
      ensures State(StartLine) == Body(StartLine, 0, [], 0, [])
    {
      trailers, bodyConsumed, trailerCount, declaredTrailers := [], 0, 0, [];
    }

    method SetDeclaredTrailers(declared: seq<bytes>)
      modifies this
      ensures forall p :: State(p) == old(State(p)).(declared := declared)
    {
      declaredTrailers := declared;
    }

    method ProcessTrailersInPlace(c: Config, buf: bytes, phase: Phase)
      returns (buf': bytes, phase': Phase, r: Result<bool, Error>)
      requires phase == ChunkedTrailer
      modifies this
      ensures After(State(phase'), buf', r) == ProcessTrailers(c, old(State(phase)), buf, false)
    {
      buf', phase' := buf, phase;
      hide ParseTrailer, CheckTrailerLine;
      var advanced := false;
      ghost var goal := ProcessTrailers(c, State(phase), buf, false);
      while phase' == ChunkedTrailer
        invariant phase' == ChunkedTrailer
        invariant ProcessTrailers(c, State(phase'), buf', advanced) == goal
        decreases |buf'|
      {
        var line := LocateLine(buf');
        if line.None? {
          r := Ok(advanced);
          return;
        }
        var pos := line.value;
        if pos == 0 {
          buf', phase', r := buf'[2..], Complete, Ok(true);
          return;
        }
        var text := buf'[..pos];
        var bad := CheckTrailerLine(c, trailerCount, text);
        if bad.Some? {
          r := Err(bad.value);
          return;
        }
        buf' := buf'[pos + 2..];
        var f := ParseTrailer(c, declaredTrailers, text);
        if f.Err? {
          r := Err(f.error);
          return;
        }
        trailers := trailers + [f.value];
        trailerCount := trailerCount + 1;
        advanced := true;
      }
      r := Ok(advanced);
    }

    method ProcessChunkedSizeInPlace(c: Config, buf: bytes, phase: Phase)
      returns (buf': bytes, phase': Phase, r: Result<bool, Error>)
      requires phase == BodyChunkedSize
      modifies this
      ensures After(State(phase'), buf', r) == ProcessChunkedSize(c, old(State(phase)), buf)
    {
      hide ParseChunkSize, ProcessTrailers;
      buf', phase', r := buf, phase, Ok(false);
      var line := LocateLine(buf);
      if line.None? {
        return;
      }
      var pos := line.value;
      if pos > c.limits.maxChunkLineSize {
        r := Err(ChunkLineTooLong(pos, c.limits.maxChunkLineSize));
        return;
      }
      var size := ReadChunkSize(buf[..pos]);
      if size.Err? {
        r := Err(size.error);
        return;
      }
      buf' := buf[pos + 2..];
      if size.value == 0 {
        phase' := ChunkedTrailer;
        buf', phase', r := ProcessTrailersInPlace(c, buf', phase');
        if r.Ok? {
          r := Ok(true);
        }
      } else {
        var newSize := bodyConsumed + size.value;
        if newSize > USIZE_MAX {
          r := Err(BodyTooLarge(USIZE_MAX, c.limits.maxBodySize));
        } else if newSize > c.limits.maxBodySize {
          r := Err(BodyTooLarge(newSize, c.limits.maxBodySize));
        } else {
          phase', r := BodyChunkedData(size.value), Ok(true);
        }
      }
    }

    method TakeTrailers() returns (ts: seq<Field>)
      modifies this
      ensures ts == old(trailers)
      ensures forall p :: State(p) == old(State(p)).(trailers := [])
    {
      ts, trailers := trailers, [];
    }

    method Consume(c: Config, buf: bytes, phase: Phase, len: nat)
      returns (buf': bytes, phase': Phase, r: Result<Progress, Error>)
      modifies this
      ensures After(State(phase'), buf', r) == ConsumeBody(c, old(State(phase)), buf, len)
    {
      buf', phase' := buf, phase;
      match phase {
        case BodyContentLength(remaining) =>
          if len > remaining || len > |buf| {
            return buf', phase', Err(InvalidData);
          }
          buf', phase' := buf[len..], BodyContentLength(remaining - len);
          if bodyConsumed + len > USIZE_MAX {
            return buf', phase', Err(BodyTooLarge(USIZE_MAX, c.limits.maxBodySize));
          }
          bodyConsumed := bodyConsumed + len;
          if remaining == len {
            return buf', Complete, Ok(Finished([]));
          }
          r := Ok(if len > 0 then Advanced else NeedData);
        case BodyChunkedSize =>
          var advanced;
          buf', phase', advanced := ProcessChunkedSizeInPlace(c, buf, phase);
          r := Conclude(phase', advanced);
        case BodyChunkedData(remaining) =>
          if len > remaining || len > |buf| {
            return buf', phase', Err(InvalidData);
          }
          if len == 0 {
            return buf', phase', Ok(NeedData);
          }
          buf', phase' := buf[len..], BodyChunkedData(remaining - len);
          if bodyConsumed + len > USIZE_MAX {
            return buf', phase', Err(BodyTooLarge(USIZE_MAX, c.limits.maxBodySize));
          }
          bodyConsumed := bodyConsumed + len;
          if remaining == len {
            buf', phase', r := ConsumeCrlf(buf');
          } else {
            r := Ok(Advanced);
          }
        case BodyChunkedDataCrlf =>
          buf', phase', r := ConsumeCrlf(buf);
        case ChunkedTrailer =>
          var advanced;
          buf', phase', advanced := ProcessTrailersInPlace(c, buf, phase);
          r := Conclude(phase', advanced);
        case BodyCloseDelimited =>
          if len > |buf| {
            return buf', phase', Err(InvalidData);
          }
          if len == 0 {
            return buf', phase', Ok(NeedData);
          }
          if bodyConsumed + len > USIZE_MAX {
            return buf', phase', Err(BodyTooLarge(USIZE_MAX, c.limits.maxBodySize));
          }
          if bodyConsumed + len > c.limits.maxBodySize {
            return buf', phase', Err(BodyTooLarge(bodyConsumed + len, c.limits.maxBodySize));
          }
          buf' := buf[len..];
          bodyConsumed := bodyConsumed + len;
          r := Ok(Advanced);
        case Complete =>
          var ts := TakeTrailers();
          r := Ok(Finished(ts));
        case _ =>
          r := Err(InvalidData);
      }
    }

    method Conclude(phase: Phase, advanced: Result<bool, Error>) returns (r: Result<Progress, Error>)
      modifies this
      ensures forall buf :: After(State(phase), buf, r) == Report(After(old(State(phase)), buf, advanced))
    {
      if advanced.Err? {
        r := Err(advanced.error);
      } else if phase == Complete {
        var ts := TakeTrailers();
        r := Ok(Finished(ts));
      } else {
        r := Ok(if advanced.value then Advanced else NeedData);
      }
    }

    method ConsumeCrlf(buf: bytes) returns (buf': bytes, phase': Phase, r: Result<Progress, Error>)
      ensures After(State(phase'), buf', r) == ProcessDataCrlf(State(BodyChunkedDataCrlf), buf)
    {
      buf', phase', r := buf, BodyChunkedDataCrlf, Ok(NeedData);
      if |buf| >= 2 {
        if buf[..2] != CRLF {
          r := Err(InvalidData);
        } else {
          buf', phase', r := buf[2..], BodyChunkedSize, Ok(Advanced);
        }
      }
    }

    /** `None` exactly when there is nothing to offer. */
    method Peek(buf: bytes, phase: Phase) returns (r: Option<bytes>)
      ensures r == if PeekBody(State(phase), buf) == [] then None else Some(PeekBody(State(phase), buf))
    {
      r := None;
      assert buf[..|buf|] == buf;
      match phase {
        case BodyContentLength(remaining) =>
          var available := if remaining >= |buf| then |buf| else remaining;
          if available > 0 {
            r := Some(buf[..available]);
          }
        case BodyChunkedData(remaining) =>
          var available := if |buf| <= remaining then |buf| else remaining;
          if available > 0 {
            r := Some(buf[..available]);
          }
        case BodyCloseDelimited =>
          if buf != [] {
            r := Some(buf);
          }
        case _ =>
      }
    }
  }
}
