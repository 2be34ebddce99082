/** Runs of the body decoder: no schedule of feeds and consumes can be observed. */
module BodyRuns {
  import opened Scan
  import opened BodyGrammar
  import opened BodyDecoder

  // ---- One call agrees with the meaning of the stream, whatever bytes x come later ----

  lemma TakeLine(buf: bytes, x: bytes)
    requires FindLine(buf).Some?
    ensures FindLine(buf + x) == FindLine(buf)
    ensures (buf + x)[..FindLine(buf).value] == buf[..FindLine(buf).value]
    ensures (buf + x)[FindLine(buf).value + 2..] == buf[FindLine(buf).value + 2..] + x
  {
    FindStable(buf, x, CRLF);
  }

  lemma DeliverNothing(r: Reading)
    ensures Deliver([], [], r) == r
  {
  }

  lemma DeliverTwice(d1: bytes, d2: bytes, t1: seq<Field>, t2: seq<Field>, r: Reading)
    ensures Deliver(d1, t1, Deliver(d2, t2, r)) == Deliver(d1 + d2, t1 + t2, r)
  {
    ConcatAssociative(d1, d2, r.body);
    ConcatAssociative(t1, t2, r.trailers);
  }

  /** `a` is what a call made of `b` and `buf`, handing out `body` and `trailers`. */
  ghost predicate Agrees<R>(c: Config, b: Body, buf: bytes, a: After<R>, body: bytes, trailers: seq<Field>, x: bytes) {
    Read(c, b, buf + x) ==
    if a.r.Ok? then Deliver(body, trailers, Read(c, a.b, a.buf + x))
    else Reading(body, trailers, Failed(a.r.error))
  }

  /** The trailers a call handed out. */
  function Handed(r: Result<Progress, Error>): seq<Field> {
    if r.Ok? && r.value.Finished? then r.value.trailers else []
  }

  /** The state after one more trailer. */
  function WithTrailer(b: Body, f: Field): Body {
    b.(trailers := b.trailers + [f], trailerCount := b.trailerCount + 1)
  }

  lemma {:induction false} TrailersAgree(c: Config, b: Body, buf: bytes, some: bool, x: bytes)
    requires b.phase.ChunkedTrailer?
    ensures Agrees(c, b, buf, ProcessTrailers(c, b, buf, some), [], [], x)
    decreases |buf|
  {
    hide CheckTrailerLine, ParseTrailer, ReadSize;
    var line := FindLine(buf);
    DeliverNothing(Read(c, b, buf + x));
    if line.Some? {
      TakeLine(buf, x);
      var text, rest := buf[..line.value], buf[line.value + 2..];
      if line.value == 0 {
        DeliverNothing(Read(c, b.(phase := Complete), rest + x));
      } else if CheckTrailerLine(c, b.trailerCount, text) == None {
        var f := ParseTrailer(c, b.declared, text);
        if f.Ok? {
          TrailersAgree(c, WithTrailer(b, f.value), rest, true, x);
        }
      }
    }
  }

  lemma SizeAgrees(c: Config, b: Body, buf: bytes, x: bytes)
    requires b.phase.BodyChunkedSize?
    ensures Agrees(c, b, buf, ProcessChunkedSize(c, b, buf), [], [], x)
  {
    hide CheckChunkLine, CheckChunkSize, ProcessTrailers, ReadTrailers;
    var line := FindLine(buf);
    DeliverNothing(ReadSize(c, b, buf + x));
    if line.Some? {
      TakeLine(buf, x);
      var size := CheckChunkLine(c.limits, buf[..line.value]);
      if size.Ok? {
        DeliverNothing(Read(c, b.(phase := BodyChunkedData(size.value)), buf[line.value + 2..] + x));
      }
      TrailersAgree(c, b.(phase := ChunkedTrailer), buf[line.value + 2..], false, x);
    }
  }

  lemma ReportAgrees(c: Config, b: Body, buf: bytes, t: After<bool>, x: bytes)
    requires Agrees(c, b, buf, t, [], [], x)
    ensures Agrees(c, b, buf, Report(t), [], Handed(Report(t).r), x)
  {
    hide ReadSize, ReadTrailers;
    if t.r.Ok? && t.b.phase.Complete? {
      assert t.b.trailers + [] == t.b.trailers;
    }
  }

  lemma CrlfAgrees(c: Config, b: Body, buf: bytes, x: bytes)
    requires b.phase.BodyChunkedDataCrlf?
    ensures Handed(ProcessDataCrlf(b, buf).r) == []
    ensures Agrees(c, b, buf, ProcessDataCrlf(b, buf), [], [], x)
  {
    hide ReadSize, ReadTrailers;
    DeliverNothing(Read(c, b, buf + x));
    if |buf| >= 2 {
      assert (buf + x)[..2] == buf[..2] && (buf + x)[2..] == buf[2..] + x;
      DeliverNothing(Read(c, b.(phase := BodyChunkedSize), buf[2..] + x));
    }
  }

  lemma SplitPrefix(s: bytes, len: nat, n: nat)
    requires len <= n <= |s|
    ensures s[..n] == s[..len] + s[len..][..n - len] && s[n..] == s[len..][n - len..]
  {
  }

  lemma ReadData(c: Config, b: Body, s: bytes)
    requires b.phase.BodyChunkedData?
    ensures var n := b.phase.left;
            Read(c, b, s) ==
            if |s| < n then Reading(s, [], Pending)
            else Deliver(s[..n], [], Read(c, b.(phase := BodyChunkedDataCrlf, consumed := b.consumed + n), s[n..]))
  {
  }

  lemma ReadPartOfData(c: Config, b: Body, s: bytes, len: nat)
    requires b.phase.BodyChunkedData? && len < b.phase.left && len <= |s|
    ensures Read(c, b, s)
         == (var b' := b.(phase := BodyChunkedData(b.phase.left - len), consumed := b.consumed + len);
             Deliver(s[..len], [], Read(c, b', s[len..])))
  {
    hide Read;
    var n := b.phase.left;
    ReadData(c, b, s);
    ReadData(c, b.(phase := BodyChunkedData(n - len), consumed := b.consumed + len), s[len..]);
    SplitPrefix(s, len, if |s| < n then |s| else n);
    if |s| >= n {
      DeliverTwice(s[..len], s[len..][..n - len], [], [],
                   Read(c, b.(phase := BodyChunkedDataCrlf, consumed := b.consumed + n), s[n..]));
    }
  }

  lemma ChunkedDataAgrees(c: Config, b: Body, buf: bytes, len: nat, x: bytes)
    requires b.phase.BodyChunkedData? && len <= b.phase.left && len <= |buf|
    requires b.consumed + b.phase.left <= USIZE_MAX
    ensures Handed(ConsumeChunkedData(c, b, buf, len).r) == []
    ensures Agrees(c, b, buf, ConsumeChunkedData(c, b, buf, len), buf[..len], [], x)
  {
    hide Read, ProcessDataCrlf;
    var n, s := b.phase.left, buf + x;
    var after := b.(phase := BodyChunkedDataCrlf, consumed := b.consumed + n);
    assert s[..len] == buf[..len] && s[len..] == buf[len..] + x;
    if len == 0 {
      DeliverNothing(Read(c, b, s));
    } else if len == n {
      ReadData(c, b, s);
      CrlfAgrees(c, after, buf[len..], x);
      DeliverNothing(Read(c, after, s[len..]));
    } else {
      ReadPartOfData(c, b, s, len);
    }
  }

  lemma ContentLengthAgrees(c: Config, b: Body, buf: bytes, len: nat, x: bytes)
    requires b.phase.BodyContentLength? && len <= b.phase.remaining && len <= |buf|
    requires b.consumed + b.phase.remaining <= USIZE_MAX
    ensures Handed(ConsumeContentLength(c, b, buf, len).r) == []
    ensures Agrees(c, b, buf, ConsumeContentLength(c, b, buf, len), buf[..len], [], x)
  {
    hide ReadSize, ReadTrailers;
    var n, s := b.phase.remaining, buf + x;
    assert s[..len] == buf[..len] && s[len..] == buf[len..] + x;
    SplitPrefix(s, len, if |s| < n then |s| else n);
  }

  // ---- Resource bounds, kept by every call, also by one that fails ----

  predicate Bounded(l: Limits, b: Body) {
    && b.consumed <= l.maxBodySize
    && (b.phase.BodyContentLength? ==> 0 < b.phase.remaining && b.consumed + b.phase.remaining <= l.maxBodySize)
    && (b.phase.BodyChunkedData? ==> 0 < b.phase.left && b.consumed + b.phase.left <= l.maxBodySize)
    && |b.trailers| <= b.trailerCount <= l.maxHeadersCount
  }

  lemma {:induction false} TrailersBounded(c: Config, b: Body, buf: bytes, some: bool)
    requires Bounded(c.limits, b) && b.phase.ChunkedTrailer?
    ensures Bounded(c.limits, ProcessTrailers(c, b, buf, some).b)
    decreases |buf|
  {
    hide ParseTrailer;
    var line := FindLine(buf);
    if line.Some? && line.value != 0 && CheckTrailerLine(c, b.trailerCount, buf[..line.value]) == None {
      var f := ParseTrailer(c, b.declared, buf[..line.value]);
      if f.Ok? {
        TrailersBounded(c, WithTrailer(b, f.value),
                        buf[line.value + 2..], true);
      }
    }
  }

  lemma SizeBounded(c: Config, b: Body, buf: bytes)
    requires Bounded(c.limits, b) && b.phase.BodyChunkedSize?
    ensures Bounded(c.limits, ProcessChunkedSize(c, b, buf).b)
  {
    hide CheckChunkLine, ProcessTrailers;
    var line := FindLine(buf);
    if line.Some? {
      TrailersBounded(c, b.(phase := ChunkedTrailer), buf[line.value + 2..], false);
    }
  }

  /** Any call, legal or not, keeps the bounds; in the sized phases the overflow branch of the
      byte count cannot be taken. */
  lemma ConsumeBounded(c: Config, b: Body, buf: bytes, len: nat)
    requires Bounded(c.limits, b)
    ensures Bounded(c.limits, ConsumeBody(c, b, buf, len).b)
    ensures b.phase.BodyContentLength? && len <= b.phase.remaining ==> Counted(c, b, len).Ok?
    ensures b.phase.BodyChunkedData? && len <= b.phase.left ==> Counted(c, b, len).Ok?
  {
    hide ProcessChunkedSize, ProcessTrailers;
    if b.phase.BodyChunkedSize? {
      SizeBounded(c, b, buf);
    } else if b.phase.ChunkedTrailer? {
      TrailersBounded(c, b, buf, false);
    }
  }

  // ---- One call, any phase ----

  predicate LegalCall(b: Body, buf: bytes, len: nat) {
    len == 0 || len <= |PeekBody(b, buf)|
  }

  /** `progress` and every legal `consume_body`; the limit on a close-delimited body is the one
      failure that depends on what the caller asks for. */
  lemma ConsumeAgrees(c: Config, b: Body, buf: bytes, len: nat, x: bytes)
    requires Bounded(c.limits, b) && LegalCall(b, buf, len)
    ensures var a := ConsumeBody(c, b, buf, len);
            if a.r.Err? && b.phase.BodyCloseDelimited?
            then b.consumed + len > c.limits.maxBodySize
            else Agrees(c, b, buf, a, buf[..len], Handed(a.r), x)
  {
    hide ReadSize, ReadTrailers, ProcessChunkedSize, ProcessTrailers, ProcessDataCrlf, ConsumeContentLength;
    hide ConsumeChunkedData, Report;
    DeliverNothing(Read(c, b, buf + x));
    match b.phase
    case BodyContentLength(_) => ContentLengthAgrees(c, b, buf, len, x);
    case BodyChunkedSize =>
      SizeAgrees(c, b, buf, x);
      ReportAgrees(c, b, buf, ProcessChunkedSize(c, b, buf), x);
    case BodyChunkedData(_) =>
      ChunkedDataAgrees(c, b, buf, len, x);
    case BodyChunkedDataCrlf => CrlfAgrees(c, b, buf, x);
    case ChunkedTrailer =>
      TrailersAgree(c, b, buf, false, x);
      ReportAgrees(c, b, buf, ProcessTrailers(c, b, buf, false), x);
    case _ =>
  }

  /** The phases of a body with a known end. */
  predicate InBody(p: Phase) {
    p.BodyContentLength? || p.BodyChunkedSize? || p.BodyChunkedData? || p.BodyChunkedDataCrlf?
    || p.ChunkedTrailer? || p.Complete?
  }

  /** `process_trailers` stays among the trailers or completes, and takes something unless it waits. */
  lemma {:induction false} TrailersShape(c: Config, b: Body, buf: bytes, some: bool)
    requires b.phase.ChunkedTrailer?
    ensures var t := ProcessTrailers(c, b, buf, some);
            && InBody(t.b.phase) && t.b.consumed == b.consumed
            && |t.buf| <= |buf| && (t.buf == buf && t.r.Ok? ==> FindLine(buf) == None)
            && (t.r == Ok(true) ==> some || |t.buf| < |buf|)
            && (t.r == Ok(false) ==> t.b == b && t.buf == buf)
    decreases |buf|
  {
    hide CheckTrailerLine, ParseTrailer;
    var line := FindLine(buf);
    if line.Some? && line.value != 0 && CheckTrailerLine(c, b.trailerCount, buf[..line.value]) == None {
      var f := ParseTrailer(c, b.declared, buf[..line.value]);
      if f.Ok? {
        TrailersShape(c, WithTrailer(b, f.value), buf[line.value + 2..], true);
      }
    }
  }

  lemma SizeShape(c: Config, b: Body, buf: bytes)
    requires b.phase.BodyChunkedSize?
    ensures var t := ProcessChunkedSize(c, b, buf);
            && InBody(t.b.phase) && t.b.consumed == b.consumed
            && |t.buf| <= |buf| && (t.buf == buf && t.r.Ok? ==> FindLine(buf) == None)
            && (t.r == Ok(true) ==> |t.buf| < |buf|)
            && (t.r == Ok(false) ==> t.b == b && t.buf == buf)
  {
    hide CheckChunkLine, CheckChunkSize, ProcessTrailers;
    if FindLine(buf).Some? {
      TrailersShape(c, b.(phase := ChunkedTrailer), buf[FindLine(buf).value + 2..], false);
    }
  }

  lemma PhaseStaysSized(c: Config, b: Body, buf: bytes, len: nat)
    ensures ConsumeBody(c, b, buf, len).b.phase.BodyCloseDelimited? <==> b.phase.BodyCloseDelimited?
    ensures InBody(b.phase) ==> InBody(ConsumeBody(c, b, buf, len).b.phase)
    ensures InBody(b.phase) && Bounded(c.limits, b) && LegalCall(b, buf, len) ==>
              ConsumeBody(c, b, buf, len).b.consumed == b.consumed + len
  {
    hide ProcessChunkedSize, ProcessTrailers;
    if b.phase.BodyChunkedSize? {
      SizeShape(c, b, buf);
    } else if b.phase.ChunkedTrailer? {
      TrailersShape(c, b, buf, false);
    }
  }

  // ---- Schedules ----

  /** What a caller may do: let bytes arrive, consume body bytes it has peeked, or make progress. */
  datatype Op = Feed(data: bytes) | Consume(len: nat) | Progress

  /** The decoder together with all it has handed out so far; a failed run stops. */
  datatype Run = Run(b: Body, buf: bytes, body: bytes, trailers: seq<Field>, error: Option<Error>)

  function Call(c: Config, w: Run, len: nat): Run
    requires len <= |w.buf|
  {
    var a := ConsumeBody(c, w.b, w.buf, len);
    Run(a.b, a.buf, w.body + w.buf[..len], w.trailers + Handed(a.r),
        if a.r.Err? then Some(a.r.error) else None)
  }

  predicate LegalOp(w: Run, op: Op) {
    op.Consume? ==> 1 <= op.len <= |PeekBody(w.b, w.buf)|
  }

  function Do(c: Config, w: Run, op: Op): Run
    requires LegalOp(w, op)
  {
    if w.error.Some? then w
    else match op
      case Feed(data) => w.(buf := w.buf + data)
      case Consume(len) => Call(c, w, len)
      case Progress => Call(c, w, 0)
  }

  /** Every operation is legal in the state it is applied to. */
  predicate Legal(c: Config, w: Run, ops: seq<Op>)
    decreases |ops|
  {
    ops == [] || (LegalOp(w, ops[0]) && Legal(c, Do(c, w, ops[0]), ops[1..]))
  }

  function RunAll(c: Config, w: Run, ops: seq<Op>): Run
    requires Legal(c, w, ops)
    decreases |ops|
  {
    if ops == [] then w else RunAll(c, Do(c, w, ops[0]), ops[1..])
  }

  function Fed(ops: seq<Op>): bytes {
    if ops == [] then []
    else (if ops[0].Feed? then ops[0].data else []) + Fed(ops[1..])
  }

  ghost function Outcome(c: Config, w: Run, x: bytes): Reading {
    if w.error.Some? then Reading(w.body, w.trailers, Failed(w.error.value))
    else Deliver(w.body, w.trailers, Read(c, w.b, w.buf + x))
  }

  ghost predicate Sized(c: Config, w: Run) {
    Bounded(c.limits, w.b) && !w.b.phase.BodyCloseDelimited?
  }

  lemma CallKeepsOutcome(c: Config, w: Run, len: nat, x: bytes)
    requires w.error == None && Sized(c, w) && LegalCall(w.b, w.buf, len)
    ensures Sized(c, Call(c, w, len)) && Outcome(c, Call(c, w, len), x) == Outcome(c, w, x)
  {
    hide Read, ConsumeBody;
    var a := ConsumeBody(c, w.b, w.buf, len);
    ConsumeAgrees(c, w.b, w.buf, len, x);
    ConsumeBounded(c, w.b, w.buf, len);
    PhaseStaysSized(c, w.b, w.buf, len);
    DeliverTwice(w.body, w.buf[..len], w.trailers, Handed(a.r), Read(c, a.b, a.buf + x));
    EmptyConcat(w.trailers);
  }

  /** The invariant of every schedule: what was delivered, followed by the meaning of what is
      still buffered and of whatever comes later, never changes. */
  lemma {:induction false} RunKeepsOutcome(c: Config, w: Run, ops: seq<Op>, x: bytes)
    requires Sized(c, w) && Legal(c, w, ops)
    ensures Sized(c, RunAll(c, w, ops))
    ensures Outcome(c, RunAll(c, w, ops), x) == Outcome(c, w, Fed(ops) + x)
    decreases |ops|
  {
    hide Read, ConsumeBody, PeekBody;
    if ops == [] {
      EmptyConcat(x);
    } else {
      var op, rest := ops[0], Fed(ops[1..]) + x;
      var w' := Do(c, w, op);
      if op.Feed? {
        ConcatAssociative(op.data, Fed(ops[1..]), x);
        ConcatAssociative(w.buf, op.data, rest);
      } else {
        EmptyConcat(Fed(ops[1..]));
        if w.error == None {
          CallKeepsOutcome(c, w, if op.Consume? then op.len else 0, rest);
        }
      }
      RunKeepsOutcome(c, w', ops[1..], x);
    }
  }

  /** Nothing is on offer and progress changes nothing: no transition is enabled. */
  predicate Quiet(c: Config, b: Body, buf: bytes) {
    var a := ConsumeBody(c, b, buf, 0);
    PeekBody(b, buf) == [] && a.b == b && a.buf == buf && a.r.Ok?
  }

  predicate Drained(c: Config, w: Run) {
    w.error.Some? || Quiet(c, w.b, w.buf)
  }

  lemma QuietReading(c: Config, b: Body, buf: bytes)
    requires Bounded(c.limits, b) && Quiet(c, b, buf)
    ensures Read(c, b, buf) == Reading([], [], if b.phase.Complete? then Done(buf) else Pending)
  {
    hide CheckChunkLine, CheckChunkSize, CheckTrailerLine, ParseTrailer;
    if b.phase.ChunkedTrailer? {
      QuietTrailers(c, b, buf);
    } else if b.phase.BodyChunkedSize? {
      QuietSize(c, b, buf);
    }
  }

  lemma QuietTrailers(c: Config, b: Body, buf: bytes)
    requires b.phase.ChunkedTrailer? && Quiet(c, b, buf)
    ensures Read(c, b, buf) == WAITING
  {
    hide ProcessTrailers;
    TrailersShape(c, b, buf, false);
  }

  lemma QuietSize(c: Config, b: Body, buf: bytes)
    requires b.phase.BodyChunkedSize? && Quiet(c, b, buf)
    ensures Read(c, b, buf) == WAITING
  {
    hide ProcessChunkedSize;
    SizeShape(c, b, buf);
  }

  function Start(b: Body): Run { Run(b, [], [], [], None) }

  /** What the caller has seen when nothing more can be done. */
  ghost function Seen(w: Run): Reading {
    Reading(w.body, w.trailers,
            if w.error.Some? then Failed(w.error.value)
            else if w.b.phase.Complete? then Done(w.buf)
            else Pending)
  }

  /** However the stream was cut into feeds and however the body was consumed, a run that can do
      nothing more has delivered exactly the body, the trailers, the leftover bytes and the first
      error of the whole stream. */
  lemma DrainedRunSeesTheStream(c: Config, b: Body, ops: seq<Op>)
    requires Sized(c, Start(b)) && Legal(c, Start(b), ops)
    requires Drained(c, RunAll(c, Start(b), ops))
    ensures Seen(RunAll(c, Start(b), ops)) == Read(c, b, Fed(ops))
  {
    hide Read, ConsumeBody, PeekBody;
    var w := RunAll(c, Start(b), ops);
    RunKeepsOutcome(c, Start(b), ops, []);
    EmptyConcat(Fed(ops));
    DeliverNothing(Read(c, b, Fed(ops)));
    if w.error == None {
      QuietReading(c, w.b, w.buf);
      EmptyConcat(w.buf);
      EmptyConcat(w.body);
      EmptyConcat(w.trailers);
    }
  }

  /** Two schedules of the same stream cannot be told apart, now or after more bytes x. */
  lemma SchedulesAgree(c: Config, b: Body, ops1: seq<Op>, ops2: seq<Op>, x: bytes)
    requires Sized(c, Start(b)) && Legal(c, Start(b), ops1) && Legal(c, Start(b), ops2)
    requires Fed(ops1) == Fed(ops2)
    ensures Outcome(c, RunAll(c, Start(b), ops1), x) == Outcome(c, RunAll(c, Start(b), ops2), x)
    ensures Drained(c, RunAll(c, Start(b), ops1)) && Drained(c, RunAll(c, Start(b), ops2)) ==>
              Seen(RunAll(c, Start(b), ops1)) == Seen(RunAll(c, Start(b), ops2))
  {
    hide Read, ConsumeBody, PeekBody;
    RunKeepsOutcome(c, Start(b), ops1, x);
    RunKeepsOutcome(c, Start(b), ops2, x);
    if Drained(c, RunAll(c, Start(b), ops1)) && Drained(c, RunAll(c, Start(b), ops2)) {
      DrainedRunSeesTheStream(c, b, ops1);
      DrainedRunSeesTheStream(c, b, ops2);
    }
  }

  // ---- Errors ----

  /** A chunk that announces six bytes where five are allowed, and then the last chunk: the first
      call fails and has taken the size line, the second reads on behind it and completes. */
  lemma ErrorsAreNotSticky(c: Config, b: Body)
    requires c.limits.maxBodySize == 5 && c.limits.maxChunkLineSize >= 1
    requires b.phase.BodyChunkedSize? && b.consumed == 0
    ensures var rest: bytes := [48] + CRLF + CRLF;
            && ConsumeBody(c, b, [54] + CRLF + rest, 0) == After(b, rest, Err(BodyTooLarge(6, 5)))
            && ConsumeBody(c, b, rest, 0).r == Ok(Finished(b.trailers))
  {
    hide ParseChunkSize, FindLine, ProcessTrailers;
    var rest: bytes := [48] + CRLF + CRLF;
    SizeLineOf(54);
    SizeLineOf(48);
    LineAt([54] + CRLF + rest, 1);
    LineAt(rest, 1);
    assert ([54] + CRLF + rest)[..1] == [54] && ([54] + CRLF + rest)[3..] == rest;
    assert rest[..1] == [48] && rest[3..] == CRLF;
    EmptyTrailers(c, b.(phase := ChunkedTrailer));
  }

  lemma EmptyTrailers(c: Config, b: Body)
    ensures ProcessTrailers(c, b, CRLF, false) == After(b.(phase := Complete), [], Ok(true))
  {
    LineAt(CRLF, 0);
    assert CRLF[2..] == [];
  }

  lemma LineAt(s: bytes, i: nat)
    requires i <= 1 && i + 2 <= |s| && s[i] == CR && s[i + 1] == LF && (i == 1 ==> s[0] != CR)
    ensures FindLine(s) == Some(i)
  {
    hide FindFrom;
    assert s[i..i + 2] == CRLF;
    assert Occurs(s, CRLF, i);
    if i == 1 {
      NoOccurrenceAt(s, CRLF, 0);
    }
    FindIs(s, CRLF, i);
  }

  lemma SizeLineOf(digit: byte)
    requires digit == 48 || digit == 54
    ensures ParseChunkSize([digit]) == Ok(digit - 48)
  {
    var line: bytes := [digit];
    assert line[..1] == line && line[1..1] == [] && line[..|line| - 1] == [] && line[|line| - 1] == digit;
    SizeLineExactly(line, digit - 48);
    assert IsSizeLine(line, 1, 1, digit - 48);
  }

  // ---- Close-delimited bodies: the one limit that is tested against what the caller consumes ----

  lemma {:induction false} CloseDelimitedRun(c: Config, w: Run, ops: seq<Op>)
    requires w.error == None && w.b.phase.BodyCloseDelimited? && w.b.consumed <= c.limits.maxBodySize
    requires Legal(c, w, ops)
    ensures var v := RunAll(c, w, ops);
            if v.error == None then
              && v.b == w.b.(consumed := v.b.consumed) && v.b.consumed <= c.limits.maxBodySize
              && v.body + v.buf == w.body + w.buf + Fed(ops)
              && v.b.consumed - |v.body| == w.b.consumed - |w.body|
            else
              && v.error.value.BodyTooLarge?
              && w.b.consumed + |w.buf| + |Fed(ops)| > c.limits.maxBodySize
    decreases |ops|
  {
    if ops != [] {
      var w' := Do(c, w, ops[0]);
      if w'.error == None {
        CloseDelimitedRun(c, w', ops[1..]);
        CloseDelimitedStep(c, w, ops[0], Fed(ops[1..]));
      } else {
        FailedRunStops(c, w', ops[1..]);
      }
    }
  }

  lemma CloseDelimitedStep(c: Config, w: Run, op: Op, rest: bytes)
    requires w.error == None && w.b.phase.BodyCloseDelimited? && LegalOp(w, op)
    requires Do(c, w, op).error == None
    ensures var w' := Do(c, w, op);
            w'.body + w'.buf + rest == w.body + w.buf + ((if op.Feed? then op.data else []) + rest)
  {
  }

  lemma {:induction false} FailedRunStops(c: Config, w: Run, ops: seq<Op>)
    requires w.error.Some? && Legal(c, w, ops)
    ensures RunAll(c, w, ops) == w
    decreases |ops|
  {
    if ops != [] {
      FailedRunStops(c, w, ops[1..]);
    }
  }

  /** A drained close-delimited run succeeds exactly when the whole stream is within the limit;
      then every byte fed was delivered, in order. */
  lemma CloseDelimitedLimit(c: Config, b: Body, ops: seq<Op>)
    requires b.phase.BodyCloseDelimited? && b.consumed <= c.limits.maxBodySize
    requires Legal(c, Start(b), ops) && Drained(c, RunAll(c, Start(b), ops))
    ensures var v := RunAll(c, Start(b), ops);
            && (v.error == None <==> b.consumed + |Fed(ops)| <= c.limits.maxBodySize)
            && (v.error == None ==> v.body == Fed(ops) && v.buf == [])
  {
    CloseDelimitedRun(c, Start(b), ops);
    EmptyConcat(Fed(ops));
    EmptyConcat(RunAll(c, Start(b), ops).body);
  }
}
