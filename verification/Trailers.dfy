/** Trailers: what is written behind the last chunk is what is handed out. */
module Trailers {
  import opened Scan
  import opened BodyGrammar
  import opened MessageGrammar
  import opened Encoder
  import opened EncoderRoundTrip
  import BodyRuns
  import ChunkWriter
  import Framing
  import HeadLines
  import MessageStreams

  /** Chunks, the last chunk with trailer fields behind it, and what follows. */
  function TrailedText(chunks: seq<bytes>, ts: seq<Field>, rest: bytes): bytes
    decreases |chunks|
  {
    if chunks == [] then [48] + (CRLF + FieldsText(ts, CRLF + rest))
    else ChunkWriter.ChunkText(chunks[0], TrailedText(chunks[1..], ts, rest))
  }

  /** A field that may be sent as a trailer under a head that declared these names. */
  predicate MayTrail(c: Config, declared: seq<bytes>, f: Field) {
    && HeaderOk(f) && |FieldText(f)| <= c.limits.maxHeaderLineSize && c.utf8(FieldText(f))
    && !c.prohibited(f.name) && ToLower(f.name) in declared
  }

  ghost predicate AllMayTrail(c: Config, b: Body, ts: seq<Field>) {
    && b.trailerCount + |ts| <= c.limits.maxHeadersCount
    && forall i :: 0 <= i < |ts| ==> MayTrail(c, b.declared, ts[i])
  }

  lemma TrailerIsAdmitted(c: Config, b: Body, f: Field)
    requires MayTrail(c, b.declared, f) && b.trailerCount < c.limits.maxHeadersCount
    ensures CheckTrailerLine(c, b.trailerCount, FieldText(f)) == None
    ensures ParseTrailer(c, b.declared, FieldText(f)) == Ok(Received(f))
    ensures FieldText(f) != [] && CR !in FieldText(f)
  {
    hide FieldText, HeaderOk, ParseHeaderLine;
    FieldLineRead(f);
  }

  lemma OneTrailer(c: Config, b: Body, s: bytes, n: nat, f: Field)
    requires n > 0 && FindLine(s) == Some(n)
    requires CheckTrailerLine(c, b.trailerCount, s[..n]) == None && ParseTrailer(c, b.declared, s[..n]) == Ok(f)
    ensures ReadTrailers(c, b, s)
         == ReadTrailers(c, b.(trailers := b.trailers + [f], trailerCount := b.trailerCount + 1), s[n + 2..])
  {
    hide CheckTrailerLine, ParseTrailer, FindLine;
  }

  lemma TrailerLineRead(c: Config, b: Body, f: Field, rest: bytes)
    requires MayTrail(c, b.declared, f) && b.trailerCount < c.limits.maxHeadersCount
    ensures ReadTrailers(c, b, FieldText(f) + (CRLF + rest))
         == ReadTrailers(c, b.(trailers := b.trailers + [Received(f)], trailerCount := b.trailerCount + 1), rest)
  {
    hide FieldText, MayTrail, CheckTrailerLine, ParseTrailer, Received, ReadTrailers, FindLine;
    var text, n := FieldText(f) + (CRLF + rest), |FieldText(f)|;
    TrailerIsAdmitted(c, b, f);
    ChunkWriter.LineThenRest(FieldText(f), rest);
    assert text[..n] == FieldText(f) && text[n + 2..] == rest;
    OneTrailer(c, b, text, n, Received(f));
  }

  lemma {:induction false} TrailersRead(c: Config, b: Body, ts: seq<Field>, rest: bytes)
    requires AllMayTrail(c, b, ts)
    ensures ReadTrailers(c, b, FieldsText(ts, CRLF + rest)) == Reading([], b.trailers + ReceivedAll(ts), Done(rest))
    decreases |ts|
  {
    hide ReadTrailers, FieldText, MayTrail;
    if ts == [] {
      EmptyConcat(b.trailers);
      EmptyLineEnds(c, b, rest);
    } else {
      TrailerLineRead(c, b, ts[0], FieldsText(ts[1..], CRLF + rest));
      var b' := b.(trailers := b.trailers + [Received(ts[0])], trailerCount := b.trailerCount + 1);
      TrailersRead(c, b', ts[1..], rest);
      assert ReceivedAll(ts) == [Received(ts[0])] + ReceivedAll(ts[1..]);
      ConcatAssociative(b.trailers, [Received(ts[0])], ReceivedAll(ts[1..]));
    }
  }

  lemma EmptyLineEnds(c: Config, b: Body, rest: bytes)
    ensures ReadTrailers(c, b, CRLF + rest) == Reading([], b.trailers, Done(rest))
  {
    ChunkWriter.LineThenRest([], rest);
    EmptyConcat(CRLF + rest);
    assert (CRLF + rest)[2..] == rest;
  }

  lemma LastChunkRead(c: Config, b: Body, ts: seq<Field>, rest: bytes)
    requires b.phase.BodyChunkedSize? && 1 <= c.limits.maxChunkLineSize && b.consumed <= c.limits.maxBodySize
    requires AllMayTrail(c, b, ts)
    ensures Read(c, b, [48] + (CRLF + FieldsText(ts, CRLF + rest)))
         == Reading([], b.trailers + ReceivedAll(ts), Done(rest))
  {
    hide ReadSize, ReadTrailers, FieldsText, MayTrail;
    ChunkWriter.HexOfZero();
    ChunkWriter.SizeLineRead(c, b, 0, FieldsText(ts, CRLF + rest));
    TrailersRead(c, b.(phase := ChunkedTrailer), ts, rest);
  }

  lemma {:induction false} TrailedRead(c: Config, b: Body, chunks: seq<bytes>, ts: seq<Field>, rest: bytes)
    requires b.phase.BodyChunkedSize? && ChunkWriter.Fits(c, b.consumed, chunks) && [] !in chunks
    requires AllMayTrail(c, b, ts)
    ensures Read(c, b, TrailedText(chunks, ts, rest))
         == Reading(Concat(chunks), b.trailers + ReceivedAll(ts), Done(rest))
    decreases |chunks|
  {
    hide Read, FieldsText, MayTrail, ChunkWriter.ChunkText, ChunkWriter.Fits;
    ChunkWriter.FitsRoom(c, b.consumed, chunks);
    if chunks == [] {
      LastChunkRead(c, b, ts, rest);
    } else {
      var data, more := chunks[0], TrailedText(chunks[1..], ts, rest);
      ChunkWriter.FitsStep(c, b.consumed, chunks);
      ChunkWriter.ChunkRead(c, b, data, more);
      TrailedRead(c, b.(consumed := b.consumed + |data|), chunks[1..], ts, rest);
      EmptyConcat(b.trailers + ReceivedAll(ts));
    }
  }

  /** Round trip under any schedule: a drained run over chunks, trailers and whatever follows has
      delivered the chunks and exactly the trailers, in order, each with its name and its trimmed
      value, and left exactly what follows. */
  lemma TrailersRoundTrip(
      c: Config, b: Body, chunks: seq<bytes>, ts: seq<Field>, rest: bytes, ops: seq<BodyRuns.Op>)
    requires b.phase.BodyChunkedSize? && BodyRuns.Bounded(c.limits, b) && b.trailers == []
    requires ChunkWriter.Fits(c, b.consumed, chunks) && [] !in chunks && AllMayTrail(c, b, ts)
    requires BodyRuns.Legal(c, BodyRuns.Start(b), ops) && BodyRuns.Fed(ops) == TrailedText(chunks, ts, rest)
    requires BodyRuns.Drained(c, BodyRuns.RunAll(c, BodyRuns.Start(b), ops))
    ensures BodyRuns.Seen(BodyRuns.RunAll(c, BodyRuns.Start(b), ops))
         == Reading(Concat(chunks), ReceivedAll(ts), Done(rest))
  {
    hide Read, BodyRuns.RunAll, BodyRuns.Legal, MayTrail;
    TrailedRead(c, b, chunks, ts, rest);
    EmptyConcat(ReceivedAll(ts));
    BodyRuns.DrainedRunSeesTheStream(c, b, ops);
  }

  /** What is received of a field: its name, and its value without the white space around it. */
  lemma ReceivedIs(f: Field, before: bytes, value: bytes, after: bytes)
    requires f.value == before + value + after && All(before, IsBws) && All(after, IsBws)
    requires HeadLines.Trimmed(value)
    ensures Received(f) == Field(f.name, value)
  {
    HeadLines.TrimIs(before, value, after);
  }

  // ---- In a stream of messages ----

  /** A chunked message with trailers that its own head declares. */
  lemma TrailedMessageRead(
      c: Checks, r: Rules, m: Option<bytes>, line: StartLine, headers: seq<Field>,
      chunks: seq<bytes>, ts: seq<Field>, rest: bytes)
    requires StartLineOk(c, line) && Carries(r, line, headers)
    requires Kind(r, m, Head(line, ReceivedAll(headers))) == Ok(Chunked)
    requires ChunkWriter.Fits(r.body, 0, chunks) && [] !in chunks
    requires |ts| <= r.body.limits.maxHeadersCount
    requires forall i :: 0 <= i < |ts| ==> MayTrail(r.body, Framing.Declared(ReceivedAll(headers)), ts[i])
    ensures ReadMessage(r, m, HeadText(line, headers, TrailedText(chunks, ts, rest)))
         == Got(Message(Head(line, ReceivedAll(headers)), Some(Concat(chunks))), ReceivedAll(ts), rest)
  {
    hide HeadText, ReadMessage, Kind, Carries, StartLineOk, ReceivedAll, TrailedText, Read, MayTrail;
    var head := Head(line, ReceivedAll(headers));
    HeadRead(c, r, m, line, headers, TrailedText(chunks, ts, rest));
    var b := FreshBody(head, Chunked);
    TrailedRead(r.body, b, chunks, ts, rest);
    EmptyConcat(ReceivedAll(ts));
    EmptyConcat(Concat(chunks));
  }

  /** A streaming run over one such message and nothing else completes it with its trailers. */
  lemma TrailersAreHandedOut(
      c: Checks, r: Rules, m: Option<bytes>, line: StartLine, headers: seq<Field>,
      chunks: seq<bytes>, ts: seq<Field>, ops: seq<MessageStreams.Op>)
    requires StartLineOk(c, line) && Carries(r, line, headers)
    requires Kind(r, m, Head(line, ReceivedAll(headers))) == Ok(Chunked)
    requires ChunkWriter.Fits(r.body, 0, chunks) && [] !in chunks
    requires |ts| <= r.body.limits.maxHeadersCount
    requires forall i :: 0 <= i < |ts| ==> MayTrail(r.body, Framing.Declared(ReceivedAll(headers)), ts[i])
    requires StreamsOver(r, ops, HeadText(line, headers, TrailedText(chunks, ts, [])))
    requires MessageStreams.Chosen(_ => m, StreamEnd(r, ops).methods)
    ensures StreamEnd(r, ops).messages == [Message(Head(line, ReceivedAll(headers)), Some(Concat(chunks)))]
    ensures StreamEnd(r, ops).trailers == [ReceivedAll(ts)]
  {
    hide HeadText, ReadMessage, Kind, Carries, StartLineOk, ReceivedAll, TrailedText, MayTrail, StreamEnd, StreamsOver;
    var text := HeadText(line, headers, TrailedText(chunks, ts, []));
    TrailedMessageRead(c, r, m, line, headers, chunks, ts, []);
    StreamKnows(r, _ => m, ops, text);
    OneMessage(r, m, text);
  }

  /** An exhausted streaming run over a text. */
  ghost predicate StreamsOver(r: Rules, ops: seq<MessageStreams.Op>, text: bytes) {
    && MessageStreams.Sound(r, MessageStreams.START) && MessageStreams.Legal(r, MessageStreams.START, ops)
    && MessageStreams.Exhausted(r, MessageStreams.RunAll(r, MessageStreams.START, ops))
    && MessageStreams.RunAll(r, MessageStreams.START, ops).fed == text
  }

  ghost function StreamEnd(r: Rules, ops: seq<MessageStreams.Op>): MessageStreams.World {
    if MessageStreams.Sound(r, MessageStreams.START) && MessageStreams.Legal(r, MessageStreams.START, ops) then
      MessageStreams.RunAll(r, MessageStreams.START, ops)
    else MessageStreams.START
  }

  lemma StreamKnows(r: Rules, ms: Methods, ops: seq<MessageStreams.Op>, text: bytes)
    requires StreamsOver(r, ops, text) && MessageStreams.Chosen(ms, StreamEnd(r, ops).methods)
    ensures StreamEnd(r, ops).messages == ReadMessages(r, ms, 0, text).messages
    ensures StreamEnd(r, ops).trailers == MessageStreams.ReadTrailers(r, ms, 0, text)
  {
    hide ReadMessages, MessageStreams.ReadTrailers, MessageStreams.Legal, MessageStreams.RunAll;
    hide MessageStreams.Exhausted, MessageStreams.Sound, MessageStreams.Chosen;
    MessageStreams.StreamingIsFragmentationFree(r, ms, ops);
  }

  lemma OneMessage(r: Rules, m: Option<bytes>, text: bytes)
    requires ReadMessage(r, m, text).Got? && ReadMessage(r, m, text).rest == []
    ensures ReadMessages(r, _ => m, 0, text).messages == [ReadMessage(r, m, text).message]
    ensures MessageStreams.ReadTrailers(r, _ => m, 0, text) == [ReadMessage(r, m, text).trailers]
  {
    hide ReadMessage;
    NothingToRead(r, m);
    EmptyConcat([ReadMessage(r, m, text).message]);
    EmptyConcat([ReadMessage(r, m, text).trailers]);
    assert ReadMessages(r, _ => m, 1, []).messages == [];
    assert MessageStreams.ReadTrailers(r, _ => m, 1, []) == [];
  }
}
