/** The chunk writers of the encoder, and the round trip through the body decoder. */
module ChunkWriter {
  import opened Scan
  import opened BodyGrammar
  import BodyRuns

  // ---- Hexadecimal ----

  function HexDigit(v: nat): (b: byte)
    requires v < 16
    ensures IsHexDigit(b) && HexDigitValue(b) == v
  {
    if v < 10 then 48 + v else 97 + v - 10
  }

  /** Lower-case hexadecimal, without leading zeros. */
  function Hex(n: nat): (s: bytes)
    ensures s != [] && All(s, IsHexDigit)
    ensures HexValue(s) == n
  {
    if n < 16 then
      var s := [HexDigit(n)];
      assert s[..0] == [];
      s
    else
      var s := Hex(n / 16) + [HexDigit(n % 16)];
      assert s[..|s| - 1] == Hex(n / 16);
      s
  }

  ghost function HexOrNothing(n: nat): bytes {
    if n == 0 then [] else Hex(n)
  }

  lemma HexStep(n: nat, tail: bytes)
    requires n > 0
    ensures HexOrNothing(n) + tail == HexOrNothing(n / 16) + ([HexDigit(n % 16)] + tail)
  {
    ConcatAssociative(HexOrNothing(n / 16), [HexDigit(n % 16)], tail);
    EmptyConcat([HexDigit(n % 16)]);
  }

  function Pow16(k: nat): (p: nat)
    ensures p >= 1
  {
    if k == 0 then 1 else 16 * Pow16(k - 1)
  }

  lemma HexStart(n: nat)
    requires n > 0
    ensures Hex(n) == HexOrNothing(n) + []
  {
  }

  lemma HexEnd(tail: bytes)
    ensures HexOrNothing(0) + tail == tail
  {
  }

  lemma Pow16Step(n: nat, k: nat)
    requires 0 < n < Pow16(k)
    ensures k > 0 && n / 16 < Pow16(k - 1)
  {
  }

  lemma {:induction false} HexLength(n: nat, k: nat)
    requires 1 <= k && n < Pow16(k)
    ensures |Hex(n)| <= k
  {
    if n >= 16 {
      HexLength(n / 16, k - 1);
    }
  }

  lemma UsizeIsSixteenDigits()
    ensures USIZE_MAX < Pow16(16)
  {
    assert Pow16(4) == 0x1_0000;
    assert Pow16(8) == 0x1_0000_0000;
    assert Pow16(12) == 0x1_0000_0000_0000;
    assert Pow16(16) == 0x1_0000_0000_0000_0000;
  }

  /** The digits of `n`, written from the end of the scratch array, which never underflows. */
  method FillHex(tmp: array<byte>, n: nat) returns (i: nat)
    requires 0 < n < Pow16(tmp.Length)
    modifies tmp
    ensures i <= tmp.Length && tmp[i..] == Hex(n)
  {
    hide Hex, HexOrNothing, Pow16, HexValue;
    i := tmp.Length;
    var remaining: nat := n;
    HexStart(n);
    while remaining > 0
      invariant i <= tmp.Length && remaining < Pow16(i)
      invariant Hex(n) == HexOrNothing(remaining) + tmp[i..]
      decreases remaining
    {
      ghost var tail := tmp[i..];
      HexStep(remaining, tail);
      Pow16Step(remaining, i);
      i := i - 1;
      tmp[i] := HexDigit(remaining % 16);
      assert tmp[i + 1..] == tail;
      HeadSplit(tmp[i..]);
      remaining := remaining / 16;
    }
    HexEnd(tmp[i..]);
  }

  /** `write_hex_usize`: sixteen digits are enough for any `usize`. */
  method WriteHexUsize(buf: bytes, n: usize) returns (buf': bytes)
    ensures buf' == buf + Hex(n)
  {
    if n == 0 {
      return buf + [48];
    }
    var tmp := new byte[16];
    UsizeIsSixteenDigits();
    var i := FillHex(tmp, n);
    return buf + tmp[i..];
  }

  // ---- Chunks ----

  const LAST_CHUNK: bytes := [48] + CRLF + CRLF

  /** One chunk followed by `rest`. */
  function ChunkText(data: bytes, rest: bytes): bytes {
    Hex(|data|) + (CRLF + (data + (CRLF + rest)))
  }

  function ChunksText(chunks: seq<bytes>, rest: bytes): bytes {
    if chunks == [] then LAST_CHUNK + rest else ChunkText(chunks[0], ChunksText(chunks[1..], rest))
  }

  /** `encode_chunk`: empty data is written as the last chunk. */
  method EncodeChunk(data: bytes) returns (buf: bytes)
    requires |data| <= USIZE_MAX
    ensures buf == if data == [] then LAST_CHUNK else ChunkText(data, [])
  {
    if data == [] {
      return LAST_CHUNK;
    }
    buf := WriteHexUsize([], |data|);
    buf := buf + CRLF;
    buf := buf + data;
    buf := buf + CRLF;
  }

  lemma {:induction false} ChunksTextAppend(chunks: seq<bytes>, rest: bytes)
    ensures ChunksText(chunks, rest) == ChunksText(chunks, []) + rest
  {
    if chunks != [] {
      ChunksTextAppend(chunks[1..], rest);
      ChunkTextAppend(chunks[0], ChunksText(chunks[1..], []), rest);
    }
  }

  lemma ChunkTextAppend(data: bytes, a: bytes, b: bytes)
    ensures ChunkText(data, a + b) == ChunkText(data, a) + b
  {
    var h := Hex(|data|);
    ConcatAssociative(CRLF, a, b);
    ConcatAssociative(data, CRLF + a, b);
    ConcatAssociative(CRLF, data + (CRLF + a), b);
    ConcatAssociative(h, CRLF + (data + (CRLF + a)), b);
  }

  /** `encode_chunks`. */
  method EncodeChunks(chunks: seq<bytes>) returns (buf: bytes)
    requires forall i :: 0 <= i < |chunks| ==> |chunks[i]| <= USIZE_MAX
    ensures buf == ChunksText(chunks, [])
  {
    buf := [];
    for k := 0 to |chunks|
      invariant ChunksText(chunks, []) == buf + ChunksText(chunks[k..], [])
    {
      ghost var before := buf;
      var data := chunks[k];
      assert chunks[k..][1..] == chunks[k + 1..];
      buf := WriteHexUsize(buf, |data|);
      buf := buf + CRLF;
      buf := buf + data;
      buf := buf + CRLF;
      ChunkWritten(before, data, ChunksText(chunks[k + 1..], []));
    }
    buf := buf + LAST_CHUNK;
  }

  lemma ChunkWritten(before: bytes, data: bytes, rest: bytes)
    ensures before + ChunkText(data, rest) == before + Hex(|data|) + CRLF + data + CRLF + rest
  {
    hide Hex;
    var h := Hex(|data|);
    ConcatAssociative(before, h, CRLF + (data + (CRLF + rest)));
    ConcatAssociative(before + h, CRLF, data + (CRLF + rest));
    ConcatAssociative(before + h + CRLF, data, CRLF + rest);
    ConcatAssociative(before + h + CRLF + data, CRLF, rest);
  }

  /** What `encode_chunks` writes is what `encode_chunk` writes for each chunk, and the terminator. */
  lemma {:induction false} ChunksAreChunkByChunk(chunks: seq<bytes>)
    ensures ChunksText(chunks, [])
            == Concat(seq(|chunks|, i requires 0 <= i < |chunks| => ChunkText(chunks[i], []))) + LAST_CHUNK
  {
    var texts := seq(|chunks|, i requires 0 <= i < |chunks| => ChunkText(chunks[i], []));
    if chunks == [] {
    } else {
      var rest := chunks[1..];
      ChunksAreChunkByChunk(rest);
      assert texts[1..] == seq(|rest|, i requires 0 <= i < |rest| => ChunkText(rest[i], []));
      ChunkTextAppend(chunks[0], [], ChunksText(rest, []));
      EmptyConcat(ChunksText(rest, []));
      ConcatAssociative(texts[0], Concat(texts[1..]), LAST_CHUNK);
    }
  }

  /** `encode_chunks_capacity`: `None` stands for a `checked_add` that overflowed. */
  method EncodeChunksCapacity(chunks: seq<bytes>) returns (r: Option<usize>)
    requires forall i :: 0 <= i < |chunks| ==> |chunks[i]| <= USIZE_MAX
    ensures r.Some? ==> |ChunksText(chunks, [])| <= r.value
    ensures r.None? <==> |Concat(chunks)| + 20 * |chunks| + 5 > USIZE_MAX
  {
    CapacityBound(chunks);
    var total: nat := 0;
    for k := 0 to |chunks|
      invariant total <= USIZE_MAX
      invariant total + |Concat(chunks[k..])| + 20 * (|chunks| - k) == |Concat(chunks)| + 20 * |chunks|
    {
      assert chunks[k..][1..] == chunks[k + 1..];
      if |chunks[k]| + 20 > USIZE_MAX {
        return None;
      }
      if total + |chunks[k]| + 20 > USIZE_MAX {
        return None;
      }
      total := total + |chunks[k]| + 20;
    }
    if total + 5 > USIZE_MAX {
      return None;
    }
    return Some(total + 5);
  }

  lemma {:induction false} CapacityBound(chunks: seq<bytes>)
    requires forall i :: 0 <= i < |chunks| ==> |chunks[i]| <= USIZE_MAX
    ensures |ChunksText(chunks, [])| <= |Concat(chunks)| + 20 * |chunks| + 5
  {
    if chunks != [] {
      CapacityBound(chunks[1..]);
      UsizeIsSixteenDigits();
      HexLength(|chunks[0]|, 16);
    }
  }

  // ---- Decoding what was encoded ----

  lemma LineThenRest(line: bytes, rest: bytes)
    requires CR !in line
    ensures FindLine(line + (CRLF + rest)) == Some(|line|)
  {
    NoOccurrenceWithin(line, CRLF + rest, CRLF);
    assert Occurs(CRLF + rest, CRLF, 0);
    FindAfterPrefix(line, CRLF + rest, CRLF);
  }

  lemma ParseHex(n: nat)
    requires n <= USIZE_MAX
    ensures CR !in Hex(n) && ParseChunkSize(Hex(n)) == Ok(n)
  {
    var h := Hex(n);
    EmptyConcat(h);
    SpanOfSplit(h, [], NotSemi);
    SpanOfSplit(h, [], IsHexDigit);
    assert h[..|h|] == h;
  }

  /** The limits leave room for these chunks. */
  predicate Fits(c: Config, consumed: nat, chunks: seq<bytes>) {
    && consumed + |Concat(chunks)| <= c.limits.maxBodySize
    && 1 <= c.limits.maxChunkLineSize
    && forall i :: 0 <= i < |chunks| ==> |Hex(|chunks[i]|)| <= c.limits.maxChunkLineSize
  }

  lemma SizeLineRead(c: Config, b: Body, n: nat, rest: bytes)
    requires b.phase.BodyChunkedSize? && |Hex(n)| <= c.limits.maxChunkLineSize
    requires b.consumed + n <= c.limits.maxBodySize
    ensures Read(c, b, Hex(n) + (CRLF + rest))
         == if n == 0 then Read(c, b.(phase := ChunkedTrailer), rest)
            else Read(c, b.(phase := BodyChunkedData(n)), rest)
  {
    hide Hex, ParseChunkSize, ReadTrailers;
    var s := Hex(n) + (CRLF + rest);
    ParseHex(n);
    LineThenRest(Hex(n), rest);
    assert s[..|Hex(n)|] == Hex(n) && s[|Hex(n)| + 2..] == rest;
  }

  lemma DataRead(c: Config, b: Body, data: bytes, rest: bytes)
    requires b.phase == BodyChunkedData(|data|)
    ensures Read(c, b, data + (CRLF + rest))
         == Deliver(data, [], Read(c, b.(phase := BodyChunkedSize, consumed := b.consumed + |data|), rest))
  {
    hide ReadSize, ReadTrailers;
    var s := data + (CRLF + rest);
    assert s[..|data|] == data && s[|data|..] == CRLF + rest;
    assert (CRLF + rest)[..2] == CRLF && (CRLF + rest)[2..] == rest;
  }

  lemma LastChunkRead(c: Config, b: Body, rest: bytes)
    requires b.phase.BodyChunkedSize? && 1 <= c.limits.maxChunkLineSize && b.consumed <= c.limits.maxBodySize
    ensures Read(c, b, LAST_CHUNK + rest) == Reading([], b.trailers, Done(rest))
  {
    hide ReadSize;
    assert LAST_CHUNK + rest == Hex(0) + (CRLF + (CRLF + rest));
    SizeLineRead(c, b, 0, CRLF + rest);
    EmptyConcat(CRLF + rest);
    LineThenRest([], rest);
    assert (CRLF + rest)[2..] == rest;
  }

  /** The chunks in front of the first empty one: an empty chunk is written as the last chunk. */
  function Leading(chunks: seq<bytes>): seq<bytes> {
    if chunks == [] || chunks[0] == [] then [] else [chunks[0]] + Leading(chunks[1..])
  }

  /** What the decoder leaves unread. */
  function Unread(chunks: seq<bytes>, rest: bytes): bytes {
    if chunks == [] then rest
    else if chunks[0] == [] then ChunksText(chunks[1..], rest)
    else Unread(chunks[1..], rest)
  }

  lemma EmptyChunkRead(c: Config, b: Body, more: bytes)
    requires b.phase.BodyChunkedSize? && 1 <= c.limits.maxChunkLineSize && b.consumed <= c.limits.maxBodySize
    ensures Read(c, b, ChunkText([], more)) == Reading([], b.trailers, Done(more))
  {
    hide Read;
    EmptyConcat(CRLF + more);
    HexOfZero();
    assert ChunkText([], more) == LAST_CHUNK + more;
    LastChunkRead(c, b, more);
  }

  lemma ChunkRead(c: Config, b: Body, data: bytes, more: bytes)
    requires b.phase.BodyChunkedSize? && data != [] && |Hex(|data|)| <= c.limits.maxChunkLineSize
    requires b.consumed + |data| <= c.limits.maxBodySize
    ensures Read(c, b, ChunkText(data, more)) == Deliver(data, [], Read(c, b.(consumed := b.consumed + |data|), more))
  {
    hide Read, Hex;
    SizeLineRead(c, b, |data|, data + (CRLF + more));
    DataRead(c, b.(phase := BodyChunkedData(|data|)), data, more);
  }

  lemma FitsStep(c: Config, consumed: nat, chunks: seq<bytes>)
    requires Fits(c, consumed, chunks) && chunks != []
    ensures consumed + |chunks[0]| <= c.limits.maxBodySize && Fits(c, consumed + |chunks[0]|, chunks[1..])
    ensures |Hex(|chunks[0]|)| <= c.limits.maxChunkLineSize
  {
    hide Hex;
  }

  lemma {:induction false} EncodedChunksRead(c: Config, b: Body, chunks: seq<bytes>, rest: bytes)
    requires b.phase.BodyChunkedSize? && Fits(c, b.consumed, chunks)
    ensures Read(c, b, ChunksText(chunks, rest))
         == Reading(Concat(Leading(chunks)), b.trailers, Done(Unread(chunks, rest)))
    decreases |chunks|
  {
    hide Read, Hex, ChunkText, Fits;
    if chunks == [] {
      FitsRoom(c, b.consumed, chunks);
      LastChunkRead(c, b, rest);
    } else {
      var data, more := chunks[0], ChunksText(chunks[1..], rest);
      FitsStep(c, b.consumed, chunks);
      FitsRoom(c, b.consumed, chunks);
      if data == [] {
        EmptyChunkRead(c, b, more);
      } else {
        ChunkRead(c, b, data, more);
        EncodedChunksRead(c, b.(consumed := b.consumed + |data|), chunks[1..], rest);
        assert Leading(chunks)[1..] == Leading(chunks[1..]);
        EmptyConcat(b.trailers);
      }
    }
  }

  lemma FitsRoom(c: Config, consumed: nat, chunks: seq<bytes>)
    requires Fits(c, consumed, chunks)
    ensures consumed <= c.limits.maxBodySize && 1 <= c.limits.maxChunkLineSize
  {
  }

  lemma HexOfZero()
    ensures Hex(0) == [48]
  {
  }

  lemma {:induction false} LeadingAll(chunks: seq<bytes>, rest: bytes)
    ensures Leading(chunks) == chunks <==> [] !in chunks
    ensures Unread(chunks, rest) == rest <==> [] !in chunks
    ensures |Unread(chunks, rest)| >= |rest|
  {
    if chunks != [] {
      LeadingAll(chunks[1..], rest);
      HeadSplit(chunks);
      if chunks[0] == [] {
        ChunksTextLonger(chunks[1..], rest);
      } else {
        assert Leading(chunks)[1..] == Leading(chunks[1..]);
      }
    }
  }

  lemma {:induction false} ChunksTextLonger(chunks: seq<bytes>, rest: bytes)
    ensures |ChunksText(chunks, rest)| > |rest|
  {
    if chunks != [] {
      ChunksTextLonger(chunks[1..], rest);
    }
  }

  /** Round trip under any schedule: a drained run over encoded chunks and whatever follows them
      has delivered the chunks, without trailers, and left exactly what follows - if and only if
      no chunk is empty. */
  lemma ChunkRoundTrip(c: Config, b: Body, chunks: seq<bytes>, rest: bytes, ops: seq<BodyRuns.Op>)
    requires b.phase.BodyChunkedSize? && BodyRuns.Bounded(c.limits, b) && Fits(c, b.consumed, chunks)
    requires b.trailers == []
    requires BodyRuns.Legal(c, BodyRuns.Start(b), ops) && BodyRuns.Fed(ops) == ChunksText(chunks, []) + rest
    requires BodyRuns.Drained(c, BodyRuns.RunAll(c, BodyRuns.Start(b), ops))
    ensures BodyRuns.Seen(BodyRuns.RunAll(c, BodyRuns.Start(b), ops))
         == Reading(Concat(Leading(chunks)), [], Done(Unread(chunks, rest)))
    ensures BodyRuns.Seen(BodyRuns.RunAll(c, BodyRuns.Start(b), ops)) == Reading(Concat(chunks), [], Done(rest))
       <==> [] !in chunks
  {
    hide Read, BodyRuns.RunAll, BodyRuns.Legal;
    ChunksTextAppend(chunks, rest);
    EncodedChunksRead(c, b, chunks, rest);
    BodyRuns.DrainedRunSeesTheStream(c, b, ops);
    LeadingAll(chunks, rest);
  }
}
