/** The state space of the body decoder and, independently of how its buffer is driven,
    the meaning of a byte stream in each state. */
module BodyGrammar {
  import opened Scan
  import ChunkExt

  datatype Limits = Limits(
    maxBufferSize: usize,
    maxHeadersCount: usize,
    maxHeaderLineSize: usize,
    maxBodySize: usize,
    maxChunkLineSize: usize)

  datatype Error =
    | InvalidData
    | ChunkLineTooLong(size: nat, limit: nat)
    | HeaderLineTooLong(size: nat, limit: nat)
    | TooManyHeaders(count: nat, limit: nat)
    | BodyTooLarge(size: nat, limit: nat)
    | BufferOverflow(size: nat, limit: nat)

  datatype Phase =
    | StartLine
    | Headers
    | BodyContentLength(remaining: nat)
    | BodyChunkedSize
    | BodyChunkedData(left: nat)
    | BodyChunkedDataCrlf
    | ChunkedTrailer
    | BodyCloseDelimited
    | Tunnel
    | Complete

  datatype Field = Field(name: bytes, value: bytes)

  /** The limits, and the two judgements on text that are not modelled further: UTF-8
      well-formedness and the table of fields that are banned from trailers. */
  datatype Config = Config(limits: Limits, utf8: bytes -> bool, prohibited: bytes -> bool)

  /** The phase together with the fields of `BodyDecoder`. */
  datatype Body = Body(
    phase: Phase,
    consumed: nat,
    trailers: seq<Field>,
    trailerCount: nat,
    declared: seq<bytes>)

  // ---- One line at a time ----

  function HexValue(s: bytes): nat
    requires All(s, IsHexDigit)
    decreases |s|
  {
    if s == [] then 0
    else
      assert All(s[..|s| - 1], IsHexDigit);
      16 * HexValue(s[..|s| - 1]) + HexDigitValue(s[|s| - 1])
  }

  predicate NotSemi(b: byte) { b != SEMI }

  /** chunk-size [ chunk-ext ], without the CRLF. */
  function ParseChunkSize(line: bytes): (r: Result<nat, Error>)
    ensures r.Ok? ==> r.value <= USIZE_MAX
  {
    var sizeEnd := Span(line, NotSemi);
    var size := line[..sizeEnd];
    var hexEnd := Span(size, IsHexDigit);
    if hexEnd == 0 then Err(InvalidData)
    else if hexEnd < sizeEnd && (sizeEnd == |line| || !All(size[hexEnd..], IsBws)) then Err(InvalidData)
    else
      var n := HexValue(size[..hexEnd]);
      if n > USIZE_MAX then Err(InvalidData)
      else if sizeEnd < |line| && !ChunkExt.Accepts(line[sizeEnd..]) then Err(InvalidData)
      else Ok(n)
  }

  /** The checks made on a chunk-size line before it is drained. */
  function CheckChunkLine(l: Limits, line: bytes): (r: Result<nat, Error>)
    ensures r.Ok? ==> r.value <= USIZE_MAX
  {
    if |line| > l.maxChunkLineSize then Err(ChunkLineTooLong(|line|, l.maxChunkLineSize))
    else ParseChunkSize(line)
  }

  /** The check made on the announced size after the line is drained. */
  function CheckChunkSize(l: Limits, consumed: nat, size: nat): (r: Option<Error>)
    ensures r == None ==> size == 0 || consumed + size <= l.maxBodySize
  {
    if size == 0 then None
    else if consumed + size > USIZE_MAX then Some(BodyTooLarge(USIZE_MAX, l.maxBodySize))
    else if consumed + size > l.maxBodySize then Some(BodyTooLarge(consumed + size, l.maxBodySize))
    else None
  }

  function TrimOws(s: bytes): (r: bytes)
    ensures |r| <= |s|
    decreases |s|
  {
    if s != [] && IsBws(s[0]) then TrimOws(s[1..])
    else if s != [] && IsBws(s[|s| - 1]) then TrimOws(s[..|s| - 1])
    else s
  }

  predicate IsFieldVchar(b: byte) { b == HTAB || 32 <= b <= 126 || b >= 128 }

  predicate NotColon(b: byte) { b != COLON }

  function ParseHeaderLine(line: bytes): Result<Field, Error> {
    var colon := Span(line, NotColon);
    if line != [] && IsBws(line[0]) then Err(InvalidData)
    else if CR in line || LF in line then Err(InvalidData)
    else if colon == |line| || colon == 0 || !All(line[..colon], IsTchar) then Err(InvalidData)
    else
      var value := TrimOws(line[colon + 1..]);
      if All(value, IsFieldVchar) then Ok(Field(line[..colon], value)) else Err(InvalidData)
  }

  /** The checks made on a trailer line before it is drained. */
  function CheckTrailerLine(c: Config, count: nat, line: bytes): Option<Error> {
    if |line| > c.limits.maxHeaderLineSize then
      Some(HeaderLineTooLong(|line|, c.limits.maxHeaderLineSize))
    else if count >= c.limits.maxHeadersCount then
      Some(TooManyHeaders(count + 1, c.limits.maxHeadersCount))
    else if !c.utf8(line) then Some(InvalidData)
    else None
  }

  /** The checks made after it is drained: syntax, the banned table, the sender's declaration. */
  function ParseTrailer(c: Config, declared: seq<bytes>, line: bytes): Result<Field, Error> {
    var f := ParseHeaderLine(line);
    if f.Err? then f
    else if c.prohibited(f.value.name) || ToLower(f.value.name) !in declared then Err(InvalidData)
    else f
  }

  // ---- The meaning of a stream ----

  datatype End = Done(rest: bytes) | Failed(error: Error) | Pending

  /** Everything a stream yields: body, trailers (when it is complete), and how it ends. */
  datatype Reading = Reading(body: bytes, trailers: seq<Field>, end: End)

  function Deliver(body: bytes, trailers: seq<Field>, r: Reading): Reading {
    Reading(body + r.body, trailers + r.trailers, r.end)
  }

  function Fails(e: Error): Reading { Reading([], [], Failed(e)) }

  const WAITING := Reading([], [], Pending)

  /** Body framing by Content-Length, by sections 7.1 and 7.1.2 of RFC 9112 for chunked, or by
      the end of the connection, read from any phase on. */
  function Read(c: Config, b: Body, s: bytes): Reading
    decreases |s|, if b.phase.BodyChunkedData? then 2 else 1
  {
    match b.phase
    case BodyContentLength(n) =>
      if |s| < n then Reading(s, [], Pending) else Reading(s[..n], b.trailers, Done(s[n..]))
    case BodyChunkedSize => ReadSize(c, b, s)
    case BodyChunkedData(n) =>
      if |s| < n then Reading(s, [], Pending)
      else Deliver(s[..n], [], Read(c, b.(phase := BodyChunkedDataCrlf, consumed := b.consumed + n), s[n..]))
    case BodyChunkedDataCrlf =>
      if |s| < 2 then WAITING
      else if s[..2] != CRLF then Fails(InvalidData)
      else Read(c, b.(phase := BodyChunkedSize), s[2..])
    case ChunkedTrailer => ReadTrailers(c, b, s)
    case BodyCloseDelimited => Reading(s, [], Pending)
    case Complete => Reading([], b.trailers, Done(s))
    case _ => Fails(InvalidData)
  }

  /** chunk = chunk-size [ chunk-ext ] CRLF chunk-data CRLF, or the last chunk. */
  function ReadSize(c: Config, b: Body, s: bytes): Reading
    decreases |s|, 0
  {
    var line := FindLine(s);
    if line.None? then WAITING
    else
      var size := CheckChunkLine(c.limits, s[..line.value]);
      if size.Err? then Fails(size.error)
      else
        var bad := CheckChunkSize(c.limits, b.consumed, size.value);
        if bad.Some? then Fails(bad.value)
        else if size.value == 0 then ReadTrailers(c, b.(phase := ChunkedTrailer), s[line.value + 2..])
        else Read(c, b.(phase := BodyChunkedData(size.value)), s[line.value + 2..])
  }

  /** trailer-section CRLF. */
  function ReadTrailers(c: Config, b: Body, s: bytes): Reading
    decreases |s|, 0
  {
    var line := FindLine(s);
    if line.None? then WAITING
    else if line.value == 0 then Reading([], b.trailers, Done(s[2..]))
    else
      var bad := CheckTrailerLine(c, b.trailerCount, s[..line.value]);
      if bad.Some? then Fails(bad.value)
      else
        var f := ParseTrailer(c, b.declared, s[..line.value]);
        if f.Err? then Fails(f.error)
        else
          ReadTrailers(c, b.(trailers := b.trailers + [f.value], trailerCount := b.trailerCount + 1),
                       s[line.value + 2..])
  }
}
