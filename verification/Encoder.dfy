/** The message encoder: which messages `encode_request` and `encode_response` refuse, and the text
    of the others. */
module Encoder {
  import opened Scan
  import opened BodyGrammar
  import opened MessageGrammar
  import opened Framing

  // ---- Decimal ----

  /** Decimal digits, without leading zeros. */
  function Decimal(n: nat): (s: bytes)
    ensures s != [] && All(s, IsDigit)
    ensures DecimalValue(s) == n
  {
    if n < 10 then
      var s := [48 + n];
      assert s[..0] == [];
      s
    else
      var s := Decimal(n / 10) + [48 + n % 10];
      assert s[..|s| - 1] == Decimal(n / 10);
      s
  }

  ghost function DecimalOrNothing(n: nat): bytes {
    if n == 0 then [] else Decimal(n)
  }

  lemma DecimalStep(n: nat, tail: bytes)
    requires n > 0
    ensures DecimalOrNothing(n) + tail == DecimalOrNothing(n / 10) + ([48 + n % 10] + tail)
  {
    ConcatAssociative(DecimalOrNothing(n / 10), [48 + n % 10], tail);
    EmptyConcat([48 + n % 10]);
  }

  function Pow10(k: nat): (p: nat)
    ensures p >= 1
  {
    if k == 0 then 1 else 10 * Pow10(k - 1)
  }

  lemma Pow10Step(n: nat, k: nat)
    requires 0 < n < Pow10(k)
    ensures k > 0 && n / 10 < Pow10(k - 1)
  {
  }

  lemma UsizeIsTwentyDigits()
    ensures USIZE_MAX < Pow10(20)
  {
    assert Pow10(5) == 100000;
    assert Pow10(10) == 10000000000;
    assert Pow10(15) == 1000000000000000;
    assert Pow10(20) == 100000000000000000000;
  }

  lemma DecimalEnds(n: nat, tail: bytes)
    ensures n > 0 ==> Decimal(n) == DecimalOrNothing(n) + []
    ensures DecimalOrNothing(0) + tail == tail
  {
  }

  /** The digits of `n`, written from the end of the scratch array, which never underflows. */
  method FillDecimal(tmp: array<byte>, n: nat) returns (i: nat)
    requires 0 < n < Pow10(tmp.Length)
    modifies tmp
    ensures i <= tmp.Length && tmp[i..] == Decimal(n)
  {
    hide Decimal, DecimalOrNothing, Pow10, DecimalValue;
    i := tmp.Length;
    var remaining: nat := n;
    DecimalEnds(n, []);
    while remaining > 0
      invariant i <= tmp.Length && remaining < Pow10(i)
      invariant Decimal(n) == DecimalOrNothing(remaining) + tmp[i..]
      decreases remaining
    {
      ghost var tail := tmp[i..];
      DecimalStep(remaining, tail);
      Pow10Step(remaining, i);
      i := i - 1;
      tmp[i] := 48 + remaining % 10;
      assert tmp[i + 1..] == tail;
      HeadSplit(tmp[i..]);
      remaining := remaining / 10;
    }
    DecimalEnds(n, tmp[i..]);
  }

  /** `write_usize_decimal`: twenty digits are enough for any `usize`. */
  method WriteUsizeDecimal(buf: bytes, n: usize) returns (buf': bytes)
    ensures buf' == buf + Decimal(n)
  {
    if n == 0 {
      return buf + [48];
    }
    var tmp := new byte[20];
    UsizeIsTwentyDigits();
    var i := FillDecimal(tmp, n);
    return buf + tmp[i..];
  }

  // ---- What is refused ----

  datatype EncodeError =
    | InvalidStartLine
    | InvalidHeader(field: Field)
    | InvalidHost
    | ConflictingFraming
    | InvalidContentLengthValue(value: bytes)
    | DuplicateContentLength
    | ContentLengthMismatch(headerValue: nat, bodyLength: nat)
    | ForbiddenTransferEncoding(status: nat)
    | ForbiddenContentLength(status: nat)
    | ForbiddenBodyFor205

  /** The judgements that are not modelled further: the form of a request target, and the Host
      field with the rules on authorities. */
  datatype Checks = Checks(targetOk: StartLine -> bool, hostOk: (StartLine, seq<Field>) -> bool)

  predicate IsVisible(b: byte) { 33 <= b <= 126 }

  predicate StartLineOk(c: Checks, line: StartLine) {
    match line
    case RequestLine(method_, target, version) =>
      && method_ != [] && All(method_, IsTchar)
      && target != [] && All(target, IsVisible) && c.targetOk(line)
      && version != [] && All(version, IsVisible)
    case StatusLine(version, status, reason) =>
      && version != [] && All(version, IsVisible)
      && 100 <= status <= 599
      && All(reason, IsFieldVchar)
  }

  predicate HeaderOk(f: Field) {
    f.name != [] && All(f.name, IsTchar) && All(f.value, IsFieldVchar)
  }

  function BadHeader(headers: seq<Field>): (r: Option<Field>)
    ensures r.None? <==> All(headers, HeaderOk)
    decreases |headers|
  {
    if headers == [] then None
    else if !HeaderOk(headers[0]) then Some(headers[0])
    else
      var r := BadHeader(headers[1..]);
      assert headers == [headers[0]] + headers[1..];
      r
  }

  /** `validate_content_length_headers`, when `prev` was announced before: here a list of numbers is
      refused, where the decoder accepts one whose elements agree. */
  function AnnouncedLength(headers: seq<Field>, prev: Option<nat>): Result<Option<nat>, EncodeError>
    decreases |headers|
  {
    if headers == [] then Ok(prev)
    else if !Named(headers[0], CONTENT_LENGTH) then AnnouncedLength(headers[1..], prev)
    else
      var trimmed := TrimOws(headers[0].value);
      if trimmed == [] || Number(trimmed).None? then Err(InvalidContentLengthValue(headers[0].value))
      else if prev.Some? && prev != Number(trimmed) then Err(DuplicateContentLength)
      else AnnouncedLength(headers[1..], Number(trimmed))
  }

  method ValidateContentLengthHeaders(headers: seq<Field>) returns (r: Result<Option<nat>, EncodeError>)
    ensures r == AnnouncedLength(headers, None)
  {
    hide Named, TrimOws, Number;
    var result: Option<nat> := None;
    assert headers[0..] == headers;
    for i := 0 to |headers|
      invariant AnnouncedLength(headers[i..], result) == AnnouncedLength(headers, None)
    {
      DropTwice(headers, i, 1);
      if !Named(headers[i], CONTENT_LENGTH) {
        continue;
      }
      var trimmed := TrimOws(headers[i].value);
      var parsed := Number(trimmed);
      if trimmed == [] || parsed.None? {
        return Err(InvalidContentLengthValue(headers[i].value));
      }
      if result.Some? && result != parsed {
        return Err(DuplicateContentLength);
      }
      result := parsed;
    }
    assert headers[|headers|..] == [];
    r := Ok(result);
  }

  function Bytes(body: Option<bytes>): bytes {
    if body.None? then [] else body.value
  }

  /** The error of a Content-Length that is malformed or does not match the body. */
  function LengthError(headers: seq<Field>, bodyLength: nat, validate: bool): Option<EncodeError> {
    if HasHeader(headers, TRANSFER_ENCODING) then None
    else
      var announced := AnnouncedLength(headers, None);
      if announced.Err? then Some(announced.error)
      else if validate && announced.value.Some? && announced.value.value != bodyLength then
        Some(ContentLengthMismatch(announced.value.value, bodyLength))
      else None
  }

  function HeadError(c: Checks, line: StartLine, headers: seq<Field>): Option<EncodeError> {
    if !StartLineOk(c, line) then Some(InvalidStartLine)
    else if BadHeader(headers).Some? then Some(InvalidHeader(BadHeader(headers).value))
    else if line.RequestLine? && !c.hostOk(line, headers) then Some(InvalidHost)
    else if HasHeader(headers, TRANSFER_ENCODING) && HasHeader(headers, CONTENT_LENGTH) then Some(ConflictingFraming)
    else None
  }

  function RequestError(c: Checks, line: StartLine, headers: seq<Field>, body: Option<bytes>): Option<EncodeError> {
    var bad := HeadError(c, line, headers);
    if bad.Some? then bad else LengthError(headers, |Bytes(body)|, true)
  }

  function FirstValue(headers: seq<Field>, name: bytes): Option<bytes>
    decreases |headers|
  {
    if headers == [] then None
    else if Named(headers[0], name) then Some(headers[0].value)
    else FirstValue(headers[1..], name)
  }

  /** What a status code forbids. */
  function StatusError(status: nat, headers: seq<Field>, body: Option<bytes>): Option<EncodeError> {
    if 100 <= status < 200 || status == 204 then
      if HasHeader(headers, TRANSFER_ENCODING) then Some(ForbiddenTransferEncoding(status))
      else if HasHeader(headers, CONTENT_LENGTH) then Some(ForbiddenContentLength(status))
      else None
    else if status == 205 then
      var length := FirstValue(headers, CONTENT_LENGTH);
      if Bytes(body) != [] then Some(ForbiddenBodyFor205)
      else if HasHeader(headers, TRANSFER_ENCODING) then Some(ForbiddenTransferEncoding(205))
      else if length.Some? && TrimOws(length.value) != [48] then Some(ForbiddenContentLength(205))
      else None
    else None
  }

  function ResponseError(c: Checks, line: StartLine, headers: seq<Field>, body: Option<bytes>, omit: bool)
    : Option<EncodeError>
    requires line.StatusLine?
  {
    var bad := HeadError(c, line, headers);
    var forbidden := StatusError(line.status, headers, body);
    if bad.Some? then bad
    else if forbidden.Some? then forbidden
    else if !StatusHasBody(line.status) then None
    else LengthError(headers, |Bytes(body)|, !omit || Bytes(body) != [])
  }

  // ---- The text ----

  /** "Content-Length" as it is written. */
  const CONTENT_LENGTH_NAME: bytes := [67, 111, 110, 116, 101, 110, 116, 45, 76, 101, 110, 103, 116, 104]

  function LengthField(n: nat): Field { Field(CONTENT_LENGTH_NAME, Decimal(n)) }

  predicate HasFraming(headers: seq<Field>) {
    HasHeader(headers, CONTENT_LENGTH) || HasHeader(headers, TRANSFER_ENCODING)
  }

  /** The fields of a request, with the Content-Length that is added when none of its own frames it. */
  function RequestFields(headers: seq<Field>, body: Option<bytes>): seq<Field> {
    headers + if body.Some? && !HasFraming(headers) then [LengthField(|body.value|)] else []
  }

  /** `should_auto_emit_content_length_for_response`. */
  predicate AddsLength(status: nat, headers: seq<Field>, body: Option<bytes>, omit: bool) {
    StatusHasBody(status) && body.Some? && !HasFraming(headers) && !(omit && body.value == [])
  }

  function ResponseFields(status: nat, headers: seq<Field>, body: Option<bytes>, omit: bool): seq<Field> {
    headers + if AddsLength(status, headers, body, omit) then [LengthField(|Bytes(body)|)] else []
  }

  /** The body bytes that follow the head of a response. */
  function ResponseBytes(status: nat, body: Option<bytes>, omit: bool): bytes {
    if StatusHasBody(status) && !omit then Bytes(body) else []
  }

  function StartText(line: StartLine): bytes {
    match line
    case RequestLine(method_, target, version) => method_ + ([SP] + (target + ([SP] + version)))
    case StatusLine(version, status, reason) => version + ([SP] + (Decimal(status) + ([SP] + reason)))
  }

  function FieldText(f: Field): bytes { f.name + ([COLON, SP] + f.value) }

  /** Field lines, and what follows them. */
  function FieldsText(headers: seq<Field>, rest: bytes): bytes
    decreases |headers|
  {
    if headers == [] then rest else FieldText(headers[0]) + (CRLF + FieldsText(headers[1..], rest))
  }

  /** A message head, and what follows it. */
  function HeadText(line: StartLine, headers: seq<Field>, rest: bytes): bytes {
    StartText(line) + (CRLF + FieldsText(headers, CRLF + rest))
  }

  lemma {:induction false} FieldsTextThen(headers: seq<Field>, rest: bytes)
    ensures FieldsText(headers, rest) == FieldsText(headers, []) + rest
    decreases |headers|
  {
    hide FieldText;
    if headers == [] {
      EmptyConcat(rest);
    } else {
      FieldsTextThen(headers[1..], rest);
      ConcatAssociative(CRLF, FieldsText(headers[1..], []), rest);
      ConcatAssociative(FieldText(headers[0]), CRLF + FieldsText(headers[1..], []), rest);
    }
  }

  lemma {:induction false} FieldsTextOfConcat(a: seq<Field>, b: seq<Field>, rest: bytes)
    ensures FieldsText(a + b, rest) == FieldsText(a, FieldsText(b, rest))
    decreases |a|
  {
    hide FieldText;
    if a == [] {
      EmptyConcat(b);
    } else {
      FieldsTextOfConcat(a[1..], b, rest);
      assert (a + b)[1..] == a[1..] + b;
    }
  }

  lemma OneField(f: Field)
    ensures FieldsText([f], []) == FieldText(f) + CRLF
  {
    assert [f][1..] == [];
    EmptyConcat(CRLF);
  }

  method WriteField(buf: bytes, f: Field) returns (buf': bytes)
    ensures buf' == buf + (FieldText(f) + CRLF)
  {
    buf' := buf + f.name;
    buf' := buf' + [COLON, SP];
    buf' := buf' + f.value;
    buf' := buf' + CRLF;
    ConcatAssociative(buf, f.name, [COLON, SP]);
    ConcatAssociative(f.name, [COLON, SP], f.value);
    ConcatAssociative(buf, f.name + [COLON, SP], f.value);
    ConcatAssociative(buf, FieldText(f), CRLF);
  }

  method WriteFields(buf: bytes, headers: seq<Field>) returns (buf': bytes)
    ensures buf' == buf + FieldsText(headers, [])
  {
    hide FieldText, FieldsText;
    buf' := buf;
    assert headers[..0] == [];
    NoFields();
    EmptyConcat(buf);
    for i := 0 to |headers|
      invariant buf' == buf + FieldsText(headers[..i], [])
    {
      buf' := WriteField(buf', headers[i]);
      assert headers[..i + 1] == headers[..i] + [headers[i]];
      FieldsTextOfConcat(headers[..i], [headers[i]], []);
      FieldsTextThen(headers[..i], FieldsText([headers[i]], []));
      OneField(headers[i]);
      ConcatAssociative(buf, FieldsText(headers[..i], []), FieldText(headers[i]) + CRLF);
    }
    assert headers[..|headers|] == headers;
  }

  lemma NoFields()
    ensures FieldsText([], []) == []
  {
  }

  method WriteStartLine(line: StartLine) returns (buf: bytes)
    requires line.StatusLine? ==> line.status <= USIZE_MAX
    ensures buf == StartText(line) + CRLF
  {
    match line
    case RequestLine(method_, target, version) =>
      buf := method_ + [SP] + target + [SP] + version + CRLF;
      ThreeParts(method_, target, version);
    case StatusLine(version, status, reason) =>
      var digits := WriteUsizeDecimal([], status);
      EmptyConcat(Decimal(status));
      buf := version + [SP] + digits + [SP] + reason + CRLF;
      ThreeParts(version, digits, reason);
  }

  lemma ThreeParts(a: bytes, b: bytes, c: bytes)
    ensures a + [SP] + b + [SP] + c == a + ([SP] + (b + ([SP] + c)))
  {
    ConcatAssociative(a, [SP], b);
    ConcatAssociative(a, [SP] + b, [SP]);
    ConcatAssociative([SP], b, [SP]);
    ConcatAssociative(a, [SP] + (b + [SP]), c);
    ConcatAssociative([SP], b + [SP], c);
    ConcatAssociative(b, [SP], c);
  }

  method WriteMessage(line: StartLine, headers: seq<Field>, length: Option<usize>, body: bytes) returns (buf: bytes)
    requires line.StatusLine? ==> line.status <= USIZE_MAX
    ensures buf == HeadText(line, headers + (if length.Some? then [LengthField(length.value)] else []), body)
  {
    hide StartText, FieldText, FieldsText, Decimal;
    var start := WriteStartLine(line);
    buf := WriteFields(start, headers);
    ghost var added := if length.Some? then [LengthField(length.value)] else [];
    NoFields();
    if length.Some? {
      var digits := WriteUsizeDecimal([], length.value);
      EmptyConcat(Decimal(length.value));
      OneField(LengthField(length.value));
      buf := WriteField(buf, Field(CONTENT_LENGTH_NAME, digits));
    } else {
      EmptyConcat(buf);
    }
    assert buf == start + FieldsText(headers, []) + FieldsText(added, []);
    buf := buf + CRLF;
    buf := buf + body;
    FieldsTextOfConcat(headers, added, CRLF + body);
    FieldsTextThen(headers, FieldsText(added, CRLF + body));
    FieldsTextThen(added, CRLF + body);
    Assemble(StartText(line), FieldsText(headers, []), FieldsText(added, []), body);
  }

  lemma Assemble(start: bytes, fields: bytes, added: bytes, body: bytes)
    ensures start + CRLF + fields + added + CRLF + body == start + (CRLF + (fields + (added + (CRLF + body))))
  {
    ConcatAssociative(start + CRLF + fields + added, CRLF, body);
    ConcatAssociative(start + CRLF + fields, added, CRLF + body);
    ConcatAssociative(start + CRLF, fields, added + (CRLF + body));
    ConcatAssociative(start, CRLF, fields + (added + (CRLF + body)));
  }

  /** `encode_request`. */
  method EncodeRequest(c: Checks, line: StartLine, headers: seq<Field>, body: Option<bytes>)
    returns (r: Result<bytes, EncodeError>)
    requires line.RequestLine? && |Bytes(body)| <= USIZE_MAX
    ensures var bad := RequestError(c, line, headers, body);
            r == if bad.Some? then Err(bad.value)
                 else Ok(HeadText(line, RequestFields(headers, body), Bytes(body)))
  {
    hide HeadText, AnnouncedLength;
    var bad := HeadError(c, line, headers);
    if bad.Some? {
      return Err(bad.value);
    }
    if !HasHeader(headers, TRANSFER_ENCODING) {
      var announced := ValidateContentLengthHeaders(headers);
      if announced.Err? {
        return Err(announced.error);
      }
      if announced.value.Some? && announced.value.value != |Bytes(body)| {
        return Err(ContentLengthMismatch(announced.value.value, |Bytes(body)|));
      }
    }
    var length := if body.Some? && !HasFraming(headers) then Some(|body.value|) else None;
    var buf := WriteMessage(line, headers, length, Bytes(body));
    r := Ok(buf);
  }

  /** `encode_response`. */
  method EncodeResponse(c: Checks, line: StartLine, headers: seq<Field>, body: Option<bytes>, omit: bool)
    returns (r: Result<bytes, EncodeError>)
    requires line.StatusLine? && line.status < 65536 && |Bytes(body)| <= USIZE_MAX
    ensures var bad := ResponseError(c, line, headers, body, omit);
            r == if bad.Some? then Err(bad.value)
                 else Ok(HeadText(line, ResponseFields(line.status, headers, body, omit),
                                  ResponseBytes(line.status, body, omit)))
  {
    hide HeadText, AnnouncedLength, TrimOws, FirstValue;
    var bad := HeadError(c, line, headers);
    if bad.Some? {
      return Err(bad.value);
    }
    var forbidden := StatusError(line.status, headers, body);
    if forbidden.Some? {
      return Err(forbidden.value);
    }
    var encoded := StatusHasBody(line.status) && !omit;
    if StatusHasBody(line.status) && !HasHeader(headers, TRANSFER_ENCODING) {
      var announced := ValidateContentLengthHeaders(headers);
      if announced.Err? {
        return Err(announced.error);
      }
      var validate := encoded || Bytes(body) != [];
      if validate && announced.value.Some? && announced.value.value != |Bytes(body)| {
        return Err(ContentLengthMismatch(announced.value.value, |Bytes(body)|));
      }
    }
    var length := if AddsLength(line.status, headers, body, omit) then Some(|Bytes(body)|) else None;
    var buf := WriteMessage(line, headers, length, if encoded then Bytes(body) else []);
    r := Ok(buf);
  }
}
