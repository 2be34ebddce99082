/** What the standard says of responses, stated on statuses, fields and texts. */
module EncoderLaws {
  import opened Scan
  import opened BodyGrammar
  import opened MessageGrammar
  import opened Framing
  import opened Encoder
  import opened EncoderRoundTrip
  import MessageDecoder
  import MessageStreams

  // ---- Statuses without a body (section 6.3 of RFC 9112) ----

  /** The statuses, and the method, whose responses have no body, whatever their fields say. */
  lemma StatusesWithoutBody(r: Rules, m: Option<bytes>, head: Head)
    requires head.line.StatusLine?
    ensures var status := head.line.status;
            Kind(r, m, head) == Ok(NoBody) <==> m == Some(HEAD) || 100 <= status < 200 || status == 204 || status == 304
  {
    hide Framing.HasHeader, Framing.ResponseFrame;
    ResponseKindExactly(r, m, head, 0);
  }

  /** Such a response ends at its empty line. */
  lemma BodilessResponseEnds(
      c: Checks, r: Rules, m: Option<bytes>, line: StartLine, headers: seq<Field>, rest: bytes)
    requires line.StatusLine? && StartLineOk(c, line) && Carries(r, line, headers)
    requires m == Some(HEAD) || 100 <= line.status < 200 || line.status == 204 || line.status == 304
    ensures ReadMessage(r, m, HeadText(line, headers, rest))
         == Got(Message(Head(line, ReceivedAll(headers)), None), [], rest)
  {
    hide HeadText, ReadMessage, Kind, Carries, StartLineOk, ReceivedAll;
    HeadRead(c, r, m, line, headers, rest);
    StatusesWithoutBody(r, m, Head(line, ReceivedAll(headers)));
  }

  /** With such a status nothing is added to the fields and nothing is written behind them. */
  lemma BodilessEncodingEnds(status: nat, headers: seq<Field>, body: Option<bytes>, omit: bool)
    ensures 100 <= status < 200 || status == 204 || status == 304 ==>
              ResponseFields(status, headers, body, omit) == headers && ResponseBytes(status, body, omit) == []
    ensures !(100 <= status < 200 || status == 204 || status == 304) ==>
              ResponseBytes(status, body, omit) == if omit then [] else Bytes(body)
  {
    EmptyConcat(headers);
  }

  // ---- HEAD (section 9.3.2 of RFC 9110) ----

  lemma HeadTextThen(line: StartLine, headers: seq<Field>, rest: bytes)
    ensures HeadText(line, headers, rest) == HeadText(line, headers, []) + rest
  {
    hide HeadText;
    var p := Parcel(line, headers, [], Message(Head(line, headers), None));
    ParcelTextThen(p, rest);
    EmptyConcat(rest);
    EmptyConcat<byte>([]);
  }

  /** The answer to HEAD is the answer to GET, cut behind the empty line: omitting a body that is not
      empty changes neither what is refused nor the fields, only the body is not written. */
  lemma HeadIsGetWithoutBody(c: Checks, line: StartLine, headers: seq<Field>, body: Option<bytes>)
    requires line.StatusLine? && Bytes(body) != []
    ensures ResponseError(c, line, headers, body, true) == ResponseError(c, line, headers, body, false)
    ensures var get := ResponseBytes(line.status, body, false);
            && ResponseBytes(line.status, body, true) == []
            && HeadText(line, ResponseFields(line.status, headers, body, false), get)
               == HeadText(line, ResponseFields(line.status, headers, body, true), []) + get
  {
    hide HeadText, HasFraming, HeadError, StatusError, LengthError;
    HeadTextThen(line, ResponseFields(line.status, headers, body, false), ResponseBytes(line.status, body, false));
  }

  /** When a body may follow and nothing frames it, the length that is added is that of the body; only
      an omitted empty body adds none, and only then, or without a body, is nothing added. */
  lemma AddedLength(status: nat, headers: seq<Field>, body: Option<bytes>, omit: bool)
    requires !(100 <= status < 200 || status == 204 || status == 304)
    ensures HasHeader(headers, CONTENT_LENGTH) || HasHeader(headers, TRANSFER_ENCODING) ==>
              ResponseFields(status, headers, body, omit) == headers
    ensures body == None || (omit && body == Some([])) ==> ResponseFields(status, headers, body, omit) == headers
    ensures !HasHeader(headers, CONTENT_LENGTH) && !HasHeader(headers, TRANSFER_ENCODING)
            && body.Some? && !(omit && body == Some([])) ==>
              ResponseFields(status, headers, body, omit)
              == headers + [Field(CONTENT_LENGTH_NAME, Decimal(|body.value|))]
  {
    hide HasHeader;
    EmptyConcat(headers);
  }

  // ---- Statuses that forbid fields (sections 8.6 and 15.3.6 of RFC 9110, 6.1 of RFC 9112) ----

  lemma {:induction false} FirstIsFirst(headers: seq<Field>, name: bytes)
    ensures FirstValue(headers, name) == None <==> !HasHeader(headers, name)
    ensures FirstValue(headers, name).Some? ==>
              exists i ::
                0 <= i < |headers| && IsFirst(headers, name, i) && headers[i].value == FirstValue(headers, name).value
    decreases |headers|
  {
    hide Named;
    if headers != [] {
      HasHeaderStep(headers, name);
      FirstIsFirst(headers[1..], name);
      if Named(headers[0], name) {
        assert IsFirst(headers, name, 0);
      } else if FirstValue(headers, name).Some? {
        var i :| 0 <= i < |headers[1..]| && IsFirst(headers[1..], name, i)
                 && headers[1..][i].value == FirstValue(headers, name).value;
        FirstShifts(headers, name, i);
        assert headers[i + 1] == headers[1..][i];
      }
    }
  }

  ghost predicate IsFirst(headers: seq<Field>, name: bytes, i: nat)
    requires i < |headers|
  {
    Named(headers[i], name) && forall k :: 0 <= k < i ==> !Named(headers[k], name)
  }

  lemma FirstShifts(headers: seq<Field>, name: bytes, i: nat)
    requires headers != [] && !Named(headers[0], name) && i < |headers[1..]| && IsFirst(headers[1..], name, i)
    ensures IsFirst(headers, name, i + 1)
  {
    hide Named;
    assert forall k :: 0 < k < |headers| ==> headers[k] == headers[1..][k - 1];
  }

  /** Exactly what a status forbids. */
  lemma StatusForbidsExactly(status: nat, headers: seq<Field>, body: Option<bytes>)
    ensures StatusError(status, headers, body) == None <==>
              && (100 <= status < 200 || status == 204 ==>
                    !HasHeader(headers, TRANSFER_ENCODING) && !HasHeader(headers, CONTENT_LENGTH))
              && (status == 205 ==>
                    && Bytes(body) == [] && !HasHeader(headers, TRANSFER_ENCODING)
                    && (FirstValue(headers, CONTENT_LENGTH).None?
                        || TrimOws(FirstValue(headers, CONTENT_LENGTH).value) == [48]))
  {
    hide HasHeader, TrimOws;
  }

  lemma {:induction false} AnnouncedIsFirst(headers: seq<Field>)
    requires AnnouncedLength(headers, None).Ok? && FirstValue(headers, CONTENT_LENGTH).Some?
    ensures AnnouncedLength(headers, None).value == Number(TrimOws(FirstValue(headers, CONTENT_LENGTH).value))
    decreases |headers|
  {
    hide Named, TrimOws, Number;
    if Named(headers[0], CONTENT_LENGTH) {
      AnnouncedKeeps(headers[1..], Number(TrimOws(headers[0].value)));
    } else {
      AnnouncedIsFirst(headers[1..]);
    }
  }

  lemma {:induction false} AnnouncedKeeps(headers: seq<Field>, prev: Option<nat>)
    requires prev.Some? && AnnouncedLength(headers, prev).Ok?
    ensures AnnouncedLength(headers, prev).value == prev
    decreases |headers|
  {
    hide Named, TrimOws, Number;
    if headers != [] {
      AnnouncedKeeps(headers[1..], prev);
    }
  }

  /** An accepted 1xx or 204 has no framing field, an accepted 205 no body and no length but 0, and
      no accepted response has both framing fields. */
  lemma AcceptedResponse(c: Checks, line: StartLine, headers: seq<Field>, body: Option<bytes>, omit: bool)
    requires line.StatusLine? && ResponseError(c, line, headers, body, omit).None?
    ensures var fields := ResponseFields(line.status, headers, body, omit);
            && (100 <= line.status < 200 || line.status == 204 ==>
                  !HasHeader(fields, TRANSFER_ENCODING) && !HasHeader(fields, CONTENT_LENGTH))
            && (line.status == 205 ==>
                  && ResponseBytes(line.status, body, omit) == [] && !HasHeader(fields, TRANSFER_ENCODING)
                  && (HasHeader(headers, CONTENT_LENGTH) ==> AnnouncedLength(headers, None) == Ok(Some(0))))
            && !(HasHeader(headers, TRANSFER_ENCODING) && HasHeader(headers, CONTENT_LENGTH))
  {
    hide HasHeader, TrimOws, HeadError, AnnouncedLength, FirstValue, StatusError;
    var status := line.status;
    HeadErrorFree(c, line, headers);
    StatusForbidsExactly(status, headers, body);
    BodilessEncodingEnds(status, headers, body, omit);
    if status == 205 {
      LengthErrorFree(headers, 0, !omit || Bytes(body) != []);
      FirstIsFirst(headers, CONTENT_LENGTH);
      if HasHeader(headers, CONTENT_LENGTH) {
        AnnouncedIsFirst(headers);
        DigitNumber(0);
      }
      var added := AddsLength(status, headers, body, omit);
      HasHeaderConcat(headers, Added(body, added), TRANSFER_ENCODING);
      NoTransferEncodingAdded(body, added);
    }
  }

  lemma NoTransferEncodingAdded(body: Option<bytes>, added: bool)
    requires |Bytes(body)| <= USIZE_MAX
    ensures !HasHeader(Added(body, added), TRANSFER_ENCODING)
  {
    hide Named;
    LengthFieldSays(|Bytes(body)|);
  }

  // ---- What is accepted ----

  /** The announced length is `n` according to this field. */
  predicate Announces(f: Field, n: nat) {
    var value := TrimOws(f.value);
    Named(f, CONTENT_LENGTH) ==> value != [] && Number(value) == Some(n)
  }

  ghost predicate AllAnnounce(headers: seq<Field>, n: nat) {
    forall i :: 0 <= i < |headers| ==> Announces(headers[i], n)
  }

  lemma {:induction false} AnnouncedExactly(headers: seq<Field>, prev: Option<nat>, n: nat)
    ensures AnnouncedLength(headers, prev) == Ok(Some(n)) <==>
              && AllAnnounce(headers, n)
              && (prev == Some(n) || (prev.None? && HasHeader(headers, CONTENT_LENGTH)))
    ensures AnnouncedLength(headers, prev) == Ok(None) <==> prev.None? && !HasHeader(headers, CONTENT_LENGTH)
    decreases |headers|
  {
    hide Named, TrimOws, Number, HasHeader;
    if headers == [] {
      NoHeader(CONTENT_LENGTH);
    } else {
      HasHeaderStep(headers, CONTENT_LENGTH);
      AllAnnounceStep(headers, n);
      var next := if Named(headers[0], CONTENT_LENGTH) then Number(TrimOws(headers[0].value)) else prev;
      AnnouncedExactly(headers[1..], next, n);
    }
  }

  lemma NoHeader(name: bytes)
    ensures !HasHeader([], name)
  {
  }

  lemma AllAnnounceStep(headers: seq<Field>, n: nat)
    requires headers != []
    ensures AllAnnounce(headers, n) <==> Announces(headers[0], n) && AllAnnounce(headers[1..], n)
  {
    hide Announces;
    assert forall i :: 0 < i < |headers| ==> headers[i] == headers[1..][i - 1];
  }

  /** The first field that is not a token, ":" and text is the one that is reported. */
  lemma {:induction false} BadHeaderIsFirst(headers: seq<Field>, f: Field)
    ensures BadHeader(headers) == Some(f) <==>
            exists i :: 0 <= i < |headers| && headers[i] == f && !HeaderOk(f) && All(headers[..i], HeaderOk)
    decreases |headers|
  {
    hide HeaderOk;
    if headers != [] {
      BadHeaderIsFirst(headers[1..], f);
      if BadHeader(headers) == Some(f) {
        if HeaderOk(headers[0]) {
          var i :| 0 <= i < |headers[1..]| && headers[1..][i] == f && !HeaderOk(f) && All(headers[1..][..i], HeaderOk);
          assert headers[..i + 1] == [headers[0]] + headers[1..][..i];
          assert headers[i + 1] == f;
        } else {
          assert headers[0] == f && All(headers[..0], HeaderOk);
        }
      }
      if i :| 0 <= i < |headers| && headers[i] == f && !HeaderOk(f) && All(headers[..i], HeaderOk) {
        if i > 0 {
          assert headers[0] == headers[..i][0];
          assert headers[1..][..i - 1] == headers[..i][1..];
          assert headers[1..][i - 1] == f;
        }
      }
    }
  }

  /** A start line that can be written: its parts are not empty and hold nothing that would end them. */
  predicate Writable(c: Checks, line: StartLine) {
    match line
    case RequestLine(method_, target, version) =>
      && method_ != [] && target != [] && version != []
      && (forall b <- method_ :: IsTchar(b)) && (forall b <- target + version :: 32 < b < 127)
      && c.targetOk(line)
    case StatusLine(version, status, reason) =>
      && version != [] && (forall b <- version :: 32 < b < 127)
      && 100 <= status <= 599
      && (forall b <- reason :: b == 9 || (b >= 32 && b != 127))
  }

  ghost predicate WritableHead(c: Checks, line: StartLine, headers: seq<Field>) {
    && Writable(c, line)
    && (forall i :: 0 <= i < |headers| ==> HeaderOk(headers[i]))
    && (line.RequestLine? ==> c.hostOk(line, headers))
    && !(HasHeader(headers, TRANSFER_ENCODING) && HasHeader(headers, CONTENT_LENGTH))
  }

  lemma StartLineIsWritable(c: Checks, line: StartLine)
    ensures StartLineOk(c, line) <==> Writable(c, line)
  {
    if line.RequestLine? {
      BothVisible(line.target, line.version);
      TokenText(line.method_);
    } else {
      BothVisible(line.version, []);
      EmptyConcat(line.version);
      FieldTextCharacters(line.reason);
    }
  }

  lemma BothVisible(a: bytes, b: bytes)
    ensures All(a, IsVisible) && All(b, IsVisible) <==> forall x <- a + b :: 32 < x < 127
  {
    var s := a + b;
    if All(a, IsVisible) && All(b, IsVisible) {
      assert forall x <- s :: x in a || x in b;
    }
    if forall x <- s :: 32 < x < 127 {
      assert forall i :: 0 <= i < |a| ==> a[i] in s;
      assert forall i :: 0 <= i < |b| ==> b[i] in s;
    }
  }

  lemma TokenText(s: bytes)
    ensures All(s, IsTchar) <==> forall b <- s :: IsTchar(b)
  {
    hide IsTchar;
  }

  lemma FieldTextCharacters(s: bytes)
    ensures All(s, IsFieldVchar) <==> forall b <- s :: b == 9 || (b >= 32 && b != 127)
  {
    forall b: byte
      ensures IsFieldVchar(b) <==> b == 9 || (b >= 32 && b != 127)
    {
    }
    assert forall i :: 0 <= i < |s| ==> s[i] in s;
  }

  lemma HeadErrorExactly(c: Checks, line: StartLine, headers: seq<Field>)
    ensures HeadError(c, line, headers).None? <==> WritableHead(c, line, headers)
  {
    hide HeaderOk, StartLineOk, Writable, HasHeader;
    StartLineIsWritable(c, line);
  }

  lemma NothingAnnounced(headers: seq<Field>, n: nat)
    requires !HasHeader(headers, CONTENT_LENGTH)
    ensures AllAnnounce(headers, n)
  {
    hide Named;
  }

  /** Without a coding the announced lengths are those of the body, or at least agree. */
  lemma LengthErrorExactly(headers: seq<Field>, n: nat, validate: bool)
    requires !HasHeader(headers, TRANSFER_ENCODING)
    ensures LengthError(headers, n, validate).None? <==>
            if validate then AllAnnounce(headers, n) else exists k :: AllAnnounce(headers, k)
  {
    hide HasHeader, AllAnnounce, AnnouncedLength;
    AnnouncedExactly(headers, None, n);
    var announced := AnnouncedLength(headers, None);
    if !HasHeader(headers, CONTENT_LENGTH) {
      NothingAnnounced(headers, n);
    } else {
      if announced.Ok? {
        AnnouncedExactly(headers, None, if announced.value.Some? then announced.value.value else 0);
      }
      if k :| AllAnnounce(headers, k) {
        AnnouncedExactly(headers, None, k);
      }
    }
  }

  lemma CodedHasNoLengthError(headers: seq<Field>, n: nat, validate: bool)
    requires HasHeader(headers, TRANSFER_ENCODING)
    ensures LengthError(headers, n, validate).None?
  {
  }

  /** `encode_request` accepts a message exactly when its head can be written, it is not framed twice,
      and every length it announces is that of its body. */
  lemma RequestIsAccepted(c: Checks, line: StartLine, headers: seq<Field>, body: Option<bytes>)
    requires line.RequestLine?
    ensures RequestError(c, line, headers, body).None? <==>
            && WritableHead(c, line, headers)
            && (!HasHeader(headers, TRANSFER_ENCODING) ==> AllAnnounce(headers, |Bytes(body)|))
  {
    hide HeadError, WritableHead, HasHeader, AllAnnounce, LengthError;
    HeadErrorExactly(c, line, headers);
    if HasHeader(headers, TRANSFER_ENCODING) {
      CodedHasNoLengthError(headers, |Bytes(body)|, true);
    } else {
      LengthErrorExactly(headers, |Bytes(body)|, true);
    }
  }

  /** `encode_response` likewise, with what the status forbids; the length that an answer without body
      announces when its body is omitted need not be 0, but all that is announced agrees. */
  lemma ResponseIsAccepted(c: Checks, line: StartLine, headers: seq<Field>, body: Option<bytes>, omit: bool)
    requires line.StatusLine?
    ensures ResponseError(c, line, headers, body, omit).None? <==>
            && WritableHead(c, line, headers)
            && StatusError(line.status, headers, body).None?
            && (!(100 <= line.status < 200 || line.status == 204 || line.status == 304)
                && !HasHeader(headers, TRANSFER_ENCODING) ==>
                  if omit && Bytes(body) == [] then exists n :: AllAnnounce(headers, n)
                  else AllAnnounce(headers, |Bytes(body)|))
  {
    hide HeadError, WritableHead, HasHeader, AllAnnounce, LengthError, StatusError;
    HeadErrorExactly(c, line, headers);
    var validate := !omit || Bytes(body) != [];
    if HasHeader(headers, TRANSFER_ENCODING) {
      CodedHasNoLengthError(headers, |Bytes(body)|, validate);
    } else {
      LengthErrorExactly(headers, |Bytes(body)|, validate);
    }
  }

  // ---- A successful answer to CONNECT (section 9.3.6 of RFC 9110) ----

  lemma {:induction false} WithoutFramingOfConcat(a: seq<Field>, b: seq<Field>)
    ensures WithoutFraming(a + b) == WithoutFraming(a) + WithoutFraming(b)
    decreases |a|
  {
    hide Named;
    if a == [] {
      EmptyConcat(b);
      EmptyConcat(WithoutFraming(b));
    } else {
      WithoutFramingOfConcat(a[1..], b);
      assert (a + b)[1..] == a[1..] + b;
      var first := if Named(a[0], TRANSFER_ENCODING) || Named(a[0], CONTENT_LENGTH) then [] else [a[0]];
      ConcatAssociative(first, WithoutFraming(a[1..]), WithoutFraming(b));
    }
  }

  /** Field by field: the two framing fields go, every other field stays where it is. */
  lemma OnlyFramingGoes(a: seq<Field>, f: Field, b: seq<Field>)
    ensures WithoutFraming(a + [f] + b)
         == WithoutFraming(a)
            + (if Named(f, TRANSFER_ENCODING) || Named(f, CONTENT_LENGTH) then [] else [f]) + WithoutFraming(b)
  {
    hide Named;
    WithoutFramingOfConcat(a + [f], b);
    WithoutFramingOfConcat(a, [f]);
    assert [f][1..] == [];
    if !(Named(f, TRANSFER_ENCODING) || Named(f, CONTENT_LENGTH)) {
      EmptyConcat([f]);
    }
  }

  lemma {:induction false} NoFramingLeft(headers: seq<Field>)
    ensures !HasHeader(WithoutFraming(headers), TRANSFER_ENCODING)
    ensures !HasHeader(WithoutFraming(headers), CONTENT_LENGTH)
    decreases |headers|
  {
    hide Named;
    if headers != [] {
      NoFramingLeft(headers[1..]);
      var kept := WithoutFraming(headers);
      if kept != WithoutFraming(headers[1..]) {
        assert kept[1..] == WithoutFraming(headers[1..]);
        HasHeaderStep(kept, TRANSFER_ENCODING);
        HasHeaderStep(kept, CONTENT_LENGTH);
      }
    }
  }

  /** The head of a successful answer to CONNECT is handed out without framing fields. */
  lemma TunnelHeadHasNoFraming(r: Rules, s: MessageDecoder.State, buf: bytes)
    requires var h := MessageDecoder.DecodeHeaders(r, s, buf);
             h.r.Ok? && h.r.value.Some? && h.r.value.value.0.line.StatusLine? && h.r.value.value.1 == TunnelKind
    ensures var headers := MessageDecoder.DecodeHeaders(r, s, buf).r.value.value.0.headers;
            !HasHeader(headers, TRANSFER_ENCODING) && !HasHeader(headers, CONTENT_LENGTH)
  {
    hide HasHeader, MessageDecoder.DecodeHeaders, Kind, WithoutFraming;
    var raw := MessageStreams.HeadIsJudged(r, s, buf);
    NoFramingLeft(raw.headers);
  }
}
