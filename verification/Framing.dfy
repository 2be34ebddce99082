/** The framing fields: what Transfer-Encoding and Content-Length say about a message body
    (sections 6.1 to 6.3 of RFC 9112). */
module Framing {
  import opened Scan
  import opened BodyGrammar

  const TRANSFER_ENCODING: bytes :=
    [116, 114, 97, 110, 115, 102, 101, 114, 45, 101, 110, 99, 111, 100, 105, 110, 103]
  const CONTENT_LENGTH: bytes := [99, 111, 110, 116, 101, 110, 116, 45, 108, 101, 110, 103, 116, 104]
  const TRAILER: bytes := [116, 114, 97, 105, 108, 101, 114]
  const CHUNKED: bytes := [99, 104, 117, 110, 107, 101, 100]

  predicate NotComma(b: byte) { b != COMMA }

  /** `eq_ignore_ascii_case`, against a name written in lower case. */
  predicate Named(f: Field, name: bytes) { ToLower(f.name) == name }

  predicate HasHeader(headers: seq<Field>, name: bytes) {
    exists i :: 0 <= i < |headers| && Named(headers[i], name)
  }

  /** The elements of a list-valued field; empty ones are ignored. */
  function Elements(s: bytes): seq<bytes>
    decreases |s|
  {
    var n := Span(s, NotComma);
    var element := TrimOws(s[..n]);
    (if element == [] then [] else [element]) + (if n == |s| then [] else Elements(s[n + 1..]))
  }

  // ---- Content-Length ----

  function DecimalValue(s: bytes): nat
    requires All(s, IsDigit)
    decreases |s|
  {
    if s == [] then 0
    else
      assert All(s[..|s| - 1], IsDigit);
      10 * DecimalValue(s[..|s| - 1]) + (s[|s| - 1] - 48)
  }

  /** Digits that fit in a `u64`. */
  function Number(s: bytes): Option<nat> {
    if All(s, IsDigit) && DecimalValue(s) <= USIZE_MAX then Some(DecimalValue(s)) else None
  }

  /** What two parts of a header section say together: nothing, one length, or nonsense. */
  function Both(a: Result<Option<nat>, Error>, b: Result<Option<nat>, Error>): Result<Option<nat>, Error> {
    if a.Err? || b.Err? then Err(InvalidData)
    else if a.value.None? then b
    else if b.value.None? || a == b then a
    else Err(InvalidData)
  }

  function OneLength(element: bytes): Result<Option<nat>, Error> {
    var n := Number(element);
    if n.None? then Err(InvalidData) else Ok(n)
  }

  function Lengths(elements: seq<bytes>): Result<Option<nat>, Error>
    decreases |elements|
  {
    if elements == [] then Ok(None) else Both(OneLength(elements[0]), Lengths(elements[1..]))
  }

  /** `parse_content_length_value`: a list of equal numbers, and at least one. */
  function LengthOfField(value: bytes): Result<Option<nat>, Error> {
    var r := Lengths(Elements(value));
    if r == Ok(None) then Err(InvalidData) else r
  }

  /** `parse_content_length`. */
  function DeclaredLength(headers: seq<Field>): Result<Option<nat>, Error>
    decreases |headers|
  {
    if headers == [] then Ok(None)
    else Both(if Named(headers[0], CONTENT_LENGTH) then LengthOfField(headers[0].value) else Ok(None),
              DeclaredLength(headers[1..]))
  }

  lemma BothAssociative(a: Result<Option<nat>, Error>, b: Result<Option<nat>, Error>, c: Result<Option<nat>, Error>)
    requires IsLength(a) && IsLength(b) && IsLength(c)
    ensures Both(Both(a, b), c) == Both(a, Both(b, c)) && IsLength(Both(a, b))
  {
  }

  /** There is one error. */
  predicate IsLength(a: Result<Option<nat>, Error>) { a.Err? ==> a.error == InvalidData }

  lemma {:induction false} LengthsIsLength(elements: seq<bytes>)
    ensures IsLength(Lengths(elements))
  {
  }

  lemma {:induction false} ContentLengthIsLength(headers: seq<Field>)
    ensures IsLength(DeclaredLength(headers))
  {
  }

  method ParseContentLengthValue(value: bytes) returns (r: Result<Option<nat>, Error>)
    ensures r == LengthOfField(value)
  {
    hide Number, Elements;
    var elements := Elements(value);
    r := Ok(None);
    assert elements[0..] == elements;
    LengthsIsLength(elements);
    for i := 0 to |elements|
      invariant r.Ok? && Both(r, Lengths(elements[i..])) == Lengths(elements)
    {
      DropTwice(elements, i, 1);
      LengthsIsLength(elements[i + 1..]);
      BothAssociative(r, OneLength(elements[i]), Lengths(elements[i + 1..]));
      var n := Number(elements[i]);
      if n.None? {
        return Err(InvalidData);
      }
      if r.value.Some? && r.value != n {
        return Err(InvalidData);
      }
      r := Ok(n);
    }
    assert elements[|elements|..] == [];
    if r == Ok(None) {
      r := Err(InvalidData);
    }
  }

  method ParseContentLength(headers: seq<Field>) returns (r: Result<Option<nat>, Error>)
    ensures r == DeclaredLength(headers)
  {
    hide LengthOfField, Named;
    r := Ok(None);
    assert headers[0..] == headers;
    ContentLengthIsLength(headers);
    for i := 0 to |headers|
      invariant r.Ok? && Both(r, DeclaredLength(headers[i..])) == DeclaredLength(headers)
    {
      DropTwice(headers, i, 1);
      ContentLengthIsLength(headers[i + 1..]);
      if Named(headers[i], CONTENT_LENGTH) {
        var parsed := ParseContentLengthValue(headers[i].value);
        FieldIsLength(headers[i].value);
        BothAssociative(r, parsed, DeclaredLength(headers[i + 1..]));
        if parsed.Err? {
          return Err(InvalidData);
        }
        if r.value.Some? && r != parsed {
          return Err(InvalidData);
        }
        r := parsed;
      }
    }
    assert headers[|headers|..] == [];
  }

  lemma FieldIsLength(value: bytes)
    ensures IsLength(LengthOfField(value)) && LengthOfField(value) != Ok(None)
  {
    LengthsIsLength(Elements(value));
  }

  /** Every element of every Content-Length field is the number `n`. */
  ghost predicate AllSay(headers: seq<Field>, n: nat) {
    forall i :: 0 <= i < |headers| && Named(headers[i], CONTENT_LENGTH) ==> FieldSays(headers[i].value, n)
  }

  ghost predicate FieldSays(value: bytes, n: nat) {
    Elements(value) != [] && forall k :: 0 <= k < |Elements(value)| ==> Number(Elements(value)[k]) == Some(n)
  }

  lemma {:induction false} LengthsSay(elements: seq<bytes>, n: nat)
    ensures Lengths(elements) == Ok(Some(n)) || (elements == [] && Lengths(elements) == Ok(None))
       <==> forall k :: 0 <= k < |elements| ==> Number(elements[k]) == Some(n)
    decreases |elements|
  {
    hide Number;
    if elements != [] {
      LengthsSay(elements[1..], n);
      LengthsOfNone(elements[1..]);
      assert elements == [elements[0]] + elements[1..];
    }
  }

  lemma LengthsOfNone(elements: seq<bytes>)
    ensures Lengths(elements) == Ok(None) <==> elements == []
  {
  }

  /** The length is `n` exactly when there is such a field and all that is said about the length
      agrees on `n`; without such a field there is none; anything else is refused. */
  lemma {:induction false} ContentLengthIsUnanimous(headers: seq<Field>, n: nat)
    ensures DeclaredLength(headers) == Ok(Some(n)) <==> HasHeader(headers, CONTENT_LENGTH) && AllSay(headers, n)
    ensures DeclaredLength(headers) == Ok(None) <==> !HasHeader(headers, CONTENT_LENGTH)
    decreases |headers|
  {
    hide Elements, Number, Named;
    if headers != [] {
      var f := headers[0];
      ContentLengthIsUnanimous(headers[1..], n);
      LengthsSay(Elements(f.value), n);
      FieldIsLength(f.value);
      LengthsOfNone(Elements(f.value));
      ContentLengthIsLength(headers[1..]);
      HasHeaderStep(headers, CONTENT_LENGTH);
      assert forall i :: 0 <= i < |headers[1..]| ==> headers[1..][i] == headers[i + 1];
      assert AllSay(headers, n) <==>
        (Named(f, CONTENT_LENGTH) ==> FieldSays(f.value, n)) && AllSay(headers[1..], n) by {
        if AllSay(headers[1..], n) {
          forall i | 0 < i < |headers| && Named(headers[i], CONTENT_LENGTH)
            ensures FieldSays(headers[i].value, n)
          {
            assert headers[i] == headers[1..][i - 1];
          }
        }
      }
    }
  }

  /** A length that was accepted is the one that is said. */
  lemma DeclaredIsSaid(headers: seq<Field>)
    ensures var d := DeclaredLength(headers);
            d.Ok? && d.value.Some? ==> HasHeader(headers, CONTENT_LENGTH) && AllSay(headers, d.value.value)
  {
    hide DeclaredLength, HasHeader, AllSay;
    var d := DeclaredLength(headers);
    if d.Ok? && d.value.Some? {
      ContentLengthIsUnanimous(headers, d.value.value);
    }
  }

  lemma HasHeaderStep(headers: seq<Field>, name: bytes)
    requires headers != []
    ensures HasHeader(headers, name) <==> Named(headers[0], name) || HasHeader(headers[1..], name)
  {
    hide Named;
    if HasHeader(headers, name) {
      var i :| 0 <= i < |headers| && Named(headers[i], name);
      if i > 0 {
        assert headers[1..][i - 1] == headers[i];
      }
    }
  }

  // ---- Transfer-Encoding ----

  datatype Coding = IsChunked | IsOther

  /** One transfer coding: a token, of which only "chunked" is special and takes no parameters. */
  function ParseCoding(element: bytes): Result<Coding, Error> {
    var base := TrimOws(element[..Span(element, NotSemi)]);
    if base == [] || !All(base, IsTchar) then Err(InvalidData)
    else if ToLower(base) != CHUNKED then Ok(IsOther)
    else if Span(element, NotSemi) < |element| then Err(InvalidData)
    else Ok(IsChunked)
  }

  /** All codings named by the fields, in order, or an error. */
  function Codings(elements: seq<bytes>): Result<seq<Coding>, Error>
    decreases |elements|
  {
    if elements == [] then Ok([])
    else
      var first, rest := ParseCoding(elements[0]), Codings(elements[1..]);
      if first.Err? || rest.Err? then Err(InvalidData) else Ok([first.value] + rest.value)
  }

  /** The elements of all fields with a name. */
  function FieldElements(headers: seq<Field>, name: bytes): seq<bytes>
    decreases |headers|
  {
    if headers == [] then []
    else (if Named(headers[0], name) then Elements(headers[0].value) else []) + FieldElements(headers[1..], name)
  }

  lemma {:induction false} CodingsThen(a: seq<bytes>, b: seq<bytes>)
    ensures Codings(a + b)
         == if Codings(a).Err? || Codings(b).Err? then Err(InvalidData) else Ok(Codings(a).value + Codings(b).value)
    decreases |a|
  {
    hide ParseCoding;
    if a == [] {
      EmptyConcat(b);
      CodingsErr(b);
      if Codings(b).Ok? {
        EmptyConcat(Codings(b).value);
      }
    } else {
      CodingsThen(a[1..], b);
      assert (a + b)[1..] == a[1..] + b;
      if Codings(a).Ok? && Codings(b).Ok? {
        ConcatAssociative([ParseCoding(a[0]).value], Codings(a[1..]).value, Codings(b).value);
      }
    }
  }

  lemma CodingsErr(a: seq<bytes>)
    ensures Codings(a).Err? ==> Codings(a).error == InvalidData
  {
  }

  method ParseCodings(headers: seq<Field>) returns (r: Result<seq<Coding>, Error>)
    ensures r == Codings(FieldElements(headers, TRANSFER_ENCODING))
  {
    hide ParseCoding, Elements, Named, FieldElements;
    var all: seq<Coding> := [];
    ghost var done: seq<bytes> := [];
    FieldElementsFrom(headers, TRANSFER_ENCODING);
    EmptyConcat(FieldElements(headers, TRANSFER_ENCODING));
    for i := 0 to |headers|
      invariant Codings(done) == Ok(all)
      invariant done + FieldElements(headers[i..], TRANSFER_ENCODING) == FieldElements(headers, TRANSFER_ENCODING)
    {
      FieldElementsAt(headers, i, TRANSFER_ENCODING);
      if Named(headers[i], TRANSFER_ENCODING) {
        var elements := Elements(headers[i].value);
        var rest := FieldElements(headers[i + 1..], TRANSFER_ENCODING);
        ConcatAssociative(done, elements, rest);
        CodingsThen(done + elements, rest);
        CodingsThen(done, elements);
        var more := ParseElements(elements);
        if more.Err? {
          return Err(InvalidData);
        }
        all := all + more.value;
        done := done + elements;
      }
    }
    assert headers[|headers|..] == [];
    NoFieldElements(TRANSFER_ENCODING);
    EmptyConcat(done);
    r := Ok(all);
  }

  lemma FieldElementsFrom(headers: seq<Field>, name: bytes)
    ensures FieldElements(headers[0..], name) == FieldElements(headers, name)
  {
    assert headers[0..] == headers;
  }

  lemma FieldElementsAt(headers: seq<Field>, i: nat, name: bytes)
    requires i < |headers|
    ensures FieldElements(headers[i..], name)
         == (if Named(headers[i], name) then Elements(headers[i].value) else []) + FieldElements(headers[i + 1..], name)
    ensures !Named(headers[i], name) ==> FieldElements(headers[i..], name) == FieldElements(headers[i + 1..], name)
  {
    hide Named, Elements;
    DropTwice(headers, i, 1);
    EmptyConcat(FieldElements(headers[i + 1..], name));
  }

  lemma NoFieldElements(name: bytes)
    ensures FieldElements([], name) == []
  {
  }

  method ParseElements(elements: seq<bytes>) returns (r: Result<seq<Coding>, Error>)
    ensures r == Codings(elements)
  {
    hide ParseCoding;
    var all: seq<Coding> := [];
    for i := 0 to |elements|
      invariant Codings(elements[..i]) == Ok(all)
    {
      assert elements[..i] + elements[i..] == elements;
      CodingsThen(elements[..i], elements[i..]);
      assert elements[i..][0] == elements[i];
      var coding := ParseCoding(elements[i]);
      if coding.Err? {
        return Err(InvalidData);
      }
      OneCoding(elements[i]);
      CodingsThen(elements[..i], [elements[i]]);
      assert elements[..i + 1] == elements[..i] + [elements[i]];
      all := all + [coding.value];
    }
    assert elements[..|elements|] == elements;
    r := Ok(all);
  }

  lemma OneCoding(element: bytes)
    ensures Codings([element])
            == if ParseCoding(element).Err? then Err(InvalidData) else Ok([ParseCoding(element).value])
  {
    assert [element][1..] == [];
    if ParseCoding(element).Ok? {
      EmptyConcat([ParseCoding(element).value]);
    }
  }

  function CountChunked(codings: seq<Coding>): nat
    decreases |codings|
  {
    if codings == [] then 0 else (if codings[0].IsChunked? then 1 else 0) + CountChunked(codings[1..])
  }

  /** `parse_transfer_encoding_for_request`: nothing but one "chunked". */
  function ChunkedRequest(headers: seq<Field>): Result<bool, Error> {
    var codings := Codings(FieldElements(headers, TRANSFER_ENCODING));
    if codings.Err? || IsOther in codings.value || |codings.value| > 1 then Err(InvalidData)
    else Ok(|codings.value| == 1)
  }

  datatype ResponseCoding = NoCoding | ChunkedLast | OtherLast

  /** `parse_transfer_encoding_for_response`: what matters is the last coding. */
  function ResponseCodings(headers: seq<Field>): Result<ResponseCoding, Error> {
    var codings := Codings(FieldElements(headers, TRANSFER_ENCODING));
    if codings.Err? || CountChunked(codings.value) > 1 then Err(InvalidData)
    else if codings.value == [] then Ok(NoCoding)
    else if codings.value[|codings.value| - 1].IsChunked? then Ok(ChunkedLast)
    else Ok(OtherLast)
  }

  lemma {:induction false} TrimTwice(s: bytes)
    ensures TrimOws(TrimOws(s)) == TrimOws(s)
    ensures TrimOws(s) != [] ==> !IsBws(TrimOws(s)[0]) && !IsBws(TrimOws(s)[|TrimOws(s)| - 1])
    decreases |s|
  {
    if s != [] && IsBws(s[0]) {
      TrimTwice(s[1..]);
    } else if s != [] && IsBws(s[|s| - 1]) {
      TrimTwice(s[..|s| - 1]);
    }
  }

  /** Not empty, and no white space around it. */
  predicate IsTrimmed(e: bytes) { e != [] && TrimOws(e) == e }

  lemma AllConcat<T>(a: seq<T>, b: seq<T>, p: T -> bool)
    requires All(a, p) && All(b, p)
    ensures All(a + b, p)
  {
  }

  lemma {:induction false} ElementsAreTrimmed(s: bytes)
    ensures All(Elements(s), IsTrimmed)
    decreases |s|
  {
    hide IsTrimmed, Elements, TrimOws;
    ElementsOnce(s);
    var n := Span(s, NotComma);
    var element := TrimOws(s[..n]);
    TrimmedOrNothing(s[..n]);
    if n < |s| {
      ElementsAreTrimmed(s[n + 1..]);
      AllConcat(if element == [] then [] else [element], Elements(s[n + 1..]), IsTrimmed);
    } else {
      EmptyConcat(if element == [] then [] else [element]);
    }
  }

  lemma ElementsOnce(s: bytes)
    ensures var n := Span(s, NotComma);
            var element := TrimOws(s[..n]);
            Elements(s) == (if element == [] then [] else [element]) + (if n == |s| then [] else Elements(s[n + 1..]))
  {
  }

  lemma TrimmedOrNothing(s: bytes)
    ensures TrimOws(s) == [] || IsTrimmed(TrimOws(s))
  {
    hide TrimOws;
    TrimTwice(s);
  }

  lemma {:induction false} FieldElementsAreTrimmed(headers: seq<Field>, name: bytes)
    ensures All(FieldElements(headers, name), IsTrimmed)
    decreases |headers|
  {
    hide IsTrimmed, Elements, Named;
    if headers != [] {
      var f := headers[0];
      ElementsAreTrimmed(f.value);
      FieldElementsAreTrimmed(headers[1..], name);
      AllConcat(if Named(f, name) then Elements(f.value) else [], FieldElements(headers[1..], name), IsTrimmed);
    }
  }

  lemma ChunkedIsLiteral(e: bytes)
    requires IsTrimmed(e)
    ensures ParseCoding(e) == Ok(IsChunked) <==> ToLower(e) == CHUNKED
  {
    hide TrimOws;
    var n := Span(e, NotSemi);
    if n == |e| {
      assert e[..n] == e;
      if ToLower(e) == CHUNKED {
        ChunkedIsToken(e);
      }
    } else if ToLower(e) == CHUNKED {
      ChunkedIsToken(e);
    }
  }

  lemma ChunkedIsToken(e: bytes)
    requires ToLower(e) == CHUNKED
    ensures All(e, IsTchar)
  {
    forall i | 0 <= i < |e|
      ensures IsTchar(e[i])
    {
      assert ToLower(e)[i] == CHUNKED[i];
      assert IsAlpha(e[i]);
    }
  }

  predicate OneChunked(headers: seq<Field>) {
    var elements := FieldElements(headers, TRANSFER_ENCODING);
    |elements| == 1 && ToLower(elements[0]) == CHUNKED
  }

  /** A request is chunked exactly when all its Transfer-Encoding fields together name one coding,
      and that is "chunked" without parameters. */
  lemma RequestIsChunked(headers: seq<Field>)
    ensures ChunkedRequest(headers) == Ok(true) <==> OneChunked(headers)
    ensures ChunkedRequest(headers) == Ok(false) <==> FieldElements(headers, TRANSFER_ENCODING) == []
  {
    hide ParseCoding, FieldElements, ToLower, TrimOws;
    var elements := FieldElements(headers, TRANSFER_ENCODING);
    FieldElementsAreTrimmed(headers, TRANSFER_ENCODING);
    CodingsLength(elements);
    if |elements| == 1 {
      assert elements == [elements[0]];
      OneCoding(elements[0]);
      ChunkedIsLiteral(elements[0]);
      if Codings(elements).Ok? {
        OneIsAll(Codings(elements).value);
      }
    }
  }

  lemma OneIsAll(codings: seq<Coding>)
    requires |codings| == 1
    ensures IsOther in codings <==> codings[0] == IsOther
  {
  }

  lemma {:induction false} CodingsLength(elements: seq<bytes>)
    ensures Codings(elements).Ok? ==> |Codings(elements).value| == |elements|
    decreases |elements|
  {
    hide ParseCoding;
    if elements != [] {
      CodingsLength(elements[1..]);
    }
  }

  lemma {:induction false} CodingsAt(elements: seq<bytes>)
    ensures Codings(elements).Ok? <==> forall i :: 0 <= i < |elements| ==> ParseCoding(elements[i]).Ok?
    ensures Codings(elements).Ok? ==>
              |Codings(elements).value| == |elements|
              && forall i :: 0 <= i < |elements| ==> Codings(elements).value[i] == ParseCoding(elements[i]).value
    decreases |elements|
  {
    hide ParseCoding;
    if elements != [] {
      CodingsAt(elements[1..]);
      assert forall i :: 0 < i < |elements| ==> elements[i] == elements[1..][i - 1];
    }
  }

  /** "chunked" stands in at most one place. */
  ghost predicate ChunkedOnce(codings: seq<Coding>) {
    forall i, j :: 0 <= i < j < |codings| ==> !(codings[i].IsChunked? && codings[j].IsChunked?)
  }

  lemma {:induction false} CountedOnce(codings: seq<Coding>)
    ensures CountChunked(codings) == 0 <==> forall i :: 0 <= i < |codings| ==> !codings[i].IsChunked?
    ensures CountChunked(codings) <= 1 <==> ChunkedOnce(codings)
    decreases |codings|
  {
    if codings != [] {
      CountedOnce(codings[1..]);
      assert codings == [codings[0]] + codings[1..];
      assert forall i :: 0 < i < |codings| ==> codings[i] == codings[1..][i - 1];
    }
  }

  /** A coding other than "chunked", with or without parameters. */
  predicate OtherCoding(element: bytes) {
    var base := TrimOws(element[..Span(element, NotSemi)]);
    base != [] && All(base, IsTchar) && ToLower(base) != CHUNKED
  }

  predicate LiteralChunked(element: bytes) { ToLower(element) == CHUNKED }

  /** The last coding is "chunked", and all in front of it are others. */
  ghost predicate EndsInChunked(headers: seq<Field>) {
    var elements := FieldElements(headers, TRANSFER_ENCODING);
    && elements != [] && LiteralChunked(elements[|elements| - 1])
    && forall i :: 0 <= i < |elements| - 1 ==> OtherCoding(elements[i])
  }

  /** The last coding is another, and "chunked" stands in front of it at most once. */
  ghost predicate EndsInOther(headers: seq<Field>) {
    var elements := FieldElements(headers, TRANSFER_ENCODING);
    && elements != [] && OtherCoding(elements[|elements| - 1])
    && (forall i :: 0 <= i < |elements| ==> OtherCoding(elements[i]) || LiteralChunked(elements[i]))
    && forall i, j :: 0 <= i < j < |elements| ==> !(LiteralChunked(elements[i]) && LiteralChunked(elements[j]))
  }

  /** The code's verdict on one coding is what the text says. */
  predicate Judged(element: bytes) {
    var coding := ParseCoding(element);
    && (coding.Ok? <==> OtherCoding(element) || LiteralChunked(element))
    && (coding.Ok? ==> (coding.value.IsOther? <==> OtherCoding(element)))
    && (coding.Ok? ==> (coding.value.IsChunked? <==> LiteralChunked(element)))
  }

  lemma CodingIs(element: bytes)
    requires IsTrimmed(element)
    ensures Judged(element)
  {
    hide TrimOws, ToLower;
    ChunkedIsLiteral(element);
  }

  lemma CodingsAre(headers: seq<Field>)
    ensures All(FieldElements(headers, TRANSFER_ENCODING), Judged)
  {
    hide IsTrimmed, Judged;
    var elements := FieldElements(headers, TRANSFER_ENCODING);
    FieldElementsAreTrimmed(headers, TRANSFER_ENCODING);
    forall i | 0 <= i < |elements|
      ensures Judged(elements[i])
    {
      CodingIs(elements[i]);
    }
  }

  lemma OnceAtTheEnd(codings: seq<Coding>)
    requires codings != [] && codings[|codings| - 1].IsChunked?
    ensures ChunkedOnce(codings) <==> forall i :: 0 <= i < |codings| - 1 ==> codings[i].IsOther?
  {
    var last := |codings| - 1;
    assert ChunkedOnce(codings) ==> forall i :: 0 <= i < last ==> !(codings[i].IsChunked? && codings[last].IsChunked?);
  }

  /** A response is chunked exactly when its Transfer-Encoding fields together name codings of
      which the last, and only the last, is "chunked", without parameters. */
  lemma ResponseIsChunked(headers: seq<Field>)
    ensures ResponseCodings(headers) == Ok(ChunkedLast) <==> EndsInChunked(headers)
    ensures ResponseCodings(headers) == Ok(OtherLast) <==> EndsInOther(headers)
    ensures ResponseCodings(headers) == Ok(NoCoding) <==> FieldElements(headers, TRANSFER_ENCODING) == []
  {
    hide ParseCoding, FieldElements, CountChunked, Codings, OtherCoding, LiteralChunked;
    var elements := FieldElements(headers, TRANSFER_ENCODING);
    CodingsAt(elements);
    CodingsAre(headers);
    assert EndsInChunked(headers) || EndsInOther(headers) ==>
      forall i :: 0 <= i < |elements| ==> OtherCoding(elements[i]) || LiteralChunked(elements[i]);
    assert EndsInChunked(headers) || EndsInOther(headers) ==>
      forall i :: 0 <= i < |elements| ==> ParseCoding(elements[i]).Ok?;
    if Codings(elements).Ok? {
      var codings := Codings(elements).value;
      CountedOnce(codings);
      assert forall i :: 0 <= i < |elements| ==> (codings[i].IsOther? <==> OtherCoding(elements[i]));
      assert forall i :: 0 <= i < |elements| ==> (codings[i].IsChunked? <==> LiteralChunked(elements[i]));
      if codings != [] && codings[|codings| - 1].IsChunked? {
        OnceAtTheEnd(codings);
      }
    }
  }

  // ---- Trailer ----

  function LowerAll(names: seq<bytes>): seq<bytes> {
    seq(|names|, i requires 0 <= i < |names| => ToLower(names[i]))
  }

  /** The names of trailers that a head declares. */
  function Declared(headers: seq<Field>): seq<bytes> {
    LowerAll(FieldElements(headers, TRAILER))
  }

  /** `collect_declared_trailers`. */
  method CollectDeclaredTrailers(headers: seq<Field>) returns (declared: seq<bytes>)
    ensures declared == Declared(headers)
  {
    hide Elements, Named, FieldElements, ToLower;
    declared := [];
    FieldElementsFrom(headers, TRAILER);
    EmptyConcat(Declared(headers));
    for i := 0 to |headers|
      invariant declared + LowerAll(FieldElements(headers[i..], TRAILER)) == Declared(headers)
    {
      FieldElementsAt(headers, i, TRAILER);
      if !Named(headers[i], TRAILER) {
        continue;
      }
      var names := Elements(headers[i].value);
      var rest := FieldElements(headers[i + 1..], TRAILER);
      LowerConcat(names, rest);
      ConcatAssociative(declared, LowerAll(names), LowerAll(rest));
      ghost var before := declared;
      for k := 0 to |names|
        invariant declared == before + LowerAll(names)[..k]
      {
        declared := declared + [ToLower(names[k])];
        LowerStep(names, k);
        ConcatAssociative(before, LowerAll(names)[..k], [ToLower(names[k])]);
      }
      assert LowerAll(names)[..|names|] == LowerAll(names);
    }
    assert headers[|headers|..] == [];
    NoFieldElements(TRAILER);
    EmptyConcat(declared);
  }

  lemma LowerConcat(a: seq<bytes>, b: seq<bytes>)
    ensures LowerAll(a + b) == LowerAll(a) + LowerAll(b)
  {
  }

  lemma LowerStep(names: seq<bytes>, k: nat)
    requires k < |names|
    ensures LowerAll(names)[..k + 1] == LowerAll(names)[..k] + [ToLower(names[k])]
  {
  }

  /** A trailer line is accepted exactly when it is a field line, the field is not banned from
      trailers, and a Trailer field of the head names it, in any case of letters. */
  lemma TrailerIsDeclared(c: Config, headers: seq<Field>, line: bytes)
    ensures ParseTrailer(c, Declared(headers), line).Ok? <==>
              var f := ParseHeaderLine(line);
              f.Ok? && !c.prohibited(f.value.name)
              && exists e :: e in FieldElements(headers, TRAILER) && ToLower(e) == ToLower(f.value.name)
  {
    hide ParseHeaderLine, FieldElements, ToLower;
    var f := ParseHeaderLine(line);
    if f.Ok? {
      LowerMember(FieldElements(headers, TRAILER), ToLower(f.value.name));
    }
  }

  lemma LowerMember(names: seq<bytes>, name: bytes)
    ensures name in LowerAll(names) <==> exists e :: e in names && ToLower(e) == name
  {
    hide ToLower;
    if name in LowerAll(names) {
      var i :| 0 <= i < |names| && LowerAll(names)[i] == name;
      assert names[i] in names;
    }
    if e :| e in names && ToLower(e) == name {
      var i :| 0 <= i < |names| && names[i] == e;
      assert LowerAll(names)[i] == name;
    }
  }

  // ---- Together ----

  /** Whether the body is chunked, and its length otherwise. */
  datatype Frame = Frame(chunked: bool, length: Option<nat>)

  /** `resolve_body_headers_for_request`. */
  function RequestFrame(headers: seq<Field>): (r: Result<Frame, Error>)
    ensures r.Ok? && r.value.chunked ==> r.value.length == None
  {
    var chunked, length := ChunkedRequest(headers), DeclaredLength(headers);
    if chunked.Err? || length.Err? || (chunked.value && length.value.Some?) then Err(InvalidData)
    else Ok(Frame(chunked.value, length.value))
  }

  /** `resolve_body_headers_for_response`. */
  function ResponseFrame(headers: seq<Field>): Result<(ResponseCoding, Option<nat>), Error> {
    var coding, length := ResponseCodings(headers), DeclaredLength(headers);
    if coding.Err? || length.Err? || (coding.value != NoCoding && length.value.Some?) then Err(InvalidData)
    else Ok((coding.value, length.value))
  }

  method ResolveRequest(headers: seq<Field>) returns (r: Result<Frame, Error>)
    ensures r == RequestFrame(headers)
  {
    hide Codings, FieldElements, DeclaredLength;
    var codings := ParseCodings(headers);
    if codings.Err? || IsOther in codings.value || |codings.value| > 1 {
      return Err(InvalidData);
    }
    var length := ParseContentLength(headers);
    if length.Err? || (|codings.value| == 1 && length.value.Some?) {
      return Err(InvalidData);
    }
    r := Ok(Frame(|codings.value| == 1, length.value));
  }

  method ResolveResponse(headers: seq<Field>) returns (r: Result<(ResponseCoding, Option<nat>), Error>)
    ensures r == ResponseFrame(headers)
  {
    hide Codings, FieldElements, DeclaredLength, CountChunked;
    var codings := ParseCodings(headers);
    if codings.Err? || CountChunked(codings.value) > 1 {
      return Err(InvalidData);
    }
    var coding :=
      if codings.value == [] then NoCoding
      else if codings.value[|codings.value| - 1].IsChunked? then ChunkedLast
      else OtherLast;
    var length := ParseContentLength(headers);
    if length.Err? || (coding != NoCoding && length.value.Some?) {
      return Err(InvalidData);
    }
    r := Ok((coding, length.value));
  }

  /** "Transfer-Encoding: ," beside a Content-Length of one digit. */
  lemma EmptyCoding(value: bytes, n: nat)
    requires Elements(value) == [[48 + n]] && n < 10
    ensures var headers := [Field(TRANSFER_ENCODING, [COMMA]), Field(CONTENT_LENGTH, value)];
            && FieldElements(headers, TRANSFER_ENCODING) == [] && HasHeader(headers, CONTENT_LENGTH)
            && AllSay(headers, n)
  {
    hide Elements;
    var headers := [Field(TRANSFER_ENCODING, [COMMA]), Field(CONTENT_LENGTH, value)];
    FramingNames();
    NoElements();
    FieldElementsFrom(headers, TRANSFER_ENCODING);
    FieldElementsAt(headers, 0, TRANSFER_ENCODING);
    FieldElementsAt(headers, 1, TRANSFER_ENCODING);
    NoFieldElements(TRANSFER_ENCODING);
    assert headers[2..] == [];
    assert Named(headers[1], CONTENT_LENGTH);
    DigitNumber(n);
  }

  lemma DigitNumber(n: nat)
    requires n < 10
    ensures Number([48 + n]) == Some(n)
  {
    var digit: bytes := [48 + n];
    var none: bytes := [];
    assert All(digit, IsDigit) && digit[..|digit| - 1] == none && DecimalValue(none) == 0;
    assert DecimalValue(digit) == n;
  }

  lemma FramingNames()
    ensures ToLower(TRANSFER_ENCODING) == TRANSFER_ENCODING && ToLower(CONTENT_LENGTH) == CONTENT_LENGTH
    ensures TRANSFER_ENCODING != CONTENT_LENGTH
  {
  }

  lemma NoElements()
    ensures Elements([COMMA]) == []
  {
    ElementsOnce([COMMA]);
    ElementsOnce([]);
    assert Span([COMMA], NotComma) == 0 && [COMMA][..0] == [] && [COMMA][1..] == [];
  }
}
