/** The lines of a message head: which texts they are read from. */
module HeadLines {
  import opened Scan
  import opened BodyGrammar
  import opened MessageGrammar
  import opened Encoder
  import Framing

  // ---- White space around a value ----

  predicate Trimmed(s: bytes) {
    s == [] || (!IsBws(s[0]) && !IsBws(s[|s| - 1]))
  }

  lemma {:induction false} TrimIs(before: bytes, value: bytes, after: bytes)
    requires All(before, IsBws) && All(after, IsBws) && Trimmed(value)
    ensures TrimOws(before + value + after) == value
    decreases |before| + |after|
  {
    var s := before + value + after;
    if before != [] {
      assert s[0] == before[0] && s[1..] == before[1..] + value + after;
      TrimIs(before[1..], value, after);
    } else if after != [] {
      assert s[|s| - 1] == after[|after| - 1];
      if value == [] {
        assert s[0] == after[0] && s[1..] == before + value + after[1..];
        TrimIs(before, value, after[1..]);
      } else {
        assert s[0] == value[0] && s[..|s| - 1] == before + value + after[..|after| - 1];
        TrimIs(before, value, after[..|after| - 1]);
      }
    } else {
      assert s == value;
    }
  }

  lemma {:induction false} TrimCuts(s: bytes) returns (before: bytes, after: bytes)
    ensures All(before, IsBws) && All(after, IsBws) && Trimmed(TrimOws(s))
    ensures s == before + TrimOws(s) + after
    decreases |s|
  {
    hide TrimOws;
    TrimOnce(s);
    before, after := [], [];
    if s != [] && IsBws(s[0]) {
      before, after := TrimCuts(s[1..]);
      HeadSplit(s);
      AssociateFour([s[0]], before, TrimOws(s), after);
      before := [s[0]] + before;
    } else if s != [] && IsBws(s[|s| - 1]) {
      before, after := TrimCuts(s[..|s| - 1]);
      ConcatAssociative(before + TrimOws(s), after, [s[|s| - 1]]);
      CutAt(s, |s| - 1);
      after := after + [s[|s| - 1]];
    } else {
      EmptyConcat(s);
    }
  }

  lemma TrimOnce(s: bytes)
    ensures TrimOws(s)
         == if s != [] && IsBws(s[0]) then TrimOws(s[1..])
            else if s != [] && IsBws(s[|s| - 1]) then TrimOws(s[..|s| - 1])
            else s
  {
  }

  lemma AssociateFour(a: bytes, b: bytes, c: bytes, d: bytes)
    ensures a + (b + c + d) == a + b + c + d
  {
    ConcatAssociative(a, b + c, d);
    ConcatAssociative(a, b, c);
  }

  // ---- Field lines ----

  ghost predicate IsFieldLine(line: bytes, f: Field) {
    && f.name != [] && All(f.name, IsTchar) && All(f.value, IsFieldVchar) && Trimmed(f.value)
    && exists before, after :: SurroundedBy(line, f, before, after)
  }

  predicate SurroundedBy(line: bytes, f: Field, before: bytes, after: bytes) {
    All(before, IsBws) && All(after, IsBws) && line == f.name + ([COLON] + (before + f.value + after))
  }

  /** A line is a field line exactly when it is a token, ":", and characters of text, with white space
      around the value only; it is read as that name and that value. */
  lemma HeaderLineExactly(line: bytes, f: Field)
    ensures ParseHeaderLine(line) == Ok(f) <==> IsFieldLine(line, f)
    ensures ParseHeaderLine(line).Err? ==> ParseHeaderLine(line).error == InvalidData
  {
    hide TrimOws;
    if ParseHeaderLine(line) == Ok(f) {
      var colon := Span(line, NotColon);
      var before, after := TrimCuts(line[colon + 1..]);
      assert line == line[..colon] + ([COLON] + line[colon + 1..]);
      assert SurroundedBy(line, f, before, after);
    }
    if IsFieldLine(line, f) {
      var before, after :| SurroundedBy(line, f, before, after);
      FieldLineIsRead(line, f, before, after);
    }
  }

  lemma FieldLineIsRead(line: bytes, f: Field, before: bytes, after: bytes)
    requires IsFieldLine(line, f) && SurroundedBy(line, f, before, after)
    ensures ParseHeaderLine(line) == Ok(f)
  {
    hide TrimOws;
    var rest := before + f.value + after;
    TrimIs(before, f.value, after);
    SpanOfSplit(f.name, [COLON] + rest, NotColon);
    assert line[..|f.name|] == f.name && line[|f.name| + 1..] == rest;
    assert line[0] == f.name[0];
    NoLineEnd(f.name, rest);
    TextHasNoLineEnd(before, f.value, after);
  }

  lemma TextHasNoLineEnd(before: bytes, value: bytes, after: bytes)
    requires All(before, IsBws) && All(after, IsBws) && All(value, IsFieldVchar)
    ensures var s := before + value + after; CR !in s && LF !in s
  {
  }

  lemma NoLineEnd(name: bytes, rest: bytes)
    requires All(name, IsTchar)
    ensures var s := name + ([COLON] + rest);
            (CR in s <==> CR in rest) && (LF in s <==> LF in rest)
  {
    assert CR !in name && LF !in name;
  }

  // ---- Lists ----

  /** The elements of a list are those in front of a comma and those behind it... */
  lemma {:induction false} ElementsOfList(a: bytes, b: bytes)
    ensures Framing.Elements(a + [COMMA] + b) == Framing.Elements(a) + Framing.Elements(b)
    decreases |a|
  {
    hide TrimOws, Framing.Elements;
    var s, n := a + [COMMA] + b, Span(a, Framing.NotComma);
    Framing.ElementsOnce(s);
    Framing.ElementsOnce(a);
    assert s == a[..n] + (a[n..] + ([COMMA] + b));
    SpanOfSplit(a[..n], a[n..] + ([COMMA] + b), Framing.NotComma);
    assert s[..n] == a[..n];
    var first := if TrimOws(a[..n]) == [] then [] else [TrimOws(a[..n])];
    if n < |a| {
      ElementsOfList(a[n + 1..], b);
      assert s[n + 1..] == a[n + 1..] + [COMMA] + b;
      ConcatAssociative(first, Framing.Elements(a[n + 1..]), Framing.Elements(b));
    } else {
      assert s[n + 1..] == b;
      EmptyConcat(first);
    }
  }

  /** ... and a text without comma is one element, without the white space around it, or none. */
  lemma OneElement(s: bytes)
    requires COMMA !in s
    ensures Framing.Elements(s) == if TrimOws(s) == [] then [] else [TrimOws(s)]
  {
    hide TrimOws;
    EmptyConcat(s);
    SpanOfSplit(s, [], Framing.NotComma);
    assert s[..|s|] == s;
  }

  // ---- Status codes ----

  predicate IsZero(b: byte) { b == 48 }

  lemma {:induction false} LeadingZeros(zeros: bytes, s: bytes)
    requires All(zeros, IsZero) && All(s, IsDigit)
    ensures All(zeros + s, IsDigit) && Framing.DecimalValue(zeros + s) == Framing.DecimalValue(s)
    decreases |zeros| + |s|
  {
    var t := zeros + s;
    if s != [] {
      assert t[..|t| - 1] == zeros + s[..|s| - 1];
      LeadingZeros(zeros, s[..|s| - 1]);
    } else if zeros != [] {
      assert t[..|t| - 1] == zeros[..|zeros| - 1] + s;
      LeadingZeros(zeros[..|zeros| - 1], s);
    }
  }

  lemma {:induction false} OnlyZeros(s: bytes)
    requires All(s, IsDigit) && Framing.DecimalValue(s) == 0
    ensures All(s, IsZero)
    decreases |s|
  {
    if s != [] {
      OnlyZeros(s[..|s| - 1]);
      assert forall i :: 0 <= i < |s| - 1 ==> s[i] == s[..|s| - 1][i];
    }
  }

  lemma {:induction false} DigitsOf(s: bytes) returns (zeros: bytes)
    requires All(s, IsDigit) && Framing.DecimalValue(s) > 0
    ensures All(zeros, IsZero) && s == zeros + Decimal(Framing.DecimalValue(s))
    decreases |s|
  {
    var front, v := s[..|s| - 1], Framing.DecimalValue(s);
    if v < 10 {
      OnlyZeros(front);
      zeros := front;
    } else {
      zeros := DigitsOf(front);
      ConcatAssociative(zeros, Decimal(v / 10), [48 + v % 10]);
    }
  }

  ghost predicate IsNumeral(text: bytes, n: nat) {
    exists zeros :: All(zeros, IsZero) && (text == zeros + Decimal(n) || text == [PLUS] + (zeros + Decimal(n)))
  }

  /** A status code is a number from 100 to 599 in decimal, after a "+" and zeros, if any. */
  lemma StatusCodeExactly(text: bytes, n: nat)
    ensures StatusCode(text) == Some(n) <==> 100 <= n <= 599 && IsNumeral(text, n)
  {
    hide Framing.DecimalValue, Decimal;
    var digits := if [PLUS] <= text then text[1..] else text;
    if StatusCode(text) == Some(n) {
      var zeros := DigitsOf(digits);
      if [PLUS] <= text {
        HeadSplit(text);
      }
    }
    if 100 <= n <= 599 && IsNumeral(text, n) {
      var zeros :| All(zeros, IsZero) && (text == zeros + Decimal(n) || text == [PLUS] + (zeros + Decimal(n)));
      LeadingZeros(zeros, Decimal(n));
      if text == zeros + Decimal(n) {
        assert IsDigit(text[0]);
      } else {
        assert text[1..] == zeros + Decimal(n);
      }
    }
  }

  // ---- Start lines ----

  /** A request line is three texts with a space between them, the first two without a space. */
  lemma RequestLineExactly(text: bytes, method_: bytes, target: bytes, version: bytes)
    ensures SplitRequestLine(text) == Some(RequestLine(method_, target, version)) <==>
            SP !in method_ && SP !in target && text == method_ + ([SP] + (target + ([SP] + version)))
  {
    hide Span, SplitRequestLine;
    if SplitRequestLine(text) == Some(RequestLine(method_, target, version)) {
      RequestLineTaken(text, method_, target, version);
    }
    if SP !in method_ && SP !in target && text == method_ + ([SP] + (target + ([SP] + version))) {
      RequestLineFound(method_, target, version);
    }
  }

  lemma RequestLineTaken(text: bytes, method_: bytes, target: bytes, version: bytes)
    requires SplitRequestLine(text) == Some(RequestLine(method_, target, version))
    ensures SP !in method_ && SP !in target && text == method_ + ([SP] + (target + ([SP] + version)))
  {
    hide Span;
    SpaceCuts(text);
    SpaceCuts(text[Span(text, NotSp) + 1..]);
  }

  lemma RequestLineFound(method_: bytes, target: bytes, version: bytes)
    requires SP !in method_ && SP !in target
    ensures SplitRequestLine(method_ + ([SP] + (target + ([SP] + version))))
         == Some(RequestLine(method_, target, version))
  {
    hide Span;
    SpaceFound(method_, target + ([SP] + version));
    SpaceFound(target, version);
  }

  lemma SpaceCuts(text: bytes)
    ensures var n := Span(text, NotSp);
            SP !in text[..n] && (n < |text| ==> text == text[..n] + ([SP] + text[n + 1..]))
  {
    var n := Span(text, NotSp);
    NoSpace(text[..n]);
    if n < |text| {
      HeadSplit(text[n..]);
      DropTwice(text, n, 1);
      CutAt(text, n);
    }
  }

  lemma NoSpace(s: bytes)
    requires All(s, NotSp)
    ensures SP !in s
  {
  }

  lemma CutAt(s: bytes, n: nat)
    requires n <= |s|
    ensures s == s[..n] + s[n..]
  {
  }

  lemma SpaceFound(front: bytes, back: bytes)
    requires SP !in front
    ensures var text := front + ([SP] + back);
            Span(text, NotSp) == |front| && text[..|front|] == front && text[|front| + 1..] == back
  {
    SpanOfSplit(front, [SP] + back, NotSp);
  }

  /** What stands behind the version of a status line: the code and, perhaps, a space and the reason. */
  ghost predicate CodeAndReason(text: bytes, code: bytes, status: nat, reason: bytes) {
    && SP !in code && 100 <= status <= 599 && IsNumeral(code, status)
    && (text == code + ([SP] + reason) || (text == code && reason == []))
  }

  ghost predicate IsStatusLine(text: bytes, version: bytes, status: nat, reason: bytes) {
    && SP !in version
    && exists code, rest :: text == version + ([SP] + rest) && CodeAndReason(rest, code, status, reason)
  }

  /** A status line likewise; the reason may be absent. */
  lemma StatusLineExactly(text: bytes, version: bytes, status: nat, reason: bytes)
    ensures SplitStatusLine(text) == Some(StatusLine(version, status, reason)) <==>
            IsStatusLine(text, version, status, reason)
  {
    if SplitStatusLine(text) == Some(StatusLine(version, status, reason)) {
      StatusLineTaken(text, version, status, reason);
    }
    if IsStatusLine(text, version, status, reason) {
      var code, rest :| text == version + ([SP] + rest) && CodeAndReason(rest, code, status, reason);
      StatusLineFound(version, code, rest, status, reason);
    }
  }

  lemma StatusLineTaken(text: bytes, version: bytes, status: nat, reason: bytes)
    requires SplitStatusLine(text) == Some(StatusLine(version, status, reason))
    ensures IsStatusLine(text, version, status, reason)
  {
    hide StatusCode, IsNumeral, Span;
    var a := Span(text, NotSp);
    var rest := text[a + 1..];
    var code := rest[..Span(rest, NotSp)];
    SpaceCuts(text);
    SpaceCuts(rest);
    StatusCodeExactly(code, status);
    CutAt(rest, |code|);
    EmptyConcat(code);
    assert CodeAndReason(rest, code, status, reason);
  }

  lemma StatusLineFound(version: bytes, code: bytes, rest: bytes, status: nat, reason: bytes)
    requires SP !in version && CodeAndReason(rest, code, status, reason)
    ensures SplitStatusLine(version + ([SP] + rest)) == Some(StatusLine(version, status, reason))
  {
    hide StatusCode, IsNumeral, Span;
    SpaceFound(version, rest);
    StatusCodeExactly(code, status);
    if rest == code {
      EmptyConcat(code);
      SpanOfSplit(code, [], NotSp);
      assert rest[..|rest|] == code;
    } else {
      SpaceFound(code, reason);
    }
  }

  lemma NoRequestLine(text: bytes)
    ensures SplitStatusLine(text).Some? ==> SplitStatusLine(text).value.StatusLine?
  {
  }

  ghost predicate IsStartLine(side: Side, text: bytes, line: StartLine) {
    match line
    case RequestLine(method_, target, version) =>
      && side.Server? && SP !in method_ && SP !in target
      && text == method_ + ([SP] + (target + ([SP] + version)))
    case StatusLine(version, status, reason) => side.Client? && IsStatusLine(text, version, status, reason)
  }

  /** The start line that a side accepts: a text of that form, without line ends, to which the rules
      have no objection. */
  lemma StartLineExactly(r: Rules, text: bytes, line: StartLine)
    ensures ParseStartLine(r, text) == Ok(line) <==>
            CR !in text && LF !in text && r.lineOk(line) && IsStartLine(r.side, text, line)
    ensures ParseStartLine(r, text).Err? ==> ParseStartLine(r, text).error == InvalidData
  {
    hide SplitStatusLine, IsStatusLine;
    match line
    case RequestLine(method_, target, version) =>
      RequestLineExactly(text, method_, target, version);
      NoRequestLine(text);
    case StatusLine(version, status, reason) => StatusLineExactly(text, version, status, reason);
  }
}
