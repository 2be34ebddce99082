/** The auth-param list of authentication headers (section 11.2 of RFC 9110): the cursor parser,
    the printer, and why the parser reads back what the printer writes. */
module AuthParams {
  import opened Scan

  datatype AuthError = InvalidFormat | InvalidParameter | DuplicateParameter | TooManyParameters

  datatype Param = Param(name: bytes, value: bytes)

  const MAX_AUTH_PARAMS := 32

  predicate InToken(b: byte) { !IsBws(b) && b != COMMA }

  // ---- Reading one parameter ----

  datatype Taken = Taken(value: bytes, rest: bytes)

  function Push(b: byte, t: Option<Taken>): Option<Taken> {
    if t.None? then None else Some(Taken([b] + t.value.value, t.value.rest))
  }

  /** The quoted-string whose opening quote has been read. */
  function Quoted(s: bytes): (r: Option<Taken>)
    ensures r.Some? ==> |r.value.rest| < |s|
    decreases |s|
  {
    if s == [] then None
    else if s[0] == DQUOTE then Some(Taken([], s[1..]))
    else if s[0] == BACKSLASH then
      if |s| < 2 || !IsQuotedPairChar(s[1]) then None else Push(s[1], Quoted(s[2..]))
    else if !IsQdtext(s[0]) then None
    else Push(s[0], Quoted(s[1..]))
  }

  function ReadValue(s: bytes): (r: Option<Taken>)
    requires s != []
    ensures r.Some? ==> |r.value.rest| < |s|
  {
    if s[0] == DQUOTE then Quoted(s[1..])
    else
      var n := Span(s, InToken);
      if n == 0 || !All(s[..n], IsTchar) then None else Some(Taken(s[..n], s[n..]))
  }

  datatype Item = Item(param: Param, rest: bytes)

  /** name BWS "=" BWS value. */
  function ReadItem(s: bytes): (r: Option<Item>)
    ensures r.Some? ==> |r.value.rest| < |s|
  {
    var n := Span(s, IsTchar);
    var afterName := DropBws(s[n..]);
    if n == 0 || afterName == [] || afterName[0] != EQUALS then None
    else
      var afterEquals := DropBws(afterName[1..]);
      if afterEquals == [] then None
      else
        var v := ReadValue(afterEquals);
        if v.None? then None else Some(Item(Param(ToLower(s[..n]), v.value.value), v.value.rest))
  }

  predicate HasName(params: seq<Param>, name: bytes) {
    exists k :: 0 <= k < |params| && params[k].name == name
  }

  function Finish(params: seq<Param>): Result<seq<Param>, AuthError> {
    if params == [] then Err(InvalidFormat) else Ok(params)
  }

  /** The list of parameters, when some have been read already. */
  function ReadParams(s: bytes, params: seq<Param>): Result<seq<Param>, AuthError>
    decreases |s|
  {
    var t := DropBws(s);
    if t == [] then Finish(params)
    else if t[0] == COMMA then ReadParams(t[1..], params)
    else
      var item := ReadItem(t);
      if item.None? then Err(InvalidParameter)
      else if HasName(params, item.value.param.name) then Err(DuplicateParameter)
      else if |params| >= MAX_AUTH_PARAMS then Err(TooManyParameters)
      else
        var rest := DropBws(item.value.rest);
        if rest == [] then Finish(params + [item.value.param])
        else if rest[0] == COMMA then ReadParams(rest[1..], params + [item.value.param])
        else Err(InvalidParameter)
  }

  function Read(s: bytes): Result<seq<Param>, AuthError> { ReadParams(s, []) }

  // ---- The cursor ----

  function Prepend(done: bytes, t: Option<Taken>): Option<Taken> {
    if t.None? then None else Some(Taken(done + t.value.value, t.value.rest))
  }

  lemma PrependPush(done: bytes, b: byte, t: Option<Taken>)
    ensures Prepend(done, Push(b, t)) == Prepend(done + [b], t)
  {
    if t.Some? {
      ConcatAssociative(done, [b], t.value.value);
    }
  }

  lemma QuotedAt(s: bytes, i: nat)
    requires i < |s|
    ensures Quoted(s[i..])
         == if s[i] == DQUOTE then Some(Taken([], s[i + 1..]))
            else if s[i] == BACKSLASH then
              if i + 1 >= |s| || !IsQuotedPairChar(s[i + 1]) then None else Push(s[i + 1], Quoted(s[i + 2..]))
            else if !IsQdtext(s[i]) then None
            else Push(s[i], Quoted(s[i + 1..]))
  {
    hide IsQdtext, IsQuotedPairChar, Push;
    DropTwice(s, i, 1);
    if i + 2 <= |s| {
      DropTwice(s, i, 2);
    }
  }

  /** The walk over a quoted-string that starts behind its opening quote. */
  method ParseQuoted(input: bytes, start: nat) returns (value: Option<bytes>, i: nat)
    requires start <= |input|
    ensures start <= i <= |input|
    ensures Quoted(input[start..]) == if value.None? then None else Some(Taken(value.value, input[i..]))
  {
    hide Quoted, Push, Prepend, IsQdtext, IsQuotedPairChar;
    var text: bytes := [];
    i := start;
    PrependNothing(Quoted(input[start..]));
    while i < |input|
      invariant start <= i <= |input|
      invariant Prepend(text, Quoted(input[i..])) == Quoted(input[start..])
      decreases |input| - i
    {
      QuotedAt(input, i);
      PrependEnds(text, input[i + 1..]);
      var c := input[i];
      i := i + 1;
      if c == DQUOTE {
        return Some(text), i;
      } else if c == BACKSLASH {
        if i >= |input| || !IsQuotedPairChar(input[i]) {
          return None, i;
        }
        PrependPush(text, input[i], Quoted(input[i + 1..]));
        text := text + [input[i]];
        i := i + 1;
      } else {
        if !IsQdtext(c) {
          return None, i;
        }
        PrependPush(text, c, Quoted(input[i..]));
        text := text + [c];
      }
    }
    assert input[i..] == [];
    QuotedNothing();
    PrependEnds(text, []);
    value := None;
  }

  lemma PrependNothing(t: Option<Taken>)
    ensures Prepend([], t) == t
  {
    if t.Some? {
      EmptyConcat(t.value.value);
    }
  }

  lemma PrependEnds(done: bytes, rest: bytes)
    ensures Prepend(done, None) == None
    ensures Prepend(done, Some(Taken([], rest))) == Some(Taken(done, rest))
  {
    EmptyConcat(done);
  }

  lemma QuotedNothing()
    ensures Quoted([]) == None
  {
  }

  method ParseValue(input: bytes, start: nat) returns (value: Option<bytes>, i: nat)
    requires start < |input|
    ensures start <= i <= |input|
    ensures ReadValue(input[start..]) == if value.None? then None else Some(Taken(value.value, input[i..]))
  {
    hide Quoted, IsTchar;
    if input[start] == DQUOTE {
      DropTwice(input, start, 1);
      value, i := ParseQuoted(input, start + 1);
    } else {
      i := SkipWhile(input, start, InToken);
      DropTwice(input, start, i - start);
      var token := input[start..i];
      value := if token == [] || !All(token, IsTchar) then None else Some(token);
    }
  }

  method ParseItem(input: bytes, start: nat) returns (param: Option<Param>, i: nat)
    requires start < |input|
    ensures start <= i <= |input|
    ensures ReadItem(input[start..]) == if param.None? then None else Some(Item(param.value, input[i..]))
  {
    hide ReadValue, IsTchar, ToLower, DropBws;
    i := SkipWhile(input, start, IsTchar);
    DropTwice(input, start, i - start);
    param := None;
    if i == start {
      return;
    }
    var name := input[start..i];
    i := SkipBws(input, i);
    if i >= |input| || input[i] != EQUALS {
      return;
    }
    DropTwice(input, i, 1);
    i := SkipBws(input, i + 1);
    if i >= |input| {
      return;
    }
    var value;
    value, i := ParseValue(input, i);
    if value.Some? {
      param := Some(Param(ToLower(name), value.value));
    }
  }

  method NameIsTaken(params: seq<Param>, name: bytes) returns (r: bool)
    ensures r == HasName(params, name)
  {
    for k := 0 to |params|
      invariant !HasName(params[..k], name)
    {
      if params[k].name == name {
        return true;
      }
    }
    assert params[..|params|] == params;
    r := false;
  }

  lemma ReadParamsOnce(s: bytes, params: seq<Param>)
    ensures var t := DropBws(s);
            ReadParams(s, params)
            == if t == [] then Finish(params)
               else if t[0] == COMMA then ReadParams(t[1..], params)
               else
                 var item := ReadItem(t);
                 if item.None? then Err(InvalidParameter)
                 else if HasName(params, item.value.param.name) then Err(DuplicateParameter)
                 else if |params| >= MAX_AUTH_PARAMS then Err(TooManyParameters)
                 else
                   var rest := DropBws(item.value.rest);
                   if rest == [] then Finish(params + [item.value.param])
                   else if rest[0] == COMMA then ReadParams(rest[1..], params + [item.value.param])
                   else Err(InvalidParameter)
  {
  }

  /** `parse_auth_params`. */
  method ParseAuthParams(input: bytes) returns (r: Result<seq<Param>, AuthError>)
    ensures r == Read(input)
  {
    hide ReadParams, ReadItem, DropBws, HasName, Finish;
    var params: seq<Param> := [];
    var i := 0;
    assert input[0..] == input;
    while i < |input|
      invariant i <= |input|
      invariant ReadParams(input[i..], params) == Read(input)
    {
      ReadParamsOnce(input[i..], params);
      var start := i;
      i := SkipBws(input, i);
      if i < |input| && input[i] == COMMA {
        DropTwice(input, i, 1);
        i := i + 1;
        continue;
      }
      if i >= |input| {
        FinishNothing(params);
        break;
      }
      var param;
      param, i := ParseItem(input, i);
      if param.None? {
        return Err(InvalidParameter);
      }
      var taken := NameIsTaken(params, param.value.name);
      if taken {
        return Err(DuplicateParameter);
      }
      if |params| >= MAX_AUTH_PARAMS {
        return Err(TooManyParameters);
      }
      params := params + [param.value];
      i := SkipBws(input, i);
      if i < |input| {
        DropTwice(input, i, 1);
        if input[i] == COMMA {
          i := i + 1;
        } else {
          return Err(InvalidParameter);
        }
      } else {
        FinishNothing(params);
      }
    }
    assert input[i..] == [];
    FinishNothing(params);
    r := Finish(params);
  }

  lemma FinishNothing(params: seq<Param>)
    ensures ReadParams([], params) == Finish(params)
  {
  }

  // ---- Printing ----

  predicate NeedsQuoting(value: bytes) { value == [] || !All(value, IsTchar) }

  /** How `escape_quotes` writes one character: control characters become a space. */
  function EscapedByte(b: byte): bytes {
    if !IsQuotedPairChar(b) then [SP]
    else if b == DQUOTE || b == BACKSLASH then [BACKSLASH, b]
    else [b]
  }

  /** The escaped text, and what follows it. */
  function Escaped(s: bytes, rest: bytes): bytes
    decreases |s|
  {
    if s == [] then rest else EscapedByte(s[0]) + Escaped(s[1..], rest)
  }

  lemma {:induction false} EscapedThen(s: bytes, rest: bytes)
    ensures Escaped(s, rest) == Escaped(s, []) + rest
    decreases |s|
  {
    if s == [] {
      EmptyConcat(rest);
    } else {
      EscapedThen(s[1..], rest);
      ConcatAssociative(EscapedByte(s[0]), Escaped(s[1..], []), rest);
    }
  }

  lemma EscapedAt(s: bytes, i: nat)
    requires i < |s|
    ensures Escaped(s[i..], []) == EscapedByte(s[i]) + Escaped(s[i + 1..], [])
  {
    hide EscapedByte;
    DropTwice(s, i, 1);
  }

  /** `escape_quotes`. */
  method EscapeQuotes(s: bytes) returns (result: bytes)
    ensures result == Escaped(s, [])
  {
    hide Escaped, IsQuotedPairChar;
    result := [];
    assert s[0..] == s;
    EmptyConcat(Escaped(s, []));
    for i := 0 to |s|
      invariant result + Escaped(s[i..], []) == Escaped(s, [])
    {
      EscapedAt(s, i);
      ConcatAssociative(result, EscapedByte(s[i]), Escaped(s[i + 1..], []));
      var b := s[i];
      if !IsQuotedPairChar(b) {
        result := result + [SP];
        continue;
      }
      ghost var before := result;
      if b == DQUOTE || b == BACKSLASH {
        result := result + [BACKSLASH];
      }
      result := result + [b];
      assert result == before + EscapedByte(b);
    }
    assert s[|s|..] == [];
    EscapedNothing();
    EmptyConcat(result);
  }

  lemma EscapedNothing()
    ensures Escaped([], []) == []
  {
  }

  function ValueText(value: bytes, rest: bytes): bytes {
    if NeedsQuoting(value) then [DQUOTE] + Escaped(value, [DQUOTE] + rest) else value + rest
  }

  function ParamText(p: Param, rest: bytes): bytes {
    p.name + ([EQUALS] + ValueText(p.value, rest))
  }

  function ListText(ps: seq<Param>): bytes
    decreases |ps|
  {
    if ps == [] then []
    else ParamText(ps[0], if |ps| == 1 then [] else [COMMA] + ([SP] + ListText(ps[1..])))
  }

  /** `join(", ")`. */
  function Join(parts: seq<bytes>): bytes
    decreases |parts|
  {
    if parts == [] then []
    else if |parts| == 1 then parts[0]
    else parts[0] + ([COMMA, SP] + Join(parts[1..]))
  }

  /** `format_auth_params`. */
  method FormatAuthParams(params: seq<Param>) returns (r: bytes)
    ensures r == ListText(params)
  {
    hide ParamText, ListText, NeedsQuoting;
    var parts: seq<bytes> := [];
    for i := 0 to |params|
      invariant parts == Texts(params[..i])
    {
      var value := params[i].value;
      var part: bytes;
      if NeedsQuoting(value) {
        var escaped := EscapeQuotes(value);
        part := params[i].name + [EQUALS] + [DQUOTE] + escaped + [DQUOTE];
      } else {
        part := params[i].name + [EQUALS] + value;
      }
      ParamTextIs(params[i]);
      assert params[..i + 1] == params[..i] + [params[i]];
      parts := parts + [part];
    }
    assert params[..|params|] == params;
    JoinIsListText(params);
    r := Join(parts);
  }

  function Texts(ps: seq<Param>): seq<bytes> {
    seq(|ps|, i requires 0 <= i < |ps| => ParamText(ps[i], []))
  }

  lemma ParamTextIs(p: Param)
    ensures ParamText(p, [])
         == if NeedsQuoting(p.value) then p.name + [EQUALS] + [DQUOTE] + Escaped(p.value, []) + [DQUOTE]
            else p.name + [EQUALS] + p.value
  {
    hide NeedsQuoting, Escaped;
    if NeedsQuoting(p.value) {
      EmptyConcat([DQUOTE]);
      EscapedThen(p.value, [DQUOTE]);
      var e := Escaped(p.value, []);
      ConcatAssociative([DQUOTE], e, [DQUOTE]);
      ConcatAssociative([EQUALS], [DQUOTE] + e, [DQUOTE]);
      ConcatAssociative([EQUALS], [DQUOTE], e);
      ConcatAssociative(p.name, [EQUALS] + [DQUOTE] + e, [DQUOTE]);
      ConcatAssociative(p.name, [EQUALS] + [DQUOTE], e);
      ConcatAssociative(p.name, [EQUALS], [DQUOTE]);
    } else {
      EmptyConcat(p.value);
      ConcatAssociative(p.name, [EQUALS], p.value);
    }
  }

  lemma {:induction false} EscapedIsLonger(s: bytes)
    ensures |Escaped(s, [])| >= |s|
    decreases |s|
  {
    if s != [] {
      EscapedIsLonger(s[1..]);
    }
  }

  /** A parameter is printed without quotes exactly when its value is a token. */
  lemma PlainExactly(p: Param)
    ensures ListText([p]) == p.name + [EQUALS] + p.value <==> p.value != [] && forall b <- p.value :: IsTchar(b)
  {
    hide Escaped;
    ParamTextIs(p);
    EscapedIsLonger(p.value);
    assert forall i :: 0 <= i < |p.value| ==> p.value[i] in p.value;
  }

  lemma ParamTextThen(p: Param, rest: bytes)
    ensures ParamText(p, rest) == ParamText(p, []) + rest
  {
    hide NeedsQuoting, Escaped;
    if NeedsQuoting(p.value) {
      EscapedThen(p.value, [DQUOTE] + rest);
      EscapedThen(p.value, [DQUOTE] + []);
      EmptyConcat([DQUOTE]);
      var e := Escaped(p.value, []);
      ConcatAssociative(e, [DQUOTE], rest);
      ConcatAssociative([DQUOTE], e + [DQUOTE], rest);
    } else {
      EmptyConcat(p.value);
    }
    ConcatAssociative([EQUALS], ValueText(p.value, []), rest);
    ConcatAssociative(p.name, [EQUALS] + ValueText(p.value, []), rest);
  }

  lemma {:induction false} JoinIsListText(ps: seq<Param>)
    ensures Join(Texts(ps)) == ListText(ps)
    decreases |ps|
  {
    hide ParamText;
    if |ps| > 1 {
      assert Texts(ps)[1..] == Texts(ps[1..]);
      JoinIsListText(ps[1..]);
      ParamTextThen(ps[0], [COMMA] + ([SP] + ListText(ps[1..])));
      ConcatAssociative([COMMA], [SP], ListText(ps[1..]));
      assert [COMMA, SP] == [COMMA] + [SP];
    }
  }

  // ---- The round trip ----

  predicate IsParam(p: Param) {
    && p.name != [] && All(p.name, IsTchar) && ToLower(p.name) == p.name
    && All(p.value, IsQuotedPairChar)
  }

  /** What a parsed list looks like: at most 32 parameters with lower-case names, each name once. */
  ghost predicate IsParams(ps: seq<Param>) {
    && |ps| <= MAX_AUTH_PARAMS
    && (forall k :: 0 <= k < |ps| ==> IsParam(ps[k]) && !HasName(ps[..k], ps[k].name))
  }

  lemma {:induction false} QuotedChars(s: bytes)
    requires Quoted(s).Some?
    ensures All(Quoted(s).value.value, IsQuotedPairChar)
    decreases |s|
  {
    if s[0] == BACKSLASH {
      QuotedChars(s[2..]);
    } else if s[0] != DQUOTE {
      QuotedChars(s[1..]);
    }
  }

  lemma LowerName(s: bytes)
    requires All(s, IsTchar)
    ensures All(ToLower(s), IsTchar) && ToLower(ToLower(s)) == ToLower(s)
  {
  }

  lemma ReadItemIsParam(s: bytes)
    requires ReadItem(s).Some?
    ensures IsParam(ReadItem(s).value.param)
  {
    hide IsTchar, IsQuotedPairChar, ToLower, DropBws, Quoted;
    var n := Span(s, IsTchar);
    LowerName(s[..n]);
    var t := DropBws(DropBws(s[n..])[1..]);
    if t[0] == DQUOTE {
      QuotedChars(t[1..]);
    } else {
      TokenChars(ReadItem(s).value.param.value);
    }
  }

  lemma TokenChars(s: bytes)
    requires All(s, IsTchar)
    ensures All(s, IsQuotedPairChar)
  {
  }

  lemma AddParam(ps: seq<Param>, p: Param)
    requires IsParams(ps) && IsParam(p) && !HasName(ps, p.name) && |ps| < MAX_AUTH_PARAMS
    ensures IsParams(ps + [p])
  {
    hide IsParam, HasName;
    var qs := ps + [p];
    forall k | 0 <= k < |qs|
      ensures IsParam(qs[k]) && !HasName(qs[..k], qs[k].name)
    {
      assert qs[..k] == ps[..k];
      assert ps[..|ps|] == ps;
    }
  }

  lemma {:induction false} ReadParamsAreParams(s: bytes, ps: seq<Param>)
    requires IsParams(ps) && ReadParams(s, ps).Ok?
    ensures IsParams(ReadParams(s, ps).value) && ReadParams(s, ps).value != []
    decreases |s|
  {
    hide ReadParams, ReadItem, HasName, IsParams;
    ReadParamsOnce(s, ps);
    var t := DropBws(s);
    if t != [] {
      if t[0] == COMMA {
        ReadParamsAreParams(t[1..], ps);
      } else {
        var item := ReadItem(t).value;
        ReadItemIsParam(t);
        AddParam(ps, item.param);
        var rest := DropBws(item.rest);
        if rest != [] {
          ReadParamsAreParams(rest[1..], ps + [item.param]);
        }
      }
    }
  }

  lemma EscapedUnread(b: byte, rest: bytes)
    requires IsQuotedPairChar(b)
    ensures Quoted(EscapedByte(b) + rest) == Push(b, Quoted(rest))
  {
    var s := EscapedByte(b) + rest;
    if b == DQUOTE || b == BACKSLASH {
      assert s[0] == BACKSLASH && s[1] == b && s[2..] == rest;
    } else {
      assert s[0] == b && s[1..] == rest;
    }
  }

  lemma {:induction false} QuotedEscaped(v: bytes, rest: bytes)
    requires All(v, IsQuotedPairChar)
    ensures Quoted(Escaped(v, [DQUOTE] + rest)) == Some(Taken(v, rest))
    decreases |v|
  {
    hide Quoted, EscapedByte, IsQuotedPairChar;
    if v == [] {
      QuotedEnds(rest);
    } else {
      QuotedEscaped(v[1..], rest);
      EscapedUnread(v[0], Escaped(v[1..], [DQUOTE] + rest));
      HeadSplit(v);
    }
  }

  lemma QuotedEnds(rest: bytes)
    ensures Quoted([DQUOTE] + rest) == Some(Taken([], rest))
  {
    assert ([DQUOTE] + rest)[1..] == rest;
  }

  /** What may follow a value in a list. */
  predicate EndsValue(rest: bytes) { rest == [] || rest[0] == COMMA }

  lemma ReadValueOfText(v: bytes, rest: bytes)
    requires All(v, IsQuotedPairChar) && EndsValue(rest)
    ensures var s := ValueText(v, rest);
            s != [] && !IsBws(s[0]) && ReadValue(s) == Some(Taken(v, rest))
  {
    hide Quoted, Escaped, IsQuotedPairChar;
    var s := ValueText(v, rest);
    if NeedsQuoting(v) {
      QuotedEscaped(v, rest);
      assert s[1..] == Escaped(v, [DQUOTE] + rest);
    } else {
      TokenSpan(v, rest);
      assert s[..|v|] == v && s[|v|..] == rest && s[0] == v[0];
    }
  }

  lemma TokenSpan(v: bytes, rest: bytes)
    requires All(v, IsTchar) && EndsValue(rest)
    ensures Span(v + rest, InToken) == |v|
  {
    SpanOfSplit(v, rest, InToken);
  }

  lemma NoBwsToDrop(s: bytes)
    requires s == [] || !IsBws(s[0])
    ensures DropBws(s) == s
  {
  }

  lemma ReadItemOfText(p: Param, rest: bytes)
    requires IsParam(p) && EndsValue(rest)
    ensures var s := ParamText(p, rest);
            s != [] && IsTchar(s[0]) && ReadItem(s) == Some(Item(p, rest))
  {
    hide ReadValue, ValueText, IsTchar, IsQuotedPairChar, ToLower, DropBws;
    var v := ValueText(p.value, rest);
    var s := p.name + ([EQUALS] + v);
    EqualsEndsName(p.name, v);
    ReadValueOfText(p.value, rest);
    NoBwsToDrop([EQUALS] + v);
    NoBwsToDrop(v);
    assert s[..|p.name|] == p.name && s[|p.name|..] == [EQUALS] + v && s[0] == p.name[0];
    assert ([EQUALS] + v)[1..] == v;
  }

  lemma EqualsEndsName(name: bytes, v: bytes)
    requires All(name, IsTchar)
    ensures Span(name + ([EQUALS] + v), IsTchar) == |name|
  {
    SpanOfSplit(name, [EQUALS] + v, IsTchar);
  }

  lemma LeadingSpace(s: bytes, ps: seq<Param>)
    requires s == [] || !IsBws(s[0])
    ensures ReadParams([SP] + s, ps) == ReadParams(s, ps)
  {
    hide ReadParams, ReadItem, DropBws;
    ReadParamsOnce([SP] + s, ps);
    ReadParamsOnce(s, ps);
    NoBwsToDrop(s);
    SpaceDropped(s);
  }

  lemma SpaceDropped(s: bytes)
    requires s == [] || !IsBws(s[0])
    ensures DropBws([SP] + s) == s
  {
    DropBwsOf([SP], s);
  }

  lemma TokenStartsItem(b: byte)
    requires IsTchar(b)
    ensures !IsBws(b) && b != COMMA
  {
  }

  lemma ListTextStart(ps: seq<Param>)
    requires forall k :: 0 <= k < |ps| ==> IsParam(ps[k])
    ensures ListText(ps) == [] || !IsBws(ListText(ps)[0])
  {
    hide ParamText, IsTchar;
    if ps != [] {
      var rest := if |ps| == 1 then [] else [COMMA] + ([SP] + ListText(ps[1..]));
      ReadItemOfText(ps[0], rest);
      TokenStartsItem(ParamText(ps[0], rest)[0]);
    }
  }

  /** The first `k` parameters have been read; the others are still in print. */
  lemma {:induction false} ReadRemaining(ps: seq<Param>, k: nat)
    requires IsParams(ps) && k < |ps|
    ensures ReadParams(ListText(ps[k..]), ps[..k]) == Ok(ps)
    decreases |ps| - k
  {
    hide ReadParams, ReadItem, ParamText, IsTchar, IsParam, HasName, DropBws;
    var qs := ps[k..];
    DropTwice(ps, k, 1);
    var tail := ListText(ps[k + 1..]);
    var rest := if |qs| == 1 then [] else [COMMA] + ([SP] + tail);
    var s := ParamText(ps[k], rest);
    assert ListText(qs) == s;
    ReadItemOfText(ps[k], rest);
    TokenStartsItem(s[0]);
    NoBwsToDrop(s);
    NoBwsToDrop(rest);
    ReadParamsOnce(s, ps[..k]);
    assert ps[..k + 1] == ps[..k] + [ps[k]];
    if |qs| > 1 {
      ListTextStart(ps[k + 1..]);
      LeadingSpace(tail, ps[..k + 1]);
      assert rest[1..] == [SP] + tail;
      ReadRemaining(ps, k + 1);
    } else {
      assert ps[..k + 1] == ps;
    }
  }

  /** Printing and reading gives a list back exactly when it is one that a parse can return. */
  lemma RoundTrip(ps: seq<Param>)
    ensures Read(ListText(ps)) == Ok(ps) <==> IsParams(ps) && ps != []
  {
    hide ReadParams, ListText;
    if IsParams(ps) && ps != [] {
      assert ps[0..] == ps && ps[..0] == [];
      ReadRemaining(ps, 0);
    }
    if Read(ListText(ps)) == Ok(ps) {
      ReadParamsAreParams(ListText(ps), []);
    }
  }

  /** Every parsed list has that shape, so printing it and parsing again changes nothing. */
  lemma ParsedRoundTrip(s: bytes)
    requires Read(s).Ok?
    ensures IsParams(Read(s).value) && Read(s).value != []
    ensures Read(ListText(Read(s).value)) == Read(s)
  {
    hide ReadParams, ListText;
    ReadParamsAreParams(s, []);
    RoundTrip(Read(s).value);
  }
}
