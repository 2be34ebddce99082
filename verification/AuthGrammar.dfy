/** The language of the auth-param parser: section 11.2 of RFC 9110, with the empty elements and the
    white space of sections 5.6.1 and 5.6.3. */
module AuthGrammar {
  import opened Scan
  import opened AuthParams
  import ChunkExt

  // ---- The grammar. Every text function takes the text that follows it. ----

  /** [ auth-param ] with white space wherever it may stand. */
  datatype Element =
    | Blank(w: bytes)
    | Filled(w0: bytes, name: bytes, w1: bytes, w2: bytes, v: ChunkExt.ExtValue, w3: bytes)

  ghost predicate ValidElement(e: Element) {
    match e
    case Blank(w) => All(w, IsBws)
    case Filled(w0, name, w1, w2, v, w3) =>
      && All(w0, IsBws) && ChunkExt.IsToken(name) && All(w1, IsBws)
      && All(w2, IsBws) && ChunkExt.ValidValue(v) && All(w3, IsBws)
  }

  /** auth-param = token BWS "=" BWS ( token / quoted-string ), from its name on. */
  ghost function ItemText(name: bytes, w1: bytes, w2: bytes, v: ChunkExt.ExtValue, rest: bytes): bytes {
    name + (w1 + ([EQUALS] + (w2 + ChunkExt.ValueText(v, rest))))
  }

  ghost function ElementText(e: Element, rest: bytes): bytes {
    match e
    case Blank(w) => w + rest
    case Filled(w0, name, w1, w2, v, w3) => w0 + ItemText(name, w1, w2, v, w3 + rest)
  }

  /** Elements with commas between them. */
  ghost function ListOf(es: seq<Element>): bytes
    requires es != []
  {
    ElementText(es[0], if |es| == 1 then [] else [COMMA] + ListOf(es[1..]))
  }

  /** The bytes that a quoted-string stands for. */
  function Unquoted(c: seq<ChunkExt.Quoted>): bytes {
    if c == [] then [] else [c[0].b] + Unquoted(c[1..])
  }

  function Meaning(v: ChunkExt.ExtValue): bytes {
    match v
    case Token(text) => text
    case QuotedString(content) => Unquoted(content)
  }

  /** The parameter that an element stands for: its name in lower case, its value without quotes. */
  function Given(e: Element): seq<Param> {
    if e.Blank? then [] else [Param(ToLower(e.name), Meaning(e.v))]
  }

  function AllGiven(es: seq<Element>): seq<Param> {
    if es == [] then [] else Given(es[0]) + AllGiven(es[1..])
  }

  ghost predicate Writes(es: seq<Element>, s: bytes, ps: seq<Param>) {
    AllValid(es) && s == ListOf(es) && ps == AllGiven(es)
  }

  ghost predicate AllValid(es: seq<Element>) {
    es != [] && forall i :: 0 <= i < |es| ==> ValidElement(es[i])
  }

  // ---- Everything that is read is generated ----

  lemma {:induction false} QuotedSound(s: bytes) returns (c: seq<ChunkExt.Quoted>)
    requires Quoted(s).Some?
    ensures ChunkExt.ValidValue(ChunkExt.QuotedString(c)) && Unquoted(c) == Quoted(s).value.value
    ensures s == ChunkExt.QuotedText(c, Quoted(s).value.rest)
    decreases |s|
  {
    hide IsQdtext, IsQuotedPairChar;
    HeadSplit(s);
    if s[0] == DQUOTE {
      c := [];
    } else if s[0] == BACKSLASH {
      HeadSplit(s[1..]);
      assert s[1..][1..] == s[2..];
      var rest := QuotedSound(s[2..]);
      QuotedCons(ChunkExt.Pair(s[1]), rest, Quoted(s[2..]).value.rest);
      c := [ChunkExt.Pair(s[1])] + rest;
      assert [s[0]] + ([s[1]] + s[2..]) == [BACKSLASH, s[1]] + s[2..];
    } else {
      var rest := QuotedSound(s[1..]);
      QuotedCons(ChunkExt.Text(s[0]), rest, Quoted(s[1..]).value.rest);
      c := [ChunkExt.Text(s[0])] + rest;
    }
  }

  lemma QuotedCons(q: ChunkExt.Quoted, c: seq<ChunkExt.Quoted>, rest: bytes)
    ensures Unquoted([q] + c) == [q.b] + Unquoted(c)
    ensures ChunkExt.QuotedText([q] + c, rest)
         == (if q.Text? then [q.b] else [BACKSLASH, q.b]) + ChunkExt.QuotedText(c, rest)
    ensures ChunkExt.ValidQuoted(q) && ChunkExt.ValidValue(ChunkExt.QuotedString(c)) ==>
              ChunkExt.ValidValue(ChunkExt.QuotedString([q] + c))
  {
    hide ChunkExt.ValidQuoted;
    assert ([q] + c)[1..] == c;
  }

  lemma ValueSound(s: bytes) returns (v: ChunkExt.ExtValue)
    requires s != [] && ReadValue(s).Some?
    ensures ChunkExt.ValidValue(v) && Meaning(v) == ReadValue(s).value.value
    ensures s == ChunkExt.ValueText(v, ReadValue(s).value.rest)
  {
    hide Quoted, IsTchar;
    if s[0] == DQUOTE {
      var c := QuotedSound(s[1..]);
      HeadSplit(s);
      v := ChunkExt.QuotedString(c);
    } else {
      v := ChunkExt.Token(s[..Span(s, InToken)]);
    }
  }

  lemma ItemSound(s: bytes) returns (name: bytes, w1: bytes, w2: bytes, v: ChunkExt.ExtValue)
    requires ReadItem(s).Some?
    ensures ChunkExt.IsToken(name) && All(w1, IsBws) && All(w2, IsBws) && ChunkExt.ValidValue(v)
    ensures ReadItem(s).value.param == Param(ToLower(name), Meaning(v))
    ensures s == ItemText(name, w1, w2, v, ReadItem(s).value.rest)
  {
    hide ReadValue, DropBws, ToLower, IsTchar, ChunkExt.ValidValue, ChunkExt.ValueText, Meaning;
    var n := Span(s, IsTchar);
    name := s[..n];
    w1 := SplitBws(s[n..]);
    var afterName := DropBws(s[n..]);
    HeadSplit(afterName);
    w2 := SplitBws(afterName[1..]);
    v := ValueSound(DropBws(afterName[1..]));
    assert s == s[..n] + s[n..];
  }

  lemma {:induction false} ParamsSound(s: bytes, ps: seq<Param>) returns (es: seq<Element>)
    requires ReadParams(s, ps).Ok?
    ensures AllValid(es) && s == ListOf(es) && ReadParams(s, ps).value == ps + AllGiven(es)
    decreases |s|
  {
    hide ReadParams, ReadItem, HasName, DropBws, ValidElement, ElementText;
    ReadParamsOnce(s, ps);
    var w := SplitBws(s);
    var t := DropBws(s);
    if t == [] {
      es := [Blank(w)];
      LastBlank(w, ps);
    } else if t[0] == COMMA {
      var rest := ParamsSound(t[1..], ps);
      HeadSplit(t);
      es := [Blank(w)] + rest;
      BlankThen(w, rest);
    } else {
      var item := ReadItem(t).value;
      var name, w1, w2, v := ItemSound(t);
      var w3 := SplitBws(item.rest);
      var e := Filled(w, name, w1, w2, v, w3);
      FilledIs(e, DropBws(item.rest));
      if DropBws(item.rest) == [] {
        es := [e];
        LastFilled(e, ps);
      } else {
        HeadSplit(DropBws(item.rest));
        var rest := ParamsSound(DropBws(item.rest)[1..], ps + [item.param]);
        es := [e] + rest;
        ListStep(e, rest);
        ConcatAssociative(ps, [item.param], AllGiven(rest));
      }
    }
  }

  lemma LastBlank(w: bytes, ps: seq<Param>)
    requires All(w, IsBws)
    ensures AllValid([Blank(w)]) && ListOf([Blank(w)]) == w + [] && ps + AllGiven([Blank(w)]) == ps
  {
    EmptyConcat(w);
    EmptyConcat(ps);
  }

  lemma BlankThen(w: bytes, rest: seq<Element>)
    requires All(w, IsBws) && AllValid(rest)
    ensures var es := [Blank(w)] + rest;
            AllValid(es) && ListOf(es) == w + ([COMMA] + ListOf(rest)) && AllGiven(es) == AllGiven(rest)
  {
    ListStep(Blank(w), rest);
    EmptyConcat(AllGiven(rest));
  }

  lemma ListStep(e: Element, rest: seq<Element>)
    requires rest != []
    ensures var es := [e] + rest;
            && ListOf(es) == ElementText(e, [COMMA] + ListOf(rest))
            && AllGiven(es) == Given(e) + AllGiven(rest)
            && (AllValid(es) <==> ValidElement(e) && AllValid(rest))
  {
    hide ElementText, ValidElement, Given;
    var es := [e] + rest;
    assert es[1..] == rest;
    assert forall i :: 0 < i < |es| ==> es[i] == rest[i - 1];
    assert forall i :: 0 <= i < |rest| ==> rest[i] == es[i + 1];
  }

  lemma LastFilled(e: Element, ps: seq<Param>)
    ensures ListOf([e]) == ElementText(e, []) && AllGiven([e]) == Given(e)
    ensures ValidElement(e) ==> AllValid([e])
  {
    hide ElementText, ValidElement, Given;
    EmptyConcat(Given(e));
  }

  lemma FilledIs(e: Element, rest: bytes)
    requires e.Filled?
    ensures ElementText(e, rest) == e.w0 + ItemText(e.name, e.w1, e.w2, e.v, e.w3 + rest)
    ensures Given(e) == [Param(ToLower(e.name), Meaning(e.v))]
    ensures ValidElement(e) <==>
              All(e.w0, IsBws) && ChunkExt.IsToken(e.name) && All(e.w1, IsBws) && All(e.w2, IsBws)
              && ChunkExt.ValidValue(e.v) && All(e.w3, IsBws)
  {
    hide ItemText, Meaning, ChunkExt.ValidValue;
  }

  // ---- Everything that is generated is read ----

  /** What may follow a value. */
  predicate Ends(rest: bytes) { rest == [] || IsBws(rest[0]) || rest[0] == COMMA }

  lemma {:induction false} QuotedComplete(c: seq<ChunkExt.Quoted>, rest: bytes)
    requires ChunkExt.ValidValue(ChunkExt.QuotedString(c))
    ensures Quoted(ChunkExt.QuotedText(c, rest)) == Some(Taken(Unquoted(c), rest))
    decreases |c|
  {
    hide IsQdtext, IsQuotedPairChar;
    if c == [] {
      QuotedEnds(rest);
    } else {
      QuotedComplete(c[1..], rest);
      var s, t := ChunkExt.QuotedText(c, rest), ChunkExt.QuotedText(c[1..], rest);
      assert ChunkExt.ValidQuoted(c[0]);
      if c[0].Text? {
        TextIsNoMark(c[0].b);
        assert s == [c[0].b] + t && s[1..] == t;
      } else {
        assert s == [BACKSLASH, c[0].b] + t && s[2..] == t;
      }
    }
  }

  lemma TextIsNoMark(b: byte)
    requires IsQdtext(b)
    ensures b != DQUOTE && b != BACKSLASH
  {
  }

  lemma ValueComplete(v: ChunkExt.ExtValue, rest: bytes)
    requires ChunkExt.ValidValue(v) && Ends(rest)
    ensures var s := ChunkExt.ValueText(v, rest);
            s != [] && !IsBws(s[0]) && ReadValue(s) == Some(Taken(Meaning(v), rest))
  {
    hide Quoted;
    match v
    case Token(t) =>
      SpanOfSplit(t, rest, InToken);
      assert (t + rest)[..|t|] == t && (t + rest)[|t|..] == rest && (t + rest)[0] == t[0];
    case QuotedString(c) =>
      QuotedComplete(c, rest);
      assert ChunkExt.ValueText(v, rest)[1..] == ChunkExt.QuotedText(c, rest);
  }

  lemma ItemComplete(name: bytes, w1: bytes, w2: bytes, v: ChunkExt.ExtValue, rest: bytes)
    requires ChunkExt.IsToken(name) && All(w1, IsBws) && All(w2, IsBws) && ChunkExt.ValidValue(v) && Ends(rest)
    ensures var s := ItemText(name, w1, w2, v, rest);
            s != [] && IsTchar(s[0]) && ReadItem(s) == Some(Item(Param(ToLower(name), Meaning(v)), rest))
  {
    hide ReadValue, DropBws, ToLower, ChunkExt.ValidValue, ChunkExt.ValueText, Meaning, Ends;
    var t := ChunkExt.ValueText(v, rest);
    var s := ItemText(name, w1, w2, v, rest);
    var afterName := [EQUALS] + (w2 + t);
    ValueComplete(v, rest);
    NameEnds(name, w1, afterName);
    DropBwsOf(w1, afterName);
    DropBwsOf(w2, t);
    assert afterName[1..] == w2 + t;
    assert s[..|name|] == name && s[|name|..] == w1 + afterName && s[0] == name[0];
  }

  lemma NameEnds(name: bytes, w: bytes, afterName: bytes)
    requires ChunkExt.IsToken(name) && All(w, IsBws) && afterName != [] && afterName[0] == EQUALS
    ensures Span(name + (w + afterName), IsTchar) == |name|
  {
    assert (w + afterName)[0] == if w == [] then EQUALS else w[0];
    SpanOfSplit(name, w + afterName, IsTchar);
  }

  lemma EndsBehind(w: bytes, rest: bytes)
    requires All(w, IsBws) && (rest == [] || rest[0] == COMMA)
    ensures Ends(w + rest) && DropBws(w + rest) == rest
  {
    DropBwsOf(w, rest);
    assert w + rest != [] ==> (w + rest)[0] == if w == [] then rest[0] else w[0];
  }

  lemma {:induction false} ParamsComplete(es: seq<Element>, ps: seq<Param>)
    requires AllValid(es) && IsParams(ps + AllGiven(es))
    ensures ReadParams(ListOf(es), ps) == Finish(ps + AllGiven(es))
    decreases |es|
  {
    hide ReadParams, IsParams, ElementText, ValidElement, AllGiven, Finish;
    var e := es[0];
    if |es| == 1 {
      assert es == [e];
      LastFilled(e, ps);
      ElementComplete(e, [], ps, AllGiven(es));
    } else {
      var rest := es[1..];
      assert es == [e] + rest;
      ListStep(e, rest);
      ConcatAssociative(ps, Given(e), AllGiven(rest));
      ParamsComplete(rest, ps + Given(e));
      ElementComplete(e, [COMMA] + ListOf(rest), ps, AllGiven(es));
      assert ([COMMA] + ListOf(rest))[1..] == ListOf(rest);
    }
  }

  /** One element is read. */
  lemma ElementComplete(e: Element, rest: bytes, ps: seq<Param>, all: seq<Param>)
    requires ValidElement(e) && (rest == [] || rest[0] == COMMA)
    requires IsParams(ps + all) && Given(e) <= all
    ensures ReadParams(ElementText(e, rest), ps)
         == if rest == [] then Finish(ps + Given(e)) else ReadParams(rest[1..], ps + Given(e))
  {
    hide ReadParams, ReadItem, HasName, DropBws, IsParams, Ends, Finish, ToLower, ItemText, IsTchar;
    hide ChunkExt.ValidValue;
    ReadParamsOnce(ElementText(e, rest), ps);
    match e
    case Blank(w) =>
      EndsBehind(w, rest);
      EmptyConcat(ps);
    case Filled(w0, name, w1, w2, v, w3) =>
      var t := ItemText(name, w1, w2, v, w3 + rest);
      EndsBehind(w3, rest);
      ItemComplete(name, w1, w2, v, w3 + rest);
      TokenStartsItem(t[0]);
      DropBwsOf(w0, t);
      Admitted(ps, Given(e)[0], all);
  }

  /** In a list of the right shape the next name is new and there is room for it. */
  lemma Admitted(ps: seq<Param>, p: Param, all: seq<Param>)
    requires IsParams(ps + all) && [p] <= all
    ensures !HasName(ps, p.name) && |ps| < MAX_AUTH_PARAMS
  {
    hide IsParam, HasName;
    var qs := ps + all;
    assert qs[|ps|] == p && qs[..|ps|] == ps;
  }

  /** The parser accepts exactly the lists of the grammar that name between one and 32 parameters, none
      twice whatever the case of its letters, and returns these in order: names in lower case, values
      without quotes and backslashes. */
  lemma ReadsExactly(s: bytes, ps: seq<Param>)
    ensures Read(s) == Ok(ps) <==>
            IsParams(ps) && ps != [] && exists es :: Writes(es, s, ps)
  {
    hide ReadParams, IsParams, ListOf, AllGiven, ValidElement;
    if Read(s) == Ok(ps) {
      NothingYet();
      ReadParamsAreParams(s, []);
      var es := ParamsSound(s, []);
      EmptyConcat(AllGiven(es));
      assert Writes(es, s, ps);
    }
    if IsParams(ps) && ps != [] && exists es :: Writes(es, s, ps) {
      var es :| Writes(es, s, ps);
      EmptyConcat(AllGiven(es));
      ParamsComplete(es, []);
    }
  }

  lemma NothingYet()
    ensures IsParams([])
  {
  }
}
