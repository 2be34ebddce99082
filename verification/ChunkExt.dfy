/** `validate_chunk_ext`: a greedy cursor scan, and the language it accepts. */
module ChunkExt {
  import opened Scan

  // ---- The grammar of section 7.1.1 of RFC 9112: syntax trees and their text.
  //      Every text function takes the text that follows it. ----

  datatype Quoted = Text(b: byte) | Pair(b: byte)

  datatype ExtValue = Token(text: bytes) | QuotedString(content: seq<Quoted>)

  datatype ExtTail = NoValue | WithValue(w2: bytes, w3: bytes, v: ExtValue)

  /** BWS ";" BWS chunk-ext-name [ BWS "=" BWS chunk-ext-val ] */
  datatype Ext = Ext(w0: bytes, w1: bytes, name: bytes, tail: ExtTail)

  ghost predicate IsToken(s: bytes) { s != [] && All(s, IsTchar) }

  ghost predicate ValidQuoted(q: Quoted) {
    match q
    case Text(b) => IsQdtext(b)
    case Pair(b) => IsQuotedPairChar(b)
  }

  ghost predicate ValidValue(v: ExtValue) {
    match v
    case Token(t) => IsToken(t)
    case QuotedString(c) => forall i :: 0 <= i < |c| ==> ValidQuoted(c[i])
  }

  ghost predicate ValidTail(t: ExtTail) {
    t.WithValue? ==> All(t.w2, IsBws) && All(t.w3, IsBws) && ValidValue(t.v)
  }

  ghost predicate ValidExt(e: Ext) {
    All(e.w0, IsBws) && All(e.w1, IsBws) && IsToken(e.name) && ValidTail(e.tail)
  }

  ghost function QuotedText(c: seq<Quoted>, rest: bytes): bytes {
    if c == [] then [DQUOTE] + rest
    else (if c[0].Text? then [c[0].b] else [BACKSLASH, c[0].b]) + QuotedText(c[1..], rest)
  }

  ghost function ValueText(v: ExtValue, rest: bytes): bytes {
    match v
    case Token(t) => t + rest
    case QuotedString(c) => [DQUOTE] + QuotedText(c, rest)
  }

  ghost function TailText(t: ExtTail, rest: bytes): bytes {
    if t.NoValue? then rest else t.w2 + ([EQUALS] + (t.w3 + ValueText(t.v, rest)))
  }

  ghost function ExtText(e: Ext, rest: bytes): bytes {
    e.w0 + ([SEMI] + (e.w1 + (e.name + TailText(e.tail, rest))))
  }

  ghost function ExtsText(es: seq<Ext>, rest: bytes): bytes {
    if es == [] then rest else ExtText(es[0], ExtsText(es[1..], rest))
  }

  ghost predicate Generates(es: seq<Ext>, trailing: bytes, s: bytes) {
    && (forall i :: 0 <= i < |es| ==> ValidExt(es[i]))
    && All(trailing, IsBws)
    && s == ExtsText(es, trailing)
  }

  /** chunk-ext followed by optional BWS. */
  ghost predicate InLanguage(s: bytes) {
    exists es, trailing :: Generates(es, trailing, s)
  }

  // ---- What the scan computes, as the text left over after each construct ----

  /** From after the opening DQUOTE to after the closing one. */
  function AfterQuoted(s: bytes): (r: Option<bytes>)
    ensures r.Some? ==> |r.value| < |s|
  {
    if s == [] then None
    else if s[0] == DQUOTE then Some(s[1..])
    else if s[0] == BACKSLASH then
      if |s| < 2 || !IsQuotedPairChar(s[1]) then None else AfterQuoted(s[2..])
    else if IsQdtext(s[0]) then AfterQuoted(s[1..])
    else None
  }

  function AfterToken(s: bytes): (r: Option<bytes>)
    ensures r.Some? ==> |r.value| < |s|
  {
    var n := Span(s, IsTchar);
    if n == 0 then None else Some(s[n..])
  }

  function AfterValue(s: bytes): (r: Option<bytes>)
    ensures r.Some? ==> |r.value| < |s|
  {
    if s != [] && s[0] == DQUOTE then AfterQuoted(s[1..]) else AfterToken(s)
  }

  /** After the name: the optional "=" and value. Whitespace that no "=" follows is dropped too. */
  function AfterTail(s: bytes): (r: Option<bytes>)
    ensures r.Some? ==> |r.value| <= |s|
  {
    var v := DropBws(s);
    if v == [] || v[0] != EQUALS then Some(v) else AfterValue(DropBws(v[1..]))
  }

  /** One round of the loop, from the ";" on. */
  function AfterExt(t: bytes): (r: Option<bytes>)
    ensures r.Some? ==> |r.value| < |t|
  {
    if t == [] || t[0] != SEMI then None
    else
      var name := AfterToken(DropBws(t[1..]));
      if name.None? then None else AfterTail(name.value)
  }

  function Accepts(s: bytes): bool
    decreases |s|
  {
    var t := DropBws(s);
    t == [] || (AfterExt(t).Some? && Accepts(AfterExt(t).value))
  }

  // ---- Soundness: everything accepted is generated by the grammar ----

  lemma {:induction false} AfterQuotedSound(s: bytes) returns (c: seq<Quoted>)
    requires AfterQuoted(s).Some?
    ensures forall i :: 0 <= i < |c| ==> ValidQuoted(c[i])
    ensures s == QuotedText(c, AfterQuoted(s).value)
  {
    if s[0] == DQUOTE {
      c := [];
    } else {
      var k := if s[0] == BACKSLASH then 2 else 1;
      var rest := AfterQuotedSound(s[k..]);
      c := [if k == 2 then Pair(s[1]) else Text(s[0])] + rest;
      assert c[1..] == rest && s == s[..k] + s[k..];
    }
  }

  lemma AfterValueSound(s: bytes) returns (v: ExtValue)
    requires AfterValue(s).Some?
    ensures ValidValue(v) && s == ValueText(v, AfterValue(s).value)
  {
    if s[0] == DQUOTE {
      var c := AfterQuotedSound(s[1..]);
      v := QuotedString(c);
    } else {
      v := Token(s[..Span(s, IsTchar)]);
    }
  }

  lemma WithValueSound(s: bytes, v: bytes) returns (t: ExtTail)
    requires v == DropBws(s) && v != [] && v[0] == EQUALS
    requires AfterValue(DropBws(v[1..])).Some?
    ensures ValidTail(t) && s == TailText(t, AfterValue(DropBws(v[1..])).value)
  {
    hide AfterValue, ValueText, DropBws, ValidValue;
    var w2 := SplitBws(s);
    var w3 := SplitBws(v[1..]);
    var val := AfterValueSound(DropBws(v[1..]));
    t := WithValue(w2, w3, val);
    HeadSplit(v);
  }

  lemma TailOfNoValue(rest: bytes)
    ensures TailText(NoValue, rest) == rest
  {
  }

  lemma AfterTailSound(s: bytes) returns (t: ExtTail, slack: bytes)
    requires AfterTail(s).Some?
    ensures ValidTail(t) && All(slack, IsBws)
    ensures s == TailText(t, slack + AfterTail(s).value)
  {
    hide AfterValue, TailText, DropBws;
    var v := DropBws(s);
    if v == [] || v[0] != EQUALS {
      slack := SplitBws(s);
      t := NoValue;
      TailOfNoValue(slack + v);
    } else {
      slack := [];
      t := WithValueSound(s, v);
      EmptyConcat(AfterTail(s).value);
    }
  }

  lemma AfterNameSound(u: bytes, rest: bytes) returns (name: bytes, tail: ExtTail, slack: bytes)
    requires AfterToken(u).Some? && AfterTail(AfterToken(u).value) == Some(rest)
    ensures IsToken(name) && ValidTail(tail) && All(slack, IsBws)
    ensures u == name + TailText(tail, slack + rest)
  {
    hide AfterTail, TailText;
    name := u[..Span(u, IsTchar)];
    tail, slack := AfterTailSound(AfterToken(u).value);
  }

  lemma AfterExtSound(t: bytes) returns (e: Ext, slack: bytes)
    requires AfterExt(t).Some?
    ensures ValidExt(e) && All(slack, IsBws)
    ensures t == ExtText(e, slack + AfterExt(t).value)
  {
    var w1 := SplitBws(t[1..]);
    var name, tail, slack' := AfterNameSound(DropBws(t[1..]), AfterExt(t).value);
    e, slack := Ext([], w1, name, tail), slack';
    HeadSplit(t);
    EmptyConcat(t);
  }

  /** Whitespace in front of chunk-ext may be read as the BWS that opens it. */
  lemma GenerateAfterBws(w: bytes, es: seq<Ext>, trailing: bytes, s: bytes)
    returns (es': seq<Ext>, trailing': bytes)
    requires All(w, IsBws) && Generates(es, trailing, s)
    ensures Generates(es', trailing', w + s)
  {
    if es == [] {
      es', trailing' := [], w + trailing;
    } else {
      var e := es[0].(w0 := w + es[0].w0);
      es', trailing' := [e] + es[1..], trailing;
      assert es'[1..] == es[1..];
      ConcatAssociative(w, es[0].w0, [SEMI] + (e.w1 + (e.name + TailText(e.tail, ExtsText(es[1..], trailing)))));
    }
  }

  lemma GenerateCons(e: Ext, es: seq<Ext>, trailing: bytes, s: bytes)
    requires ValidExt(e) && Generates(es, trailing, s)
    ensures Generates([e] + es, trailing, ExtText(e, s))
  {
    assert ([e] + es)[1..] == es;
  }

  lemma {:induction false} AcceptsSound(s: bytes) returns (es: seq<Ext>, trailing: bytes)
    requires Accepts(s)
    ensures Generates(es, trailing, s)
    decreases |s|
  {
    var t := DropBws(s);
    var w := SplitBws(s);
    if t == [] {
      es, trailing := [], s;
    } else {
      var rest := AfterExt(t).value;
      var es0, tr0 := AcceptsSound(rest);
      var e, slack := AfterExtSound(t);
      var es1, tr1 := GenerateAfterBws(slack, es0, tr0, rest);
      GenerateCons(e, es1, tr1, slack + rest);
      es, trailing := GenerateAfterBws(w, [e] + es1, tr1, t);
    }
  }

  // ---- Completeness: everything the grammar generates is accepted ----

  lemma AfterTokenOf(t: bytes, rest: bytes)
    requires IsToken(t) && (rest == [] || !IsTchar(rest[0]))
    ensures AfterToken(t + rest) == Some(rest)
  {
    SpanOfSplit(t, rest, IsTchar);
  }

  lemma {:induction false} AfterQuotedOf(c: seq<Quoted>, rest: bytes)
    requires forall i :: 0 <= i < |c| ==> ValidQuoted(c[i])
    ensures AfterQuoted(QuotedText(c, rest)) == Some(rest)
  {
    if c != [] {
      AfterQuotedOf(c[1..], rest);
      var s := QuotedText(c, rest);
      assert s[if c[0].Text? then 1 else 2..] == QuotedText(c[1..], rest);
    }
  }

  lemma AfterValueOf(v: ExtValue, rest: bytes)
    requires ValidValue(v) && (rest == [] || !IsTchar(rest[0]))
    ensures AfterValue(ValueText(v, rest)) == Some(rest)
    ensures ValueText(v, rest) != [] && !IsBws(ValueText(v, rest)[0])
  {
    match v
    case Token(t) => AfterTokenOf(t, rest);
    case QuotedString(c) =>
      AfterQuotedOf(c, rest);
      assert ValueText(v, rest)[1..] == QuotedText(c, rest);
  }

  /** What may follow an extension: nothing, whitespace, or the next ";". */
  ghost predicate Follows(rest: bytes) {
    rest == [] || IsBws(rest[0]) || rest[0] == SEMI
  }

  lemma DropBwsFollows(rest: bytes, es: seq<Ext>, trailing: bytes)
    requires Generates(es, trailing, rest)
    ensures Follows(rest) && (DropBws(rest) == [] || DropBws(rest)[0] == SEMI)
  {
    if es == [] {
      DropBwsOf(rest, []);
      assert rest + [] == rest;
    } else {
      var e := es[0];
      DropBwsOf(e.w0, [SEMI] + (e.w1 + (e.name + TailText(e.tail, ExtsText(es[1..], trailing)))));
    }
  }

  lemma WithValueOf(t: ExtTail, rest: bytes)
    requires ValidTail(t) && t.WithValue? && (rest == [] || !IsTchar(rest[0]))
    ensures DropBws(TailText(t, rest)) == [EQUALS] + (t.w3 + ValueText(t.v, rest))
    ensures AfterValue(DropBws(t.w3 + ValueText(t.v, rest))) == Some(rest)
  {
    AfterValueOf(t.v, rest);
    DropBwsOf(t.w3, ValueText(t.v, rest));
    DropBwsOf(t.w2, [EQUALS] + (t.w3 + ValueText(t.v, rest)));
  }

  lemma AfterTailOf(t: ExtTail, rest: bytes)
    requires ValidTail(t) && Follows(rest) && (DropBws(rest) == [] || DropBws(rest)[0] == SEMI)
    ensures AfterTail(TailText(t, rest)) == Some(if t.NoValue? then DropBws(rest) else rest)
  {
    if t.WithValue? {
      WithValueOf(t, rest);
      var v := DropBws(TailText(t, rest));
      assert v[0] == EQUALS && v[1..] == t.w3 + ValueText(t.v, rest);
    }
  }

  lemma TailStart(t: ExtTail, rest: bytes)
    requires ValidTail(t) && Follows(rest)
    ensures TailText(t, rest) == [] || !IsTchar(TailText(t, rest)[0])
  {
    if t.WithValue? && t.w2 != [] {
      assert TailText(t, rest)[0] == t.w2[0];
    }
  }

  lemma AfterExtOf(e: Ext, rest: bytes)
    requires ValidExt(e) && Follows(rest) && (DropBws(rest) == [] || DropBws(rest)[0] == SEMI)
    ensures DropBws(ExtText(e, rest)) != []
    ensures AfterExt(DropBws(ExtText(e, rest)))
         == Some(if e.tail.NoValue? then DropBws(rest) else rest)
  {
    AfterTailOf(e.tail, rest);
    TailStart(e.tail, rest);
    var named := e.name + TailText(e.tail, rest);
    AfterTokenOf(e.name, TailText(e.tail, rest));
    DropBwsOf(e.w1, named);
    DropBwsOf(e.w0, [SEMI] + (e.w1 + named));
    assert ([SEMI] + (e.w1 + named))[1..] == e.w1 + named;
  }

  lemma AcceptsDropBws(s: bytes)
    ensures Accepts(DropBws(s)) == Accepts(s)
  {
    DropBwsOf([], DropBws(s));
    assert [] + DropBws(s) == DropBws(s);
  }

  lemma {:induction false} AcceptsComplete(es: seq<Ext>, trailing: bytes, s: bytes)
    requires Generates(es, trailing, s)
    ensures Accepts(s)
  {
    if es == [] {
      DropBwsFollows(s, es, trailing);
    } else {
      var rest := ExtsText(es[1..], trailing);
      AcceptsComplete(es[1..], trailing, rest);
      DropBwsFollows(rest, es[1..], trailing);
      AfterExtOf(es[0], rest);
      AcceptsDropBws(rest);
    }
  }

  /** The scan accepts exactly chunk-ext with optional trailing whitespace. */
  lemma AcceptsExactly(s: bytes)
    ensures Accepts(s) <==> InLanguage(s)
  {
    if Accepts(s) {
      var es, trailing := AcceptsSound(s);
    }
    if InLanguage(s) {
      var es, trailing :| Generates(es, trailing, s);
      AcceptsComplete(es, trailing, s);
    }
  }

  // ---- The cursor loops ----

  method ParseQuotedString(data: bytes, start: nat) returns (r: Option<nat>)
    requires start < |data| && data[start] == DQUOTE
    ensures r.Some? <==> AfterQuoted(data[start + 1..]).Some?
    ensures r.Some? ==> start < r.value <= |data| && data[r.value..] == AfterQuoted(data[start + 1..]).value
  {
    var i := start + 1;
    while i < |data|
      invariant start < i <= |data|
      invariant AfterQuoted(data[i..]) == AfterQuoted(data[start + 1..])
    {
      assert data[i..][1..] == data[i + 1..];
      var b := data[i];
      if b == DQUOTE {
        return Some(i + 1);
      }
      if b == BACKSLASH {
        if i + 1 >= |data| || !IsQuotedPairChar(data[i + 1]) {
          return None;
        }
        assert data[i..][2..] == data[i + 2..];
        i := i + 2;
      } else if IsQdtext(b) {
        i := i + 1;
      } else {
        return None;
      }
    }
    return None;
  }

  method ParseToken(ext: bytes, pos: nat) returns (r: Option<nat>)
    requires pos <= |ext|
    ensures r.Some? <==> AfterToken(ext[pos..]).Some?
    ensures r.Some? ==> pos < r.value <= |ext| && ext[r.value..] == AfterToken(ext[pos..]).value
  {
    var i := SkipWhile(ext, pos, IsTchar);
    r := if i == pos then None else Some(i);
  }

  method ParseValue(ext: bytes, pos: nat) returns (r: Option<nat>)
    requires pos <= |ext|
    ensures r.Some? <==> AfterValue(ext[pos..]).Some?
    ensures r.Some? ==> pos < r.value <= |ext| && ext[r.value..] == AfterValue(ext[pos..]).value
  {
    if pos >= |ext| {
      return None;
    }
    if ext[pos] == DQUOTE {
      assert ext[pos..][1..] == ext[pos + 1..];
      r := ParseQuotedString(ext, pos);
    } else {
      r := ParseToken(ext, pos);
    }
  }

  method ParseTail(ext: bytes, pos: nat) returns (r: Option<nat>)
    requires pos <= |ext|
    ensures r.Some? <==> AfterTail(ext[pos..]).Some?
    ensures r.Some? ==> pos <= r.value <= |ext| && ext[r.value..] == AfterTail(ext[pos..]).value
  {
    hide AfterValue, DropBws;
    var i := SkipBws(ext, pos);
    if i < |ext| && ext[i] == EQUALS {
      assert ext[i..][1..] == ext[i + 1..];
      i := SkipBws(ext, i + 1);
      r := ParseValue(ext, i);
    } else {
      r := Some(i);
    }
  }

  method ParseExt(ext: bytes, pos: nat) returns (r: Option<nat>)
    requires pos < |ext|
    ensures r.Some? <==> AfterExt(ext[pos..]).Some?
    ensures r.Some? ==> pos < r.value <= |ext| && ext[r.value..] == AfterExt(ext[pos..]).value
  {
    if ext[pos] != SEMI {
      return None;
    }
    assert ext[pos..][1..] == ext[pos + 1..];
    var nameStart := SkipBws(ext, pos + 1);
    var nameEnd := ParseToken(ext, nameStart);
    if nameEnd.None? {
      return None;
    }
    r := ParseTail(ext, nameEnd.value);
  }

  /** Accepts exactly the chunk extensions of section 7.1.1 of RFC 9112 (plus trailing BWS). */
  method ValidateChunkExt(ext: bytes) returns (ok: bool)
    ensures ok <==> InLanguage(ext)
  {
    AcceptsExactly(ext);
    var i := 0;
    while i < |ext|
      invariant i <= |ext|
      invariant Accepts(ext[i..]) == Accepts(ext)
    {
      i := SkipBws(ext, i);
      if i >= |ext| {
        break;
      }
      var end := ParseExt(ext, i);
      if end.None? {
        return false;
      }
      i := end.value;
    }
    return true;
  }
}
