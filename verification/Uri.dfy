/** URI references: splitting a text into components with offsets, validating them, and
    recomposing them with the guards that keep the result unambiguous. */
module Uri {
  import opened Scan
  import opened DotSegments

  const QUESTION: byte := 63
  const HASH: byte := 35
  const PERCENT: byte := 37
  const AT_SIGN: byte := 64

  datatype UriError =
    | Empty
    | InvalidPercentEncoding
    | InvalidScheme
    | InvalidAuthority
    | InvalidPathCharacter(b: byte)
    | InvalidQueryCharacter(b: byte)
    | InvalidFragmentCharacter(b: byte)

  // ---- Characters ----

  predicate IsUnreserved(b: byte) { IsAlpha(b) || IsDigit(b) || b == 45 || b == DOT || b == 95 || b == 126 }

  predicate IsSubDelim(b: byte) { b == 33 || b == 36 || 38 <= b <= 44 || b == 59 || b == 61 }

  predicate IsPchar(b: byte) { IsUnreserved(b) || IsSubDelim(b) || b == COLON || b == AT_SIGN }

  predicate IsPathChar(b: byte) { IsPchar(b) || b == SLASH }

  predicate IsQueryChar(b: byte) { IsPchar(b) || b == SLASH || b == QUESTION }

  predicate IsSchemeChar(b: byte) { IsAlpha(b) || IsDigit(b) || b == 43 || b == 45 || b == DOT }

  predicate NotAuthorityEnd(b: byte) { b != SLASH && b != QUESTION && b != HASH }

  predicate NotPathEnd(b: byte) { b != QUESTION && b != HASH }

  predicate NotHash(b: byte) { b != HASH }

  // ---- Well-formed text, position by position ----

  /** The bytes that may stand alone, and the pairs that may follow a "%". */
  datatype Encoding = Encoding(allowed: byte -> bool, pair: (byte, byte) -> bool)

  predicate IsHexPair(x: byte, y: byte) { IsHexDigit(x) && IsHexDigit(y) }

  const PATH := Encoding(IsPathChar, IsHexPair)
  const QUERY := Encoding(IsQueryChar, IsHexPair)

  predicate GoodAt(s: bytes, i: nat, e: Encoding)
    requires i < |s|
  {
    if s[i] == PERCENT then i + 2 < |s| && e.pair(s[i + 1], s[i + 2]) else e.allowed(s[i])
  }

  predicate Good(s: bytes, e: Encoding) {
    forall i: nat :: i < |s| ==> GoodAt(s, i, e)
  }

  /** A "/" may stand alone and is never part of an encoded byte. */
  ghost predicate SlashStandsAlone(e: Encoding) {
    e.allowed(SLASH) && forall x: byte, y: byte :: e.pair(x, y) ==> x != SLASH && y != SLASH
  }

  /** `validate_percent_encoding`. */
  function BadPercent(s: bytes): bool
    decreases |s|
  {
    if s == [] then false
    else if s[0] == PERCENT then
      |s| < 3 || !IsHexDigit(s[1]) || !IsHexDigit(s[2]) || BadPercent(s[3..])
    else BadPercent(s[1..])
  }

  /** The first byte that `validate_path` and its siblings refuse, once the encoding is checked. */
  function BadChar(s: bytes, allowed: byte -> bool): Option<byte>
    decreases |s|
  {
    if s == [] then None
    else if s[0] == PERCENT then (if |s| < 3 then None else BadChar(s[3..], allowed))
    else if allowed(s[0]) then BadChar(s[1..], allowed)
    else Some(s[0])
  }

  /** The two scans, which jump over encoded bytes, together accept exactly the good texts. */
  lemma {:induction false} ScansAcceptGood(s: bytes, e: Encoding)
    requires e.pair == IsHexPair && forall b: byte :: IsHexDigit(b) ==> e.allowed(b)
    ensures !BadPercent(s) && BadChar(s, e.allowed) == None <==> Good(s, e)
    decreases |s|
  {
    if s != [] {
      if s[0] == PERCENT {
        if |s| >= 3 && IsHexDigit(s[1]) && IsHexDigit(s[2]) {
          ScansAcceptGood(s[3..], e);
          GoodTail(s, 3, e);
          assert GoodAt(s, 1, e) && GoodAt(s, 2, e);
        } else {
          assert !GoodAt(s, 0, e);
        }
      } else {
        assert GoodAt(s, 0, e) <==> e.allowed(s[0]);
        ScansAcceptGood(s[1..], e);
        GoodTail(s, 1, e);
      }
    }
  }

  /** What is good from `k` on depends on nothing in front of it. */
  lemma GoodTail(s: bytes, k: nat, e: Encoding)
    requires k <= |s|
    ensures Good(s[k..], e) <==> forall i: nat :: k <= i < |s| ==> GoodAt(s, i, e)
  {
    forall i: nat | k <= i < |s|
      ensures GoodAt(s[k..], i - k, e) <==> GoodAt(s, i, e)
    {
    }
    if Good(s[k..], e) {
      forall i: nat | k <= i < |s|
        ensures GoodAt(s, i, e)
      {
        assert GoodAt(s[k..], i - k, e);
      }
    }
    if forall i: nat :: k <= i < |s| ==> GoodAt(s, i, e) {
      forall i: nat | i < |s[k..]|
        ensures GoodAt(s[k..], i, e)
      {
        assert GoodAt(s, i + k, e);
      }
    }
  }

  lemma GoodConcat(a: bytes, b: bytes, e: Encoding)
    requires Good(a, e) && Good(b, e)
    ensures Good(a + b, e)
  {
    forall i: nat | i < |a + b|
      ensures GoodAt(a + b, i, e)
    {
      if i < |a| {
        assert GoodAt(a, i, e);
      } else {
        assert GoodAt(b, i - |a|, e);
      }
    }
  }

  /** Cutting in front of a "/" never cuts an encoded byte. */
  lemma GoodCut(s: bytes, k: nat, e: Encoding)
    requires SlashStandsAlone(e) && Good(s, e) && k <= |s| && (0 < k < |s| ==> s[k] == SLASH)
    ensures Good(s[..k], e)
  {
    forall i: nat | i < k
      ensures GoodAt(s[..k], i, e)
    {
      assert GoodAt(s, i, e);
    }
  }

  lemma GoodSlash(s: bytes, e: Encoding)
    requires Good(s, e) && SlashStandsAlone(e)
    ensures Good([SLASH] + s, e)
  {
    assert Good([SLASH], e);
    GoodConcat([SLASH], s, e);
  }

  lemma {:induction false} RewriteKeepsGood(input: bytes, output: bytes, e: Encoding)
    requires Good(input, e) && Good(output, e) && SlashStandsAlone(e)
    ensures Good(Rewrite(input, output), e)
    decreases |input|
  {
    hide Good, SegmentEnd, RemoveLast, Rewrite;
    if input == [] {
      RewriteNothing(output);
    } else {
      RewriteOnce(input, output);
      var r := RuleFor(input);
      if r.Move? {
        var n := SegmentEnd(input);
        GoodCut(input, n, e);
        GoodConcat(output, input[..n], e);
        GoodDrop(input, n, e);
        RewriteKeepsGood(input[n..], output + input[..n], e);
      } else if !r.Stop? {
        GoodDrop(input, r.n, e);
        GoodSlash(input[r.n..], e);
        RemoveLastCut(output);
        GoodCut(output, |RemoveLast(output)|, e);
        assert RemoveLast(output) == output[..|RemoveLast(output)|];
        match r
        case Drop(n) => RewriteKeepsGood(input[n..], output, e);
        case Slash(n) => RewriteKeepsGood([SLASH] + input[n..], output, e);
        case SlashAndRemove(n) => RewriteKeepsGood([SLASH] + input[n..], RemoveLast(output), e);
      }
    }
  }

  lemma GoodDrop(s: bytes, k: nat, e: Encoding)
    requires Good(s, e) && k <= |s|
    ensures Good(s[k..], e)
  {
    GoodTail(s, k, e);
  }

  // ---- Components ----

  datatype Components = Components(
    scheme: Option<bytes>,
    authority: Option<bytes>,
    path: bytes,
    query: Option<bytes>,
    fragment: Option<bytes>)

  function TakeScheme(s: bytes): (Option<bytes>, bytes) {
    var n := Span(s, IsSchemeChar);
    if 0 < n < |s| && s[n] == COLON then (Some(s[..n]), s[n + 1..]) else (None, s)
  }

  function TakeAuthority(s: bytes): (Option<bytes>, bytes) {
    if [SLASH, SLASH] <= s then
      var n := Span(s[2..], NotAuthorityEnd);
      (Some(s[2..][..n]), s[2..][n..])
    else (None, s)
  }

  function TakePath(s: bytes): (bytes, bytes) {
    var n := Span(s, NotPathEnd);
    (s[..n], s[n..])
  }

  function TakeQuery(s: bytes): (Option<bytes>, bytes) {
    if [QUESTION] <= s then
      var n := Span(s[1..], NotHash);
      (Some(s[1..][..n]), s[1..][n..])
    else (None, s)
  }

  function TakeFragment(s: bytes): Option<bytes> {
    if [HASH] <= s then Some(s[1..]) else None
  }

  function Split(s: bytes): Components {
    var (scheme, s1) := TakeScheme(s);
    var (authority, s2) := TakeAuthority(s1);
    var (path, s3) := TakePath(s2);
    var (query, s4) := TakeQuery(s3);
    Components(scheme, authority, path, query, TakeFragment(s4))
  }

  function SchemeText(o: Option<bytes>, rest: bytes): bytes {
    if o.None? then rest else o.value + ([COLON] + rest)
  }

  function AuthorityText(o: Option<bytes>, rest: bytes): bytes {
    if o.None? then rest else [SLASH, SLASH] + (o.value + rest)
  }

  function QueryText(o: Option<bytes>, rest: bytes): bytes {
    if o.None? then rest else [QUESTION] + (o.value + rest)
  }

  function FragmentText(o: Option<bytes>): bytes {
    if o.None? then [] else [HASH] + o.value
  }

  /** Recomposition, section 5.3 of RFC 3986. */
  function Text(c: Components): bytes {
    SchemeText(c.scheme, AuthorityText(c.authority, c.path + QueryText(c.query, FragmentText(c.fragment))))
  }

  lemma SchemeTaken(s: bytes)
    ensures s == SchemeText(TakeScheme(s).0, TakeScheme(s).1)
  {
    var n := Span(s, IsSchemeChar);
    if TakeScheme(s).0.Some? {
      assert s[n..] == [COLON] + s[n + 1..];
    }
  }

  lemma AuthorityTaken(s: bytes)
    ensures s == AuthorityText(TakeAuthority(s).0, TakeAuthority(s).1)
  {
    if [SLASH, SLASH] <= s {
      var n := Span(s[2..], NotAuthorityEnd);
      assert s == [SLASH, SLASH] + s[2..];
      assert s[2..] == s[2..][..n] + s[2..][n..];
    }
  }

  lemma PathTaken(s: bytes)
    ensures s == TakePath(s).0 + TakePath(s).1
  {
  }

  lemma QueryTaken(s: bytes)
    ensures s == QueryText(TakeQuery(s).0, TakeQuery(s).1)
  {
    if [QUESTION] <= s {
      var n := Span(s[1..], NotHash);
      HeadSplit(s);
      assert s[1..] == s[1..][..n] + s[1..][n..];
    }
  }

  lemma AfterPathText(s: bytes)
    ensures var s3 := TakePath(s).1;
            && (s3 == [] || s3[0] == QUESTION || s3[0] == HASH)
            && TakeQuery(s3).1 == FragmentText(TakeFragment(TakeQuery(s3).1))
  {
    var s3 := TakePath(s).1;
    var s4 := TakeQuery(s3).1;
    if s4 != [] {
      HeadSplit(s4);
    }
  }

  /** The components of any text rebuild it. */
  lemma SplitThenText(s: bytes)
    ensures Text(Split(s)) == s
  {
    hide TakeScheme, TakeAuthority, TakePath, TakeQuery, TakeFragment, SchemeText, AuthorityText, QueryText;
    hide FragmentText;
    var s1 := TakeScheme(s).1;
    var s2 := TakeAuthority(s1).1;
    var s3 := TakePath(s2).1;
    SchemeTaken(s);
    AuthorityTaken(s1);
    PathTaken(s2);
    QueryTaken(s3);
    AfterPathText(s2);
  }

  // ---- Taking apart what was put together ----

  lemma TakeSchemeOf(o: Option<bytes>, rest: bytes)
    requires if o.Some? then o.value != [] && All(o.value, IsSchemeChar) else TakeScheme(rest).0 == None
    ensures TakeScheme(SchemeText(o, rest)) == (o, rest)
  {
    if o.Some? {
      SpanOfSplit(o.value, [COLON] + rest, IsSchemeChar);
      var s := o.value + ([COLON] + rest);
      assert s[..|o.value|] == o.value && s[|o.value| + 1..] == rest;
    }
  }

  lemma TakeAuthorityOf(o: Option<bytes>, rest: bytes)
    requires if o.Some? then All(o.value, NotAuthorityEnd) && (rest == [] || !NotAuthorityEnd(rest[0]))
             else !([SLASH, SLASH] <= rest)
    ensures TakeAuthority(AuthorityText(o, rest)) == (o, rest)
  {
    if o.Some? {
      SpanOfSplit(o.value, rest, NotAuthorityEnd);
      assert ([SLASH, SLASH] + (o.value + rest))[2..] == o.value + rest;
    }
  }

  lemma TakePathOf(path: bytes, rest: bytes)
    requires All(path, NotPathEnd) && (rest == [] || !NotPathEnd(rest[0]))
    ensures TakePath(path + rest) == (path, rest)
  {
    SpanOfSplit(path, rest, NotPathEnd);
  }

  lemma TakeQueryOf(o: Option<bytes>, rest: bytes)
    requires o.Some? ==> All(o.value, NotHash)
    requires rest == [] || rest[0] == HASH
    ensures TakeQuery(QueryText(o, rest)) == (o, rest)
  {
    if o.Some? {
      SpanOfSplit(o.value, rest, NotHash);
      assert ([QUESTION] + (o.value + rest))[1..] == o.value + rest;
    }
  }

  /** The components can be told apart in their text. */
  ghost predicate Separable(c: Components) {
    && (c.scheme.Some? ==> c.scheme.value != [] && All(c.scheme.value, IsSchemeChar))
    && (c.authority.Some? ==> All(c.authority.value, NotAuthorityEnd) && (c.path == [] || c.path[0] == SLASH))
    && (c.authority.None? ==> !([SLASH, SLASH] <= c.path))
    && (c.scheme.None? && c.authority.None? ==> !FirstSegmentContainsColon(c.path))
    && All(c.path, NotPathEnd)
    && (c.query.Some? ==> All(c.query.value, NotHash))
  }

  /** `first_segment_contains_colon`. */
  predicate FirstSegmentContainsColon(path: bytes) {
    COLON in path[..Span(path, NotSlash)]
  }

  lemma NoSchemeInPath(path: bytes, rest: bytes)
    requires !FirstSegmentContainsColon(path)
    requires rest == [] || rest[0] == QUESTION || rest[0] == HASH
    ensures TakeScheme(path + rest).0 == None
  {
    var s := path + rest;
    var n := Span(s, IsSchemeChar);
    var k := Span(path, NotSlash);
    assert k < |path| ==> s[k] == SLASH;
    assert rest != [] ==> s[|path|] == rest[0];
    assert forall i :: 0 <= i < n ==> IsSchemeChar(s[..n][i]) && s[..n][i] == s[i];
    if n < k {
      assert path[..k][n] == s[n];
    }
  }

  lemma TextThenSplit(c: Components)
    requires Separable(c)
    ensures Split(Text(c)) == c
  {
    hide TakeScheme, TakeAuthority, TakePath, TakeQuery, SchemeText, AuthorityText, QueryText;
    var s4 := FragmentText(c.fragment);
    var s3 := QueryText(c.query, s4);
    var s2 := c.path + s3;
    var s1 := AuthorityText(c.authority, s2);
    TakeQueryOf(c.query, s4);
    QueryTextStart(c.query, s4);
    TakePathOf(c.path, s3);
    AuthorityBoundary(c, s3);
    TakeAuthorityOf(c.authority, s2);
    if c.scheme.None? {
      SchemeBoundary(c, s3);
    }
    TakeSchemeOf(c.scheme, s1);
  }

  lemma QueryTextStart(o: Option<bytes>, rest: bytes)
    requires rest == [] || rest[0] == HASH
    ensures QueryText(o, rest) == [] || QueryText(o, rest)[0] == QUESTION || QueryText(o, rest)[0] == HASH
  {
  }

  lemma AuthorityBoundary(c: Components, s3: bytes)
    requires Separable(c) && (s3 == [] || s3[0] == QUESTION || s3[0] == HASH)
    ensures if c.authority.Some? then c.path + s3 == [] || !NotAuthorityEnd((c.path + s3)[0])
            else !([SLASH, SLASH] <= c.path + s3)
  {
    var t := c.path + s3;
    assert |c.path| >= 2 && [SLASH, SLASH] <= t ==> c.path[0] == t[0] == SLASH && c.path[1] == t[1] == SLASH;
    assert |c.path| == 1 && s3 != [] ==> t[1] == s3[0];
    assert c.path == [] && s3 != [] ==> t[0] == s3[0];
  }

  lemma SchemeBoundary(c: Components, s3: bytes)
    requires Separable(c) && c.scheme.None? && (s3 == [] || s3[0] == QUESTION || s3[0] == HASH)
    ensures TakeScheme(AuthorityText(c.authority, c.path + s3)).0 == None
  {
    if c.authority.None? {
      NoSchemeInPath(c.path, s3);
    }
  }

  // ---- Parsing ----

  /** The source and the offsets of its components, as `Uri` holds them. */
  datatype Uri = Uri(
    source: bytes,
    schemeEnd: Option<nat>,
    authorityStart: Option<nat>,
    authorityEnd: Option<nat>,
    hostEnd: Option<nat>,
    port: Option<nat>,
    pathStart: nat,
    pathEnd: nat,
    queryStart: Option<nat>,
    queryEnd: Option<nat>,
    fragmentStart: Option<nat>)

  /** Where the host ends in an authority, and its port. */
  datatype Authority = Authority(hostEnd: nat, port: Option<nat>)

  /** The judgement on the text of an authority, which is not modelled further. */
  type AuthorityRule = bytes -> Result<Authority, UriError>

  function Validate(s: bytes, allowed: byte -> bool, error: byte -> UriError): Option<UriError> {
    if BadPercent(s) then Some(InvalidPercentEncoding)
    else
      var bad := BadChar(s, allowed);
      if bad.Some? then Some(error(bad.value)) else None
  }

  /** The first error in the components of a text, in the order in which they are checked. */
  function FirstError(a: AuthorityRule, c: Components): Option<UriError> {
    if c.scheme.Some? && c.scheme.value != [] && !IsAlpha(c.scheme.value[0]) then Some(InvalidScheme)
    else if c.authority.Some? && a(c.authority.value).Err? then Some(a(c.authority.value).error)
    else
      var path := Validate(c.path, IsPathChar, (b: byte) => InvalidPathCharacter(b));
      var query :=
        if c.query.None? then None
        else Validate(c.query.value, IsQueryChar, (b: byte) => InvalidQueryCharacter(b));
      if path.Some? then path
      else if query.Some? then query
      else if c.fragment.None? then None
      else Validate(c.fragment.value, IsQueryChar, (b: byte) => InvalidFragmentCharacter(b))
  }

  // ---- The first error, independently of the scans ----

  /** A "%" without two hexadecimal digits behind it. */
  ghost predicate BrokenAt(s: bytes, i: nat)
    requires i < |s|
  {
    s[i] == PERCENT && !(i + 2 < |s| && IsHexPair(s[i + 1], s[i + 2]))
  }

  ghost predicate Broken(s: bytes) {
    exists i: nat :: i < |s| && BrokenAt(s, i)
  }

  /** The first byte that may not stand in the text, at `i`. */
  ghost predicate OffendsAt(s: bytes, allowed: byte -> bool, i: nat)
    requires i < |s|
  {
    && s[i] != PERCENT && !allowed(s[i])
    && forall k: nat :: k < i ==> s[k] == PERCENT || allowed(s[k])
  }

  lemma {:induction false} BadPercentExactly(s: bytes)
    ensures BadPercent(s) <==> Broken(s)
    decreases |s|
  {
    if s != [] {
      var n := if s[0] != PERCENT then 1 else if |s| < 3 then 0 else 3;
      assert BrokenAt(s, 0) || (s[0] == PERCENT ==> n == 3 && !BrokenAt(s, 1) && !BrokenAt(s, 2));
      if n > 0 {
        BadPercentExactly(s[n..]);
        BrokenBehind(s, n);
      }
    }
  }

  lemma BrokenBehind(s: bytes, n: nat)
    requires n <= |s|
    ensures Broken(s[n..]) <==> exists i: nat :: n <= i < |s| && BrokenAt(s, i)
  {
    if Broken(s[n..]) {
      var i: nat :| i < |s[n..]| && BrokenAt(s[n..], i);
      assert BrokenAt(s, n + i);
    }
    if exists i: nat :: n <= i < |s| && BrokenAt(s, i) {
      var i: nat :| n <= i < |s| && BrokenAt(s, i);
      assert BrokenAt(s[n..], i - n);
    }
  }

  lemma {:induction false} BadCharIsFirst(s: bytes, allowed: byte -> bool)
    requires !Broken(s) && forall b: byte :: IsHexDigit(b) ==> allowed(b)
    ensures match BadChar(s, allowed)
            case None => forall i: nat :: i < |s| ==> s[i] == PERCENT || allowed(s[i])
            case Some(b) => exists i: nat :: i < |s| && OffendsAt(s, allowed, i) && s[i] == b
    decreases |s|
  {
    if s != [] {
      assert !BrokenAt(s, 0);
      if s[0] == PERCENT || allowed(s[0]) {
        var n := if s[0] == PERCENT then 3 else 1;
        BrokenBehind(s, n);
        BadCharIsFirst(s[n..], allowed);
        assert forall i: nat :: n <= i < |s| ==> s[i] == s[n..][i - n];
        if BadChar(s, allowed).Some? {
          var i: nat :| i < |s[n..]| && OffendsAt(s[n..], allowed, i) && s[n..][i] == BadChar(s, allowed).value;
          assert OffendsAt(s, allowed, n + i);
        }
      } else {
        assert OffendsAt(s, allowed, 0);
      }
    }
  }

  /** What is wrong with one component: its encoding, or else its first byte that may not stand there. */
  ghost predicate Fault(s: bytes, e: Encoding, error: byte -> UriError, fault: UriError) {
    if Broken(s) then fault == InvalidPercentEncoding
    else exists i: nat :: i < |s| && OffendsAt(s, e.allowed, i) && fault == error(s[i])
  }

  lemma ValidateExactly(s: bytes, e: Encoding, error: byte -> UriError, fault: UriError)
    requires e == PATH || e == QUERY
    ensures Validate(s, e.allowed, error) == Some(fault) <==> Fault(s, e, error, fault)
  {
    BadPercentExactly(s);
    if !Broken(s) {
      BadCharIsFirst(s, e.allowed);
    }
  }

  ghost predicate NoFault(s: bytes, e: Encoding, error: byte -> UriError) {
    forall fault :: !Fault(s, e, error, fault)
  }

  /** The error is that of the first component that has one: scheme, authority, path, query, fragment. */
  ghost predicate IsFirstError(a: AuthorityRule, c: Components, fault: UriError) {
    var inPath, inQuery, inFragment :=
      (b: byte) => InvalidPathCharacter(b),
      (b: byte) => InvalidQueryCharacter(b),
      (b: byte) => InvalidFragmentCharacter(b);
    var schemeOk := c.scheme.None? || c.scheme.value == [] || IsAlpha(c.scheme.value[0]);
    var authorityOk := c.authority.None? || a(c.authority.value).Ok?;
    var queryOk := c.query.None? || NoFault(c.query.value, QUERY, inQuery);
    if !schemeOk then fault == InvalidScheme
    else if !authorityOk then fault == a(c.authority.value).error
    else if !NoFault(c.path, PATH, inPath) then Fault(c.path, PATH, inPath, fault)
    else if !queryOk then Fault(c.query.value, QUERY, inQuery, fault)
    else c.fragment.Some? && Fault(c.fragment.value, QUERY, inFragment, fault)
  }

  lemma FirstErrorExactly(a: AuthorityRule, c: Components, fault: UriError)
    ensures FirstError(a, c) == Some(fault) <==> IsFirstError(a, c, fault)
  {
    hide Validate, Fault;
    var inPath, inQuery, inFragment :=
      (b: byte) => InvalidPathCharacter(b),
      (b: byte) => InvalidQueryCharacter(b),
      (b: byte) => InvalidFragmentCharacter(b);
    FaultsOf(c.path, PATH, inPath, fault);
    if c.query.Some? {
      FaultsOf(c.query.value, QUERY, inQuery, fault);
    }
    if c.fragment.Some? {
      FaultsOf(c.fragment.value, QUERY, inFragment, fault);
    }
  }

  lemma FaultsOf(s: bytes, e: Encoding, error: byte -> UriError, fault: UriError)
    requires e == PATH || e == QUERY
    ensures Validate(s, e.allowed, error) == Some(fault) <==> Fault(s, e, error, fault)
    ensures Validate(s, e.allowed, error) == None <==> NoFault(s, e, error)
  {
    hide Validate, Fault;
    ValidateExactly(s, e, error, fault);
    var v := Validate(s, e.allowed, error);
    if v.Some? {
      ValidateExactly(s, e, error, v.value);
    } else {
      forall f
        ensures !Fault(s, e, error, f)
      {
        ValidateExactly(s, e, error, f);
      }
    }
  }

  /** `Uri::parse` accepts exactly the non-empty texts whose components are valid. */
  predicate Parses(a: AuthorityRule, s: bytes) {
    s != [] && FirstError(a, Split(s)) == None
  }

  /** The accessors. */
  function ComponentsOf(u: Uri): Components
    requires Offsets(u)
  {
    Components(
      if u.schemeEnd.None? then None else Some(u.source[..u.schemeEnd.value]),
      if u.authorityStart.None? then None else Some(u.source[u.authorityStart.value..u.authorityEnd.value]),
      u.source[u.pathStart..u.pathEnd],
      if u.queryStart.None? then None else Some(u.source[u.queryStart.value..u.queryEnd.value]),
      if u.fragmentStart.None? then None else Some(u.source[u.fragmentStart.value..]))
  }

  /** The offsets are in order and touch: with the delimiters between them, the components
      partition the source. */
  predicate Offsets(u: Uri) {
    var afterScheme := if u.schemeEnd.Some? then u.schemeEnd.value + 1 else 0;
    var afterQuery := if u.queryEnd.Some? then u.queryEnd.value else u.pathEnd;
    && (u.authorityStart.Some? <==> u.authorityEnd.Some?)
    && (u.queryStart.Some? <==> u.queryEnd.Some?)
    && (if u.authorityStart.None? then u.pathStart == afterScheme
        else u.authorityStart.value == afterScheme + 2 <= u.authorityEnd.value == u.pathStart)
    && u.pathStart <= u.pathEnd <= |u.source|
    && (u.queryStart.Some? ==> u.queryStart.value == u.pathEnd + 1 <= u.queryEnd.value <= |u.source|)
    && (if u.fragmentStart.Some? then u.fragmentStart.value == afterQuery + 1 <= |u.source|
        else afterQuery == |u.source|)
  }

  // ---- The cursor walk of `Uri::parse` ----

  function Between(s: bytes, from: nat, to: nat): bytes
    requires from <= to <= |s|
  {
    s[from..to]
  }

  method LocateScheme(input: bytes) returns (end: Option<nat>, pos: nat)
    ensures pos <= |input| && pos == if end.Some? then end.value + 1 else 0
    ensures TakeScheme(input) == (if end.Some? then Some(Between(input, 0, end.value)) else None, input[pos..])
  {
    assert input[0..] == input;
    var n := SkipWhile(input, 0, IsSchemeChar);
    end, pos := None, 0;
    if 0 < n < |input| && input[n] == COLON {
      end, pos := Some(n), n + 1;
    }
  }

  method LocateAuthority(input: bytes, from: nat) returns (start: Option<nat>, pos: nat)
    requires from <= |input|
    ensures pos <= |input|
    ensures if start.Some? then start.value == from + 2 <= pos else pos == from
    ensures TakeAuthority(input[from..])
         == (if start.Some? then Some(Between(input, start.value, pos)) else None, input[pos..])
  {
    start, pos := None, from;
    if from + 1 < |input| && input[from] == SLASH && input[from + 1] == SLASH {
      start := Some(from + 2);
      DropTwice(input, from, 2);
      pos := SkipWhile(input, from + 2, NotAuthorityEnd);
      DropTwice(input, from + 2, pos - (from + 2));
    }
  }

  method LocatePath(input: bytes, from: nat) returns (pos: nat)
    requires from <= |input|
    ensures from <= pos <= |input|
    ensures TakePath(input[from..]) == (Between(input, from, pos), input[pos..])
  {
    pos := SkipWhile(input, from, NotPathEnd);
    DropTwice(input, from, pos - from);
  }

  method LocateQuery(input: bytes, from: nat) returns (start: Option<nat>, pos: nat)
    requires from <= |input|
    ensures pos <= |input|
    ensures if start.Some? then start.value == from + 1 <= pos else pos == from
    ensures TakeQuery(input[from..])
         == (if start.Some? then Some(Between(input, start.value, pos)) else None, input[pos..])
  {
    start, pos := None, from;
    if from < |input| && input[from] == QUESTION {
      start := Some(from + 1);
      DropTwice(input, from, 1);
      pos := SkipWhile(input, from + 1, NotHash);
      DropTwice(input, from + 1, pos - (from + 1));
    }
  }

  method LocateFragment(input: bytes, from: nat) returns (start: Option<nat>)
    requires from <= |input|
    requires input[from..] == FragmentText(TakeFragment(input[from..]))
    ensures if start.Some? then start.value == from + 1 <= |input| else from == |input|
    ensures TakeFragment(input[from..]) == if start.Some? then Some(input[start.value..]) else None
  {
    start := None;
    if from < |input| && input[from] == HASH {
      start := Some(from + 1);
      DropTwice(input, from, 1);
    }
  }

  method Locate(input: bytes) returns (u: Uri)
    ensures u.source == input && Offsets(u) && ComponentsOf(u) == Split(input)
  {
    hide TakeScheme, TakeAuthority, TakePath, TakeQuery, TakeFragment, FragmentText;
    var schemeEnd, p1 := LocateScheme(input);
    var authorityStart, p2 := LocateAuthority(input, p1);
    var p3 := LocatePath(input, p2);
    AfterPathText(input[p2..]);
    var queryStart, p4 := LocateQuery(input, p3);
    var fragmentStart := LocateFragment(input, p4);
    u := Uri(input, schemeEnd, authorityStart, if authorityStart.Some? then Some(p2) else None, None, None,
             p2, p3, queryStart, if queryStart.Some? then Some(p4) else None, fragmentStart);
  }

  /** `Uri::parse`: which texts are accepted, what the components are, and the first error. */
  method Parse(a: AuthorityRule, input: bytes) returns (r: Result<Uri, UriError>)
    ensures r.Ok? <==> Parses(a, input)
    ensures r.Ok? ==> r.value.source == input && Offsets(r.value) && ComponentsOf(r.value) == Split(input)
    ensures r.Ok? && r.value.authorityStart.Some? ==>
              var authority := a(Split(input).authority.value).value;
              && r.value.hostEnd == Some(r.value.authorityStart.value + authority.hostEnd)
              && r.value.port == authority.port
    ensures r.Err? ==> Some(r.error) == if input == [] then Some(Empty) else FirstError(a, Split(input))
  {
    hide Split, FirstError;
    if input == [] {
      return Err(Empty);
    }
    var u := Locate(input);
    var bad := FirstError(a, ComponentsOf(u));
    if bad.Some? {
      return Err(bad.value);
    }
    if u.authorityStart.Some? {
      AcceptedAuthority(a, ComponentsOf(u));
      var authority := a(ComponentsOf(u).authority.value).value;
      u := u.(hostEnd := Some(u.authorityStart.value + authority.hostEnd), port := authority.port);
    }
    r := Ok(u);
  }

  lemma AcceptedAuthority(a: AuthorityRule, c: Components)
    requires FirstError(a, c) == None && c.authority.Some?
    ensures a(c.authority.value).Ok?
  {
  }

  /** The offsets of a parsed reference partition its source, and the pieces rebuild it. */
  lemma OffsetsPartitionTheSource(u: Uri)
    requires Offsets(u) && ComponentsOf(u) == Split(u.source)
    ensures Text(ComponentsOf(u)) == u.source
  {
    SplitThenText(u.source);
  }
}
