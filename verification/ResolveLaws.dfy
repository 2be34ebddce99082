/** What resolution keeps of the base and takes from the reference, stated on their texts
    (the six cases of section 5.2.2 of RFC 3986). */
module ResolveLaws {
  import opened Scan
  import opened DotSegments
  import opened Uri
  import opened UriResolve

  // ---- A text as what stands in front of its path, its path, and what stands behind it ----

  /** "scheme:", if there is one. */
  function SchemePart(c: Components): bytes { SchemeText(c.scheme, []) }

  /** "scheme:" and "//authority", as far as they are there. */
  function RootPart(c: Components): bytes { SchemeText(c.scheme, AuthorityText(c.authority, [])) }

  /** "?query" and "#fragment", as far as they are there. */
  function TailPart(c: Components): bytes { QueryText(c.query, FragmentText(c.fragment)) }

  function UpToHash(t: bytes): bytes { t[..Span(t, NotHash)] }

  function UpToPathEnd(t: bytes): bytes { t[..Span(t, NotPathEnd)] }

  lemma SchemeThen(o: Option<bytes>, rest: bytes)
    ensures SchemeText(o, rest) == SchemeText(o, []) + rest
  {
    SchemePushed(o, rest);
    SchemePushed(o, []);
    EmptyConcat(if o.Some? then o.value + [COLON] else []);
  }

  lemma AuthorityThen(o: Option<bytes>, rest: bytes)
    ensures AuthorityText(o, rest) == AuthorityText(o, []) + rest
  {
    if o.Some? {
      EmptyConcat(o.value);
      ConcatAssociative([SLASH, SLASH], o.value, rest);
    } else {
      EmptyConcat(rest);
    }
  }

  lemma QueryThen(o: Option<bytes>, rest: bytes)
    ensures QueryText(o, rest) == QueryText(o, []) + rest
  {
    if o.Some? {
      EmptyConcat(o.value);
      ConcatAssociative([QUESTION], o.value, rest);
    } else {
      EmptyConcat(rest);
    }
  }

  lemma RootThen(c: Components, rest: bytes)
    ensures SchemeText(c.scheme, AuthorityText(c.authority, rest)) == RootPart(c) + rest
    ensures RootPart(c) == SchemePart(c) + AuthorityText(c.authority, [])
  {
    hide SchemeText, AuthorityText;
    AuthorityThen(c.authority, rest);
    SchemeThen(c.scheme, AuthorityText(c.authority, rest));
    SchemeThen(c.scheme, AuthorityText(c.authority, []));
    ConcatAssociative(SchemeText(c.scheme, []), AuthorityText(c.authority, []), rest);
  }

  lemma TextParts(c: Components)
    ensures Text(c) == RootPart(c) + (c.path + TailPart(c))
  {
    hide SchemeText, AuthorityText, QueryText, RootPart;
    RootThen(c, c.path + TailPart(c));
  }

  /** Every text is these three parts of it. */
  lemma Parts(t: bytes)
    ensures t == RootPart(Split(t)) + (Split(t).path + TailPart(Split(t)))
  {
    hide Split, Text, RootPart, TailPart;
    SplitThenText(t);
    TextParts(Split(t));
  }

  lemma NoMarks(t: bytes)
    ensures var c := Split(t);
            && All(RootPart(c) + c.path, NotPathEnd)
            && All(QueryText(c.query, []), NotHash)
  {
    hide IsSchemeChar, NotAuthorityEnd, NotPathEnd, NotHash, RootPart;
    var s1 := TakeScheme(t).1;
    var s2 := TakeAuthority(s1).1;
    SplitShapes(t);
    RootMarks(Split(t));
    QueryMarks(TakeQuery(TakePath(s2).1).0);
    assert All(Split(t).path, NotPathEnd);
    AllJoin(RootPart(Split(t)), Split(t).path, NotPathEnd);
    QueryIsTaken(TakePath(s2).1);
  }

  lemma AllJoin<T>(a: seq<T>, b: seq<T>, p: T -> bool)
    requires All(a, p) && All(b, p)
    ensures All(a + b, p)
  {
  }

  lemma QueryIsTaken(s: bytes)
    ensures var q := TakeQuery(s).0; q.Some? ==> All(q.value, NotHash)
  {
  }

  lemma QueryMarks(q: Option<bytes>)
    ensures (q.Some? ==> All(q.value, NotHash)) ==> All(QueryText(q, []), NotHash)
  {
    if q.Some? {
      EmptyConcat(q.value);
    }
  }

  lemma RootMarks(c: Components)
    requires c.scheme.Some? ==> All(c.scheme.value, IsSchemeChar)
    requires c.authority.Some? ==> All(c.authority.value, NotAuthorityEnd)
    ensures All(RootPart(c), NotPathEnd)
  {
    hide SchemeText, AuthorityText;
    SchemeMarks(c.scheme);
    AuthorityMarks(c.authority);
    RootThen(c, []);
    AllJoin(SchemePart(c), AuthorityText(c.authority, []), NotPathEnd);
  }

  lemma SchemeMarks(o: Option<bytes>)
    requires o.Some? ==> All(o.value, IsSchemeChar)
    ensures All(SchemeText(o, []), NotPathEnd)
  {
    if o.Some? {
      assert forall i :: 0 <= i < |o.value| ==> IsSchemeChar(o.value[i]);
    }
  }

  lemma AuthorityMarks(o: Option<bytes>)
    requires o.Some? ==> All(o.value, NotAuthorityEnd)
    ensures All(AuthorityText(o, []), NotPathEnd)
  {
    if o.Some? {
      assert forall i :: 0 <= i < |o.value| ==> NotAuthorityEnd(o.value[i]);
    }
  }

  /** Up to its "?" or "#" a text is its root and path; up to its "#" also its query. */
  lemma Prefixes(t: bytes)
    ensures var c := Split(t);
            && UpToPathEnd(t) == RootPart(c) + c.path
            && UpToHash(t) == RootPart(c) + c.path + QueryText(c.query, [])
  {
    hide Split, RootPart, NotPathEnd, NotHash;
    var c := Split(t);
    var head, q, f := RootPart(c) + c.path, QueryText(c.query, []), FragmentText(c.fragment);
    Parts(t);
    NoMarks(t);
    QueryThen(c.query, f);
    ConcatAssociative(RootPart(c), c.path, TailPart(c));
    TailStarts(c);
    SpanOfSplit(head, TailPart(c), NotPathEnd);
    ConcatAssociative(head, q, f);
    PathEndIsNoHash(head);
    AllJoin(head, q, NotHash);
    SpanOfSplit(head + q, f, NotHash);
    CutBack(head, TailPart(c));
    CutBack(head + q, f);
  }

  lemma CutBack(a: bytes, b: bytes)
    ensures (a + b)[..|a|] == a
  {
  }

  lemma PathEndIsNoHash(s: bytes)
    requires All(s, NotPathEnd)
    ensures All(s, NotHash)
  {
  }

  lemma TailStarts(c: Components)
    ensures TailPart(c) == [] || !NotPathEnd(TailPart(c)[0])
    ensures FragmentText(c.fragment) == [] || !NotHash(FragmentText(c.fragment)[0])
  {
  }

  // ---- What kind of reference a text is ----

  lemma NothingTaken(t: bytes)
    ensures t != [] && !IsSchemeChar(t[0]) ==> TakeScheme(t) == (None, t)
    ensures !([SLASH, SLASH] <= t) ==> TakeAuthority(t) == (None, t)
    ensures t != [] && !NotPathEnd(t[0]) ==> TakePath(t) == ([], t)
  {
    hide IsSchemeChar, NotPathEnd;
    assert t[0..] == t && t[..0] == [];
  }

  lemma HashStarts(t: bytes)
    requires [HASH] <= t
    ensures Split(t) == Components(None, None, [], None, Some(t[1..]))
  {
    hide TakeScheme, TakeAuthority, TakePath;
    assert t[0] == HASH;
    NothingTaken(t);
  }

  lemma QuestionStarts(t: bytes)
    requires [QUESTION] <= t
    ensures var c := Split(t);
            && c.scheme == None && c.authority == None && c.path == [] && c.query.Some?
            && TailPart(c) == t
  {
    hide TakeScheme, TakeAuthority, TakePath, TailPart;
    assert t[0] == QUESTION;
    NothingTaken(t);
    Parts(t);
    EmptyRoot(Split(t));
    EmptyConcat(TailPart(Split(t)));
  }

  lemma SlashStarts(t: bytes)
    requires [SLASH] <= t
    ensures Split(t).scheme == None && (Split(t).authority.Some? <==> [SLASH, SLASH] <= t)
    ensures !([SLASH, SLASH] <= t) ==> Split(t).path != [] && Split(t).path[0] == SLASH
  {
    assert t[0] == SLASH;
    assert t[0..] == t;
  }

  // ---- The laws ----

  /** A guard stands in front of the path only when no authority does, so it can be moved. */
  lemma GuardedText(c: Components)
    ensures Text(Guarded(c)) == RootPart(c) + (Guard(c) + c.path) + TailPart(c)
    ensures c.scheme.None? && Guard(c) != [] ==> RootPart(c) == []
  {
    hide Guard, Text, TailPart;
    TextParts(Guarded(c));
    SameRoot(Guarded(c), c);
    SameTail(Guarded(c), c);
    ConcatAssociative(RootPart(c), Guard(c) + c.path, TailPart(c));
    GuardNeedsNoAuthority(c);
  }

  lemma SameRoot(c: Components, d: Components)
    requires c.scheme == d.scheme && c.authority == d.authority
    ensures RootPart(c) == RootPart(d)
  {
  }

  lemma GuardNeedsNoAuthority(c: Components)
    ensures Guard(c) != [] ==> c.authority.None?
  {
  }

  /** A colon that no "/" stands in front of. */
  ghost predicate ColonFirst(path: bytes) {
    exists i :: 0 <= i < |path| && path[i] == COLON && SLASH !in path[..i]
  }

  /** Exactly when a path is guarded: without an authority, "//" would be read as one; without a scheme
      too, a colon in the first segment would end one. */
  lemma GuardExactly(c: Components)
    ensures Guard(c) == [SLASH, DOT] <==> c.authority.None? && [SLASH, SLASH] <= c.path
    ensures Guard(c) == [DOT, SLASH] <==>
              c.authority.None? && c.scheme.None? && !([SLASH, SLASH] <= c.path) && ColonFirst(c.path)
    ensures Guard(c) == [] || Guard(c) == [SLASH, DOT] || Guard(c) == [DOT, SLASH]
  {
    var path := c.path;
    var n := Span(path, NotSlash);
    assert All(path[..n], NotSlash);
    if ColonFirst(path) {
      var i :| 0 <= i < |path| && path[i] == COLON && SLASH !in path[..i];
      assert i < n ==> path[..n][i] == COLON;
    }
    if COLON in path[..n] {
      var i :| 0 <= i < n && path[..n][i] == COLON;
      assert path[..i] == path[..n][..i];
      assert SLASH !in path[..i];
      assert path[i] == COLON;
    }
  }

  /** A base that was parsed keeps its path without a guard, but for one without scheme and authority
      whose first segment has a colon in it: that one is guarded by "./". */
  lemma GuardOfParsed(a: AuthorityRule, base: bytes)
    requires Parses(a, base)
    ensures var b := Split(base);
            Guard(b) == if b.scheme.None? && b.authority.None? && COLON in b.path[..Span(b.path, NotSlash)]
                        then [DOT, SLASH] else []
  {
    hide Split, Parses, Acceptable;
    ParsedIsAcceptable(a, base);
  }

  /** "#f": the base up to its "#", and the reference. */
  lemma FragmentReference(a: AuthorityRule, base: bytes, r: bytes)
    requires Parses(a, base) && Parses(a, r) && [HASH] <= r
    ensures ResolvedText(base, r) == Guard(Split(base)) + UpToHash(base) + r
  {
    hide Split, Parses, Guard, UpToHash;
    var b := Split(base);
    var t := Target(b, Split(r));
    HashStarts(r);
    HeadSplit(r);
    GuardOfParsed(a, base);
    SameGuard(t, b);
    GuardedText(t);
    Prefixes(base);
    QueryThen(b.query, r);
    GuardInFront(b, t, QueryText(b.query, []) + r);
    ConcatAssociative(Guard(b), RootPart(b) + b.path, QueryText(b.query, []) + r);
    ConcatAssociative(RootPart(b) + b.path, QueryText(b.query, []), r);
    ConcatAssociative(Guard(b), UpToHash(base), r);
  }

  /** "?q": the base up to its "?" or "#", and the reference. */
  lemma QueryReference(a: AuthorityRule, base: bytes, r: bytes)
    requires Parses(a, base) && Parses(a, r) && [QUESTION] <= r
    ensures ResolvedText(base, r) == Guard(Split(base)) + UpToPathEnd(base) + r
  {
    hide Split, Parses, Guard, UpToPathEnd;
    var b := Split(base);
    var t := Target(b, Split(r));
    QuestionStarts(r);
    GuardOfParsed(a, base);
    SameGuard(t, b);
    GuardedText(t);
    Prefixes(base);
    GuardInFront(b, t, r);
    ConcatAssociative(Guard(b), RootPart(b) + b.path, r);
  }

  lemma SameGuard(c: Components, d: Components)
    requires c.scheme == d.scheme && c.authority == d.authority && c.path == d.path
    ensures Guard(c) == Guard(d) && RootPart(c) == RootPart(d)
  {
  }

  lemma GuardInFront(b: Components, t: Components, tail: bytes)
    requires Guard(b) != [] ==> b.scheme.None? && b.authority.None?
    ensures RootPart(b) + (Guard(b) + b.path) + tail == Guard(b) + ((RootPart(b) + b.path) + tail)
  {
    hide Guard;
    if Guard(b) != [] {
      EmptyConcat(Guard(b) + b.path);
      EmptyConcat(b.path);
      ConcatAssociative(Guard(b), b.path, tail);
    } else {
      EmptyConcat(b.path);
      EmptyConcat(RootPart(b) + b.path + tail);
    }
  }

  /** "//host...": the scheme of the base, and the reference with its dot segments removed. */
  lemma AuthorityReference(a: AuthorityRule, base: bytes, r: bytes)
    requires Parses(a, base) && Parses(a, r) && [SLASH, SLASH] <= r
    ensures var c := Split(r);
            ResolvedText(base, r)
            == SchemePart(Split(base)) + RootPart(c) + RemoveDotSegments(c.path) + TailPart(c)
  {
    hide Split, Parses, RemoveDotSegments, TailPart;
    var b, c := Split(base), Split(r);
    var p := RemoveDotSegments(c.path);
    SlashStarts(r);
    var t := Target(b, c);
    GuardedText(t);
    RootThen(t, []);
    RootThen(c, []);
    EmptyConcat(p);
    EmptyConcat(AuthorityText(c.authority, []));
    SameTail(t, c);
  }

  lemma SameTail(c: Components, d: Components)
    requires c.query == d.query && c.fragment == d.fragment
    ensures TailPart(c) == TailPart(d)
  {
  }

  /** "/p...": the scheme and the authority of the base, and the path of the reference with its dot
      segments removed. */
  lemma AbsolutePathReference(a: AuthorityRule, base: bytes, r: bytes)
    requires Parses(a, base) && Parses(a, r) && [SLASH] <= r && !([SLASH, SLASH] <= r)
    ensures var b, c := Split(base), Split(r);
            var p := RemoveDotSegments(c.path);
            ResolvedText(base, r) == RootPart(b) + (Guard(b.(path := p)) + p) + TailPart(c)
  {
    hide Split, Parses, RemoveDotSegments, TailPart, Guard;
    var b, c := Split(base), Split(r);
    SlashStarts(r);
    var t := Target(b, c);
    GuardedText(t);
    SameGuard(t, b.(path := t.path));
    SameTail(t, c);
  }

  /** The directory of the base: its path up to the last "/", and "/" for an authority alone. */
  function Directory(b: Components): bytes {
    if b.authority.Some? && b.path == [] then [SLASH] else UpToLastSlash(b.path)
  }

  /** A relative path: the scheme and the authority of the base, and the path behind the directory of
      the base with the dot segments removed. */
  lemma RelativePathReference(a: AuthorityRule, base: bytes, r: bytes)
    requires Parses(a, base) && Parses(a, r)
    requires var c := Split(r); c.scheme.None? && c.authority.None? && c.path != [] && c.path[0] != SLASH
    ensures var b, c := Split(base), Split(r);
            var p := RemoveDotSegments(Directory(b) + c.path);
            ResolvedText(base, r) == RootPart(b) + (Guard(b.(path := p)) + p) + TailPart(c)
  {
    hide Split, Parses, RemoveDotSegments, TailPart, Guard, UpToLastSlash;
    var b, c := Split(base), Split(r);
    var t := Target(b, c);
    GuardedText(t);
    SameGuard(t, b.(path := t.path));
    SameTail(t, c);
  }

  /** A reference with a scheme ignores the base. */
  lemma AbsoluteReference(a: AuthorityRule, base: bytes, r: bytes)
    requires Parses(a, base) && Parses(a, r) && Split(r).scheme.Some?
    ensures var c := Split(r);
            var p := RemoveDotSegments(c.path);
            ResolvedText(base, r) == RootPart(c) + (Guard(c.(path := p)) + p) + TailPart(c)
  {
    hide Split, Parses, RemoveDotSegments, TailPart, Guard, Merge, RootPart, Text, Guarded;
    var c := Split(r);
    var t := Target(Split(base), c);
    assert t == c.(path := RemoveDotSegments(c.path));
    GuardedText(t);
    SameRoot(t, c);
    SameTail(t, c);
  }

  /** Every reference is of one of these kinds. */
  lemma SixKinds(a: AuthorityRule, r: bytes)
    requires Parses(a, r)
    ensures var c := Split(r);
            || c.scheme.Some? || [HASH] <= r || [QUESTION] <= r || [SLASH] <= r
            || (c.authority.None? && c.path != [] && c.path[0] != SLASH)
  {
    hide Split, Parses, RootPart, TailPart;
    var c := Split(r);
    ParsedIsAcceptable(a, r);
    Parts(r);
    EmptyRoot(c);
    if c.scheme.None? && c.authority.None? {
      EmptyConcat(c.path + TailPart(c));
      EmptyConcat(TailPart(c));
      TailBegins(c);
      if c.path != [] {
        assert r[0] == c.path[0];
      }
    } else if c.scheme.None? {
      RootOfAuthority(c);
      assert r[0] == RootPart(c)[0];
    }
  }

  lemma EmptyRoot(c: Components)
    ensures c.scheme.None? && c.authority.None? ==> RootPart(c) == []
  {
  }

  lemma RootOfAuthority(c: Components)
    requires c.scheme.None? && c.authority.Some?
    ensures RootPart(c) != [] && RootPart(c)[0] == SLASH
  {
  }

  lemma TailBegins(c: Components)
    ensures c.query.Some? || c.fragment.Some? ==>
              TailPart(c) != [] && (TailPart(c)[0] == QUESTION || TailPart(c)[0] == HASH)
  {
  }

  // ---- An example ----

  const EXAMPLE := Components(Some([104, 116, 116, 112]), Some([97]), [SLASH, 98], Some([113]), None)

  /** "http://a/b?q" and "#f" give "http://a/b?q#f". */
  lemma QueryIsKept(a: AuthorityRule)
    requires a([97]).Ok?
    ensures var base: bytes := [104, 116, 116, 112, 58, 47, 47, 97, 47, 98, 63, 113];
            && Parses(a, base) && Parses(a, [HASH, 102])
            && ResolvedText(base, [HASH, 102]) == base + [HASH, 102]
  {
    hide Parses, Split, UpToHash, Text;
    var base: bytes := [104, 116, 116, 112, 58, 47, 47, 97, 47, 98, 63, 113];
    ExampleText();
    ExampleIsAcceptable(a);
    BuildThenParse(a, EXAMPLE);
    FragmentParses(a);
    FragmentReference(a, base, [HASH, 102]);
    ExampleUpToHash(base);
    EmptyConcat(base);
  }

  lemma ExampleText()
    ensures Text(Guarded(EXAMPLE)) == [104, 116, 116, 112, 58, 47, 47, 97, 47, 98, 63, 113]
    ensures EXAMPLE != NOTHING && Guard(EXAMPLE) == [] && Guarded(EXAMPLE) == EXAMPLE
  {
    EmptyConcat(EXAMPLE.path);
  }

  lemma ExampleIsAcceptable(a: AuthorityRule)
    requires a([97]).Ok?
    ensures Acceptable(a, EXAMPLE)
  {
  }

  lemma FragmentParses(a: AuthorityRule)
    ensures Parses(a, [HASH, 102])
  {
    var c := Components(None, None, [], None, Some([102]));
    assert Good([102], QUERY) && Good([], PATH);
    EmptyConcat<byte>([]);
    assert Guard(c) == [];
    BuildThenParse(a, c);
    assert Text(Guarded(c)) == [HASH, 102];
  }

  lemma ExampleUpToHash(base: bytes)
    requires base == [104, 116, 116, 112, 58, 47, 47, 97, 47, 98, 63, 113]
    ensures UpToHash(base) == base
  {
    EmptyConcat(base);
    SpanOfSplit(base, [], NotHash);
  }
}
