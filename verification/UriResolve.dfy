/** Building a reference from components, and resolving one against a base
    (sections 5.2 and 5.3 of RFC 3986). */
module UriResolve {
  import opened Scan
  import opened DotSegments
  import opened Uri

  // ---- Recomposition with guards ----

  /** What `build_uri` writes in front of a path that would be read as an authority or a scheme. */
  function Guard(c: Components): bytes {
    if c.authority.Some? then []
    else if [SLASH, SLASH] <= c.path then [SLASH, DOT]
    else if c.scheme.None? && FirstSegmentContainsColon(c.path) then [DOT, SLASH]
    else []
  }

  function Guarded(c: Components): Components { c.(path := Guard(c) + c.path) }

  /** What is written in front of the path: an authority, or a guard. */
  function Lead(c: Components): bytes {
    if c.authority.Some? then [SLASH, SLASH] + c.authority.value else Guard(c)
  }

  function Optional(delimiter: byte, o: Option<bytes>): bytes {
    if o.None? then [] else [delimiter] + o.value
  }

  /** `build_uri`. */
  method BuildUri(c: Components) returns (result: bytes)
    ensures result == Text(Guarded(c))
  {
    hide Text, FirstSegmentContainsColon;
    var scheme := if c.scheme.Some? then c.scheme.value + [COLON] else [];
    var lead := [];
    if c.authority.Some? {
      lead := [SLASH, SLASH] + c.authority.value;
    } else if [SLASH, SLASH] <= c.path {
      lead := [SLASH, DOT];
    } else if c.scheme.None? && FirstSegmentContainsColon(c.path) {
      lead := [DOT, SLASH];
    }
    result := scheme + lead;
    result := result + c.path;
    if c.query.Some? {
      result := result + [QUESTION] + c.query.value;
    }
    if c.fragment.Some? {
      result := result + [HASH] + c.fragment.value;
    }
    Pushed(scheme + lead + c.path, QUESTION, c.query);
    Pushed(scheme + lead + c.path + Optional(QUESTION, c.query), HASH, c.fragment);
    TextFromLeft(c);
  }

  lemma Pushed(result: bytes, delimiter: byte, o: Option<bytes>)
    ensures result + Optional(delimiter, o) == if o.Some? then result + [delimiter] + o.value else result
  {
  }

  lemma TextFromLeft(c: Components)
    ensures Text(Guarded(c))
         == (if c.scheme.Some? then c.scheme.value + [COLON] else []) + Lead(c) + c.path
            + Optional(QUESTION, c.query) + Optional(HASH, c.fragment)
  {
    hide Guard;
    var scheme := if c.scheme.Some? then c.scheme.value + [COLON] else [];
    var f := FragmentText(c.fragment);
    var q := QueryText(c.query, f);
    assert f == Optional(HASH, c.fragment);
    assert q == Optional(QUESTION, c.query) + f;
    var p := (Guard(c) + c.path) + q;
    LeadText(c, q);
    assert Text(Guarded(c)) == scheme + (Lead(c) + (c.path + q)) by {
      TextIs(Guarded(c));
      SchemePushed(c.scheme, Lead(c) + (c.path + q));
    }
    ConcatAssociative(scheme, Lead(c), c.path + q);
    ConcatAssociative(scheme + Lead(c), c.path, q);
    ConcatAssociative(scheme + Lead(c) + c.path, Optional(QUESTION, c.query), f);
  }

  lemma SchemePushed(o: Option<bytes>, rest: bytes)
    ensures SchemeText(o, rest) == (if o.Some? then o.value + [COLON] else []) + rest
  {
    if o.Some? {
      ConcatAssociative(o.value, [COLON], rest);
    } else {
      EmptyConcat(rest);
    }
  }

  lemma LeadText(c: Components, q: bytes)
    ensures AuthorityText(c.authority, (Guard(c) + c.path) + q) == Lead(c) + (c.path + q)
  {
    ConcatAssociative(Guard(c), c.path, q);
    if c.authority.Some? {
      EmptyConcat(c.path + q);
      ConcatAssociative([SLASH, SLASH], c.authority.value, c.path + q);
    }
  }

  lemma TextIs(c: Components)
    ensures var rest := c.path + QueryText(c.query, FragmentText(c.fragment));
            Text(c) == SchemeText(c.scheme, AuthorityText(c.authority, rest))
  {
  }

  // ---- Valid components can be parsed back ----

  /** Every component is valid by itself; with an authority the path is empty or absolute. */
  ghost predicate Acceptable(a: AuthorityRule, c: Components) {
    && (c.scheme.Some? ==> c.scheme.value != [] && IsAlpha(c.scheme.value[0]) && All(c.scheme.value, IsSchemeChar))
    && (c.authority.Some? ==>
          && All(c.authority.value, NotAuthorityEnd) && a(c.authority.value).Ok?
          && (c.path == [] || c.path[0] == SLASH))
    && Good(c.path, PATH)
    && (c.query.Some? ==> Good(c.query.value, QUERY))
    && (c.fragment.Some? ==> Good(c.fragment.value, QUERY))
  }

  const NOTHING := Components(None, None, [], None, None)

  lemma ValidateIsGood(s: bytes, e: Encoding, error: byte -> UriError)
    requires e == PATH || e == QUERY
    ensures Validate(s, e.allowed, error) == None <==> Good(s, e)
  {
    ScansAcceptGood(s, e);
  }

  lemma GoodPathHasNoEnd(s: bytes, e: Encoding)
    requires Good(s, e) && (e == PATH || e == QUERY)
    ensures All(s, NotHash) && (e == PATH ==> All(s, NotPathEnd))
  {
    forall i | 0 <= i < |s|
      ensures s[i] != HASH && (e == PATH ==> s[i] != QUESTION)
    {
      assert GoodAt(s, i, e);
    }
  }

  /** What a successful parse guarantees about the components. */
  lemma ParsedIsAcceptable(a: AuthorityRule, s: bytes)
    requires Parses(a, s)
    ensures Acceptable(a, Split(s)) && Split(s) != NOTHING
    ensures Split(s).authority.None? ==> !([SLASH, SLASH] <= Split(s).path)
  {
    hide Good, Text, Split, Validate;
    var c := Split(s);
    SplitThenText(s);
    SplitShapes(s);
    ValidateIsGood(c.path, PATH, (b: byte) => InvalidPathCharacter(b));
    if c.query.Some? {
      ValidateIsGood(c.query.value, QUERY, (b: byte) => InvalidQueryCharacter(b));
    }
    if c.fragment.Some? {
      ValidateIsGood(c.fragment.value, QUERY, (b: byte) => InvalidFragmentCharacter(b));
    }
    TextOfNothing(c);
  }

  /** What the scans guarantee about the components of any text. */
  lemma SplitShapes(s: bytes)
    ensures var c := Split(s);
            && (c.scheme.Some? ==> c.scheme.value != [] && All(c.scheme.value, IsSchemeChar))
            && (c.authority.Some? ==> All(c.authority.value, NotAuthorityEnd) && (c.path == [] || c.path[0] == SLASH))
            && (c.authority.None? ==> !([SLASH, SLASH] <= c.path))
  {
    hide IsSchemeChar, NotAuthorityEnd;
    var s1 := TakeScheme(s).1;
    AuthorityShape(s1);
  }

  lemma AuthorityShape(s: bytes)
    ensures var (authority, rest) := TakeAuthority(s);
            && (authority.Some? ==> All(authority.value, NotAuthorityEnd)
                                    && (TakePath(rest).0 == [] || TakePath(rest).0[0] == SLASH))
            && (authority.None? ==> !([SLASH, SLASH] <= TakePath(rest).0))
  {
  }

  lemma TextOfNothing(c: Components)
    ensures Text(c) == [] <==> c == NOTHING
  {
  }

  lemma GuardedIsSeparable(a: AuthorityRule, c: Components)
    requires Acceptable(a, c)
    ensures Separable(Guarded(c)) && Acceptable(a, Guarded(c))
  {
    var g := Guard(c);
    assert Good(g, PATH);
    GoodConcat(g, c.path, PATH);
    GoodPathHasNoEnd(g + c.path, PATH);
    if c.query.Some? {
      GoodPathHasNoEnd(c.query.value, QUERY);
    }
    if c.authority.None? {
      GuardSeparates(c);
    }
    EmptyConcat(c.path);
  }

  lemma GuardSeparates(c: Components)
    requires c.authority.None?
    ensures !([SLASH, SLASH] <= Guard(c) + c.path)
    ensures c.scheme.None? ==> !FirstSegmentContainsColon(Guard(c) + c.path)
  {
    var g, p := Guard(c), Guard(c) + c.path;
    EmptyConcat(c.path);
    if g == [SLASH, DOT] {
      assert p[0] == SLASH && p[1] == DOT;
    } else if g == [DOT, SLASH] {
      assert p[0] == DOT && p[1] == SLASH;
      assert p == [DOT] + p[1..];
      SpanOfSplit([DOT], p[1..], NotSlash);
    } else {
      assert p == c.path;
    }
  }

  /** Acceptable components survive being built and parsed: only the path may have gained its
      guard. The one thing that cannot be built is the empty reference. */
  lemma BuildThenParse(a: AuthorityRule, c: Components)
    requires Acceptable(a, c)
    ensures Parses(a, Text(Guarded(c))) <==> c != NOTHING
    ensures Split(Text(Guarded(c))) == Guarded(c)
  {
    hide Good, Text, Split;
    var g := Guarded(c);
    GuardedIsSeparable(a, c);
    TextThenSplit(g);
    TextOfNothing(g);
    NothingUnguarded(c);
    ValidateIsGood(g.path, PATH, (b: byte) => InvalidPathCharacter(b));
    if c.query.Some? {
      ValidateIsGood(c.query.value, QUERY, (b: byte) => InvalidQueryCharacter(b));
    }
    if c.fragment.Some? {
      ValidateIsGood(c.fragment.value, QUERY, (b: byte) => InvalidFragmentCharacter(b));
    }
  }

  lemma NothingUnguarded(c: Components)
    ensures Guarded(c) == NOTHING <==> c == NOTHING
  {
  }

  // ---- Reference resolution ----

  /** The base path up to and including its last "/". */
  function UpToLastSlash(path: bytes): (r: bytes)
    ensures r <= path
    ensures r == [] || r[|r| - 1] == SLASH
    ensures SLASH !in path[|r|..]
    decreases |path|
  {
    if path == [] || path[|path| - 1] == SLASH then path
    else
      var r := UpToLastSlash(path[..|path| - 1]);
      assert path[|r|..] == path[..|path| - 1][|r|..] + [path[|path| - 1]];
      r
  }

  /** Section 5.2.3 of RFC 3986. */
  function Merge(base: Components, path: bytes): bytes {
    if base.authority.Some? && base.path == [] then [SLASH] + path
    else UpToLastSlash(base.path) + path
  }

  /** Section 5.2.2 of RFC 3986. */
  function Target(base: Components, r: Components): Components {
    if r.scheme.Some? then
      r.(path := RemoveDotSegments(r.path))
    else if r.authority.Some? then
      r.(scheme := base.scheme, path := RemoveDotSegments(r.path))
    else if r.path == [] then
      base.(query := if r.query.Some? then r.query else base.query, fragment := r.fragment)
    else if r.path[0] == SLASH then
      base.(path := RemoveDotSegments(r.path), query := r.query, fragment := r.fragment)
    else
      base.(path := RemoveDotSegments(Merge(base, r.path)), query := r.query, fragment := r.fragment)
  }

  lemma PathsAreSlashFree()
    ensures SlashStandsAlone(PATH)
  {
  }

  lemma RemovedPathIsGood(path: bytes)
    requires Good(path, PATH)
    ensures Good(RemoveDotSegments(path), PATH)
    ensures path == [] || path[0] == SLASH ==> RemoveDotSegments(path) == [] || RemoveDotSegments(path)[0] == SLASH
  {
    PathsAreSlashFree();
    RewriteKeepsGood(path, [], PATH);
    if path != [] && path[0] == SLASH {
      RewriteStaysAbsolute(path, []);
    } else if path == [] {
      RewriteNothing([]);
    }
  }

  lemma MergedPathIsGood(base: Components, path: bytes)
    requires Good(base.path, PATH) && Good(path, PATH)
    ensures Good(Merge(base, path), PATH)
    ensures base.authority.Some? && (base.path == [] || base.path[0] == SLASH) ==> [SLASH] <= Merge(base, path)
  {
    PathsAreSlashFree();
    GoodSlash(path, PATH);
    var dir := UpToLastSlash(base.path);
    if dir != [] {
      GoodDirectory(base.path, |dir|);
      assert dir == base.path[..|dir|];
    }
    GoodConcat(dir, path, PATH);
    if dir == [] && base.path != [] {
      assert base.path[0] in base.path[|dir|..];
    }
  }

  /** A path cut just after a "/" is still well formed. */
  lemma GoodDirectory(path: bytes, k: nat)
    requires Good(path, PATH) && 0 < k <= |path| && path[k - 1] == SLASH
    ensures Good(path[..k], PATH)
  {
    PathsAreSlashFree();
    GoodCut(path, k - 1, PATH);
    assert Good([SLASH], PATH);
    GoodConcat(path[..k - 1], [SLASH], PATH);
    assert path[..k] == path[..k - 1] + [SLASH];
  }

  lemma TargetIsAcceptable(a: AuthorityRule, base: Components, r: Components)
    requires Acceptable(a, base) && Acceptable(a, r)
    ensures Acceptable(a, Target(base, r))
  {
    hide Good, RemoveDotSegments, Merge;
    RemovedPathIsGood(r.path);
    MergedPathIsGood(base, r.path);
    RemovedPathIsGood(Merge(base, r.path));
  }

  /** Nothing is left of the target: neither reference has a scheme or an authority, the second has
      nothing but a path, and that path and the directory of the base are made of "." and ".."
      segments only. */
  predicate Vanishes(base: Components, r: Components) {
    && base.scheme.None? && base.authority.None?
    && r.scheme.None? && r.authority.None? && r.query.None? && r.fragment.None?
    && OnlyDots(UpToLastSlash(base.path)) && OnlyDots(r.path)
  }

  lemma TargetVanishes(base: Components, r: Components)
    requires r != NOTHING
    ensures Target(base, r) == NOTHING <==> Vanishes(base, r)
  {
    hide RemoveDotSegments, UpToLastSlash;
    OnlyDotsConcat(UpToLastSlash(base.path), r.path);
    RemovesEverything(UpToLastSlash(base.path) + r.path);
    RemovesEverything(r.path);
    if r.path != [] && r.path[0] == SLASH {
      AbsoluteIsNotOnlyDots(r.path);
    }
  }

  lemma AbsoluteIsNotOnlyDots(path: bytes)
    requires path != [] && path[0] == SLASH
    ensures !OnlyDots(path)
  {
  }

  /** The text that `resolve` builds from two parsed references. */
  function ResolvedText(base: bytes, r: bytes): bytes {
    Text(Guarded(Target(Split(base), Split(r))))
  }

  /** Resolution of parsed references fails exactly when nothing is left of the target, which a base
      with a scheme rules out; otherwise the components are those of the RFC, with at most a guard
      in front of the path - with a scheme only "/.", for a path that begins with "//" without an
      authority. */
  lemma ResolveSucceeds(a: AuthorityRule, base: bytes, r: bytes)
    requires Parses(a, base) && Parses(a, r)
    ensures Parses(a, ResolvedText(base, r)) <==> !Vanishes(Split(base), Split(r))
    ensures Split(ResolvedText(base, r)) == Guarded(Target(Split(base), Split(r)))
    ensures Split(base).scheme.Some? ==>
              var t := Target(Split(base), Split(r));
              && Parses(a, ResolvedText(base, r)) && Split(ResolvedText(base, r)).scheme.Some?
              && Split(ResolvedText(base, r)).path
                 == (if t.authority.None? && [SLASH, SLASH] <= t.path then [SLASH, DOT] else []) + t.path
  {
    hide Split, Acceptable, Parses, Text, Vanishes, Merge, RemoveDotSegments;
    ParsedIsAcceptable(a, base);
    ParsedIsAcceptable(a, r);
    TargetIsAcceptable(a, Split(base), Split(r));
    BuildThenParse(a, Target(Split(base), Split(r)));
    TargetVanishes(Split(base), Split(r));
    if Split(base).scheme.Some? {
      BaseSchemeStays(Split(base), Split(r));
      GuardOfAbsolute(Target(Split(base), Split(r)));
    }
  }

  lemma BaseSchemeStays(base: Components, r: Components)
    requires base.scheme.Some?
    ensures Target(base, r).scheme.Some? && !Vanishes(base, r)
  {
    hide RemoveDotSegments, Merge;
  }

  /** "." against a base that is one relative segment: both are references, but nothing is left. */
  lemma DotVanishes(a: AuthorityRule)
    ensures Parses(a, [97]) && Parses(a, [DOT]) && ResolvedText([97], [DOT]) == [] && !Parses(a, [])
  {
    OneSegment(a, 97);
    OneSegment(a, DOT);
    TargetVanishes(Split([97]), Split([DOT]));
    TextOfNothing(NOTHING);
    NothingUnguarded(NOTHING);
  }

  lemma OneSegment(a: AuthorityRule, b: byte)
    requires b == 97 || b == DOT
    ensures Parses(a, [b]) && Split([b]) == Components(None, None, [b], None, None)
  {
    var s := [b];
    assert Span(s, IsSchemeChar) <= 1 && Span(s, NotPathEnd) == 1;
    assert s[..1] == s && s[1..] == [];
    assert Good(s, PATH);
    ValidateIsGood(s, PATH, (b: byte) => InvalidPathCharacter(b));
  }

  /** With a scheme the only guard is "/.", and only for a path that begins with "//" without
      an authority. */
  lemma GuardOfAbsolute(c: Components)
    requires c.scheme.Some?
    ensures Guard(c) == if c.authority.None? && [SLASH, SLASH] <= c.path then [SLASH, DOT] else []
  {
  }

  /** `resolve`. */
  method Resolve(a: AuthorityRule, base: Uri, reference: Uri) returns (r: Result<Uri, UriError>)
    requires Offsets(base) && ComponentsOf(base) == Split(base.source) && Parses(a, base.source)
    requires Offsets(reference) && ComponentsOf(reference) == Split(reference.source) && Parses(a, reference.source)
    ensures base.schemeEnd.Some? ==> r.Ok? && r.value.schemeEnd.Some?
    ensures r.Ok? <==> !Vanishes(ComponentsOf(base), ComponentsOf(reference))
    ensures r.Ok? ==>
              Offsets(r.value)
              && ComponentsOf(r.value) == Guarded(Target(ComponentsOf(base), ComponentsOf(reference)))
  {
    hide Split, Parses, Text, RemoveDotSegments, Merge, Vanishes;
    ResolveSucceeds(a, base.source, reference.source);
    var b, ref := ComponentsOf(base), ComponentsOf(reference);
    var path;
    if ref.scheme.Some? {
      path := Remove(ref.path);
      var text := BuildUri(ref.(path := path));
      r := Parse(a, text);
      return;
    }
    if ref.authority.Some? {
      path := Remove(ref.path);
      var text := BuildUri(ref.(scheme := b.scheme, path := path));
      r := Parse(a, text);
      return;
    }
    if ref.path == [] {
      var query := if ref.query.Some? then ref.query else b.query;
      var text := BuildUri(b.(query := query, fragment := ref.fragment));
      r := Parse(a, text);
      return;
    }
    if ref.path[0] == SLASH {
      path := Remove(ref.path);
    } else {
      path := Remove(Merge(b, ref.path));
    }
    var text := BuildUri(b.(path := path, query := ref.query, fragment := ref.fragment));
    r := Parse(a, text);
  }
}
