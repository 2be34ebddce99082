/** `remove_dot_segments`: a cursor and a stack of segments, against the rewriting of
    section 5.2.4 of RFC 3986. */
module DotSegments {
  import opened Scan

  const SLASH: byte := 47
  const DOT: byte := 46

  predicate NotSlash(b: byte) { b != SLASH }

  // ---- The algorithm of the RFC: an input buffer and an output buffer ----

  /** The output without its last segment and the "/" in front of it, if any. */
  function RemoveLast(output: bytes): (r: bytes)
    ensures |r| <= |output|
    decreases |output|
  {
    if output == [] then []
    else if output[|output| - 1] == SLASH then output[..|output| - 1]
    else RemoveLast(output[..|output| - 1])
  }

  /** Length of the first segment of the input, with its initial "/" if it has one. */
  function SegmentEnd(input: bytes): (n: nat)
    requires input != []
    ensures 1 <= n <= |input|
    ensures n < |input| ==> input[n] == SLASH
    ensures All(input[1..n], NotSlash)
  {
    var n := 1 + Span(input[1..], NotSlash);
    assert input[1..n] == input[1..][..n - 1];
    n
  }

  /** Rules A to E: drop a prefix; replace one by "/", with or without removing the last output
      segment; stop; or move the first segment to the output. */
  datatype Rule = Drop(n: nat) | Slash(n: nat) | SlashAndRemove(n: nat) | Stop | Move

  function RuleFor(input: bytes): (r: Rule)
    requires input != []
    ensures (r.Drop? || r.Slash? || r.SlashAndRemove?) ==> 2 <= r.n <= |input|
  {
    if [DOT, DOT, SLASH] <= input then Drop(3)
    else if [DOT, SLASH] <= input then Drop(2)
    else if [SLASH, DOT, SLASH] <= input then Slash(3)
    else if input == [SLASH, DOT] then Slash(2)
    else if [SLASH, DOT, DOT, SLASH] <= input then SlashAndRemove(4)
    else if input == [SLASH, DOT, DOT] then SlashAndRemove(3)
    else if input == [DOT] || input == [DOT, DOT] then Stop
    else Move
  }

  function Rewrite(input: bytes, output: bytes): bytes
    decreases |input|
  {
    if input == [] then output
    else match RuleFor(input)
      case Drop(n) => Rewrite(input[n..], output)
      case Slash(n) => Rewrite([SLASH] + input[n..], output)
      case SlashAndRemove(n) => Rewrite([SLASH] + input[n..], RemoveLast(output))
      case Stop => output
      case Move => Rewrite(input[SegmentEnd(input)..], output + input[..SegmentEnd(input)])
  }

  function RemoveDotSegments(path: bytes): bytes { Rewrite(path, []) }

  // ---- The code ----

  /** A pushed segment holds no "/" but possibly its first byte. */
  predicate IsSegment(s: bytes) { s != [] && All(s[1..], NotSlash) }

  /** Only the first segment on the stack may lack its "/". */
  ghost predicate Stack(output: seq<bytes>) {
    forall k :: 0 <= k < |output| ==> IsSegment(output[k]) && (k > 0 ==> output[k][0] == SLASH)
  }

  lemma {:induction false} RemoveLastOf(out: bytes, tail: bytes)
    requires All(tail, NotSlash)
    ensures RemoveLast(out + [SLASH] + tail) == out
    decreases |tail|
  {
    var s := out + [SLASH] + tail;
    if tail == [] {
      assert s == out + [SLASH];
    } else {
      var shorter := tail[..|tail| - 1];
      assert s[..|s| - 1] == out + [SLASH] + shorter;
      RemoveLastOf(out, shorter);
    }
  }

  lemma {:induction false} RemoveLastOfRelative(tail: bytes)
    requires All(tail, NotSlash)
    ensures RemoveLast(tail) == []
    decreases |tail|
  {
    if tail != [] {
      RemoveLastOfRelative(tail[..|tail| - 1]);
    }
  }

  lemma {:induction false} ConcatPush(output: seq<bytes>, s: bytes)
    ensures Concat(output + [s]) == Concat(output) + s
  {
    if output == [] {
      EmptyConcat([s]);
      EmptyConcat(s);
    } else {
      ConcatPush(output[1..], s);
      assert (output + [s])[1..] == output[1..] + [s];
      ConcatAssociative(output[0], Concat(output[1..]), s);
    }
  }

  function Pop(output: seq<bytes>): seq<bytes> {
    if output == [] then [] else output[..|output| - 1]
  }

  /** Popping the stack removes the last segment of the text. */
  lemma PopRemovesLast(output: seq<bytes>)
    requires Stack(output)
    ensures Stack(Pop(output)) && Concat(Pop(output)) == RemoveLast(Concat(output))
  {
    if output != [] {
      var last := output[|output| - 1];
      assert output == Pop(output) + [last];
      ConcatPush(Pop(output), last);
      if last[0] == SLASH {
        assert Concat(output) == Concat(Pop(output)) + [SLASH] + last[1..];
        RemoveLastOf(Concat(Pop(output)), last[1..]);
      } else {
        assert Pop(output) == [] && Concat(output) == last;
        RemoveLastOfRelative(last);
      }
    }
  }

  /** The steps that drop a prefix of the input, as steps of the cursor. */
  lemma CursorStep(path: bytes, i: nat, k: nat)
    requires i + k < |path| && path[i + k] == SLASH
    ensures [SLASH] + path[i..][k + 1..] == path[i + k..]
  {
    assert path[i..][k + 1..] == path[i + k + 1..];
    HeadSplit(path[i + k..]);
  }

  lemma SegmentPushed(path: bytes, i: nat)
    requires i < |path|
    ensures var n := SegmentEnd(path[i..]);
            i + n <= |path| && path[i..i + n] == path[i..][..n] && path[i + n..] == path[i..][n..]
            && IsSegment(path[i..i + n]) && (i + n < |path| ==> path[i + n] == SLASH)
  {
    var n := SegmentEnd(path[i..]);
    DropTwice(path, i, n);
    assert path[i..i + n][1..] == path[i..][1..n];
  }

  method ScanSegment(path: bytes, start: nat) returns (i: nat)
    requires start < |path|
    ensures i == start + SegmentEnd(path[start..])
  {
    i := start;
    if path[i] == SLASH {
      i := i + 1;
    }
    assert path[start..][1..] == path[start + 1..];
    if i == start {
      SpanStep(path, start, NotSlash);
    }
    i := SkipWhile(path, i, NotSlash);
  }

  lemma RewriteOnce(input: bytes, output: bytes)
    requires input != []
    ensures var r := RuleFor(input);
            && (r.Drop? ==> Rewrite(input, output) == Rewrite(input[r.n..], output))
            && (r.Slash? ==> Rewrite(input, output) == Rewrite([SLASH] + input[r.n..], output))
            && (r.SlashAndRemove? ==> Rewrite(input, output) == Rewrite([SLASH] + input[r.n..], RemoveLast(output)))
            && (r.Stop? ==> Rewrite(input, output) == output)
            && (r.Move? ==>
                  var n := SegmentEnd(input);
                  Rewrite(input, output) == Rewrite(input[n..], output + input[..n]))
  {
  }

  /** One round of the rewriting, seen from the cursor. */
  lemma RewriteAt(path: bytes, i: nat, output: bytes)
    requires i < |path|
    ensures var rest, r := path[i..], RuleFor(path[i..]);
            && (r.Drop? ==> Rewrite(rest, output) == Rewrite(path[i + r.n..], output))
            && (r.Slash? ==> Rewrite(rest, output) == AfterSlash(path, i + r.n, output))
            && (r.SlashAndRemove? ==> Rewrite(rest, output) == AfterSlash(path, i + r.n, RemoveLast(output)))
            && (r.Stop? ==> Rewrite(rest, output) == output)
            && (r.Move? ==>
                  var n := SegmentEnd(rest);
                  i + n <= |path| && Rewrite(rest, output) == Rewrite(path[i + n..], output + path[i..i + n]))
  {
    hide Rewrite, SegmentEnd, RemoveLast, AfterSlash;
    var rest := path[i..];
    RewriteOnce(rest, output);
    var r := RuleFor(rest);
    if r.Drop? {
      DropTwice(path, i, r.n);
    } else if r.Slash? {
      SlashStep(path, i, r.n, output);
    } else if r.SlashAndRemove? {
      SlashStep(path, i, r.n, RemoveLast(output));
    } else if r.Move? {
      SegmentPushed(path, i);
    }
  }

  /** The rest of the rewriting when "/" stands for everything up to `k`. */
  ghost function AfterSlash(path: bytes, k: nat, output: bytes): bytes
    requires 1 <= k <= |path|
  {
    if path[k - 1] == SLASH then Rewrite(path[k - 1..], output) else output + [SLASH]
  }

  lemma SlashStep(path: bytes, i: nat, n: nat, output: bytes)
    requires i < |path| && 2 <= n <= |path[i..]|
    requires path[i + n - 1] == SLASH || i + n == |path|
    ensures Rewrite([SLASH] + path[i..][n..], output) == AfterSlash(path, i + n, output)
  {
    hide Rewrite;
    if path[i + n - 1] == SLASH {
      CursorStep(path, i, n - 1);
    } else {
      assert [SLASH] + path[i..][n..] == [SLASH];
      FinalSlash(output);
    }
  }

  lemma FinalSlash(output: bytes)
    ensures Rewrite([SLASH], output) == output + [SLASH]
  {
  }

  /** The loop invariant: the stack and the cursor stand for a state of the rewriting. */
  ghost predicate OnTheWay(path: bytes, i: nat, output: seq<bytes>) {
    && i <= |path| && Stack(output) && (output != [] && i < |path| ==> path[i] == SLASH)
    && Rewrite(path[i..], Concat(output)) == RemoveDotSegments(path)
  }

  lemma AtTheStart(path: bytes)
    ensures OnTheWay(path, 0, [])
  {
    assert path[0..] == path;
  }

  lemma AtTheEnd(path: bytes, output: seq<bytes>)
    requires OnTheWay(path, |path|, output)
    ensures Concat(output) == RemoveDotSegments(path)
  {
    assert path[|path|..] == [];
    RewriteNothing(Concat(output));
  }

  /** A prefix is dropped, or stands for a "/" that ends it. */
  lemma PrefixStep(path: bytes, i: nat, output: seq<bytes>)
    requires OnTheWay(path, i, output) && i < |path|
    ensures var r := RuleFor(path[i..]);
            && (r.Drop? ==> i + r.n <= |path| && (output == [] ==> OnTheWay(path, i + r.n, output)))
            && (r.Slash? ==> i + r.n <= |path| && AfterPrefix(path, i + r.n, output))
            && (r.SlashAndRemove? ==> i + r.n <= |path| && AfterPrefix(path, i + r.n, Pop(output)))
            && (r.Stop? ==> Concat(output) == RemoveDotSegments(path))
  {
    hide Rewrite, SegmentEnd, RemoveLast, Concat, Stack;
    RewriteAt(path, i, Concat(output));
    PopRemovesLast(output);
    ConcatPush(output, [SLASH]);
    ConcatPush(Pop(output), [SLASH]);
  }

  /** What is left behind a prefix that stands for "/": the "/" itself, or a last empty segment. */
  ghost predicate AfterPrefix(path: bytes, k: nat, output: seq<bytes>)
    requires 1 <= k <= |path|
  {
    if path[k - 1] == SLASH then OnTheWay(path, k - 1, output)
    else Concat(output + [[SLASH]]) == RemoveDotSegments(path)
  }

  /** A segment is pushed. */
  lemma MoveStep(path: bytes, i: nat, output: seq<bytes>)
    requires OnTheWay(path, i, output) && i < |path| && RuleFor(path[i..]).Move?
    ensures var n := SegmentEnd(path[i..]);
            i + n <= |path| && OnTheWay(path, i + n, output + [path[i..i + n]])
  {
    hide Rewrite, SegmentEnd, Concat, RuleFor;
    RewriteAt(path, i, Concat(output));
    SegmentPushed(path, i);
    var n := SegmentEnd(path[i..]);
    ConcatPush(output, path[i..i + n]);
  }

  method Remove(path: bytes) returns (r: bytes)
    ensures r == RemoveDotSegments(path)
  {
    hide OnTheWay, RemoveDotSegments, SegmentEnd, Concat, IsSegment;
    var output: seq<bytes> := [];
    var i := 0;
    AtTheStart(path);
    while i < |path|
      invariant i <= |path| && OnTheWay(path, i, output)
    {
      var rest := path[i..];
      StartsWithSlash(path, i, output);
      PrefixStep(path, i, output);
      if [DOT, DOT, SLASH] <= rest {
        i := i + 3;
        continue;
      }
      if [DOT, SLASH] <= rest {
        i := i + 2;
        continue;
      }
      if [SLASH, DOT, SLASH] <= rest {
        i := i + 2;
        continue;
      }
      if rest == [SLASH, DOT] {
        output := output + [[SLASH]];
        return Concat(output);
      }
      if [SLASH, DOT, DOT, SLASH] <= rest {
        output := Pop(output);
        i := i + 3;
        continue;
      }
      if rest == [SLASH, DOT, DOT] {
        output := Pop(output);
        output := output + [[SLASH]];
        return Concat(output);
      }
      if rest == [DOT] || rest == [DOT, DOT] {
        return Concat(output);
      }
      MoveStep(path, i, output);
      var start := i;
      i := ScanSegment(path, i);
      output := output + [path[start..i]];
    }
    AtTheEnd(path, output);
    r := Concat(output);
  }

  lemma StartsWithSlash(path: bytes, i: nat, output: seq<bytes>)
    requires OnTheWay(path, i, output) && i < |path|
    ensures output != [] ==> path[i..][0] == SLASH
  {
    hide Rewrite, Stack, Concat;
  }

  lemma RewriteNothing(output: bytes)
    ensures Rewrite([], output) == output
  {
  }

  // ---- What the result looks like ----

  /** A complete segment starts at `i`. */
  predicate StartsSegment(p: bytes, i: nat)
    requires i <= |p|
  {
    i == 0 || p[i - 1] == SLASH
  }

  predicate EndsSegment(p: bytes, i: nat)
    requires i <= |p|
  {
    i == |p| || p[i] == SLASH
  }

  /** The segment that starts at `i` is "." or "..". */
  predicate DotSegmentAt(p: bytes, i: nat) {
    i < |p| && p[i] == DOT && StartsSegment(p, i)
    && (EndsSegment(p, i + 1) || (p[i + 1] == DOT && EndsSegment(p, i + 2)))
  }

  ghost predicate NoDotSegments(p: bytes) {
    forall i: nat :: i < |p| ==> !DotSegmentAt(p, i)
  }

  /** Where the input stands when it is rewritten: at its start, or in front of a "/". */
  predicate AtBoundary(input: bytes, output: bytes) {
    output == [] || input == [] || input[0] == SLASH
  }

  lemma RemoveLastKeeps(output: bytes)
    requires NoDotSegments(output)
    ensures NoDotSegments(RemoveLast(output))
    ensures RemoveLast(output) <= output
    decreases |output|
  {
    RemoveLastCut(output);
    var r := RemoveLast(output);
    forall i: nat | i < |r|
      ensures !DotSegmentAt(r, i)
    {
      assert !DotSegmentAt(output, i);
    }
  }

  lemma {:induction false} RemoveLastCut(output: bytes)
    ensures var r := RemoveLast(output);
            r <= output && (r == [] || output[|r|] == SLASH)
    decreases |output|
  {
    if output != [] && output[|output| - 1] != SLASH {
      RemoveLastCut(output[..|output| - 1]);
    }
  }

  lemma MovedSegmentIsNoDot(input: bytes, output: bytes)
    requires input != [] && RuleFor(input).Move? && NoDotSegments(output) && AtBoundary(input, output)
    ensures NoDotSegments(output + input[..SegmentEnd(input)])
  {
    hide SegmentEnd;
    var n := SegmentEnd(input);
    var s := output + input[..n];
    forall i: nat | i < |s|
      ensures !DotSegmentAt(s, i)
    {
      if i < |output| {
        assert !DotSegmentAt(output, i);
      } else if i > |output| + 1 {
        assert s[i - 1] == input[1..n][i - 1 - |output| - 1];
      }
    }
  }

  lemma {:induction false} RewriteLeavesNoDots(input: bytes, output: bytes)
    requires NoDotSegments(output) && AtBoundary(input, output)
    ensures NoDotSegments(Rewrite(input, output))
    decreases |input|
  {
    hide NoDotSegments, SegmentEnd, RemoveLast, Rewrite;
    if input == [] {
      RewriteNothing(output);
    } else {
      RewriteOnce(input, output);
      RemoveLastKeeps(output);
      var r := RuleFor(input);
      match r
      case Drop(n) => RewriteLeavesNoDots(input[n..], output);
      case Slash(n) => RewriteLeavesNoDots([SLASH] + input[n..], output);
      case SlashAndRemove(n) => RewriteLeavesNoDots([SLASH] + input[n..], RemoveLast(output));
      case Stop =>
      case Move =>
        MovedSegmentIsNoDot(input, output);
        RewriteLeavesNoDots(input[SegmentEnd(input)..], output + input[..SegmentEnd(input)]);
    }
  }

  /** No "." or ".." segment is left. */
  lemma RemoveLeavesNoDots(path: bytes)
    ensures NoDotSegments(RemoveDotSegments(path))
  {
    RewriteLeavesNoDots(path, []);
  }

  lemma NoDotsOnlyMoves(input: bytes)
    requires input != [] && NoDotSegments(input)
    ensures RuleFor(input).Move? && NoDotSegments(input[SegmentEnd(input)..])
  {
    hide SegmentEnd;
    assert !DotSegmentAt(input, 0);
    assert |input| > 1 ==> !DotSegmentAt(input, 1);
    var n := SegmentEnd(input);
    var rest := input[n..];
    forall i: nat | i < |rest|
      ensures !DotSegmentAt(rest, i)
    {
      assert !DotSegmentAt(input, n + i);
    }
  }

  lemma {:induction false} RewriteOfNoDots(input: bytes, output: bytes)
    requires NoDotSegments(input)
    ensures Rewrite(input, output) == output + input
    decreases |input|
  {
    hide NoDotSegments, SegmentEnd, Rewrite;
    if input == [] {
      RewriteNothing(output);
    } else {
      RewriteOnce(input, output);
      NoDotsOnlyMoves(input);
      var n := SegmentEnd(input);
      RewriteOfNoDots(input[n..], output + input[..n]);
      ConcatAssociative(output, input[..n], input[n..]);
      assert input == input[..n] + input[n..];
    }
  }

  /** A path without dot segments is left alone, so removing them twice is removing them once. */
  lemma RemoveIsIdempotent(path: bytes)
    ensures RemoveDotSegments(RemoveDotSegments(path)) == RemoveDotSegments(path)
    ensures NoDotSegments(path) <==> RemoveDotSegments(path) == path
  {
    hide NoDotSegments, Rewrite;
    RemoveLeavesNoDots(path);
    RewriteOfNoDots(RemoveDotSegments(path), []);
    EmptyConcat(RemoveDotSegments(path));
    if NoDotSegments(path) {
      RewriteOfNoDots(path, []);
      EmptyConcat(path);
    }
  }

  /** An absolute path stays absolute. */
  lemma {:induction false} RewriteStaysAbsolute(input: bytes, output: bytes)
    requires (output != [] && output[0] == SLASH) || (output == [] && input != [] && input[0] == SLASH)
    requires AtBoundary(input, output)
    ensures Rewrite(input, output) != [] && Rewrite(input, output)[0] == SLASH
    decreases |input|
  {
    hide SegmentEnd, RemoveLast, Rewrite;
    if input == [] {
      RewriteNothing(output);
    } else {
      RewriteOnce(input, output);
      RemoveLastCut(output);
      var r := RuleFor(input);
      match r
      case Drop(_) =>
      case Slash(n) => RewriteStaysAbsolute([SLASH] + input[n..], output);
      case SlashAndRemove(n) => RewriteStaysAbsolute([SLASH] + input[n..], RemoveLast(output));
      case Stop =>
      case Move => RewriteStaysAbsolute(input[SegmentEnd(input)..], output + input[..SegmentEnd(input)]);
    }
  }

  // ---- What vanishes ----

  /** A path of "./" and "../" prefixes, ending in nothing, "." or "..". */
  predicate OnlyDots(path: bytes)
    decreases |path|
  {
    if [DOT, DOT, SLASH] <= path then OnlyDots(path[3..])
    else if [DOT, SLASH] <= path then OnlyDots(path[2..])
    else path == [] || path == [DOT] || path == [DOT, DOT]
  }

  /** Dot-segment removal leaves nothing of such a path, and of no other. */
  lemma {:induction false} RemovesEverything(path: bytes)
    ensures RemoveDotSegments(path) == [] <==> OnlyDots(path)
    decreases |path|
  {
    hide Rewrite, SegmentEnd;
    if path == [] {
      RewriteNothing([]);
    } else {
      RewriteOnce(path, []);
      var r := RuleFor(path);
      if r.Drop? {
        RemovesEverything(path[r.n..]);
      } else if r.Move? {
        EmptyConcat(path[..SegmentEnd(path)]);
        RewriteStaysNonEmpty(path[SegmentEnd(path)..], path[..SegmentEnd(path)]);
      } else if !r.Stop? {
        RewriteStaysNonEmpty([SLASH] + path[r.n..], []);
      }
    }
  }

  lemma {:induction false} RewriteStaysNonEmpty(input: bytes, output: bytes)
    requires if input == [] then output != [] else input[0] == SLASH
    ensures Rewrite(input, output) != []
    decreases |input|
  {
    hide Rewrite, SegmentEnd, RemoveLast;
    if input == [] {
      RewriteNothing(output);
    } else {
      RewriteOnce(input, output);
      var r := RuleFor(input);
      if r.Slash? {
        RewriteStaysNonEmpty([SLASH] + input[r.n..], output);
      } else if r.SlashAndRemove? {
        RewriteStaysNonEmpty([SLASH] + input[r.n..], RemoveLast(output));
      } else if r.Move? {
        RewriteStaysNonEmpty(input[SegmentEnd(input)..], output + input[..SegmentEnd(input)]);
      }
    }
  }

  /** Cut behind a "/", such a path is two such paths. */
  lemma {:induction false} OnlyDotsConcat(dir: bytes, path: bytes)
    requires dir == [] || dir[|dir| - 1] == SLASH
    ensures OnlyDots(dir + path) <==> OnlyDots(dir) && OnlyDots(path)
    decreases |dir|
  {
    var s := dir + path;
    if dir == [] {
      EmptyConcat(path);
    } else {
      assert forall i :: 0 <= i < |dir| ==> s[i] == dir[i];
      if [DOT, DOT, SLASH] <= dir {
        assert s[..3] == [DOT, DOT, SLASH] && s[3..] == dir[3..] + path;
        OnlyDotsConcat(dir[3..], path);
      } else if [DOT, SLASH] <= dir {
        assert s[..2] == [DOT, SLASH] && s[2..] == dir[2..] + path;
        OnlyDotsConcat(dir[2..], path);
      } else {
        NotOnlyDots(dir, path);
      }
    }
  }

  lemma NotOnlyDots(dir: bytes, path: bytes)
    requires dir != [] && dir[|dir| - 1] == SLASH && !([DOT, DOT, SLASH] <= dir) && !([DOT, SLASH] <= dir)
    ensures !OnlyDots(dir + path) && !OnlyDots(dir)
  {
    var s := dir + path;
    assert forall i :: 0 <= i < |dir| ==> s[i] == dir[i];
    if |s| >= 3 && |dir| >= 2 {
      assert s[..3] == [s[0], s[1], s[2]] && s[..2] == [s[0], s[1]];
      assert |dir| >= 3 ==> dir[..3] == s[..3];
      assert dir[..2] == s[..2];
    }
  }

  // ---- What each dot segment does, stated on paths ----

  /** A path that is consumed up to its end when a "/" follows. A leading "." or ".." would take the
      "/" with it. */
  predicate Anchored(p: bytes)
    decreases |p|
  {
    if p == [DOT] || p == [DOT, DOT] then false
    else if [DOT, DOT, SLASH] <= p then Anchored(p[3..])
    else if [DOT, SLASH] <= p then Anchored(p[2..])
    else true
  }

  /** What is left to consume after one rule is anchored too. */
  lemma StaysAnchored(p: bytes)
    requires p != [] && Anchored(p)
    ensures var r := RuleFor(p);
            && !r.Stop?
            && (r.Drop? ==> Anchored(p[r.n..]))
            && (r.Slash? && p != [SLASH, DOT] ==> r.n == 3 && Anchored(p[2..]))
            && (r.SlashAndRemove? && p != [SLASH, DOT, DOT] ==> r.n == 4 && Anchored(p[3..]))
            && (r.Move? ==> Anchored(p[SegmentEnd(p)..]))
  {
    hide SegmentEnd;
    RestIsAnchored(p, SegmentEnd(p));
    if |p| > 2 && p[2] == SLASH {
      RestIsAnchored(p, 2);
    }
    if |p| > 3 && p[3] == SLASH {
      RestIsAnchored(p, 3);
    }
  }

  lemma RestIsAnchored(p: bytes, k: nat)
    requires k <= |p| && (k == |p| || p[k] == SLASH)
    ensures Anchored(p[k..])
  {
    assert p[k..] != [] ==> p[k..][0] == SLASH;
  }

  /** The output when everything in front of a "/" has been consumed. */
  ghost function Through(p: bytes, output: bytes): bytes
    requires Anchored(p)
    decreases |p|
  {
    if p == [] then output
    else
      StaysAnchored(p);
      var r := RuleFor(p);
      if r.Drop? then Through(p[r.n..], output)
      else if r.Slash? then (if p == [SLASH, DOT] then output else Through(p[2..], output))
      else if r.SlashAndRemove? then
        if p == [SLASH, DOT, DOT] then RemoveLast(output) else Through(p[3..], RemoveLast(output))
      else Through(p[SegmentEnd(p)..], output + p[..SegmentEnd(p)])
  }

  /** A "/" behind a path changes no rule but the last. */
  lemma RuleBeforeSlash(p: bytes, t: bytes)
    requires p != [] && Anchored(p)
    ensures var s, r := p + ([SLASH] + t), RuleFor(p);
            && (r.Drop? ==> RuleFor(s) == r)
            && (r.Slash? ==> RuleFor(s) == Slash(3))
            && (r.SlashAndRemove? ==> RuleFor(s) == SlashAndRemove(4))
            && (r.Move? ==> RuleFor(s) == Move)
  {
    var s := p + ([SLASH] + t);
    assert s[0] == p[0] && s[1] == (if |p| > 1 then p[1] else SLASH);
    assert |p| > 1 ==> s[2] == if |p| > 2 then p[2] else SLASH;
    assert |p| > 2 ==> s[3] == if |p| > 3 then p[3] else SLASH;
  }

  lemma SegmentBeforeSlash(p: bytes, t: bytes)
    requires p != []
    ensures var s, n := p + ([SLASH] + t), SegmentEnd(p);
            SegmentEnd(s) == n && s[..n] == p[..n] && s[n..] == p[n..] + ([SLASH] + t)
  {
    var s, n := p + ([SLASH] + t), SegmentEnd(p);
    var tail := p[n..] + ([SLASH] + t);
    assert s[1..] == p[1..n] + tail;
    assert tail[0] == SLASH;
    SpanOfSplit(p[1..n], tail, NotSlash);
  }

  lemma DropBeforeSlash(p: bytes, t: bytes, n: nat)
    requires n <= |p|
    ensures (p + ([SLASH] + t))[n..] == p[n..] + ([SLASH] + t)
  {
  }

  lemma SlashBeforeSlash(p: bytes, t: bytes, n: nat)
    requires n + 1 == |p| || (n + 1 < |p| && p[n + 1] == SLASH)
    ensures var s := p + ([SLASH] + t);
            s[n + 2..] == if n + 1 == |p| then t else p[n + 2..] + ([SLASH] + t)
    ensures n + 1 < |p| ==> [SLASH] + (p[n + 2..] + ([SLASH] + t)) == p[n + 1..] + ([SLASH] + t)
  {
    if n + 1 < |p| {
      HeadSplit(p[n + 1..]);
      DropTwice(p, n + 1, 1);
      ConcatAssociative([SLASH], p[n + 2..], [SLASH] + t);
    }
  }

  lemma RulePrefixes(p: bytes)
    requires p != []
    ensures RuleFor(p).Slash? ==> p == [SLASH, DOT] || (|p| > 2 && p[2] == SLASH)
    ensures RuleFor(p).SlashAndRemove? ==> p == [SLASH, DOT, DOT] || (|p| > 3 && p[3] == SLASH)
  {
  }

  lemma {:induction false} ThroughIs(p: bytes, t: bytes, output: bytes)
    requires Anchored(p)
    ensures Rewrite(p + ([SLASH] + t), output) == Rewrite([SLASH] + t, Through(p, output))
    decreases |p|
  {
    hide Rewrite, RuleFor, SegmentEnd, RemoveLast, Anchored;
    var rest := [SLASH] + t;
    if p == [] {
      EmptyConcat(rest);
    } else {
      var s, r := p + rest, RuleFor(p);
      RewriteOnce(s, output);
      RuleBeforeSlash(p, t);
      StaysAnchored(p);
      RulePrefixes(p);
      if r.Drop? {
        DropBeforeSlash(p, t, r.n);
        ThroughIs(p[r.n..], t, output);
      } else if r.Slash? {
        SlashBeforeSlash(p, t, 1);
        if p != [SLASH, DOT] {
          ThroughIs(p[2..], t, output);
        }
      } else if r.SlashAndRemove? {
        SlashBeforeSlash(p, t, 2);
        if p != [SLASH, DOT, DOT] {
          ThroughIs(p[3..], t, RemoveLast(output));
        }
      } else {
        SegmentBeforeSlash(p, t);
        ThroughIs(p[SegmentEnd(p)..], t, output + p[..SegmentEnd(p)]);
      }
    }
  }

  /** A segment that is not a dot segment; it may be empty. */
  predicate Ordinary(s: bytes) { All(s, NotSlash) && s != [DOT] && s != [DOT, DOT] }

  /** "p/./q" is "p/q", and "p/." is "p/". */
  lemma DotIsNothing(p: bytes, q: bytes)
    requires Anchored(p)
    ensures RemoveDotSegments(p + ([SLASH, DOT, SLASH] + q)) == RemoveDotSegments(p + ([SLASH] + q))
    ensures RemoveDotSegments(p + [SLASH, DOT]) == RemoveDotSegments(p + [SLASH])
  {
    hide Through;
    var o := Through(p, []);
    assert [SLASH] + ([DOT, SLASH] + q) == [SLASH, DOT, SLASH] + q;
    assert [SLASH] + [DOT] == [SLASH, DOT] && [SLASH] + [] == [SLASH];
    ThroughIs(p, [DOT, SLASH] + q, []);
    ThroughIs(p, q, []);
    ThroughIs(p, [DOT], []);
    ThroughIs(p, [], []);
    DotRules(q, o);
  }

  lemma DotRules(q: bytes, output: bytes)
    ensures Rewrite([SLASH, DOT, SLASH] + q, output) == Rewrite([SLASH] + q, output)
    ensures Rewrite([SLASH, DOT], output) == Rewrite([SLASH], output)
    ensures Rewrite([SLASH, DOT, DOT, SLASH] + q, output) == Rewrite([SLASH] + q, RemoveLast(output))
    ensures Rewrite([SLASH, DOT, DOT], output) == Rewrite([SLASH], RemoveLast(output))
  {
    hide Rewrite, RemoveLast, SegmentEnd, RuleFor;
    SlashDotRules(q);
    RewriteOnce([SLASH, DOT, SLASH] + q, output);
    RewriteOnce([SLASH, DOT], output);
    RewriteOnce([SLASH, DOT, DOT, SLASH] + q, output);
    RewriteOnce([SLASH, DOT, DOT], output);
    assert ([SLASH, DOT, SLASH] + q)[3..] == q && ([SLASH, DOT, DOT, SLASH] + q)[4..] == q;
    EmptyConcat([SLASH]);
  }

  lemma SlashDotRules(q: bytes)
    ensures RuleFor([SLASH, DOT, SLASH] + q) == Slash(3) && RuleFor([SLASH, DOT]) == Slash(2)
    ensures RuleFor([SLASH, DOT, DOT, SLASH] + q) == SlashAndRemove(4)
    ensures RuleFor([SLASH, DOT, DOT]) == SlashAndRemove(3)
  {
    var s, t := [SLASH, DOT, SLASH] + q, [SLASH, DOT, DOT, SLASH] + q;
    assert s[0] == SLASH && s[1] == DOT && s[2] == SLASH;
    assert t[0] == SLASH && t[1] == DOT && t[2] == DOT && t[3] == SLASH;
  }

  lemma OrdinaryIsMoved(s: bytes, t: bytes, output: bytes)
    requires Ordinary(s)
    ensures Rewrite([SLASH] + s + ([SLASH] + t), output) == Rewrite([SLASH] + t, output + ([SLASH] + s))
    ensures RemoveLast(output + ([SLASH] + s)) == output
  {
    hide Rewrite;
    var p := [SLASH] + s;
    assert p[1..] == s;
    EmptyConcat(s);
    SpanOfSplit(s, [], NotSlash);
    assert p[..|p|] == p && p[|p|..] == [];
    assert |s| > 0 ==> p[1] == s[0];
    assert |s| > 1 ==> p[2] == s[1];
    assert |s| > 2 ==> p[3] == s[2];
    ThroughIs(p, t, output);
    ConcatAssociative(output, [SLASH], s);
    RemoveLastOf(output, s);
  }

  /** "p/s/../q" is "p/q", and "p/s/.." is "p/": ".." takes the segment in front of it. */
  lemma DotDotTakesOne(p: bytes, s: bytes, q: bytes)
    requires Anchored(p) && Ordinary(s)
    ensures RemoveDotSegments(p + ([SLASH] + s + ([SLASH, DOT, DOT, SLASH] + q)))
         == RemoveDotSegments(p + ([SLASH] + q))
    ensures RemoveDotSegments(p + ([SLASH] + s + [SLASH, DOT, DOT])) == RemoveDotSegments(p + [SLASH])
  {
    hide Through, Rewrite, RemoveLast, Ordinary;
    var o := Through(p, []);
    var t1, t2 := [DOT, DOT, SLASH] + q, [DOT, DOT];
    assert [SLASH] + t1 == [SLASH, DOT, DOT, SLASH] + q && [SLASH] + t2 == [SLASH, DOT, DOT];
    assert [SLASH] + [] == [SLASH];
    ConcatAssociative([SLASH], s, [SLASH] + t1);
    ConcatAssociative([SLASH], s, [SLASH] + t2);
    ThroughIs(p, s + ([SLASH] + t1), []);
    ThroughIs(p, s + ([SLASH] + t2), []);
    ThroughIs(p, q, []);
    ThroughIs(p, [], []);
    OrdinaryIsMoved(s, t1, o);
    OrdinaryIsMoved(s, t2, o);
    DotRules(q, o + ([SLASH] + s));
  }

  /** At the root there is nothing to take: "/../q" is "/q", and "/.." is "/". A first segment without
      "/" is taken too and leaves the "/" behind it: "s/../q" is "/q". */
  lemma DotDotAtTheRoot(s: bytes, q: bytes)
    requires Ordinary(s)
    ensures RemoveDotSegments([SLASH, DOT, DOT, SLASH] + q) == RemoveDotSegments([SLASH] + q)
    ensures RemoveDotSegments([SLASH, DOT, DOT]) == [SLASH]
    ensures RemoveDotSegments(s + ([SLASH, DOT, DOT, SLASH] + q)) == RemoveDotSegments([SLASH] + q)
  {
    hide Rewrite, RemoveLast;
    DotRules(q, []);
    FinalSlash([]);
    EmptyConcat<byte>([]);
    NothingToTake();
    var t := [DOT, DOT, SLASH] + q;
    assert [SLASH] + t == [SLASH, DOT, DOT, SLASH] + q;
    FirstIsAnchored(s);
    ThroughIs(s, t, []);
    DotRules(q, s);
    RemoveLastOfRelative(s);
  }

  lemma NothingToTake()
    ensures RemoveLast([]) == []
  {
  }

  lemma FirstIsAnchored(s: bytes)
    requires Ordinary(s)
    ensures Anchored(s) && Through(s, []) == s
  {
    if s != [] {
      OrdinaryRule(s);
      hide RuleFor, SegmentEnd;
      assert s[..|s|] == s && s[|s|..] == [];
      EmptyConcat(s);
      assert Through([], s) == s;
    }
  }

  lemma OrdinaryRule(s: bytes)
    requires Ordinary(s) && s != []
    ensures RuleFor(s).Move? && SegmentEnd(s) == |s| && Anchored(s)
  {
    hide SegmentEnd;
    assert s[0] != SLASH && (|s| > 1 ==> s[1] != SLASH) && (|s| > 2 ==> s[2] != SLASH);
    OneSegmentEnd(s);
  }

  lemma OneSegmentEnd(s: bytes)
    requires s != [] && All(s, NotSlash)
    ensures SegmentEnd(s) == |s|
  {
    EmptyConcat(s[1..]);
    SpanOfSplit(s[1..], [], NotSlash);
  }

  /** In front of a path they fall away: "./q" and "../q" are "q", and "." and ".." are nothing. */
  lemma LeadingDotsFall(q: bytes)
    ensures RemoveDotSegments([DOT, SLASH] + q) == RemoveDotSegments(q)
    ensures RemoveDotSegments([DOT, DOT, SLASH] + q) == RemoveDotSegments(q)
    ensures RemoveDotSegments([DOT]) == [] && RemoveDotSegments([DOT, DOT]) == []
  {
    hide Rewrite, SegmentEnd, RuleFor;
    LeadingRules(q);
    RewriteOnce([DOT, SLASH] + q, []);
    RewriteOnce([DOT, DOT, SLASH] + q, []);
    RewriteOnce([DOT], []);
    RewriteOnce([DOT, DOT], []);
    assert ([DOT, SLASH] + q)[2..] == q && ([DOT, DOT, SLASH] + q)[3..] == q;
  }

  lemma LeadingRules(q: bytes)
    ensures RuleFor([DOT, SLASH] + q) == Drop(2) && RuleFor([DOT, DOT, SLASH] + q) == Drop(3)
    ensures RuleFor([DOT]) == Stop && RuleFor([DOT, DOT]) == Stop
  {
    var s, t := [DOT, SLASH] + q, [DOT, DOT, SLASH] + q;
    assert s[0] == DOT && s[1] == SLASH;
    assert t[0] == DOT && t[1] == DOT && t[2] == SLASH;
  }
}
