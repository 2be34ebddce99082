/** Runs of the multipart parser: how far the fragmentation of the input can be observed. */
module MultipartRuns {
  import opened Scan
  import opened Multipart

  // ---- Runs ----

  datatype Op = Feed(data: bytes) | Call

  /** The parser between two operations, every byte it accepted, and the parts it returned. */
  datatype Run = Run(mode: Mode, u: bytes, fed: bytes, parts: seq<Part>)

  const START := Run(Initial, [], [], [])

  function Given(r: Reply): seq<Part> {
    if r.Next? then [r.part] else []
  }

  /** A feed beyond the buffer limit is refused; a call may return a part, an error or the end. */
  function Do(c: Config, max: nat, w: Run, op: Op): Run {
    match op
    case Feed(data) => if |w.u| + |data| > max then w else w.(u := w.u + data, fed := w.fed + data)
    case Call =>
      var s := Rescan(c, w.mode, w.u);
      w.(mode := s.mode, u := s.rest, parts := w.parts + Given(s.reply))
  }

  function RunAll(c: Config, max: nat, w: Run, ops: seq<Op>): Run
    decreases |ops|
  {
    if ops == [] then w else RunAll(c, max, Do(c, max, w, ops[0]), ops[1..])
  }

  /** There is no part to be had: the next call returns an error or the end. */
  predicate AtRest(c: Config, w: Run) { !Rescan(c, w.mode, w.u).reply.Next? }

  /** What the caller knows then. */
  function Seen(c: Config, w: Run): (seq<Part>, Reply) { (w.parts, Rescan(c, w.mode, w.u).reply) }

  lemma {:induction false} RunThen(c: Config, max: nat, w: Run, a: seq<Op>, b: seq<Op>)
    ensures RunAll(c, max, w, a + b) == RunAll(c, max, RunAll(c, max, w, a), b)
    decreases |a|
  {
    hide Do;
    if a == [] {
      EmptyConcat(b);
    } else {
      RunThen(c, max, Do(c, max, w, a[0]), a[1..], b);
      assert (a + b)[1..] == a[1..] + b;
    }
  }

  // ---- The meaning of a body ----

  /** One part, returned as soon as its delimiter is there; what follows the delimiter is judged
      in the next step. */
  function EagerInPart(c: Config, u: bytes): Step {
    var h := Find(u, BLANK_LINE);
    if h.None? then Step(InPart, u, Fail(Incomplete))
    else
      var bad := c.headerError(u[..h.value]);
      if bad.Some? then Step(InPart, u, Fail(bad.value))
      else
        var body := u[h.value + 4..];
        var p := Find(body, Inner(c));
        if p.None? then Step(InPart, u, Fail(Incomplete))
        else Step(AfterInnerDelimiter, body[p.value + |Inner(c)|..], Next(Part(u[..h.value], body[..p.value])))
  }

  function Eager(c: Config, mode: Mode, u: bytes): Step {
    match mode
    case InPart => EagerInPart(c, u)
    case Finished => Step(Finished, u, Finish)
    case Initial =>
      var p := Find(u, First(c));
      if p.None? then Step(Initial, u, Fail(Incomplete))
      else (match MarkAt(DropBws(u[p.value + |First(c)|..]))
        case TooShort => Step(Initial, u, Fail(Incomplete))
        case Close => Step(Finished, u, Finish)
        case Open(rest) => EagerInPart(c, rest)
        case Junk => Step(Initial, u, Fail(InvalidPart)))
    case AfterInnerDelimiter =>
      var v := DropBws(u);
      match MarkAt(v)
      case TooShort => Step(AfterInnerDelimiter, v, Fail(Incomplete))
      case Close => Step(Finished, u, Finish)
      case Open(rest) => EagerInPart(c, rest)
      case Junk => Step(AfterInnerDelimiter, u, Fail(InvalidPart))
  }

  lemma EagerShrinks(c: Config, mode: Mode, u: bytes)
    requires Eager(c, mode, u).reply.Next?
    ensures |Eager(c, mode, u).rest| < |u| && Eager(c, mode, u).mode == AfterInnerDelimiter
  {
    hide DropBws, Find;
  }

  /** All parts of a body, where reading stops, and why. */
  datatype Reading = Reading(parts: seq<Part>, mode: Mode, end: Reply)

  function Prepend(parts: seq<Part>, r: Reading): Reading { r.(parts := parts + r.parts) }

  function Read(c: Config, mode: Mode, u: bytes): Reading
    decreases |u|
  {
    var s := Eager(c, mode, u);
    match s.reply
    case Next(part) => EagerShrinks(c, mode, u); Prepend([part], Read(c, s.mode, s.rest))
    case _ => Reading([], s.mode, s.reply)
  }

  // ---- More bytes do not change what was decided ----

  lemma DropBwsLater(u: bytes, x: bytes)
    ensures DropBws(u) != [] ==> DropBws(u + x) == DropBws(u) + x
    ensures DropBws(u + x) == DropBws(DropBws(u) + x)
  {
    var w := SplitBws(u);
    var v := DropBws(u);
    if v != [] {
      assert u + x == w + (v + x);
      DropBwsOf(w, v + x);
      DropBwsOf([], v + x);
      EmptyConcat(v + x);
    } else {
      var w' := SplitBws(x);
      assert u + x == (w + w') + DropBws(x);
      DropBwsOf(w + w', DropBws(x));
      EmptyConcat(x);
    }
  }

  lemma MarkLater(v: bytes, x: bytes)
    requires !MarkAt(v).TooShort?
    ensures MarkAt(v + x) == if MarkAt(v).Open? then Open(MarkAt(v).rest + x) else MarkAt(v)
  {
    assert (v + x)[..2] == v[..2] && (v + x)[2..] == v[2..] + x;
  }

  /** What padding and mark say does not change when more bytes come. */
  lemma MarkAfterPaddingLater(u: bytes, x: bytes)
    ensures var m := MarkAt(DropBws(u));
            !m.TooShort? ==> MarkAt(DropBws(u + x)) == if m.Open? then Open(m.rest + x) else m
    ensures DropBws(u + x) == DropBws(DropBws(u) + x)
  {
    hide DropBws;
    DropBwsLater(u, x);
    if !MarkAt(DropBws(u)).TooShort? {
      MarkLater(DropBws(u), x);
    }
  }

  /** The same reply and mode, and the same step if a part was returned. */
  predicate Same(s: Step, t: Step) {
    s.reply == t.reply && s.mode == t.mode && (s.reply.Next? ==> s == t)
  }

  lemma SameReads(c: Config, m: Mode, u: bytes, m': Mode, u': bytes)
    requires Same(Eager(c, m, u), Eager(c, m', u'))
    ensures Read(c, m, u) == Read(c, m', u')
  {
    hide Eager;
  }

  /** The step on `u` and the step on `u + x`: a part stands; otherwise the state that is left
      reads the longer input the same way. */
  ghost predicate Stable(c: Config, s: Step, t: Step, x: bytes) {
    if s.reply.Next? then t == s.(rest := s.rest + x) else Same(t, Eager(c, s.mode, s.rest + x))
  }

  lemma FindSplitStable(u: bytes, x: bytes, w: bytes)
    requires Find(u, w).Some?
    ensures var p := Find(u, w).value;
            && Find(u + x, w) == Some(p) && p + |w| <= |u|
            && (u + x)[..p] == u[..p] && (u + x)[p + |w|..] == u[p + |w|..] + x
  {
    FindStable(u, x, w);
  }

  lemma EagerInPartStable(c: Config, u: bytes, x: bytes)
    ensures Stable(c, EagerInPart(c, u), EagerInPart(c, u + x), x)
  {
    hide Find, Inner;
    var h := Find(u, BLANK_LINE);
    if h.Some? {
      FindSplitStable(u, x, BLANK_LINE);
      var body := u[h.value + 4..];
      if Find(body, Inner(c)).Some? {
        FindSplitStable(body, x, Inner(c));
      }
    }
  }

  lemma EagerStable(c: Config, mode: Mode, u: bytes, x: bytes)
    ensures Stable(c, Eager(c, mode, u), Eager(c, mode, u + x), x)
  {
    hide Find, First, Inner, DropBws, MarkAt, EagerInPart;
    match mode
    case InPart => EagerInPartStable(c, u, x);
    case Finished =>
    case AfterInnerDelimiter =>
      MarkAfterPaddingLater(u, x);
      if MarkAt(DropBws(u)).Open? {
        EagerInPartStable(c, MarkAt(DropBws(u)).rest, x);
      }
    case Initial =>
      if Find(u, First(c)).Some? {
        FindSplitStable(u, x, First(c));
        var tail := u[Find(u, First(c)).value + |First(c)|..];
        MarkAfterPaddingLater(tail, x);
        if MarkAt(DropBws(tail)).Open? {
          EagerInPartStable(c, MarkAt(DropBws(tail)).rest, x);
        }
      }
  }

  // ---- The invariant of every run ----

  /** The real step, beside the eager one: the same unless a part is found; then the real parser
      has looked behind the delimiter already. `from` is where the part began. */
  lemma RescanIsEager(c: Config, mode: Mode, u: bytes, x: bytes) returns (from: bytes)
    ensures var s, t := Rescan(c, mode, u), Eager(c, mode, u);
            if t.reply.Next? then
              s == AfterPart(from, t.reply.part, t.rest) && t.mode == AfterInnerDelimiter
              && Eager(c, mode, u + x) == EagerInPart(c, from + x)
            else s == t
  {
    hide Find, First, Inner, DropBws, AfterPart, MarkAt;
    from := u;
    if mode.AfterInnerDelimiter? && MarkAt(DropBws(u)).Open? {
      from := MarkAt(DropBws(u)).rest;
      MarkAfterPaddingLater(u, x);
    } else if mode.Initial? && Find(u, First(c)).Some? {
      var tail := u[Find(u, First(c)).value + |First(c)|..];
      if MarkAt(DropBws(tail)).Open? {
        from := MarkAt(DropBws(tail)).rest;
        FindSplitStable(u, x, First(c));
        MarkAfterPaddingLater(tail, x);
      }
    }
  }

  /** What the real parser does behind a delimiter leaves the same to be read. */
  lemma AfterPartReads(c: Config, from: bytes, part: Part, tail: bytes, x: bytes)
    requires !MarkAt(DropBws(tail)).Junk?
    ensures var s := AfterPart(from, part, tail);
            s.reply == Next(part) && Read(c, s.mode, s.rest + x) == Read(c, AfterInnerDelimiter, tail + x)
  {
    hide DropBws, MarkAt, EagerInPart;
    var s := AfterPart(from, part, tail);
    MarkAfterPaddingLater(tail, x);
    SameReads(c, s.mode, s.rest + x, AfterInnerDelimiter, tail + x);
  }

  /** One call of the real parser, whatever bytes x come later: the part it returns, followed by
      the reading of what it leaves, is the reading of what it had. */
  lemma CallKeepsReading(c: Config, mode: Mode, u: bytes, x: bytes)
    ensures var s := Rescan(c, mode, u);
            Read(c, mode, u + x) == Prepend(Given(s.reply), Read(c, s.mode, s.rest + x))
  {
    hide Eager, Rescan, AfterPart, MarkAt, DropBws, EagerInPart;
    var s, t := Rescan(c, mode, u), Eager(c, mode, u);
    var from := RescanIsEager(c, mode, u, x);
    EagerStable(c, mode, u, x);
    if !t.reply.Next? {
      SameReads(c, mode, u + x, s.mode, s.rest + x);
      EmptyConcat(Read(c, s.mode, s.rest + x).parts);
    } else if !MarkAt(DropBws(t.rest)).Junk? {
      AfterPartReads(c, from, t.reply.part, t.rest, x);
    } else {
      JunkStep(c, from, t.reply.part, t.rest, x);
      SameReads(c, mode, u + x, InPart, from + x);
      EmptyConcat(Read(c, InPart, from + x).parts);
    }
  }

  lemma JunkStep(c: Config, from: bytes, part: Part, tail: bytes, x: bytes)
    requires MarkAt(DropBws(tail)).Junk?
    ensures AfterPart(from, part, tail) == Step(InPart, from, Fail(InvalidPart))
    ensures Eager(c, InPart, from + x) == EagerInPart(c, from + x)
  {
    hide DropBws, MarkAt, EagerInPart;
  }

  lemma PrependPrepend(a: seq<Part>, b: seq<Part>, r: Reading)
    ensures Prepend(a, Prepend(b, r)) == Prepend(a + b, r)
  {
    ConcatAssociative(a, b, r.parts);
  }

  /** The parts returned so far, followed by the reading of what is left. */
  function Presented(c: Config, w: Run, x: bytes): Reading { Prepend(w.parts, Read(c, w.mode, w.u + x)) }

  ghost predicate Faithful(c: Config, w: Run) {
    forall x :: Presented(c, w, x) == Read(c, Initial, w.fed + x)
  }

  lemma DoIsFaithful(c: Config, max: nat, w: Run, op: Op)
    requires Faithful(c, w)
    ensures Faithful(c, Do(c, max, w, op))
  {
    hide Read, Rescan;
    var w' := Do(c, max, w, op);
    forall x
      ensures Presented(c, w', x) == Read(c, Initial, w'.fed + x)
    {
      match op
      case Feed(data) =>
        ConcatAssociative(w.u, data, x);
        ConcatAssociative(w.fed, data, x);
        assert Presented(c, w, data + x) == Read(c, Initial, w.fed + (data + x));
        assert Presented(c, w, x) == Read(c, Initial, w.fed + x);
      case Call =>
        CallKeepsReading(c, w.mode, w.u, x);
        var s := Rescan(c, w.mode, w.u);
        PrependPrepend(w.parts, Given(s.reply), Read(c, s.mode, s.rest + x));
        assert Presented(c, w, x) == Read(c, Initial, w.fed + x);
    }
  }

  lemma {:induction false} RunStaysFaithful(c: Config, max: nat, w: Run, ops: seq<Op>)
    requires Faithful(c, w)
    ensures Faithful(c, RunAll(c, max, w, ops))
    decreases |ops|
  {
    hide Faithful, Do;
    if ops != [] {
      DoIsFaithful(c, max, w, ops[0]);
      RunStaysFaithful(c, max, Do(c, max, w, ops[0]), ops[1..]);
    }
  }

  lemma StartIsFaithful(c: Config)
    ensures Faithful(c, START)
  {
    hide Read;
    forall x
      ensures Presented(c, START, x) == Read(c, Initial, START.fed + x)
    {
      EmptyConcat(Read(c, Initial, START.fed + x).parts);
    }
  }

  /** Over every interleaving of `feed` and `next_part`, refused feeds and failed calls included:
      the parts returned so far, followed by the reading of what is left and of whatever comes
      later, is the reading of all accepted bytes. */
  lemma RunKeepsReading(c: Config, max: nat, ops: seq<Op>, x: bytes)
    ensures var w := RunAll(c, max, START, ops);
            Prepend(w.parts, Read(c, w.mode, w.u + x)) == Read(c, Initial, w.fed + x)
  {
    hide Read, RunAll;
    StartIsFaithful(c);
    RunStaysFaithful(c, max, START, ops);
    var w := RunAll(c, max, START, ops);
    assert Presented(c, w, x) == Read(c, Initial, w.fed + x);
  }

  // ---- What a run at rest has shown ----

  /** At rest either nothing is left to read, or junk behind a delimiter hides the last part. */
  lemma RestReads(c: Config, w: Run)
    requires AtRest(c, w)
    ensures var left, end := Read(c, w.mode, w.u), Rescan(c, w.mode, w.u).reply;
            && end == left.end
            && (left.parts != [] ==>
                  |left.parts| == 1 && left.mode == AfterInnerDelimiter && left.end == Fail(InvalidPart))
  {
    hide Eager, Rescan, DropBws, MarkAt;
    var t := Eager(c, w.mode, w.u);
    var from := RescanIsEager(c, w.mode, w.u, []);
    if t.reply.Next? {
      AfterDelimiterReads(c, t.rest);
    }
  }

  lemma AfterDelimiterReads(c: Config, tail: bytes)
    ensures MarkAt(DropBws(tail)).Junk? ==>
              Read(c, AfterInnerDelimiter, tail) == Reading([], AfterInnerDelimiter, Fail(InvalidPart))
    ensures MarkAt(DropBws(tail)).Open? ==>
              Read(c, AfterInnerDelimiter, tail) == Read(c, InPart, MarkAt(DropBws(tail)).rest)
    ensures MarkAt(DropBws(tail)).Close? ==> Read(c, AfterInnerDelimiter, tail) == Reading([], Finished, Finish)
    ensures MarkAt(DropBws(tail)).TooShort? ==>
              Read(c, AfterInnerDelimiter, tail) == Reading([], AfterInnerDelimiter, Fail(Incomplete))
  {
    hide DropBws, MarkAt, EagerInPart;
    if MarkAt(DropBws(tail)).Open? {
      SameReads(c, AfterInnerDelimiter, tail, InPart, MarkAt(DropBws(tail)).rest);
    }
  }

  /** Reading stopped at junk behind a delimiter that ended a part. */
  predicate StoppedByJunk(r: Reading) { r.mode == AfterInnerDelimiter && r.end == Fail(InvalidPart) }

  function AllButLast(parts: seq<Part>): seq<Part> {
    if parts == [] then [] else parts[..|parts| - 1]
  }

  /** A run that accepted `whole` and is at rest shows the parts and the reply `y`. */
  predicate Ends(c: Config, max: nat, ops: seq<Op>, whole: bytes, y: (seq<Part>, Reply)) {
    var w := RunAll(c, max, START, ops);
    w.fed == whole && AtRest(c, w) && Seen(c, w) == y
  }

  ghost predicate Shows(c: Config, whole: bytes, y: (seq<Part>, Reply)) {
    exists max: nat, ops: seq<Op> :: Ends(c, max, ops, whole, y)
  }

  /** No two ways of cutting the body and of timing the calls can be told apart. */
  ghost predicate Independent(c: Config, whole: bytes) {
    forall y, z :: Shows(c, whole, y) && Shows(c, whole, z) ==> y == z
  }

  lemma EndsReads(c: Config, max: nat, ops: seq<Op>, whole: bytes, y: (seq<Part>, Reply))
    requires Ends(c, max, ops, whole, y)
    ensures var all := Read(c, Initial, whole);
            && y.1 == all.end
            && (y.0 == all.parts || (StoppedByJunk(all) && y.0 == AllButLast(all.parts) && all.parts != []))
    ensures var w := RunAll(c, max, START, ops);
            var parts := Read(c, Initial, whole).parts;
            y.0 == if Read(c, w.mode, w.u).parts == [] then parts else AllButLast(parts)
  {
    hide Read, Rescan, RunAll;
    var w := RunAll(c, max, START, ops);
    RunKeepsReading(c, max, ops, []);
    EmptyConcat(w.u);
    EmptyConcat(w.fed);
    RestReads(c, w);
    var left := Read(c, w.mode, w.u);
    if left.parts == [] {
      EmptyConcat(w.parts);
    } else {
      assert (w.parts + left.parts)[..|w.parts|] == w.parts;
    }
  }

  /** What any run shows is the reading of the body, or the reading without its last part when
      junk stopped it. */
  lemma ShownIsRead(c: Config, whole: bytes, y: (seq<Part>, Reply))
    requires Shows(c, whole, y)
    ensures var all := Read(c, Initial, whole);
            && y.1 == all.end
            && (y.0 == all.parts || (StoppedByJunk(all) && y.0 == AllButLast(all.parts) && all.parts != []))
  {
    hide Read, Ends;
    var max, ops :| Ends(c, max, ops, whole, y);
    EndsReads(c, max, ops, whole, y);
  }

  // ---- Exactly when the cut can be seen ----

  /** The text goes on inside a part, and a delimiter that ends a part is followed by padding and
      two bytes that are neither CRLF nor "--". */
  predicate JunkAhead(c: Config, u: bytes)
    decreases |u|
  {
    var h := Find(u, BLANK_LINE);
    h.Some? && c.headerError(u[..h.value]).None? &&
    var body := u[h.value + 4..];
    var p := Find(body, Inner(c));
    p.Some? &&
    var mark := MarkAt(DropBws(body[p.value + |Inner(c)|..]));
    mark.Junk? || (mark.Open? && JunkAhead(c, mark.rest))
  }

  predicate JunkDelimiter(c: Config, whole: bytes) {
    var p := Find(whole, First(c));
    p.Some? &&
    var mark := MarkAt(DropBws(whole[p.value + |First(c)|..]));
    mark.Open? && JunkAhead(c, mark.rest)
  }

  lemma {:induction false} JunkAheadStops(c: Config, u: bytes)
    ensures JunkAhead(c, u) <==> StoppedByJunk(Read(c, InPart, u))
    ensures JunkAhead(c, u) ==> Read(c, InPart, u).parts != []
    decreases |u|
  {
    hide Find, Inner, DropBws, MarkAt;
    var t := Eager(c, InPart, u);
    if t.reply.Next? {
      EagerShrinks(c, InPart, u);
      AfterDelimiterReads(c, t.rest);
      var mark := MarkAt(DropBws(t.rest));
      if mark.Open? {
        OpenIsShorter(t.rest);
        JunkAheadStops(c, mark.rest);
      }
    }
  }

  lemma OpenIsShorter(tail: bytes)
    requires MarkAt(DropBws(tail)).Open?
    ensures |MarkAt(DropBws(tail)).rest| < |tail|
  {
  }

  lemma JunkStops(c: Config, whole: bytes)
    ensures JunkDelimiter(c, whole) <==> StoppedByJunk(Read(c, Initial, whole))
    ensures JunkDelimiter(c, whole) ==> Read(c, Initial, whole).parts != []
  {
    hide Find, First, DropBws, MarkAt, JunkAhead, EagerInPart;
    var p := Find(whole, First(c));
    if p.Some? {
      var mark := MarkAt(DropBws(whole[p.value + |First(c)|..]));
      if mark.Open? {
        JunkAheadStops(c, mark.rest);
        SameReads(c, Initial, whole, InPart, mark.rest);
      }
    }
  }

  lemma StepShrinks(c: Config, mode: Mode, u: bytes)
    requires Rescan(c, mode, u).reply.Next?
    ensures var s := Rescan(c, mode, u);
            |s.rest| <= |u| && (|s.rest| < |u| || (s.mode.Finished? && !mode.Finished?))
  {
    hide DropBws, Find;
  }

  /** While junk lies ahead behind a part, no call returns the last part. */
  lemma LastPartStays(c: Config, mode: Mode, u: bytes)
    requires Rescan(c, mode, u).reply.Next? && StoppedByJunk(Read(c, mode, u))
    ensures var s := Rescan(c, mode, u);
            StoppedByJunk(Read(c, s.mode, s.rest)) && Read(c, s.mode, s.rest).parts != []
  {
    hide Eager, Rescan, DropBws, MarkAt, Read;
    var s, t := Rescan(c, mode, u), Eager(c, mode, u);
    var from := RescanIsEager(c, mode, u, []);
    CallKeepsReading(c, mode, u, []);
    EmptyConcat(u);
    EmptyConcat(s.rest);
    EmptyConcat(t.rest);
    if t.reply.Next? && !MarkAt(DropBws(t.rest)).Junk? {
      AfterPartReads(c, from, t.reply.part, t.rest, []);
      AfterDelimiterReads(c, t.rest);
      JunkAheadStops(c, s.rest);
    }
  }

  /** Calling `next_part` until it returns no part. */
  lemma {:induction false} CallAll(c: Config, max: nat, w: Run) returns (ops: seq<Op>)
    ensures var v := RunAll(c, max, w, ops);
            && AtRest(c, v) && v.fed == w.fed && |v.parts| >= |w.parts|
            && (StoppedByJunk(Read(c, w.mode, w.u)) && Read(c, w.mode, w.u).parts != [] ==>
                  Read(c, v.mode, v.u).parts != [])
    decreases |w.u|, if w.mode.Finished? then 0 else 1
  {
    hide Rescan, Read;
    ops := [];
    if !AtRest(c, w) {
      StepShrinks(c, w.mode, w.u);
      var w' := Do(c, max, w, Call);
      if StoppedByJunk(Read(c, w.mode, w.u)) {
        LastPartStays(c, w.mode, w.u);
      }
      var more := CallAll(c, max, w');
      ops := [Call] + more;
      assert ops[1..] == more;
    }
  }

  /** A needle that was found is found without the bytes behind it. */
  lemma FindInPrefix(s: bytes, x: bytes, w: bytes)
    requires Find(s + x, w).Some? && Find(s + x, w).value + |w| <= |s|
    ensures Find(s, w) == Find(s + x, w)
  {
    var p := Find(s + x, w).value;
    OccursExtend(s, x, w, p);
    forall j: nat | j < p
      ensures !Occurs(s, w, j)
    {
      OccursExtend(s, x, w, j);
    }
    FindIs(s, w, p);
  }

  /** The bytes up to the end of the first match, in which it is found again. */
  lemma CutBehindMatch(s: bytes, w: bytes) returns (a: bytes, b: bytes)
    requires Find(s, w).Some?
    ensures var p := Find(s, w).value;
            && s == a + b && b == s[p + |w|..] && |a| == p + |w| && a[..p] == s[..p] && Find(a, w) == Some(p)
  {
    hide Find;
    FoundFits(s, w);
    var k := Find(s, w).value + |w|;
    a, b := s[..k], s[k..];
    assert s == a + b;
    FindInPrefix(a, b, w);
  }

  /** A part is read without the bytes behind its delimiter. */
  lemma PartInPrefix(c: Config, u: bytes) returns (a: bytes)
    requires EagerInPart(c, u).reply.Next?
    ensures var t := EagerInPart(c, u);
            u == a + t.rest && EagerInPart(c, a) == t.(rest := [])
  {
    hide Find, Inner;
    var head, body := CutBehindMatch(u, BLANK_LINE);
    var b, rest := CutBehindMatch(body, Inner(c));
    a := head + b;
    ConcatAssociative(head, b, rest);
    FindSplitStable(head, b, BLANK_LINE);
    assert head[|head|..] == [] && b[|b|..] == [];
    EmptyConcat(b);
  }

  /** Cutting in front of the junk: the first piece holds every part and then waits. */
  lemma {:induction false} CutInPart(c: Config, u: bytes) returns (a: bytes, b: bytes)
    requires JunkAhead(c, u)
    ensures u == a + b
    ensures Read(c, InPart, a) == Reading(Read(c, InPart, u).parts, AfterInnerDelimiter, Fail(Incomplete))
    decreases |u|
  {
    hide Find, Inner, DropBws, MarkAt, EagerInPart;
    JunkAheadParts(c, u);
    var t := EagerInPart(c, u);
    a := PartInPrefix(c, u);
    b := t.rest;
    AfterDelimiterReads(c, b);
    var mark := MarkAt(DropBws(b));
    if mark.Junk? {
      NothingAfterDelimiter();
      AfterDelimiterReads(c, []);
    } else {
      OpenIsShorter(b);
      EagerShrinks(c, InPart, u);
      var a', b' := CutInPart(c, mark.rest);
      var y := OpenPrefix(b, a', b');
      AfterDelimiterReads(c, y);
      EagerInPartStable(c, a, y);
      EmptyConcat(y);
      ConcatAssociative(a, y, b');
      a, b := a + y, b';
    }
  }

  lemma JunkAheadParts(c: Config, u: bytes)
    requires JunkAhead(c, u)
    ensures var t := EagerInPart(c, u);
            && t.reply.Next? && t.mode == AfterInnerDelimiter
            && var mark := MarkAt(DropBws(t.rest));
            mark.Junk? || (mark.Open? && JunkAhead(c, mark.rest))
  {
    hide Find, Inner, DropBws, MarkAt;
  }

  lemma NothingAfterDelimiter()
    ensures MarkAt(DropBws([])) == TooShort
  {
  }

  /** The padding and CRLF in front of `a + b`, with `a` only. */
  lemma OpenPrefix(tail: bytes, a: bytes, b: bytes) returns (y: bytes)
    requires MarkAt(DropBws(tail)) == Open(a + b)
    ensures tail == y + b && MarkAt(DropBws(y)) == Open(a)
  {
    hide DropBws;
    var w := SplitBws(tail);
    y := w + (CRLF + a);
    DropBwsOf(w, CRLF + a);
    assert (CRLF + a)[..2] == CRLF && (CRLF + a)[2..] == a;
    assert DropBws(tail) == CRLF + (a + b);
    ConcatAssociative(CRLF, a, b);
    ConcatAssociative(w, CRLF + a, b);
  }

  lemma CutWhole(c: Config, whole: bytes) returns (a: bytes, b: bytes)
    requires JunkDelimiter(c, whole)
    ensures whole == a + b
    ensures Read(c, Initial, a) == Reading(Read(c, Initial, whole).parts, AfterInnerDelimiter, Fail(Incomplete))
  {
    hide Find, First, DropBws, MarkAt, JunkAhead, EagerInPart, Read;
    var p := Find(whole, First(c)).value;
    FoundFits(whole, First(c));
    var k := p + |First(c)|;
    var mark := MarkAt(DropBws(whole[k..]));
    var a', b' := CutInPart(c, mark.rest);
    var y := OpenPrefix(whole[k..], a', b');
    a, b := whole[..k] + y, b';
    assert whole == a + b;
    FindInPrefix(a, b, First(c));
    assert a[k..] == y;
    SameReads(c, Initial, a, InPart, a');
    SameReads(c, Initial, whole, InPart, mark.rest);
  }

  /** Everything at once. */
  lemma FedAtOnce(c: Config, whole: bytes)
    ensures var all := Read(c, Initial, whole);
            Shows(c, whole, (if JunkDelimiter(c, whole) then AllButLast(all.parts) else all.parts, all.end))
  {
    hide Read, Rescan, JunkDelimiter;
    JunkStops(c, whole);
    var w := Do(c, |whole|, START, Feed(whole));
    EmptyConcat(whole);
    var calls := CallAll(c, |whole|, w);
    var ops := [Feed(whole)] + calls;
    assert ops[1..] == calls;
    var y := Seen(c, RunAll(c, |whole|, START, ops));
    assert Ends(c, |whole|, ops, whole, y);
    EndsReads(c, |whole|, ops, whole, y);
  }

  /** Everything in two pieces, of which the first ends in front of the junk. */
  lemma FedInTwo(c: Config, whole: bytes)
    requires JunkDelimiter(c, whole)
    ensures Shows(c, whole, (Read(c, Initial, whole).parts, Fail(InvalidPart)))
  {
    hide Read, Rescan, JunkDelimiter, RunAll;
    JunkStops(c, whole);
    var max := |whole|;
    var a, b := CutWhole(c, whole);
    var ops1 := [Feed(a)];
    OneOp(c, max, START, Feed(a));
    var w1 := RunAll(c, max, START, ops1);
    EmptyConcat(a);
    var calls := CallAll(c, max, w1);
    var ops2 := ops1 + calls;
    RunThen(c, max, START, ops1, calls);
    var w2 := RunAll(c, max, START, ops2);
    assert Ends(c, max, ops2, a, Seen(c, w2));
    EndsReads(c, max, ops2, a, Seen(c, w2));
    HeldIsFed(c, max, START, ops2);
    var ops3 := ops2 + [Feed(b)];
    RunThen(c, max, START, ops2, [Feed(b)]);
    OneOp(c, max, w2, Feed(b));
    var w3 := RunAll(c, max, START, ops3);
    var calls' := CallAll(c, max, w3);
    var ops4 := ops3 + calls';
    RunThen(c, max, START, ops3, calls');
    var w4 := RunAll(c, max, START, ops4);
    assert Ends(c, max, ops4, whole, Seen(c, w4));
    EndsReads(c, max, ops4, whole, Seen(c, w4));
  }

  lemma OneOp(c: Config, max: nat, w: Run, op: Op)
    ensures RunAll(c, max, w, [op]) == Do(c, max, w, op)
  {
    hide Do;
    assert [op][1..] == [];
  }

  /** The parser never holds more than it was fed. */
  lemma {:induction false} HeldIsFed(c: Config, max: nat, w: Run, ops: seq<Op>)
    requires |w.u| <= |w.fed|
    ensures var v := RunAll(c, max, w, ops); |v.u| <= |v.fed|
    decreases |ops|
  {
    hide Rescan;
    if ops != [] {
      RestIsShorter(c, w.mode, w.u);
      HeldIsFed(c, max, Do(c, max, w, ops[0]), ops[1..]);
    }
  }

  lemma RestIsShorter(c: Config, mode: Mode, u: bytes)
    ensures |Rescan(c, mode, u).rest| <= |u|
  {
    hide DropBws, Find;
  }

  /** Junk behind a delimiter that ends a part can be told from its arrival: fed at once, the body
      loses its last part; cut in front of the junk, it does not. Both end in `InvalidPart`. */
  lemma JunkHidesPart(c: Config, whole: bytes)
    requires JunkDelimiter(c, whole)
    ensures var all := Read(c, Initial, whole);
            && all.parts != []
            && Shows(c, whole, (all.parts, Fail(InvalidPart)))
            && Shows(c, whole, (AllButLast(all.parts), Fail(InvalidPart)))
  {
    hide Read, Shows, JunkDelimiter;
    JunkStops(c, whole);
    FedInTwo(c, whole);
    FedAtOnce(c, whole);
  }

  /** The parts and the end that a caller sees are independent of how the body is cut and of when
      `next_part` is called exactly when no delimiter that ends a part is followed by junk. */
  lemma FragmentationIndependence(c: Config, whole: bytes)
    ensures Independent(c, whole) <==> !JunkDelimiter(c, whole)
    ensures !JunkDelimiter(c, whole) ==>
              forall y :: Shows(c, whole, y) <==> y == (Read(c, Initial, whole).parts, Read(c, Initial, whole).end)
  {
    hide Read, Shows, JunkDelimiter;
    var all := Read(c, Initial, whole);
    JunkStops(c, whole);
    FedAtOnce(c, whole);
    if JunkDelimiter(c, whole) {
      JunkHidesPart(c, whole);
      assert all.parts != AllButLast(all.parts);
    }
    forall y | Shows(c, whole, y) && !JunkDelimiter(c, whole)
      ensures y == (all.parts, all.end)
    {
      ShownIsRead(c, whole, y);
    }
  }
}
