/** The multipart builder, and the round trip through the parser. */
module MultipartBuilder {
  import opened Scan
  import opened Multipart
  import opened MultipartRuns

  /** A part as the builder holds it: its header lines and its body. */
  datatype Section = Section(lines: seq<bytes>, body: bytes)

  /** Section 5.1.1 of RFC 2046. */
  predicate IsBoundaryChar(b: byte) {
    IsAlpha(b) || IsDigit(b) || b == SP || 39 <= b <= 41 || 43 <= b <= 47 || b == 58 || b == 61 || b == 63 || b == 95
  }

  predicate IsValidBoundary(b: bytes) {
    1 <= |b| <= 70 && All(b, IsBoundaryChar) && b[|b| - 1] != SP
  }

  /** A header line is not empty and holds no CR. */
  predicate ValidLine(line: bytes) { line != [] && CR !in line }

  predicate ValidSection(c: Config, s: Section) {
    && s.lines != [] && (forall i :: 0 <= i < |s.lines| ==> ValidLine(s.lines[i]))
    && c.headerError(HeaderText(s.lines)) == None
  }

  /** The lines joined by CRLF. */
  function HeaderText(lines: seq<bytes>): bytes {
    if lines == [] then []
    else if |lines| == 1 then lines[0]
    else lines[0] + (CRLF + HeaderText(lines[1..]))
  }

  /** What follows the first delimiter. */
  function Tail(c: Config, sections: seq<Section>): bytes {
    if sections == [] then DASHES + CRLF
    else CRLF + PartText(c, sections[0], Tail(c, sections[1..]))
  }

  function PartText(c: Config, s: Section, tail: bytes): bytes {
    HeaderText(s.lines) + (BLANK_LINE + (s.body + (Inner(c) + tail)))
  }

  function BuildText(c: Config, sections: seq<Section>): bytes {
    First(c) + Tail(c, sections)
  }

  // ---- The code ----

  /** `MultipartBuilder::build`; every part has at least its Content-Disposition line. */
  method Build(c: Config, sections: seq<Section>) returns (result: bytes)
    requires forall i :: 0 <= i < |sections| ==> sections[i].lines != []
    ensures result == BuildText(c, sections)
  {
    result := [];
    EmptyConcat(BuildText(c, sections));
    for k := 0 to |sections|
      invariant BuildText(c, sections) == result + BuildText(c, sections[k..])
    {
      ghost var before := result;
      var s := sections[k];
      assert sections[k..][1..] == sections[k + 1..];
      result := result + DASHES + c.boundary + CRLF;
      result := WriteLines(result, s.lines);
      result := result + CRLF + s.body + CRLF;
      SectionWritten(c, before, s, Tail(c, sections[k + 1..]));
    }
    result := result + DASHES + c.boundary + DASHES + CRLF;
  }

  method WriteLines(result: bytes, lines: seq<bytes>) returns (result': bytes)
    requires lines != []
    ensures result' == result + HeaderText(lines) + CRLF
  {
    result' := result;
    for k := 0 to |lines|
      invariant k < |lines| ==> result + HeaderText(lines) == result' + HeaderText(lines[k..])
      invariant k == |lines| ==> result' == result + HeaderText(lines) + CRLF
    {
      var line := lines[k];
      if k + 1 < |lines| {
        assert lines[k..][1..] == lines[k + 1..];
        LineWritten(result', line, HeaderText(lines[k + 1..]));
      } else {
        assert lines[k..] == [line];
      }
      result' := result' + line + CRLF;
    }
  }

  lemma LineWritten(result: bytes, line: bytes, more: bytes)
    ensures result + (line + (CRLF + more)) == result + line + CRLF + more
  {
    ConcatAssociative(result, line, CRLF + more);
    ConcatAssociative(result + line, CRLF, more);
  }

  /** A section on its own: delimiter line, header lines, empty line, body, CRLF. */
  function SectionText(c: Config, s: Section): bytes {
    DASHES + c.boundary + CRLF + HeaderText(s.lines) + CRLF + CRLF + s.body + CRLF
  }

  function SectionTexts(c: Config, sections: seq<Section>): bytes {
    if sections == [] then [] else SectionText(c, sections[0]) + SectionTexts(c, sections[1..])
  }

  /** A built text is its sections one behind the other and a closing delimiter line of its own, with its CRLF. */
  lemma {:induction false} BuiltTextEnds(c: Config, sections: seq<Section>)
    ensures BuildText(c, sections) == SectionTexts(c, sections) + (DASHES + c.boundary + DASHES + CRLF)
  {
    hide HeaderText;
    var close := DASHES + c.boundary + DASHES + CRLF;
    if sections == [] {
      EmptyConcat(close);
      ConcatAssociative(DASHES, c.boundary, DASHES + CRLF);
      ConcatAssociative(DASHES + c.boundary, DASHES, CRLF);
    } else {
      var s := sections[0];
      var rest := sections[1..];
      BuiltTextEnds(c, rest);
      SectionWritten(c, [], s, Tail(c, rest));
      EmptyConcat(First(c) + (CRLF + PartText(c, s, Tail(c, rest))));
      EmptyConcat(DASHES);
      ConcatAssociative(SectionText(c, s), SectionTexts(c, rest), close);
    }
  }

  lemma SectionWritten(c: Config, before: bytes, s: Section, tail: bytes)
    ensures before + (First(c) + (CRLF + PartText(c, s, tail)))
         == before + DASHES + c.boundary + CRLF + HeaderText(s.lines) + CRLF + CRLF + s.body + CRLF + (First(c) + tail)
  {
    hide HeaderText;
    var h := HeaderText(s.lines);
    var t3 := First(c) + tail;
    var t2 := s.body + (CRLF + t3);
    var t1 := CRLF + (CRLF + t2);
    ConcatAssociative(CRLF, First(c), tail);
    ConcatAssociative(CRLF, CRLF, t2);
    assert PartText(c, s, tail) == h + t1;
    ConcatAssociative(DASHES, c.boundary, CRLF + (h + t1));
    ConcatAssociative(before, DASHES, c.boundary + (CRLF + (h + t1)));
    ConcatAssociative(before + DASHES, c.boundary, CRLF + (h + t1));
    ConcatAssociative(before + DASHES + c.boundary, CRLF, h + t1);
    ConcatAssociative(before + DASHES + c.boundary + CRLF, h, t1);
    var p := before + DASHES + c.boundary + CRLF + h;
    ConcatAssociative(p, CRLF, CRLF + t2);
    ConcatAssociative(p + CRLF, CRLF, t2);
    ConcatAssociative(p + CRLF + CRLF, s.body, CRLF + t3);
    ConcatAssociative(p + CRLF + CRLF + s.body, CRLF, t3);
  }

  // ---- Finding the end of the header block and of the body ----

  lemma NoBlankLineYet(line: bytes, t: bytes)
    requires CR !in line && t != [] && t[0] != CR
    ensures forall j: nat :: j < |line + CRLF| ==> !Occurs((line + CRLF) + t, BLANK_LINE, j)
  {
    var s := (line + CRLF) + t;
    forall j: nat | j < |line + CRLF|
      ensures !Occurs(s, BLANK_LINE, j)
    {
      assert j < |line| ==> s[j] == line[j];
      assert s[|line| + 1] == LF && s[|line| + 2] == t[0];
      if Occurs(s, BLANK_LINE, j) {
        OccursAt(s, BLANK_LINE, j, if j == |line| then 2 else 0);
      }
    }
  }

  lemma {:induction false} HeaderEnd(lines: seq<bytes>, z: bytes)
    requires lines != [] && forall i :: 0 <= i < |lines| ==> ValidLine(lines[i])
    ensures Find(HeaderText(lines) + (BLANK_LINE + z), BLANK_LINE) == Some(|HeaderText(lines)|)
    ensures HeaderText(lines) != [] && HeaderText(lines)[0] != CR
  {
    hide Find, FindFrom;
    var line := lines[0];
    if |lines| == 1 {
      NoOccurrenceWithin(line, BLANK_LINE + z, BLANK_LINE);
      assert Occurs(BLANK_LINE + z, BLANK_LINE, 0);
      FindAfterPrefix(line, BLANK_LINE + z, BLANK_LINE);
    } else {
      var rest := HeaderText(lines[1..]);
      var t := rest + (BLANK_LINE + z);
      HeaderEnd(lines[1..], z);
      NoBlankLineYet(line, t);
      FindAfterPrefix(line + CRLF, t, BLANK_LINE);
      ConcatAssociative(CRLF, rest, BLANK_LINE + z);
      ConcatAssociative(line, CRLF + rest, BLANK_LINE + z);
      ConcatAssociative(line, CRLF, t);
      ConcatAssociative(line, CRLF, rest);
    }
  }

  /** A valid boundary gives a delimiter that no proper suffix of itself begins again: a match
      can only start where a CR stands, and it has no second one. */
  lemma NoBorder(c: Config, body: bytes, more: bytes, j: nat)
    requires CR !in c.boundary
    requires j < |body| < j + |Inner(c)|
    ensures !Occurs(body + (Inner(c) + more), Inner(c), j)
  {
    var w, s := Inner(c), body + (Inner(c) + more);
    var k := |body| - j;
    assert s[|body|] == CR;
    assert w[k] != CR by {
      assert k >= 4 ==> w[k] == c.boundary[k - 4];
    }
    if Occurs(s, w, j) {
      OccursAt(s, w, j, k);
    }
  }

  /** The body ends at the first delimiter in it, or else at the one that was written. */
  lemma BodyEnd(c: Config, body: bytes, more: bytes)
    requires CR !in c.boundary
    ensures Find(body + (Inner(c) + more), Inner(c))
         == Some(if Find(body, Inner(c)).Some? then Find(body, Inner(c)).value else |body|)
  {
    hide Inner;
    var w := Inner(c);
    var t := w + more;
    if Find(body, w).Some? {
      FindStable(body, t, w);
    } else {
      forall j: nat | j < |body|
        ensures !Occurs(body + t, w, j)
      {
        if j + |w| <= |body| {
          OccursExtend(body, t, w, j);
        } else {
          NoBorder(c, body, more, j);
        }
      }
      assert Occurs(t, w, 0);
      FindAfterPrefix(body, t, w);
    }
  }

  // ---- Round trip ----

  /** The parts as the parser should return them. */
  function Parts(sections: seq<Section>): seq<Part> {
    if sections == [] then []
    else [Part(HeaderText(sections[0].lines), sections[0].body)] + Parts(sections[1..])
  }

  /** No body holds the delimiter. */
  ghost predicate Free(c: Config, sections: seq<Section>) {
    forall i :: 0 <= i < |sections| ==> Find(sections[i].body, Inner(c)) == None
  }

  lemma PartIsRead(c: Config, s: Section, tail: bytes)
    requires ValidSection(c, s) && CR !in c.boundary
    ensures var p := Find(s.body, Inner(c));
            var n := if p.Some? then p.value else |s.body|;
            && n <= |s.body|
            && EagerInPart(c, PartText(c, s, tail))
               == Step(AfterInnerDelimiter, (s.body + (Inner(c) + tail))[n + |Inner(c)|..],
                       Next(Part(HeaderText(s.lines), s.body[..n])))
  {
    hide Find, HeaderText, Inner;
    var z := s.body + (Inner(c) + tail);
    var h, u := HeaderText(s.lines), PartText(c, s, tail);
    HeaderEnd(s.lines, z);
    assert u[..|h|] == h;
    assert u[|h| + 4..] == z;
    BodyEnd(c, s.body, tail);
    var n := Find(z, Inner(c)).value;
    if Find(s.body, Inner(c)).Some? {
      FoundFits(s.body, Inner(c));
    }
    assert z[..n] == s.body[..n];
  }

  lemma PartRead(c: Config, u: bytes)
    requires EagerInPart(c, u).reply.Next?
    ensures var t := EagerInPart(c, u);
            Read(c, InPart, u) == MultipartRuns.Prepend([t.reply.part], Read(c, t.mode, t.rest))
  {
    hide EagerInPart;
  }

  /** Reading a part whose body does not hold the delimiter goes on behind the one that was written. */
  lemma PartThenTail(c: Config, s: Section, tail: bytes)
    requires ValidSection(c, s) && CR !in c.boundary && Find(s.body, Inner(c)) == None
    ensures Read(c, InPart, PartText(c, s, tail))
         == MultipartRuns.Prepend([Part(HeaderText(s.lines), s.body)], Read(c, AfterInnerDelimiter, tail))
  {
    hide PartText, Find, HeaderText, Inner, EagerInPart, Read, ValidSection;
    PartIsRead(c, s, tail);
    PartRead(c, PartText(c, s, tail));
    assert s.body[..|s.body|] == s.body;
    assert (s.body + (Inner(c) + tail))[|s.body| + |Inner(c)|..] == tail;
  }

  lemma PartCutShort(c: Config, s: Section, tail: bytes)
    requires ValidSection(c, s) && CR !in c.boundary && Find(s.body, Inner(c)).Some?
    ensures var r := Read(c, InPart, PartText(c, s, tail)); r.parts != [] && |r.parts[0].body| < |s.body|
  {
    hide PartText, Find, HeaderText, Inner, EagerInPart, Read, ValidSection;
    PartIsRead(c, s, tail);
    PartRead(c, PartText(c, s, tail));
    FoundFits(s.body, Inner(c));
  }

  /** A section with the white space that stands behind the delimiter in front of it. */
  datatype Padded = Padded(padding: bytes, section: Section)

  function Sections(ps: seq<Padded>): seq<Section> {
    if ps == [] then [] else [ps[0].section] + Sections(ps[1..])
  }

  ghost predicate AreValid(c: Config, ps: seq<Padded>) {
    forall i :: 0 <= i < |ps| ==> All(ps[i].padding, IsBws) && ValidSection(c, ps[i].section)
  }

  /** What follows the first delimiter when there is padding behind each and an epilogue behind the
      closing one (section 5.1.1 of RFC 2046). */
  function PaddedTail(c: Config, ps: seq<Padded>, last: bytes, epilogue: bytes): bytes {
    if ps == [] then last + (DASHES + epilogue)
    else ps[0].padding + (CRLF + PartText(c, ps[0].section, PaddedTail(c, ps[1..], last, epilogue)))
  }

  lemma PaddedMark(c: Config, ps: seq<Padded>, last: bytes, epilogue: bytes)
    requires AreValid(c, ps) && All(last, IsBws)
    ensures MarkAt(DropBws(PaddedTail(c, ps, last, epilogue)))
         == if ps == [] then Close
            else Open(PartText(c, ps[0].section, PaddedTail(c, ps[1..], last, epilogue)))
  {
    hide PartText, DropBws, ValidSection;
    if ps == [] {
      DropBwsOf(last, DASHES + epilogue);
      assert (DASHES + epilogue)[..2] == DASHES;
    } else {
      var u := PartText(c, ps[0].section, PaddedTail(c, ps[1..], last, epilogue));
      DropBwsOf(ps[0].padding, CRLF + u);
      MarkOfCrlf(u);
    }
  }

  lemma {:induction false} PaddedPartsRead(c: Config, ps: seq<Padded>, last: bytes, epilogue: bytes)
    requires CR !in c.boundary && AreValid(c, ps) && All(last, IsBws)
    ensures var r := Read(c, AfterInnerDelimiter, PaddedTail(c, ps, last, epilogue));
            r.parts == Parts(Sections(ps)) && r.end == Finish <==> Free(c, Sections(ps))
    decreases |ps|
  {
    hide PartText, Find, HeaderText, Inner, MarkAt, DropBws, ValidSection, Read, EagerInPart, PaddedTail;
    PaddedMark(c, ps, last, epilogue);
    AfterDelimiterReads(c, PaddedTail(c, ps, last, epilogue));
    if ps != [] {
      var s, rest := ps[0].section, ps[1..];
      var sections := Sections(ps);
      assert sections[0] == s && sections[1..] == Sections(rest);
      var tail := PaddedTail(c, rest, last, epilogue);
      PaddedPartsRead(c, rest, last, epilogue);
      if Find(s.body, Inner(c)) == None {
        PartThenTail(c, s, tail);
        FreeCons(c, sections);
        SameHead(Part(HeaderText(s.lines), s.body), Read(c, AfterInnerDelimiter, tail).parts, Parts(sections[1..]));
      } else {
        PartCutShort(c, s, tail);
        assert !Free(c, sections);
        assert Parts(sections)[0].body == s.body;
      }
    }
  }

  /** The builder writes no padding, and CRLF as the epilogue. */
  function Bare(sections: seq<Section>): seq<Padded> {
    seq(|sections|, i requires 0 <= i < |sections| => Padded([], sections[i]))
  }

  lemma {:induction false} TailIsBare(c: Config, sections: seq<Section>)
    ensures Tail(c, sections) == PaddedTail(c, Bare(sections), [], CRLF)
    ensures Sections(Bare(sections)) == sections
    decreases |sections|
  {
    hide PartText;
    if sections == [] {
      EmptyConcat(DASHES + CRLF);
    } else {
      assert Bare(sections)[1..] == Bare(sections[1..]);
      TailIsBare(c, sections[1..]);
      EmptyConcat(Tail(c, sections));
      HeadSplit(sections);
    }
  }

  lemma FreeCons(c: Config, sections: seq<Section>)
    requires sections != [] && Find(sections[0].body, Inner(c)) == None
    ensures Free(c, sections) <==> Free(c, sections[1..])
  {
    hide Find, Inner;
    if Free(c, sections[1..]) {
      forall i | 0 <= i < |sections|
        ensures Find(sections[i].body, Inner(c)) == None
      {
        assert i > 0 ==> sections[i] == sections[1..][i - 1];
      }
    }
  }

  lemma SameHead(part: Part, a: seq<Part>, b: seq<Part>)
    ensures [part] + a == [part] + b <==> a == b
  {
    assert ([part] + a)[1..] == a && ([part] + b)[1..] == b;
  }

  /** What stands behind the first delimiter is read as what stands behind any other, whatever stands
      in front of it. */
  lemma BehindFirst(c: Config, preamble: bytes, tail: bytes)
    requires forall j: nat :: j < |preamble| ==> !Occurs(preamble + First(c), First(c), j)
    requires MarkAt(DropBws(tail)).Open? || MarkAt(DropBws(tail)).Close?
    ensures var u := preamble + (First(c) + tail);
            && Read(c, Initial, u) == Read(c, AfterInnerDelimiter, tail)
            && (MarkAt(DropBws(tail)).Open? ==>
                  (JunkDelimiter(c, u) <==> JunkAhead(c, MarkAt(DropBws(tail)).rest)))
  {
    hide Find, First, MarkAt, DropBws, EagerInPart, JunkAhead;
    var w := First(c);
    var u := preamble + (w + tail);
    forall j: nat | j < |preamble|
      ensures !Occurs(u, w, j)
    {
      ConcatAssociative(preamble, w, tail);
      OccursExtend(preamble + w, tail, w, j);
    }
    assert Occurs(u, w, |preamble|);
    FindIs(u, w, |preamble|);
    assert u[|preamble| + |w|..] == tail;
    SameReads(c, Initial, u, AfterInnerDelimiter, tail);
  }

  lemma BehindNothing(c: Config, tail: bytes)
    requires MarkAt(DropBws(tail)).Open? || MarkAt(DropBws(tail)).Close?
    ensures Read(c, Initial, First(c) + tail) == Read(c, AfterInnerDelimiter, tail)
    ensures MarkAt(DropBws(tail)).Open? ==>
              (JunkDelimiter(c, First(c) + tail) <==> JunkAhead(c, MarkAt(DropBws(tail)).rest))
  {
    hide Read, First, MarkAt, DropBws, JunkDelimiter, JunkAhead;
    EmptyConcat(First(c) + tail);
    BehindFirst(c, [], tail);
  }

  /** What the builder writes is parsed back - the same header blocks and bodies in order, then
      the end - by every run, however the bytes are cut and whenever `next_part` is called, if and
      only if no body holds the delimiter. */
  lemma RoundTrip(c: Config, sections: seq<Section>, max: nat, ops: seq<Op>)
    requires IsValidBoundary(c.boundary)
    requires forall i :: 0 <= i < |sections| ==> ValidSection(c, sections[i])
    requires var w := RunAll(c, max, START, ops); w.fed == BuildText(c, sections) && AtRest(c, w)
    ensures Seen(c, RunAll(c, max, START, ops)) == (Parts(sections), Finish) <==> Free(c, sections)
  {
    hide Read, BuildText, RunAll, Rescan, Free, MarkAt;
    var y := Seen(c, RunAll(c, max, START, ops));
    assert Ends(c, max, ops, BuildText(c, sections), y);
    ShownIsRead(c, BuildText(c, sections), y);
    BuiltTextRead(c, sections);
  }

  lemma BuiltTextRead(c: Config, sections: seq<Section>)
    requires IsValidBoundary(c.boundary)
    requires forall i :: 0 <= i < |sections| ==> ValidSection(c, sections[i])
    ensures var r := Read(c, Initial, BuildText(c, sections));
            r.parts == Parts(sections) && r.end == Finish <==> Free(c, sections)
  {
    hide Read, Free, MarkAt, First, Tail, ValidSection, DropBws;
    TailIsBare(c, sections);
    PaddedPartsRead(c, Bare(sections), [], CRLF);
    PaddedMark(c, Bare(sections), [], CRLF);
    BehindNothing(c, Tail(c, sections));
  }

  /** The same of any text of that shape, whoever wrote it: with a preamble in which no delimiter
      starts, white space behind the delimiters, and an epilogue. */
  lemma AnyTextRead(
      c: Config, preamble: bytes, ps: seq<Padded>, last: bytes, epilogue: bytes, max: nat, ops: seq<Op>)
    requires CR !in c.boundary && AreValid(c, ps) && All(last, IsBws)
    requires forall j: nat :: j < |preamble| ==> !Occurs(preamble + First(c), First(c), j)
    requires var w := RunAll(c, max, START, ops);
             w.fed == preamble + (First(c) + PaddedTail(c, ps, last, epilogue)) && AtRest(c, w)
    ensures Seen(c, RunAll(c, max, START, ops)) == (Parts(Sections(ps)), Finish) <==> Free(c, Sections(ps))
  {
    hide Read, RunAll, Rescan, Free, MarkAt, DropBws, First, PaddedTail, ValidSection;
    var tail := PaddedTail(c, ps, last, epilogue);
    var u := preamble + (First(c) + tail);
    var y := Seen(c, RunAll(c, max, START, ops));
    assert Ends(c, max, ops, u, y);
    ShownIsRead(c, u, y);
    PaddedPartsRead(c, ps, last, epilogue);
    PaddedMark(c, ps, last, epilogue);
    BehindFirst(c, preamble, tail);
  }

  // ---- Junk behind a part ----

  /** A part, its delimiter, and then neither CRLF nor "--". */
  function PartThenJunk(c: Config, s: Section, junk: bytes): bytes {
    First(c) + (CRLF + PartText(c, s, junk))
  }

  /** Every such body is one whose arrival can be observed: at once it yields nothing, in two
      pieces its part. */
  lemma JunkIsObserved(c: Config, s: Section, junk: bytes)
    requires IsValidBoundary(c.boundary) && ValidSection(c, s) && Find(s.body, Inner(c)) == None
    requires MarkAt(DropBws(junk)).Junk?
    ensures var whole := PartThenJunk(c, s, junk);
            && JunkDelimiter(c, whole) && !Independent(c, whole)
            && Shows(c, whole, ([], Fail(InvalidPart)))
            && Shows(c, whole, ([Part(HeaderText(s.lines), s.body)], Fail(InvalidPart)))
  {
    hide Read, MarkAt, First, PartText, ValidSection, DropBws, Shows, Find, HeaderText, JunkDelimiter;
    var u, whole := PartText(c, s, junk), PartThenJunk(c, s, junk);
    DropBwsOf([], CRLF + u);
    EmptyConcat(CRLF + u);
    MarkOfCrlf(u);
    BehindNothing(c, CRLF + u);
    AfterDelimiterReads(c, CRLF + u);
    PartThenTail(c, s, junk);
    AfterDelimiterReads(c, junk);
    var part := Part(HeaderText(s.lines), s.body);
    EmptyConcat([part]);
    JunkStops(c, whole);
    JunkHidesPart(c, whole);
    FragmentationIndependence(c, whole);
    assert [part][..0] == [];
  }

  lemma MarkOfCrlf(u: bytes)
    ensures MarkAt(CRLF + u) == Open(u)
  {
    assert (CRLF + u)[..2] == CRLF && (CRLF + u)[2..] == u;
  }

  /** Content-Disposition: form-data; name="a" */
  const EXAMPLE_LINE: bytes :=
    [67, 111, 110, 116, 101, 110, 116, 45, 68, 105, 115, 112, 111, 115, 105, 116, 105, 111, 110, 58, 32,
     102, 111, 114, 109, 45, 100, 97, 116, 97, 59, 32, 110, 97, 109, 101, 61, 34, 97, 34]

  const EXAMPLE := Section([EXAMPLE_LINE], [120])

  lemma ExampleIsValid(c: Config)
    requires c.boundary == [66] && c.headerError(EXAMPLE_LINE) == None
    ensures IsValidBoundary(c.boundary) && ValidSection(c, EXAMPLE)
    ensures HeaderText(EXAMPLE.lines) == EXAMPLE_LINE
  {
    hide EXAMPLE_LINE;
    ExampleLineIsValid();
  }

  lemma ExampleLineIsValid()
    ensures ValidLine(EXAMPLE_LINE)
  {
  }

  lemma ShortBodyIsFree(c: Config, body: bytes)
    requires |body| < 4
    ensures Find(body, Inner(c)) == None
  {
    hide FindFrom, Inner;
  }

  lemma JunkMark()
    ensures MarkAt(DropBws([106, 106])) == Junk
  {
    hide DropBws;
    var junk: bytes := [106, 106];
    DropBwsOf([], junk);
    EmptyConcat(junk);
    assert junk[..2] == junk && junk[0] != DASHES[0] && junk[0] != CRLF[0];
  }

  /** With the boundary "B", a part with that line and the body "x", and "jj" behind its delimiter. */
  lemma JunkExample(c: Config)
    requires c.boundary == [66] && c.headerError(EXAMPLE_LINE) == None
    ensures var whole := PartThenJunk(c, EXAMPLE, [106, 106]);
            && !Independent(c, whole)
            && Shows(c, whole, ([], Fail(InvalidPart)))
            && Shows(c, whole, ([Part(EXAMPLE_LINE, [120])], Fail(InvalidPart)))
  {
    hide Shows, Independent, PartThenJunk, JunkDelimiter, ValidSection, IsValidBoundary, HeaderText;
    hide EXAMPLE_LINE, MarkAt, Find;
    ExampleIsValid(c);
    ShortBodyIsFree(c, EXAMPLE.body);
    JunkMark();
    JunkIsObserved(c, EXAMPLE, [106, 106]);
  }
}
