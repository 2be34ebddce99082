/** The incremental multipart parser: a parser that rescans its unconsumed bytes at every call,
    and the class with the cached scan offset and the lazy drain that does the same. */
module Multipart {
  import opened Scan

  datatype Error =
    | InvalidHeader
    | MissingContentDisposition
    | InvalidContentDisposition
    | MissingName
    | InvalidPart
    | Incomplete
    | BufferOverflow(size: nat, limit: nat)

  /** A part: the text of its header block, and its body. */
  datatype Part = Part(headers: bytes, body: bytes)

  /** `Ok(Some(part))`, `Ok(None)` or `Err(error)`. */
  datatype Reply = Next(part: Part) | Finish | Fail(error: Error)

  datatype Mode = Initial | InPart | AfterInnerDelimiter | Finished

  /** The boundary, and the judgement on a header block (UTF-8, Content-Disposition and the
      like), which is not modelled further: `None` accepts it. */
  datatype Config = Config(boundary: bytes, headerError: bytes -> Option<Error>)

  const DASHES: bytes := [45, 45]
  const BLANK_LINE: bytes := CRLF + CRLF

  function First(c: Config): (w: bytes)
    ensures |w| >= 2
  {
    DASHES + c.boundary
  }

  function Inner(c: Config): (w: bytes)
    ensures |w| >= 4
  {
    CRLF + (DASHES + c.boundary)
  }

  // ---- The parser that always rescans ----

  /** Where the parser is, what it has not consumed, and what the call returned. */
  datatype Step = Step(mode: Mode, rest: bytes, reply: Reply)

  /** What stands after a delimiter and its transport padding. */
  datatype Mark = TooShort | Close | Open(rest: bytes) | Junk

  function MarkAt(v: bytes): Mark {
    if |v| < 2 then TooShort
    else if v[..2] == DASHES then Close
    else if v[..2] == CRLF then Open(v[2..])
    else Junk
  }

  /** A part is complete; `tail` is what stands after its delimiter. */
  function AfterPart(u: bytes, part: Part, tail: bytes): Step {
    var v := DropBws(tail);
    match MarkAt(v)
    case TooShort => Step(AfterInnerDelimiter, v, Next(part))
    case Close => Step(Finished, u, Next(part))
    case Open(rest) => Step(InPart, rest, Next(part))
    case Junk => Step(InPart, u, Fail(InvalidPart))
  }

  function NextInPart(c: Config, u: bytes): Step {
    var h := Find(u, BLANK_LINE);
    if h.None? then Step(InPart, u, Fail(Incomplete))
    else
      var bad := c.headerError(u[..h.value]);
      if bad.Some? then Step(InPart, u, Fail(bad.value))
      else
        var body := u[h.value + 4..];
        var p := Find(body, Inner(c));
        if p.None? then Step(InPart, u, Fail(Incomplete))
        else AfterPart(u, Part(u[..h.value], body[..p.value]), body[p.value + |Inner(c)|..])
  }

  function NextInitial(c: Config, u: bytes): Step {
    var p := Find(u, First(c));
    if p.None? then Step(Initial, u, Fail(Incomplete))
    else match MarkAt(DropBws(u[p.value + |First(c)|..]))
      case TooShort => Step(Initial, u, Fail(Incomplete))
      case Close => Step(Finished, u, Finish)
      case Open(rest) => NextInPart(c, rest)
      case Junk => Step(Initial, u, Fail(InvalidPart))
  }

  function NextAfterDelimiter(c: Config, u: bytes): Step {
    var v := DropBws(u);
    match MarkAt(v)
    case TooShort => Step(AfterInnerDelimiter, v, Fail(Incomplete))
    case Close => Step(Finished, u, Finish)
    case Open(rest) => NextInPart(c, rest)
    case Junk => Step(AfterInnerDelimiter, u, Fail(InvalidPart))
  }

  function Rescan(c: Config, mode: Mode, u: bytes): Step {
    match mode
    case Initial => NextInitial(c, u)
    case InPart => NextInPart(c, u)
    case AfterInnerDelimiter => NextAfterDelimiter(c, u)
    case Finished => Step(Finished, u, Finish)
  }

  // ---- The search with a remembered offset ----

  /** No match starts at `j`, and no byte that arrives later can make one start there. */
  ghost predicate NoStart(s: bytes, w: bytes, j: nat) {
    j + |w| <= |s| && !Occurs(s, w, j)
  }

  ghost predicate Cleared(s: bytes, w: bytes, lo: nat, hi: nat) {
    forall j: nat :: lo <= j < hi ==> NoStart(s, w, j)
  }

  lemma ClearedStable(s: bytes, x: bytes, w: bytes, lo: nat, hi: nat)
    requires Cleared(s, w, lo, hi)
    ensures Cleared(s + x, w, lo, hi)
  {
    forall j: nat | lo <= j < hi
      ensures NoStart(s + x, w, j)
    {
      assert NoStart(s, w, j);
      OccursExtend(s, x, w, j);
    }
  }

  function Max(a: nat, b: nat): nat { if a >= b then a else b }

  /** Starting over at a remembered offset with nothing in between finds the same match. */
  lemma FindFromOffset(s: bytes, w: bytes, lo: nat, scan: nat)
    requires lo <= |s| && scan <= |s| && Cleared(s, w, lo, scan)
    ensures var hi := Max(lo, scan);
            && (Find(s[hi..], w).Some? <==> Find(s[lo..], w).Some?)
            && (Find(s[hi..], w).Some? ==> hi + Find(s[hi..], w).value == lo + Find(s[lo..], w).value)
  {
    hide FindFrom;
    var hi := Max(lo, scan);
    var a, b := Find(s[lo..], w), Find(s[hi..], w);
    if a.Some? {
      assert lo + a.value < hi ==> NoStart(s, w, lo + a.value);
      OccursDrop(s, lo, w, a.value);
      OccursDrop(s, hi, w, lo + a.value - hi);
    }
    if b.Some? {
      OccursDrop(s, hi, w, b.value);
      OccursDrop(s, lo, w, hi + b.value - lo);
    }
  }

  /** After a failed search only the last `|w| - 1` bytes can still begin a match. */
  lemma FailedSearchClears(s: bytes, w: bytes, lo: nat, hi: nat)
    requires lo <= |s| && Find(s[lo..], w).None?
    requires hi <= |s| && (lo < hi ==> hi + |w| <= |s| + 1)
    ensures Cleared(s, w, lo, hi)
  {
    forall j: nat | lo <= j < hi
      ensures NoStart(s, w, j)
    {
      OccursDrop(s, lo, w, j - lo);
    }
  }

  lemma FoundFits(s: bytes, w: bytes)
    requires Find(s, w).Some?
    ensures Find(s, w).value + |w| <= |s|
  {
  }

  lemma NothingCleared(s: bytes, w: bytes, lo: nat, hi: nat)
    ensures hi <= lo ==> Cleared(s, w, lo, hi)
  {
  }

  lemma ClearedBound(s: bytes, w: bytes, lo: nat, hi: nat)
    requires Cleared(s, w, lo, hi) && lo < hi
    ensures hi + |w| <= |s| + 1
  {
    assert NoStart(s, w, hi - 1);
  }

  lemma FoundClears(s: bytes, w: bytes, lo: nat)
    requires lo <= |s| && Find(s[lo..], w).Some?
    ensures Cleared(s, w, lo, lo + Find(s[lo..], w).value)
    ensures lo + Find(s[lo..], w).value + |w| <= |s|
  {
    var p := Find(s[lo..], w).value;
    OccursDrop(s, lo, w, p);
    forall j: nat | lo <= j < lo + p
      ensures NoStart(s, w, j)
    {
      OccursDrop(s, lo, w, j - lo);
    }
  }

  function SaturatingSub(a: nat, b: nat): nat { if a >= b then a - b else 0 }

  /** `find_bytes`: jump to the next byte that equals the first of the needle, then compare.
      `tried` counts the start positions the loop has looked at. */
  method FindBytes(haystack: bytes, needle: bytes) returns (r: Option<nat>, ghost tried: nat)
    ensures r == Find(haystack, needle)
    ensures r.None? ==> tried == SaturatingSub(|haystack| + 1, |needle|)
    ensures r.Some? && needle != [] ==> tried == r.value + 1
  {
    tried := 0;
    if needle == [] {
      FindIs(haystack, needle, 0);
      return Some(0), 0;
    }
    if |needle| > |haystack| {
      return None, 0;
    }
    var maxStart := |haystack| - |needle|;
    var i := 0;
    while i <= maxStart
      invariant 0 <= i <= maxStart + 1 && tried == i
      invariant forall j: nat :: j < i ==> !Occurs(haystack, needle, j)
    {
      tried := tried + 1;
      if haystack[i] == needle[0] {
        if haystack[i..i + |needle|] == needle {
          FindIs(haystack, needle, i);
          return Some(i), tried;
        }
      } else {
        NoOccurrenceAt(haystack, needle, i);
      }
      i := i + 1;
    }
    return None, tried;
  }

  // ---- The incremental parser ----

  method SkipPadding(buffer: bytes, from: nat) returns (padded: nat)
    requires from <= |buffer|
    ensures from <= padded <= |buffer| && buffer[padded..] == DropBws(buffer[from..])
  {
    padded := SkipBws(buffer, from);
  }

  /** The two bytes at `at`, if they are there. */
  method ReadMark(buffer: bytes, at: nat) returns (m: Mark)
    requires at <= |buffer|
    ensures m == MarkAt(buffer[at..])
    ensures m.TooShort? <==> |buffer| < at + 2
    ensures m.Open? ==> m.rest == buffer[at + 2..]
  {
    if |buffer| < at + 2 {
      return TooShort;
    }
    DropTwice(buffer, at, 2);
    var head := buffer[at..at + 2];
    m := if head == DASHES then Close else if head == CRLF then Open(buffer[at + 2..]) else Junk;
  }

  /** The rescanning parser in a part, in terms of positions in the buffer. */
  lemma NextInPartAt(c: Config, buffer: bytes, pos: nat)
    requires pos <= |buffer|
    ensures var h := Find(buffer[pos..], BLANK_LINE);
            var u := buffer[pos..];
            && (h.None? ==> NextInPart(c, u) == Step(InPart, u, Fail(Incomplete)))
            && (h.Some? ==>
                  var bodyStart := pos + h.value + 4;
                  && bodyStart <= |buffer|
                  && var bad := c.headerError(buffer[pos..pos + h.value]);
                     var p := Find(buffer[bodyStart..], Inner(c));
                     && (bad.Some? ==> NextInPart(c, u) == Step(InPart, u, Fail(bad.value)))
                     && (bad.None? && p.None? ==> NextInPart(c, u) == Step(InPart, u, Fail(Incomplete)))
                     && (bad.None? && p.Some? ==>
                           var bodyEnd := bodyStart + p.value;
                           && bodyEnd + |Inner(c)| <= |buffer|
                           && NextInPart(c, u)
                              == AfterPart(u, Part(buffer[pos..pos + h.value], buffer[bodyStart..bodyEnd]),
                                           buffer[bodyEnd + |Inner(c)|..])))
  {
    hide Find, FindFrom, AfterPart, Inner;
    var h := Find(buffer[pos..], BLANK_LINE);
    if h.Some? {
      FoundFits(buffer[pos..], BLANK_LINE);
      DropTwice(buffer, pos, h.value);
      DropTwice(buffer, pos, h.value + 4);
      var bodyStart := pos + h.value + 4;
      var p := Find(buffer[bodyStart..], Inner(c));
      if p.Some? {
        FoundFits(buffer[bodyStart..], Inner(c));
        DropTwice(buffer, bodyStart, p.value);
        DropTwice(buffer, bodyStart, p.value + |Inner(c)|);
      }
    }
  }

  class MultipartParser {
    const config: Config
    const firstDelimiter: bytes
    const innerDelimiter: bytes
    const maxBufferSize: nat
    var buffer: bytes
    var pos: nat
    var state: Mode
    var finished: bool
    var boundaryScanOffset: nat

    // Costs: bytes fed, bytes dropped and bytes moved by drains, and start positions that the
    // loops of failed searches for a delimiter have looked at.
    ghost var fed: nat
    ghost var dropped: nat
    ghost var moved: nat
    ghost var tested: nat

    ghost predicate Valid()
      reads this
    {
      && firstDelimiter == First(config) && innerDelimiter == Inner(config)
      && pos <= |buffer| && boundaryScanOffset <= |buffer|
      && (finished <==> state.Finished?)
      && (state.Initial? ==> pos == 0 && Cleared(buffer, firstDelimiter, pos, boundaryScanOffset))
      && (state.InPart? ==> InPartCleared(buffer, pos, boundaryScanOffset))
      && (state.AfterInnerDelimiter? ==> boundaryScanOffset <= pos)
      && fed == dropped + |buffer|
      && moved <= dropped && (dropped > 0 ==> moved < dropped)
      && (!finished ==> tested <= dropped + boundaryScanOffset)
      && tested <= fed
    }

    /** In a part, the offset only runs ahead once the header block has been found. */
    ghost predicate InPartCleared(buffer: bytes, pos: nat, scan: nat)
      requires pos <= |buffer|
    {
      scan <= pos ||
      (var h := Find(buffer[pos..], BLANK_LINE);
       h.Some? && Cleared(buffer, innerDelimiter, pos + h.value + 4, scan))
    }

    ghost function Unconsumed(): bytes
      reads this
      requires pos <= |buffer|
    {
      buffer[pos..]
    }

    constructor (config: Config, maxBufferSize: nat)
      ensures Valid() && state == Initial && Unconsumed() == [] && fed == 0
      ensures this.config == config && this.maxBufferSize == maxBufferSize
    {
      this.config, this.maxBufferSize := config, maxBufferSize;
      firstDelimiter, innerDelimiter := DASHES + config.boundary, CRLF + (DASHES + config.boundary);
      buffer, pos, state, finished, boundaryScanOffset := [], 0, Initial, false, 0;
      fed, dropped, moved, tested := 0, 0, 0, 0;
    }

    /** `feed`: the limit is on the unconsumed bytes. */
    method Feed(data: bytes) returns (r: Result<(), Error>)
      requires Valid()
      modifies this
      ensures Valid() && state == old(state)
      ensures r.Ok? <==> |old(Unconsumed())| + |data| <= maxBufferSize
      ensures Unconsumed() == if r.Ok? then old(Unconsumed()) + data else old(Unconsumed())
      ensures r.Err? ==> r.error == BufferOverflow(|old(Unconsumed())| + |data|, maxBufferSize)
      ensures fed == old(fed) + (if r.Ok? then |data| else 0)
    {
      var size := |buffer| - pos + |data|;
      if size > maxBufferSize {
        return Err(BufferOverflow(size, maxBufferSize));
      }
      if state.Initial? {
        ClearedStable(buffer, data, firstDelimiter, pos, boundaryScanOffset);
      }
      assert (buffer + data)[pos..] == buffer[pos..] + data;
      if state.InPart? && boundaryScanOffset > pos {
        FindStable(buffer[pos..], data, BLANK_LINE);
        var bodyStart := pos + Find(buffer[pos..], BLANK_LINE).value + 4;
        ClearedStable(buffer, data, innerDelimiter, bodyStart, boundaryScanOffset);
      }
      buffer := buffer + data;
      fed := fed + |data|;
      r := Ok(());
    }

    /** Looks for a delimiter from `lo` on, starting at the remembered offset, and remembers
        how far it got when it fails. */
    method Search(needle: bytes, lo: nat) returns (at: Option<nat>)
      requires lo <= |buffer| && boundaryScanOffset <= |buffer| && |needle| >= 2
      requires Cleared(buffer, needle, lo, boundaryScanOffset)
      requires tested <= dropped + boundaryScanOffset && fed == dropped + |buffer|
      modifies this`boundaryScanOffset, this`tested
      ensures at.Some? ==> lo <= at.value && Find(buffer[lo..], needle) == Some(at.value - lo)
      ensures at.Some? ==> Cleared(buffer, needle, lo, at.value) && at.value + |needle| <= |buffer|
      ensures at.Some? ==> boundaryScanOffset == old(boundaryScanOffset) <= at.value && tested == old(tested)
      ensures at.None? ==> Find(buffer[lo..], needle) == None
      ensures at.None? ==> Cleared(buffer, needle, lo, boundaryScanOffset) && boundaryScanOffset <= |buffer|
      ensures at.None? ==> tested == old(tested) + SaturatingSub(boundaryScanOffset, Max(lo, old(boundaryScanOffset)))
      ensures tested <= dropped + boundaryScanOffset
    {
      hide Find, FindFrom, Cleared, Occurs;
      var start := Max(lo, boundaryScanOffset);
      var found, tried := FindBytes(buffer[start..], needle);
      FindFromOffset(buffer, needle, lo, boundaryScanOffset);
      if found.Some? {
        FoundClears(buffer, needle, lo);
        return Some(start + found.value);
      }
      if lo < boundaryScanOffset {
        ClearedBound(buffer, needle, lo, boundaryScanOffset);
      }
      var scan := Max(SaturatingSub(|buffer|, |needle| - 1), lo);
      FailedSearchClears(buffer, needle, lo, scan);
      tested := tested + tried;
      boundaryScanOffset := scan;
      return None;
    }

    /** The first delimiter; `None` means that a part begins and the loop goes on. */
    method NextFromStart() returns (r: Option<Reply>)
      requires Valid() && state == Initial
      modifies this`pos, this`state, this`finished, this`boundaryScanOffset, this`tested
      ensures Valid()
      ensures r.Some? ==> Step(state, Unconsumed(), r.value) == NextInitial(config, old(Unconsumed()))
      ensures r.None? ==> state == InPart && NextInPart(config, Unconsumed()) == NextInitial(config, old(Unconsumed()))
    {
      hide Find, FindFrom, Cleared, DropBws, Occurs, NextInPart, MarkAt, First, Inner;
      var found := Search(firstDelimiter, pos);
      if found.None? {
        return Some(Fail(Incomplete));
      }
      var at := found.value;
      DropTwice(buffer, pos, at - pos + |firstDelimiter|);
      var padded := SkipPadding(buffer, at + |firstDelimiter|);
      var mark := ReadMark(buffer, padded);
      match mark
      case TooShort =>
        boundaryScanOffset := at;
        r := Some(Fail(Incomplete));
      case Open(_) =>
        pos := padded + 2;
        boundaryScanOffset := pos;
        state := InPart;
        r := None;
      case Close =>
        state, finished := Finished, true;
        r := Some(Finish);
      case Junk =>
        r := Some(Fail(InvalidPart));
    }

    /** Drops the consumed bytes once they are more than half of the buffer, so that a drain moves
        fewer bytes than it drops. */
    method Compact()
      requires pos <= |buffer| && fed == dropped + |buffer| && moved <= dropped
      requires dropped > 0 ==> moved < dropped
      modifies this`buffer, this`pos, this`boundaryScanOffset, this`dropped, this`moved
      ensures pos <= |buffer| && Unconsumed() == old(Unconsumed())
      ensures fed == dropped + |buffer| && moved <= dropped && (dropped > 0 ==> moved < dropped)
      ensures old(boundaryScanOffset) == old(pos) ==> boundaryScanOffset == pos
      ensures dropped + pos == old(dropped) + old(pos)
      ensures pos == 0 || pos <= |buffer| / 2
    {
      if pos > |buffer| / 2 {
        var drained := pos;
        buffer := buffer[drained..];
        pos := 0;
        boundaryScanOffset := SaturatingSub(boundaryScanOffset, drained);
        dropped, moved := dropped + drained, moved + |buffer|;
      }
    }

    /** One part: its header block, its body up to the next delimiter, and what follows. */
    method NextInPartInPlace() returns (r: Reply)
      requires Valid() && state == InPart
      modifies this
      ensures Valid() && fed == old(fed)
      ensures Step(state, Unconsumed(), r) == NextInPart(config, old(Unconsumed()))
    {
      hide Find, FindFrom, Cleared, Occurs, AfterPart, First, Inner, NextInPart;
      NextInPartAt(config, buffer, pos);
      var header, _ := FindBytes(buffer[pos..], BLANK_LINE);
      if header.None? {
        return Fail(Incomplete);
      }
      var headerEnd := pos + header.value;
      var bodyStart := headerEnd + 4;
      var headers := buffer[pos..headerEnd];
      var bad := config.headerError(headers);
      if bad.Some? {
        return Fail(bad.value);
      }
      NothingCleared(buffer, innerDelimiter, bodyStart, boundaryScanOffset);
      var found := Search(innerDelimiter, bodyStart);
      if found.None? {
        return Fail(Incomplete);
      }
      var bodyEnd := found.value;
      r := FinishPart(Part(headers, buffer[bodyStart..bodyEnd]), bodyEnd + |innerDelimiter|);
    }

    /** What follows the delimiter decides where the parser goes on. */
    method FinishPart(part: Part, afterDelim: nat) returns (r: Reply)
      requires Valid() && state == InPart
      requires pos <= afterDelim <= |buffer| && boundaryScanOffset <= afterDelim
      modifies this
      ensures Valid() && fed == old(fed)
      ensures Step(state, Unconsumed(), r) == AfterPart(old(Unconsumed()), part, old(buffer)[afterDelim..])
    {
      hide Find, FindFrom, Cleared, DropBws, Occurs, MarkAt, First, Inner;
      var padded := SkipPadding(buffer, afterDelim);
      var mark := ReadMark(buffer, padded);
      match mark {
        case TooShort =>
          pos, state := padded, AfterInnerDelimiter;
        case Close =>
          state, finished := Finished, true;
        case Open(_) =>
          pos := padded + 2;
        case Junk =>
          return Fail(InvalidPart);
      }
      boundaryScanOffset := pos;
      Compact();
      r := Next(part);
    }

    method NextAfterDelimiterInPlace() returns (r: Option<Reply>)
      requires Valid() && state == AfterInnerDelimiter
      modifies this`pos, this`state, this`finished, this`boundaryScanOffset
      ensures Valid()
      ensures r.Some? ==> Step(state, Unconsumed(), r.value) == NextAfterDelimiter(config, old(Unconsumed()))
      ensures r.None? ==> state == InPart
      ensures r.None? ==> NextInPart(config, Unconsumed()) == NextAfterDelimiter(config, old(Unconsumed()))
    {
      hide Find, FindFrom, Cleared, DropBws, Occurs, MarkAt, First, Inner, NextInPart;
      var padded := SkipPadding(buffer, pos);
      var mark := ReadMark(buffer, padded);
      match mark
      case TooShort =>
        pos := padded;
        r := Some(Fail(Incomplete));
      case Close =>
        state, finished := Finished, true;
        r := Some(Finish);
      case Open(_) =>
        pos := padded + 2;
        boundaryScanOffset := pos;
        state := InPart;
        r := None;
      case Junk =>
        r := Some(Fail(InvalidPart));
    }

    /** `next_part`: in every state of every run, what rescanning the unconsumed bytes returns. */
    method NextPart() returns (r: Reply)
      requires Valid()
      modifies this
      ensures Valid() && fed == old(fed)
      ensures Step(state, Unconsumed(), r) == Rescan(config, old(state), old(Unconsumed()))
    {
      hide NextInitial, NextInPart, NextAfterDelimiter;
      if finished {
        return Finish;
      }
      ghost var goal := Rescan(config, state, Unconsumed());
      while true
        invariant Valid() && !finished && fed == old(fed)
        invariant Rescan(config, state, Unconsumed()) == goal
        decreases if state.InPart? then 0 else 1
      {
        match state {
          case Initial =>
            var reply := NextFromStart();
            if reply.Some? {
              return reply.value;
            }
          case InPart =>
            r := NextInPartInPlace();
            return;
          case AfterInnerDelimiter =>
            var reply := NextAfterDelimiterInPlace();
            if reply.Some? {
              return reply.value;
            }
          case Finished =>
            return Finish;
        }
      }
    }
  }
}
