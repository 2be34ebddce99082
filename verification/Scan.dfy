/** Bytes, results, and the two searches every parser of the library is built on:
    the length of a leading run (`Span`) and the first occurrence of a needle (`Find`). */
module Scan {

  datatype Option<+T> = None | Some(value: T)

  datatype Result<+T, +E> = Ok(value: T) | Err(error: E)

  type byte = x: int | 0 <= x < 256

  type bytes = seq<byte>

  /** 64-bit `usize`, the width the library assumes when it casts to and from `u64`. */
  const USIZE_MAX: nat := 0xFFFF_FFFF_FFFF_FFFF

  type usize = n: nat | n <= USIZE_MAX

  const CR: byte := 13
  const LF: byte := 10
  const SP: byte := 32
  const HTAB: byte := 9
  const DQUOTE: byte := 34
  const BACKSLASH: byte := 92
  const COMMA: byte := 44
  const COLON: byte := 58
  const SEMI: byte := 59
  const EQUALS: byte := 61

  const CRLF: bytes := [CR, LF]

  predicate IsBws(b: byte) { b == SP || b == HTAB }

  predicate IsDigit(b: byte) { 48 <= b <= 57 }

  predicate IsAlpha(b: byte) { 65 <= b <= 90 || 97 <= b <= 122 }

  /** tchar of section 5.6.2 of RFC 9110. */
  predicate IsTchar(b: byte) {
    IsAlpha(b) || IsDigit(b)
    || b == 33 || 35 <= b <= 39 || b == 42 || b == 43 || b == 45 || b == 46
    || b == 94 || b == 95 || b == 96 || b == 124 || b == 126
  }

  predicate All<T>(s: seq<T>, p: T -> bool) {
    forall i :: 0 <= i < |s| ==> p(s[i])
  }

  /** Length of the longest prefix of `s` all of whose elements satisfy `p`. */
  function Span<T>(s: seq<T>, p: T -> bool): (n: nat)
    ensures n <= |s| && All(s[..n], p)
    ensures n < |s| ==> !p(s[n])
    decreases |s|
  {
    if s == [] || !p(s[0]) then 0
    else
      var n := Span(s[1..], p);
      assert s[..n + 1] == [s[0]] + s[1..][..n];
      n + 1
  }

  lemma SpanOfSplit<T>(a: seq<T>, b: seq<T>, p: T -> bool)
    requires All(a, p) && (b == [] || !p(b[0]))
    ensures Span(a + b, p) == |a|
  {
    var s := a + b;
    assert forall i :: 0 <= i < |a| ==> s[i] == a[i];
    assert b != [] ==> s[|a|] == b[0];
    assert forall i :: 0 <= i < Span(s, p) ==> s[i] == s[..Span(s, p)][i];
  }

  predicate IsHexDigit(b: byte) { IsDigit(b) || 65 <= b <= 70 || 97 <= b <= 102 }

  function HexDigitValue(b: byte): (v: nat)
    requires IsHexDigit(b)
    ensures v < 16
  {
    if b <= 57 then b - 48 else if b <= 70 then b - 55 else b - 87
  }

  /** qdtext and the second byte of a quoted-pair, section 5.6.4 of RFC 9110. */
  predicate IsQdtext(b: byte) { b == HTAB || b == SP || b == 33 || 35 <= b <= 91 || 93 <= b <= 126 || b >= 128 }

  predicate IsQuotedPairChar(b: byte) { b == HTAB || 32 <= b <= 126 || b >= 128 }

  function ToLower(s: bytes): (r: bytes)
    ensures |r| == |s|
  {
    seq(|s|, i requires 0 <= i < |s| => if 65 <= s[i] <= 90 then s[i] + 32 else s[i])
  }

  /** The needle `w` starts at position `i` of `s`. */
  predicate Occurs<T(==)>(s: seq<T>, w: seq<T>, i: nat) {
    i + |w| <= |s| && s[i..i + |w|] == w
  }

  function FindFrom<T(==)>(s: seq<T>, w: seq<T>, from: nat): (r: Option<nat>)
    ensures r.Some? ==> from <= r.value && Occurs(s, w, r.value)
    ensures forall j: nat :: from <= j && Occurs(s, w, j) ==> r.Some? && r.value <= j
    decreases |s| - from
  {
    if from + |w| > |s| then None
    else if Occurs(s, w, from) then Some(from)
    else FindFrom(s, w, from + 1)
  }

  /** Position of the first occurrence of `w` in `s`. */
  function Find<T(==)>(s: seq<T>, w: seq<T>): (r: Option<nat>)
    ensures r.Some? ==> Occurs(s, w, r.value)
    ensures forall j: nat :: Occurs(s, w, j) ==> r.Some? && r.value <= j
  {
    FindFrom(s, w, 0)
  }

  function FindLine(s: bytes): (r: Option<nat>)
    ensures r.Some? ==> r.value + 2 <= |s|
  {
    Find(s, CRLF)
  }

  lemma OccursAt<T>(s: seq<T>, w: seq<T>, i: nat, k: nat)
    requires Occurs(s, w, i) && k < |w|
    ensures s[i + k] == w[k]
  {
    assert s[i..i + |w|][k] == s[i + k];
  }

  lemma NoOccurrenceAt<T>(s: seq<T>, w: seq<T>, i: nat)
    requires i < |s| && w != [] && s[i] != w[0]
    ensures !Occurs(s, w, i)
  {
    if i + |w| <= |s| {
      assert s[i..i + |w|][0] == s[i];
    }
  }

  lemma OccursExtend<T>(s: seq<T>, x: seq<T>, w: seq<T>, i: nat)
    requires i + |w| <= |s|
    ensures Occurs(s + x, w, i) <==> Occurs(s, w, i)
  {
    assert (s + x)[i..i + |w|] == s[i..i + |w|];
  }

  /** Bytes that arrive later do not move an occurrence that was already found. */
  lemma FindStable<T>(s: seq<T>, x: seq<T>, w: seq<T>)
    requires Find(s, w).Some?
    ensures Find(s + x, w) == Find(s, w)
  {
    var i := Find(s, w).value;
    OccursExtend(s, x, w, i);
    var j := Find(s + x, w).value;
    OccursExtend(s, x, w, j);
  }

  lemma FindIs<T>(s: seq<T>, w: seq<T>, i: nat)
    requires Occurs(s, w, i)
    requires forall j: nat :: j < i ==> !Occurs(s, w, j)
    ensures Find(s, w) == Some(i)
  {
  }

  /** Occurrences inside a suffix are the occurrences that start in it. */
  lemma OccursDrop<T>(s: seq<T>, k: nat, w: seq<T>, i: nat)
    requires k <= |s|
    ensures Occurs(s[k..], w, i) <==> Occurs(s, w, k + i)
  {
    if k + i + |w| <= |s| {
      assert s[k..][i..i + |w|] == s[k + i..k + i + |w|];
    }
  }

  /** With no occurrence that starts in `a`, the search goes on in `t`. */
  lemma FindAfterPrefix<T>(a: seq<T>, t: seq<T>, w: seq<T>)
    requires forall j: nat :: j < |a| ==> !Occurs(a + t, w, j)
    requires Find(t, w).Some?
    ensures Find(a + t, w) == Some(|a| + Find(t, w).value)
  {
    var s, p := a + t, Find(t, w).value;
    assert s[|a|..] == t;
    OccursDrop(s, |a|, w, p);
    forall j: nat | j < |a| + p
      ensures !Occurs(s, w, j)
    {
      if j >= |a| {
        OccursDrop(s, |a|, w, j - |a|);
      }
    }
    FindIs(s, w, |a| + p);
  }

  lemma NoOccurrenceWithin<T>(a: seq<T>, t: seq<T>, w: seq<T>)
    requires w != [] && w[0] !in a
    ensures forall j: nat :: j < |a| ==> !Occurs(a + t, w, j)
  {
    forall j: nat | j < |a|
      ensures !Occurs(a + t, w, j)
    {
      assert (a + t)[j] == a[j];
      if Occurs(a + t, w, j) {
        OccursAt(a + t, w, j, 0);
      }
    }
  }

  lemma ConcatAssociative<T>(a: seq<T>, b: seq<T>, c: seq<T>)
    ensures (a + b) + c == a + (b + c)
  {
  }

  lemma EmptyConcat<T>(a: seq<T>)
    ensures [] + a == a && a + [] == a
  {
  }

  lemma HeadSplit<T>(a: seq<T>)
    requires a != []
    ensures a == [a[0]] + a[1..]
  {
  }

  lemma DropTwice<T>(s: seq<T>, i: nat, k: nat)
    requires i + k <= |s|
    ensures s[i..][k..] == s[i + k..] && s[i..][..k] == s[i..i + k]
  {
  }

  function Concat<T>(ss: seq<seq<T>>): seq<T> {
    if ss == [] then [] else ss[0] + Concat(ss[1..])
  }

  // ---- Whitespace ----

  function DropBws(s: bytes): (r: bytes)
    ensures |r| <= |s|
    ensures r == [] || !IsBws(r[0])
  {
    s[Span(s, IsBws)..]
  }

  lemma SplitBws(s: bytes) returns (w: bytes)
    ensures All(w, IsBws) && s == w + DropBws(s)
  {
    w := s[..Span(s, IsBws)];
  }

  lemma DropBwsOf(w: bytes, s: bytes)
    requires All(w, IsBws) && (s == [] || !IsBws(s[0]))
    ensures DropBws(w + s) == s
  {
    SpanOfSplit(w, s, IsBws);
  }

  // ---- Loops ----

  lemma SpanStep(s: bytes, i: nat, p: byte -> bool)
    requires i < |s|
    ensures Span(s[i..], p) == if p(s[i]) then 1 + Span(s[i + 1..], p) else 0
  {
    assert s[i..][1..] == s[i + 1..];
  }

  method SkipWhile(data: bytes, pos: nat, p: byte -> bool) returns (i: nat)
    requires pos <= |data|
    ensures i == pos + Span(data[pos..], p)
  {
    i := pos;
    while i < |data| && p(data[i])
      invariant pos <= i <= |data|
      invariant i + Span(data[i..], p) == pos + Span(data[pos..], p)
    {
      SpanStep(data, i, p);
      i := i + 1;
    }
    if i < |data| {
      SpanStep(data, i, p);
    }
  }

  method SkipBws(data: bytes, pos: nat) returns (i: nat)
    requires pos <= |data|
    ensures pos <= i <= |data| && data[i..] == DropBws(data[pos..])
  {
    i := SkipWhile(data, pos, IsBws);
  }
}
