/** Normalization of a reference (section 6.2.2 of RFC 3986): letter case, percent-encoding and
    dot segments, and why doing it twice is doing it once. */
module UriNormalize {
  import opened Scan
  import opened DotSegments
  import opened Uri
  import opened UriResolve

  // ---- Percent-encoding ----

  function UpperHexDigit(v: nat): byte
    requires v < 16
  {
    if v < 10 then 48 + v else 55 + v
  }

  /** The byte that a pair of hexadecimal digits stands for. */
  function Decode(high: byte, low: byte): byte
    requires IsHexPair(high, low)
  {
    16 * HexDigitValue(high) + HexDigitValue(low)
  }

  /** `push(byte as char)`: a byte of 0x80 or more becomes two bytes of UTF-8. */
  function AsChar(b: byte): bytes {
    if b < 128 then [b] else [192 + b / 64, 128 + b % 64]
  }

  /** The code point of one or two bytes of UTF-8 (section 3 of RFC 3629). */
  lemma CharIsUtf8(b: byte)
    ensures b < 128 ==> AsChar(b) == [b]
    ensures b >= 128 ==>
              |AsChar(b)| == 2 && 192 <= AsChar(b)[0] < 224 && 128 <= AsChar(b)[1] < 192
              && (AsChar(b)[0] - 192) * 64 + (AsChar(b)[1] - 128) == b
  {
  }

  /** How an encoded byte is written: an unreserved one plainly, the others in upper case. */
  function Encoded(decoded: byte): bytes {
    if IsUnreserved(decoded) then [decoded]
    else [PERCENT, UpperHexDigit(decoded / 16), UpperHexDigit(decoded % 16)]
  }

  function Percent(input: bytes): Result<bytes, UriError>
    decreases |input|
  {
    if input == [] then Ok([])
    else if input[0] != PERCENT then Before(AsChar(input[0]), Percent(input[1..]))
    else if |input| < 3 || !IsHexPair(input[1], input[2]) then Err(InvalidPercentEncoding)
    else Before(Encoded(Decode(input[1], input[2])), Percent(input[3..]))
  }

  function Before(s: bytes, r: Result<bytes, UriError>): Result<bytes, UriError> {
    if r.Ok? then Ok(s + r.value) else r
  }

  lemma BeforeTwice(s: bytes, t: bytes, r: Result<bytes, UriError>)
    ensures Before(s, Before(t, r)) == Before(s + t, r)
  {
    if r.Ok? {
      ConcatAssociative(s, t, r.value);
    }
  }

  lemma PercentAt(input: bytes, i: nat)
    requires i < |input|
    ensures Percent(input[i..])
         == if input[i] != PERCENT then Before(AsChar(input[i]), Percent(input[i + 1..]))
            else if |input| < i + 3 || !IsHexPair(input[i + 1], input[i + 2]) then Err(InvalidPercentEncoding)
            else Before(Encoded(Decode(input[i + 1], input[i + 2])), Percent(input[i + 3..]))
  {
    DropTwice(input, i, 1);
    if i + 3 <= |input| {
      DropTwice(input, i, 3);
    }
  }

  /** `normalize_percent_encoding`. */
  method NormalizePercentEncoding(input: bytes) returns (r: Result<bytes, UriError>)
    ensures r == Percent(input)
  {
    hide Percent, Encoded, AsChar, Decode;
    var result: bytes := [];
    var i := 0;
    assert input[0..] == input;
    EmptyBefore(Percent(input));
    while i < |input|
      invariant i <= |input|
      invariant Before(result, Percent(input[i..])) == Percent(input)
    {
      PercentAt(input, i);
      var byte := input[i];
      i := i + 1;
      if byte == PERCENT {
        if i >= |input| {
          return Err(InvalidPercentEncoding);
        }
        var high := input[i];
        i := i + 1;
        if i >= |input| {
          return Err(InvalidPercentEncoding);
        }
        var low := input[i];
        i := i + 1;
        if !IsHexDigit(high) || !IsHexDigit(low) {
          return Err(InvalidPercentEncoding);
        }
        var decoded := Decode(high, low);
        BeforeTwice(result, Encoded(decoded), Percent(input[i..]));
        result := result + Encoded(decoded);
      } else {
        BeforeTwice(result, AsChar(byte), Percent(input[i..]));
        result := result + AsChar(byte);
      }
    }
    assert input[i..] == [];
    PercentOfNothing();
    EmptyConcat(result);
    r := Ok(result);
  }

  lemma EmptyBefore(r: Result<bytes, UriError>)
    ensures Before([], r) == r
  {
    if r.Ok? {
      EmptyConcat(r.value);
    }
  }

  lemma PercentOfNothing()
    ensures Percent([]) == Ok([])
  {
  }

  predicate IsUpperHexDigit(b: byte) { IsDigit(b) || 65 <= b <= 70 }

  /** A pair of digits that normalization leaves alone. */
  predicate IsNormalPair(high: byte, low: byte) {
    IsUpperHexDigit(high) && IsUpperHexDigit(low) && !IsUnreserved(Decode(high, low))
  }

  const NORMAL_PATH := Encoding(IsPathChar, IsNormalPair)
  const NORMAL_QUERY := Encoding(IsQueryChar, IsNormalPair)

  function Normal(e: Encoding): Encoding {
    e.(pair := IsNormalPair)
  }

  lemma UpperHexRoundTrip(v: byte)
    ensures var (high, low) := (UpperHexDigit(v / 16), UpperHexDigit(v % 16));
            IsUpperHexDigit(high) && IsUpperHexDigit(low) && Decode(high, low) == v
  {
  }

  lemma NormalPairIsFixed(high: byte, low: byte)
    requires IsNormalPair(high, low)
    ensures Encoded(Decode(high, low)) == [PERCENT, high, low]
  {
  }

  lemma EncodedIsNormal(v: byte, e: Encoding)
    requires e == PATH || e == QUERY
    ensures Good(Encoded(v), Normal(e))
  {
    UpperHexRoundTrip(v);
    var s := Encoded(v);
    forall i: nat | i < |s|
      ensures GoodAt(s, i, Normal(e))
    {
    }
  }

  lemma GoodHead(s: bytes, e: Encoding)
    requires s != [] && Good(s, e)
    ensures if s[0] == PERCENT then |s| >= 3 && e.pair(s[1], s[2]) && Good(s[3..], e)
            else e.allowed(s[0]) && Good(s[1..], e)
  {
    assert GoodAt(s, 0, e);
    GoodTail(s, if s[0] == PERCENT then 3 else 1, e);
  }

  lemma AllowedIsAscii(b: byte, e: Encoding)
    requires (e == PATH || e == QUERY) && b != PERCENT && e.allowed(b)
    ensures AsChar(b) == [b] && Good([b], Normal(e))
  {
  }

  /** A well-formed component is accepted, stays well formed, and comes out in normal form. */
  lemma {:induction false} PercentGivesNormal(s: bytes, e: Encoding)
    requires (e == PATH || e == QUERY) && Good(s, e)
    ensures Percent(s).Ok? && Good(Percent(s).value, Normal(e))
    decreases |s|
  {
    hide Good, Normal, Encoded, AsChar, Decode;
    if s == [] {
      NothingIsGood(Normal(e));
    } else {
      GoodHead(s, e);
      if s[0] == PERCENT {
        PercentGivesNormal(s[3..], e);
        var head := Encoded(Decode(s[1], s[2]));
        EncodedIsNormal(Decode(s[1], s[2]), e);
        GoodConcat(head, Percent(s[3..]).value, Normal(e));
      } else {
        PercentGivesNormal(s[1..], e);
        AllowedIsAscii(s[0], e);
        GoodConcat([s[0]], Percent(s[1..]).value, Normal(e));
      }
    }
  }

  lemma NothingIsGood(e: Encoding)
    ensures Good([], e)
  {
  }

  /** What is in normal form is left alone. */
  lemma {:induction false} PercentOfNormal(s: bytes, e: Encoding)
    requires (e == PATH || e == QUERY) && Good(s, Normal(e))
    ensures Percent(s) == Ok(s)
    decreases |s|
  {
    hide Good, Encoded, AsChar, Decode;
    if s != [] {
      GoodHead(s, Normal(e));
      if s[0] == PERCENT {
        PercentOfNormal(s[3..], e);
        NormalPairIsFixed(s[1], s[2]);
        assert s == [PERCENT, s[1], s[2]] + s[3..];
      } else {
        PercentOfNormal(s[1..], e);
        AllowedIsAscii(s[0], e);
        HeadSplit(s);
      }
    }
  }

  lemma NormalIsGood(s: bytes, e: Encoding)
    requires (e == PATH || e == QUERY) && Good(s, Normal(e))
    ensures Good(s, e)
  {
    forall i: nat | i < |s|
      ensures GoodAt(s, i, e)
    {
      assert GoodAt(s, i, Normal(e));
    }
  }

  /** The bytes that a component stands for. */
  function Meaning(s: bytes): bytes
    decreases |s|
  {
    if s == [] then []
    else if s[0] == PERCENT && |s| >= 3 && IsHexPair(s[1], s[2]) then [Decode(s[1], s[2])] + Meaning(s[3..])
    else [s[0]] + Meaning(s[1..])
  }

  lemma MeaningOfEncoded(v: byte, rest: bytes)
    ensures Meaning(Encoded(v) + rest) == [v] + Meaning(rest)
  {
    UpperHexRoundTrip(v);
    var s := Encoded(v) + rest;
    if IsUnreserved(v) {
      assert s[1..] == rest;
    } else {
      assert s[3..] == rest;
    }
  }

  /** Normalizing the encoding does not change what a component stands for. */
  lemma {:induction false} PercentKeepsMeaning(s: bytes, e: Encoding)
    requires (e == PATH || e == QUERY) && Good(s, e)
    ensures Percent(s).Ok? && Meaning(Percent(s).value) == Meaning(s)
    decreases |s|
  {
    hide Good, Encoded, AsChar, Decode;
    if s != [] {
      GoodHead(s, e);
      if s[0] == PERCENT {
        PercentKeepsMeaning(s[3..], e);
        MeaningOfEncoded(Decode(s[1], s[2]), Percent(s[3..]).value);
      } else {
        PercentKeepsMeaning(s[1..], e);
        AllowedIsAscii(s[0], e);
        var rest := Percent(s[1..]).value;
        assert ([s[0]] + rest)[1..] == rest;
      }
    }
  }

  /** The delimiters of section 2.2 of RFC 3986, which mean something else when they are encoded. */
  predicate IsDelimiter(b: byte) { b as char in ":/?#[]@!$&'()*+,;=" }

  /** The pieces of a text between the occurrences of a delimiter. */
  function Pieces(s: bytes, d: byte): (r: seq<bytes>)
    ensures r != []
    decreases |s|
  {
    if s == [] then [[]]
    else if s[0] == d then [[]] + Pieces(s[1..], d)
    else
      var rest := Pieces(s[1..], d);
      [[s[0]] + rest[0]] + rest[1..]
  }

  function Meanings(pieces: seq<bytes>): seq<bytes> {
    seq(|pieces|, i requires 0 <= i < |pieces| => Meaning(pieces[i]))
  }

  lemma {:induction false} PiecesBehind(x: bytes, t: bytes, d: byte)
    requires d !in x
    ensures Pieces(x + t, d) == [x + Pieces(t, d)[0]] + Pieces(t, d)[1..]
    decreases |x|
  {
    if x == [] {
      EmptyConcat(t);
      EmptyConcat(Pieces(t, d)[0]);
      HeadSplit(Pieces(t, d));
    } else {
      assert x[0] in x;
      assert (x + t)[1..] == x[1..] + t;
      PiecesBehind(x[1..], t, d);
      ConcatAssociative([x[0]], x[1..], Pieces(t, d)[0]);
      HeadSplit(x);
    }
  }

  lemma MeaningsCons(piece: bytes, rest: seq<bytes>)
    ensures Meanings([piece] + rest) == [Meaning(piece)] + Meanings(rest)
  {
    hide Meaning;
  }

  /** The same unit, plain or encoded, in front of texts whose pieces mean the same. */
  lemma UnitKeepsPieces(x: bytes, y: bytes, v: byte, s: bytes, t: bytes, d: byte)
    requires d !in x && d !in y && Meanings(Pieces(s, d)) == Meanings(Pieces(t, d))
    requires forall rest :: Meaning(x + rest) == [v] + Meaning(rest)
    requires forall rest :: Meaning(y + rest) == [v] + Meaning(rest)
    ensures Meanings(Pieces(x + s, d)) == Meanings(Pieces(y + t, d))
  {
    hide Meaning, Pieces, Meanings;
    var p, q := Pieces(s, d), Pieces(t, d);
    PiecesBehind(x, s, d);
    PiecesBehind(y, t, d);
    HeadSplit(p);
    HeadSplit(q);
    MeaningsCons(p[0], p[1..]);
    MeaningsCons(q[0], q[1..]);
    MeaningsCons(x + p[0], p[1..]);
    MeaningsCons(y + q[0], q[1..]);
    assert Meanings(p)[1..] == Meanings(p[1..]) && Meanings(q)[1..] == Meanings(q[1..]);
    assert Meanings(p)[0] == Meaning(p[0]) && Meanings(q)[0] == Meaning(q[0]);
  }

  lemma EncodedUnit(v: byte, d: byte)
    requires IsDelimiter(d)
    ensures d !in Encoded(v) && forall rest :: Meaning(Encoded(v) + rest) == [v] + Meaning(rest)
  {
    hide Meaning;
    DelimiterIsNoDigit(d);
    UpperHexRoundTrip(v);
    forall rest
      ensures Meaning(Encoded(v) + rest) == [v] + Meaning(rest)
    {
      MeaningOfEncoded(v, rest);
    }
  }

  /** A delimiter is not unreserved, no digit, no letter and no "%". */
  lemma DelimiterIsNoDigit(d: byte)
    requires IsDelimiter(d)
    ensures !IsUnreserved(d) && !IsHexDigit(d) && d != PERCENT
  {
  }

  lemma GivenUnit(high: byte, low: byte, d: byte)
    requires IsHexPair(high, low) && IsDelimiter(d)
    ensures d !in [PERCENT, high, low]
    ensures forall rest :: Meaning([PERCENT, high, low] + rest) == [Decode(high, low)] + Meaning(rest)
  {
    DelimiterIsNoDigit(d);
    forall rest: bytes
      ensures Meaning([PERCENT, high, low] + rest) == [Decode(high, low)] + Meaning(rest)
    {
      assert ([PERCENT, high, low] + rest)[3..] == rest;
    }
  }

  lemma PlainUnit(b: byte)
    requires b != PERCENT
    ensures forall rest :: Meaning([b] + rest) == [b] + Meaning(rest)
  {
    forall rest: bytes
      ensures Meaning([b] + rest) == [b] + Meaning(rest)
    {
      assert ([b] + rest)[1..] == rest;
    }
  }

  /** Normalizing the encoding keeps the structure: cut at any delimiter, the text has the same pieces
      before and after, and each stands for the same bytes. */
  lemma {:induction false} PercentKeepsPieces(s: bytes, e: Encoding, d: byte)
    requires (e == PATH || e == QUERY) && Good(s, e) && IsDelimiter(d)
    ensures Percent(s).Ok? && Meanings(Pieces(Percent(s).value, d)) == Meanings(Pieces(s, d))
    decreases |s|
  {
    hide Good, Encoded, AsChar, Decode, Meaning, Meanings, IsDelimiter, Pieces;
    if s != [] {
      GoodHead(s, e);
      if s[0] == PERCENT {
        PercentKeepsPieces(s[3..], e, d);
        var v, rest := Decode(s[1], s[2]), Percent(s[3..]).value;
        var given: bytes := [PERCENT, s[1], s[2]];
        assert s == given + s[3..];
        EncodedUnit(v, d);
        GivenUnit(s[1], s[2], d);
        UnitKeepsPieces(Encoded(v), given, v, rest, s[3..], d);
      } else {
        PercentKeepsPieces(s[1..], e, d);
        AllowedIsAscii(s[0], e);
        HeadSplit(s);
        if s[0] == d {
          DelimiterCuts(d, Percent(s[1..]).value);
          DelimiterCuts(d, s[1..]);
        } else {
          PlainUnit(s[0]);
          UnitKeepsPieces([s[0]], [s[0]], s[0], Percent(s[1..]).value, s[1..], d);
        }
      }
    }
  }

  lemma DelimiterCuts(d: byte, t: bytes)
    ensures Meanings(Pieces([d] + t, d)) == [[]] + Meanings(Pieces(t, d))
  {
    assert ([d] + t)[1..] == t;
    MeaningsCons([], Pieces(t, d));
  }

  /** The delimiters that stand in a text, in order. */
  function Delimiters(s: bytes): bytes
    decreases |s|
  {
    if s == [] then [] else (if IsDelimiter(s[0]) then [s[0]] else []) + Delimiters(s[1..])
  }

  lemma DelimitersStep(b: byte, t: bytes)
    ensures Delimiters([b] + t) == (if IsDelimiter(b) then [b] else []) + Delimiters(t)
  {
    hide IsDelimiter;
    assert ([b] + t)[1..] == t;
  }

  lemma {:induction false} DelimitersBehind(x: bytes, t: bytes)
    requires forall d :: d in x ==> !IsDelimiter(d)
    ensures Delimiters(x + t) == Delimiters(t)
    decreases |x|
  {
    hide IsDelimiter, Delimiters;
    if x == [] {
      EmptyConcat(t);
    } else {
      HeadSplit(x);
      ConcatAssociative([x[0]], x[1..], t);
      DelimitersStep(x[0], x[1..] + t);
      EmptyConcat(Delimiters(x[1..] + t));
      assert x[0] in x && forall d :: d in x[1..] ==> d in x;
      DelimitersBehind(x[1..], t);
    }
  }

  lemma EncodedHasNone(v: byte)
    ensures forall d :: d in Encoded(v) ==> !IsDelimiter(d)
  {
    hide IsDelimiter;
    forall d | d in Encoded(v)
      ensures !IsDelimiter(d)
    {
      if IsDelimiter(d) {
        EncodedUnit(v, d);
      }
    }
  }

  /** No delimiter comes, goes or moves. */
  lemma {:induction false} PercentKeepsDelimiters(s: bytes, e: Encoding)
    requires (e == PATH || e == QUERY) && Good(s, e)
    ensures Percent(s).Ok? && Delimiters(Percent(s).value) == Delimiters(s)
    decreases |s|
  {
    hide Good, Encoded, AsChar, Decode, IsDelimiter;
    if s != [] {
      GoodHead(s, e);
      if s[0] == PERCENT {
        PercentKeepsDelimiters(s[3..], e);
        var given: bytes := [PERCENT, s[1], s[2]];
        assert s == given + s[3..];
        EncodedHasNone(Decode(s[1], s[2]));
        DelimitersBehind(Encoded(Decode(s[1], s[2])), Percent(s[3..]).value);
        forall d | d in given
          ensures !IsDelimiter(d)
        {
          if IsDelimiter(d) {
            DelimiterIsNoDigit(d);
          }
        }
        DelimitersBehind(given, s[3..]);
      } else {
        PercentKeepsDelimiters(s[1..], e);
        AllowedIsAscii(s[0], e);
        assert ([s[0]] + Percent(s[1..]).value)[1..] == Percent(s[1..]).value;
      }
    }
  }

  // ---- Authority ----

  function LastIndex(s: bytes, b: byte): (r: Option<nat>)
    ensures r.Some? ==> r.value < |s| && s[r.value] == b
    ensures forall k :: 0 <= k < |s| && s[k] == b ==> r.Some? && k <= r.value
    decreases |s|
  {
    if s == [] then None
    else if s[|s| - 1] == b then Some(|s| - 1)
    else LastIndex(s[..|s| - 1], b)
  }

  const LBRACKET: byte := 91
  const RBRACKET: byte := 93

  /** Length of the host in "host:port". */
  function HostLength(hostPort: bytes): (n: nat)
    ensures n <= |hostPort|
  {
    if [LBRACKET] <= hostPort && Find(hostPort[1..], [RBRACKET]).Some? then Find(hostPort[1..], [RBRACKET]).value + 2
    else
      var colon := LastIndex(hostPort, COLON);
      if colon.Some? then colon.value else |hostPort|
  }

  /** `normalize_host_port`. */
  function NormalHostPort(hostPort: bytes): bytes {
    ToLower(hostPort[..HostLength(hostPort)]) + hostPort[HostLength(hostPort)..]
  }

  /** `normalize_authority`. */
  function NormalAuthority(authority: bytes): bytes {
    var at := LastIndex(authority, AT_SIGN);
    if at.Some? then authority[..at.value] + [AT_SIGN] + NormalHostPort(authority[at.value + 1..])
    else NormalHostPort(authority)
  }

  /** A text, and the same with some of its capital letters in lower case. */
  predicate SameMarks(s: bytes, t: bytes) {
    |s| == |t| && forall i :: 0 <= i < |s| ==> t[i] == s[i] || (65 <= s[i] <= 90 && t[i] == s[i] + 32)
  }

  lemma SameLastIndex(s: bytes, t: bytes, b: byte)
    requires SameMarks(s, t) && !IsAlpha(b)
    ensures LastIndex(s, b) == LastIndex(t, b)
  {
    var i, j := LastIndex(s, b), LastIndex(t, b);
    assert forall k :: 0 <= k < |s| ==> (s[k] == b <==> t[k] == b);
    assert i.Some? ==> t[i.value] == b;
    assert j.Some? ==> s[j.value] == b;
  }

  lemma SameFind(s: bytes, t: bytes, b: byte)
    requires SameMarks(s, t) && !IsAlpha(b)
    ensures Find(s, [b]) == Find(t, [b])
  {
    forall i: nat
      ensures Occurs(s, [b], i) <==> Occurs(t, [b], i)
    {
      if i < |s| {
        assert s[i..i + 1] == [s[i]] && t[i..i + 1] == [t[i]];
      }
    }
  }

  lemma SameHostLength(s: bytes, t: bytes)
    requires SameMarks(s, t)
    ensures HostLength(s) == HostLength(t)
  {
    if s != [] {
      SameFind(s[1..], t[1..], RBRACKET);
    }
    SameLastIndex(s, t, COLON);
  }

  lemma LowerKeepsMarks(s: bytes)
    ensures SameMarks(s, NormalHostPort(s))
    ensures NormalHostPort(s)[..HostLength(s)] == ToLower(s[..HostLength(s)])
    ensures NormalHostPort(s)[HostLength(s)..] == s[HostLength(s)..]
  {
    hide HostLength;
  }

  lemma LowerTwice(s: bytes)
    ensures ToLower(ToLower(s)) == ToLower(s)
  {
  }

  lemma HostPortIsIdempotent(s: bytes)
    ensures NormalHostPort(NormalHostPort(s)) == NormalHostPort(s)
  {
    hide HostLength, ToLower;
    LowerKeepsMarks(s);
    SameHostLength(s, NormalHostPort(s));
    LowerTwice(s[..HostLength(s)]);
  }

  lemma SameMarksBehind(a: bytes, s: bytes, t: bytes)
    requires SameMarks(s, t)
    ensures SameMarks(a + s, a + t)
  {
  }

  lemma SameMarksEnd(s: bytes, t: bytes)
    requires SameMarks(s, t) && All(s, NotAuthorityEnd)
    ensures All(t, NotAuthorityEnd)
  {
  }

  lemma AuthorityKeepsMarks(s: bytes)
    ensures SameMarks(s, NormalAuthority(s))
    ensures All(s, NotAuthorityEnd) ==> All(NormalAuthority(s), NotAuthorityEnd)
  {
    hide NormalHostPort, SameMarks, NotAuthorityEnd;
    var at := LastIndex(s, AT_SIGN);
    if at.Some? {
      var front, host := s[..at.value] + [AT_SIGN], s[at.value + 1..];
      LowerKeepsMarks(host);
      SameMarksBehind(front, host, NormalHostPort(host));
      assert s == front + host;
    } else {
      LowerKeepsMarks(s);
    }
    if All(s, NotAuthorityEnd) {
      SameMarksEnd(s, NormalAuthority(s));
    }
  }

  /** Only the host changes, and it changes once. */
  lemma AuthorityIsIdempotent(s: bytes)
    ensures NormalAuthority(NormalAuthority(s)) == NormalAuthority(s)
  {
    hide NormalHostPort;
    var at := LastIndex(s, AT_SIGN);
    var r := NormalAuthority(s);
    AuthorityKeepsMarks(s);
    SameLastIndex(s, r, AT_SIGN);
    if at.Some? {
      var rest := NormalHostPort(s[at.value + 1..]);
      assert r[..at.value] == s[..at.value] && r[at.value + 1..] == rest;
      HostPortIsIdempotent(s[at.value + 1..]);
    } else {
      HostPortIsIdempotent(s);
    }
  }

  /** What is lower-cased: of "userinfo@host:port" the host, of "[address]:port" the address, and
      nothing else. */
  lemma AuthorityExactly(userinfo: bytes, host: bytes, port: bytes)
    ensures AT_SIGN !in host ==>
              NormalAuthority(userinfo + [AT_SIGN] + host) == userinfo + [AT_SIGN] + NormalAuthority(host)
    ensures AT_SIGN !in host && COLON !in host && !([LBRACKET] <= host) ==> NormalAuthority(host) == ToLower(host)
    ensures AT_SIGN !in host + [COLON] + port && COLON !in port && !([LBRACKET] <= host) ==>
              NormalAuthority(host + [COLON] + port) == ToLower(host) + [COLON] + port
    ensures AT_SIGN !in [LBRACKET] + host + [RBRACKET] + port && RBRACKET !in host ==>
              NormalAuthority([LBRACKET] + host + [RBRACKET] + port) == [LBRACKET] + ToLower(host) + [RBRACKET] + port
  {
    hide NormalAuthority, ToLower;
    if AT_SIGN !in host {
      BehindUserinfo(userinfo, host);
      if COLON !in host && !([LBRACKET] <= host) {
        HostAlone(host);
      }
    }
    if AT_SIGN !in host + [COLON] + port && COLON !in port && !([LBRACKET] <= host) {
      HostAndPort(host, port);
    }
    if AT_SIGN !in [LBRACKET] + host + [RBRACKET] + port && RBRACKET !in host {
      AddressAndPort(host, port);
    }
  }

  lemma LastIndexIs(s: bytes, b: byte, i: nat)
    requires i < |s| && s[i] == b && forall k :: i < k < |s| ==> s[k] != b
    ensures LastIndex(s, b) == Some(i)
  {
  }

  lemma NoLastIndex(s: bytes, b: byte)
    requires b !in s
    ensures LastIndex(s, b) == None
  {
  }

  lemma BehindUserinfo(userinfo: bytes, host: bytes)
    requires AT_SIGN !in host
    ensures NormalAuthority(userinfo + [AT_SIGN] + host) == userinfo + [AT_SIGN] + NormalAuthority(host)
  {
    hide NormalHostPort, LastIndex;
    var s := userinfo + [AT_SIGN] + host;
    assert s[|userinfo|] == AT_SIGN && forall k :: |userinfo| < k < |s| ==> s[k] == host[k - |userinfo| - 1];
    LastIndexIs(s, AT_SIGN, |userinfo|);
    NoLastIndex(host, AT_SIGN);
    assert s[..|userinfo|] == userinfo && s[|userinfo| + 1..] == host;
  }

  lemma HostAlone(host: bytes)
    requires AT_SIGN !in host && COLON !in host && !([LBRACKET] <= host)
    ensures NormalAuthority(host) == ToLower(host)
  {
    hide ToLower, LastIndex;
    NoLastIndex(host, AT_SIGN);
    NoLastIndex(host, COLON);
    assert host[..|host|] == host && host[|host|..] == [];
    EmptyConcat(ToLower(host));
  }

  lemma HostAndPort(host: bytes, port: bytes)
    requires AT_SIGN !in host + [COLON] + port && COLON !in port && !([LBRACKET] <= host)
    ensures NormalAuthority(host + [COLON] + port) == ToLower(host) + [COLON] + port
  {
    hide ToLower, LastIndex;
    var s := host + [COLON] + port;
    NoLastIndex(s, AT_SIGN);
    assert s[|host|] == COLON && forall k :: |host| < k < |s| ==> s[k] == port[k - |host| - 1];
    LastIndexIs(s, COLON, |host|);
    assert s[0] == if host == [] then COLON else host[0];
    assert s[..|host|] == host && s[|host|..] == [COLON] + port;
    ConcatAssociative(ToLower(host), [COLON], port);
  }

  lemma AddressAndPort(host: bytes, port: bytes)
    requires AT_SIGN !in [LBRACKET] + host + [RBRACKET] + port && RBRACKET !in host
    ensures NormalAuthority([LBRACKET] + host + [RBRACKET] + port) == [LBRACKET] + ToLower(host) + [RBRACKET] + port
  {
    hide ToLower, LastIndex, FindFrom;
    var s := [LBRACKET] + host + [RBRACKET] + port;
    NoLastIndex(s, AT_SIGN);
    var t := [RBRACKET] + port;
    assert s[1..] == host + t;
    NoOccurrenceWithin(host, t, [RBRACKET]);
    assert t[0..1] == [RBRACKET];
    assert Occurs(t, [RBRACKET], 0);
    FindIs(t, [RBRACKET], 0);
    FindAfterPrefix(host, t, [RBRACKET]);
    var n := |host| + 2;
    assert s[..n] == [LBRACKET] + host + [RBRACKET] && s[n..] == port;
    LowerAround(host);
  }

  lemma LowerAround(host: bytes)
    ensures ToLower([LBRACKET] + host + [RBRACKET]) == [LBRACKET] + ToLower(host) + [RBRACKET]
  {
  }

  // ---- The whole reference ----

  function NormalOptional(o: Option<bytes>): Result<Option<bytes>, UriError> {
    if o.None? then Ok(None)
    else
      var r := Percent(o.value);
      if r.Ok? then Ok(Some(r.value)) else Err(r.error)
  }

  function NormalComponents(c: Components): Result<Components, UriError> {
    var path, query, fragment := Percent(c.path), NormalOptional(c.query), NormalOptional(c.fragment);
    if path.Err? then Err(path.error)
    else if query.Err? then Err(query.error)
    else if fragment.Err? then Err(fragment.error)
    else Ok(Components(
      if c.scheme.Some? then Some(ToLower(c.scheme.value)) else None,
      if c.authority.Some? then Some(NormalAuthority(c.authority.value)) else None,
      RemoveDotSegments(path.value),
      query.value,
      fragment.value))
  }

  /** Components that a second normalization leaves alone, up to the guard. */
  ghost predicate IsNormal(c: Components) {
    && (c.scheme.Some? ==> ToLower(c.scheme.value) == c.scheme.value)
    && (c.authority.Some? ==> NormalAuthority(c.authority.value) == c.authority.value)
    && Good(c.path, NORMAL_PATH) && NoDotSegments(c.path)
    && (c.query.Some? ==> Good(c.query.value, NORMAL_QUERY))
    && (c.fragment.Some? ==> Good(c.fragment.value, NORMAL_QUERY))
  }

  /** Everything that is valid by itself, whatever the rule says of the authority. */
  ghost predicate WellFormed(c: Components) {
    Acceptable(_ => Ok(Authority(0, None)), c)
  }

  lemma NormalSlash()
    ensures SlashStandsAlone(NORMAL_PATH)
  {
  }

  lemma NormalPath(path: bytes)
    requires Good(path, PATH)
    ensures Percent(path).Ok?
    ensures var p := RemoveDotSegments(Percent(path).value);
            Good(p, PATH) && Good(p, NORMAL_PATH) && NoDotSegments(p)
    ensures path == [] || path[0] == SLASH ==>
              var p := RemoveDotSegments(Percent(path).value); p == [] || p[0] == SLASH
  {
    hide Good, NoDotSegments, Rewrite, IsPathChar;
    PercentGivesNormal(path, PATH);
    var p := Percent(path).value;
    NormalSlash();
    NothingIsGood(NORMAL_PATH);
    RewriteKeepsGood(p, [], NORMAL_PATH);
    NormalIsGood(RemoveDotSegments(p), PATH);
    RemoveLeavesNoDots(p);
    if path == [] {
      RewriteNothing([]);
    } else if path[0] == SLASH {
      assert p[0] == SLASH by { HeadSplit(path); }
      RewriteStaysAbsolute(p, []);
    }
  }

  lemma NormalOption(o: Option<bytes>)
    requires o.Some? ==> Good(o.value, QUERY)
    ensures NormalOptional(o).Ok? && (NormalOptional(o).value.Some? <==> o.Some?)
    ensures o.Some? ==> Good(NormalOptional(o).value.value, QUERY) && Good(NormalOptional(o).value.value, NORMAL_QUERY)
  {
    hide Good, IsQueryChar;
    if o.Some? {
      PercentGivesNormal(o.value, QUERY);
      NormalIsGood(Percent(o.value).value, QUERY);
    }
  }

  lemma LowerScheme(s: bytes)
    requires s != [] && IsAlpha(s[0]) && All(s, IsSchemeChar)
    ensures var r := ToLower(s); r != [] && IsAlpha(r[0]) && All(r, IsSchemeChar) && ToLower(r) == r
  {
  }

  /** Normalizing well-formed components gives well-formed components in normal form. */
  lemma NormalizationWorks(c: Components)
    requires WellFormed(c)
    ensures NormalComponents(c).Ok?
    ensures WellFormed(NormalComponents(c).value) && IsNormal(NormalComponents(c).value)
  {
    hide Good, NoDotSegments, NormalAuthority, ToLower, RemoveDotSegments, Percent, NormalOptional;
    NormalPath(c.path);
    NormalOption(c.query);
    NormalOption(c.fragment);
    if c.scheme.Some? {
      LowerScheme(c.scheme.value);
    }
    if c.authority.Some? {
      AuthorityIsIdempotent(c.authority.value);
      AuthorityKeepsMarks(c.authority.value);
    }
  }

  /** What normalization keeps: which components there are, the scheme and the authority up to the case
      of letters, the bytes that query and fragment stand for, and of the path what is left of a path
      that stands for the same bytes, segment by segment. */
  lemma NormalizationKeeps(c: Components)
    requires WellFormed(c)
    ensures NormalComponents(c).Ok?
    ensures var n := NormalComponents(c).value;
            && (n.scheme.Some? <==> c.scheme.Some?) && (n.authority.Some? <==> c.authority.Some?)
            && (n.query.Some? <==> c.query.Some?) && (n.fragment.Some? <==> c.fragment.Some?)
            && (c.scheme.Some? ==> SameMarks(c.scheme.value, n.scheme.value))
            && (c.authority.Some? ==> SameMarks(c.authority.value, n.authority.value))
            && (c.query.Some? ==> SameStructure(c.query.value, n.query.value))
            && (c.fragment.Some? ==> SameStructure(c.fragment.value, n.fragment.value))
            && exists p :: SameStructure(c.path, p) && n.path == RemoveDotSegments(p)
  {
    hide Good, NormalAuthority, ToLower, RemoveDotSegments, Percent, SameMarks, SameStructure, IsPathChar, IsQueryChar;
    PercentKeepsStructure(c.path, PATH);
    if c.query.Some? {
      PercentKeepsStructure(c.query.value, QUERY);
    }
    if c.fragment.Some? {
      PercentKeepsStructure(c.fragment.value, QUERY);
    }
    if c.scheme.Some? {
      LowerIsSame(c.scheme.value);
    }
    if c.authority.Some? {
      AuthorityKeepsMarks(c.authority.value);
    }
  }

  lemma LowerIsSame(s: bytes)
    ensures SameMarks(s, ToLower(s))
  {
  }

  /** The same bytes, and the same pieces between delimiters. */
  ghost predicate SameStructure(s: bytes, t: bytes) {
    Meaning(s) == Meaning(t) && Delimiters(s) == Delimiters(t)
    && forall d :: IsDelimiter(d) ==> Meanings(Pieces(s, d)) == Meanings(Pieces(t, d))
  }

  lemma PercentKeepsStructure(s: bytes, e: Encoding)
    requires (e == PATH || e == QUERY) && Good(s, e)
    ensures Percent(s).Ok? && SameStructure(s, Percent(s).value)
  {
    hide Good, Percent, Meaning, Meanings, Pieces, Delimiters, IsDelimiter;
    PercentKeepsMeaning(s, e);
    PercentKeepsDelimiters(s, e);
    forall d | IsDelimiter(d)
      ensures Meanings(Pieces(s, d)) == Meanings(Pieces(Percent(s).value, d))
    {
      PercentKeepsPieces(s, e, d);
    }
  }

  /** The guard in front of a normal path is removed again. */
  lemma GuardIsRemoved(c: Components)
    requires IsNormal(c)
    ensures Percent(Guard(c) + c.path) == Ok(Guard(c) + c.path)
    ensures RemoveDotSegments(Guard(c) + c.path) == c.path
  {
    hide Good, NoDotSegments, Rewrite, IsPathChar, IsNormalPair, Percent, FirstSegmentContainsColon;
    var g := Guard(c);
    GuardIsGood(c);
    GoodConcat(g, c.path, NORMAL_PATH);
    PercentOfNormal(g + c.path, PATH);
    EmptyConcat(c.path);
    RemoveIsIdempotent(c.path);
    RewriteGuard(c);
  }

  lemma GuardIsGood(c: Components)
    ensures Good(Guard(c), NORMAL_PATH)
  {
  }

  lemma RewriteGuard(c: Components)
    ensures Rewrite(Guard(c) + c.path, []) == Rewrite(c.path, [])
  {
    hide Rewrite, FirstSegmentContainsColon, RuleFor;
    var g := Guard(c);
    EmptyConcat(c.path);
    if g == [SLASH, DOT] {
      RuleForSlashDot(c.path);
      RewriteOnce(g + c.path, []);
    } else if g == [DOT, SLASH] {
      RuleForDotSlash(c.path);
      RewriteOnce(g + c.path, []);
    }
  }

  lemma RuleForSlashDot(path: bytes)
    requires [SLASH] <= path
    ensures RuleFor([SLASH, DOT] + path) == Slash(3)
    ensures [SLASH] + ([SLASH, DOT] + path)[3..] == path
  {
    var s := [SLASH, DOT] + path;
    assert s[0] == SLASH && s[1] == DOT && s[2] == path[0];
    assert s[..3] == [SLASH, DOT, SLASH];
  }

  lemma RuleForDotSlash(path: bytes)
    ensures RuleFor([DOT, SLASH] + path) == Drop(2)
    ensures ([DOT, SLASH] + path)[2..] == path
  {
    var s := [DOT, SLASH] + path;
    assert s[0] == DOT && s[1] == SLASH;
  }

  lemma NormalIsFixed(c: Components)
    requires IsNormal(c)
    ensures NormalComponents(Guarded(c)) == Ok(c)
  {
    hide Good, NoDotSegments, NormalAuthority, ToLower, RemoveDotSegments, Percent, Guard;
    GuardIsRemoved(c);
    if c.query.Some? {
      PercentOfNormal(c.query.value, QUERY);
    }
    if c.fragment.Some? {
      PercentOfNormal(c.fragment.value, QUERY);
    }
  }

  /** The text that `normalize` parses in the end. */
  function NormalText(s: bytes): Result<bytes, UriError> {
    var c := NormalComponents(Split(s));
    if c.Ok? then Ok(Text(Guarded(c.value))) else Err(c.error)
  }

  /** The text that `normalize` returns, if it returns one. */
  function NormalForm(a: AuthorityRule, s: bytes): Option<bytes> {
    var t := NormalText(s);
    if t.Ok? && Parses(a, t.value) then Some(t.value) else None
  }

  lemma AcceptableIsWellFormed(a: AuthorityRule, c: Components)
    requires Acceptable(a, c)
    ensures WellFormed(c)
  {
  }

  /** Normalization is idempotent: whatever it returns, it returns unchanged when it is given it
      again. This needs nothing of the rule for authorities. */
  lemma NormalizationIsIdempotent(a: AuthorityRule, s: bytes)
    requires Parses(a, s)
    ensures NormalText(s).Ok? && NormalText(NormalText(s).value) == NormalText(s)
    ensures NormalForm(a, s).Some? ==> NormalForm(a, NormalForm(a, s).value) == NormalForm(a, s)
  {
    hide Split, Acceptable, Parses, Text, WellFormed, IsNormal, NormalComponents;
    ParsedIsAcceptable(a, s);
    AcceptableIsWellFormed(a, Split(s));
    NormalizationWorks(Split(s));
    var c := NormalComponents(Split(s)).value;
    SplitNormalText(c);
    NormalIsFixed(c);
  }

  lemma SplitNormalText(c: Components)
    requires WellFormed(c)
    ensures Split(Text(Guarded(c))) == Guarded(c)
  {
    hide Split, Acceptable, Text;
    BuildThenParse(_ => Ok(Authority(0, None)), c);
  }

  /** When the rule for authorities ignores the case of the host, the one reference that has no
      normal form is one of which nothing is left. */
  lemma NormalizationFailsOnlyOnNothing(a: AuthorityRule, s: bytes)
    requires Parses(a, s)
    requires forall x :: a(x).Ok? ==> a(NormalAuthority(x)).Ok?
    ensures NormalForm(a, s).None? <==>
              var c := Split(s);
              c.scheme.None? && c.authority.None? && c.query.None? && c.fragment.None?
              && Percent(c.path).Ok? && OnlyDots(Percent(c.path).value)
  {
    hide Split, Parses, Text, WellFormed, IsNormal, OnlyDots, Percent, RemoveDotSegments;
    ParsedIsAcceptable(a, s);
    AcceptableIsWellFormed(a, Split(s));
    NormalizationWorks(Split(s));
    var c := NormalComponents(Split(s)).value;
    NormalIsAcceptable(a, Split(s));
    BuildThenParse(a, c);
    RemovesEverything(Percent(Split(s).path).value);
  }

  /** "." is a reference, and has no normal form. */
  lemma DotHasNoNormalForm(a: AuthorityRule)
    ensures Parses(a, [DOT]) && NormalText([DOT]) == Ok([]) && NormalForm(a, [DOT]) == None
  {
    OneSegment(a, DOT);
    var dot: bytes := [DOT];
    PercentAt(dot, 0);
    assert dot[0..] == dot && dot[1..] == [];
    PercentOfNothing();
    RemovesEverything(dot);
    TextOfNothing(NOTHING);
    NothingUnguarded(NOTHING);
  }

  lemma NormalIsAcceptable(a: AuthorityRule, c: Components)
    requires Acceptable(a, c) && NormalComponents(c).Ok? && WellFormed(NormalComponents(c).value)
    requires forall x :: a(x).Ok? ==> a(NormalAuthority(x)).Ok?
    ensures Acceptable(a, NormalComponents(c).value)
  {
    hide Good, NormalAuthority, ToLower, RemoveDotSegments, Percent;
  }

  /** `normalize`. */
  method Normalize(a: AuthorityRule, u: Uri) returns (r: Result<Uri, UriError>)
    requires Offsets(u) && ComponentsOf(u) == Split(u.source) && Parses(a, u.source)
    ensures r.Ok? <==> NormalForm(a, u.source).Some?
    ensures r.Ok? ==> Some(r.value.source) == NormalForm(a, u.source)
    ensures r.Ok? ==> Offsets(r.value) && ComponentsOf(r.value) == Split(r.value.source)
                      && Ok(ComponentsOf(r.value)) == MapGuard(NormalComponents(ComponentsOf(u)))
  {
    hide Split, Parses, Text, Acceptable, WellFormed, IsNormal, NormalAuthority, ToLower, RemoveDotSegments, Percent;
    var c := ComponentsOf(u);
    var scheme := if c.scheme.Some? then Some(ToLower(c.scheme.value)) else None;
    var authority := if c.authority.Some? then Some(NormalAuthority(c.authority.value)) else None;
    var encoded := NormalizePercentEncoding(c.path);
    if encoded.Err? {
      return Err(encoded.error);
    }
    var path := Remove(encoded.value);
    var query, fragment := None, None;
    if c.query.Some? {
      var q := NormalizePercentEncoding(c.query.value);
      if q.Err? {
        return Err(q.error);
      }
      query := Some(q.value);
    }
    if c.fragment.Some? {
      var f := NormalizePercentEncoding(c.fragment.value);
      if f.Err? {
        return Err(f.error);
      }
      fragment := Some(f.value);
    }
    var normal := Components(scheme, authority, path, query, fragment);
    ParsedIsAcceptable(a, u.source);
    AcceptableIsWellFormed(a, c);
    NormalizationWorks(c);
    SplitNormalText(normal);
    var text := BuildUri(normal);
    r := Parse(a, text);
  }

  function MapGuard(c: Result<Components, UriError>): Result<Components, UriError> {
    if c.Ok? then Ok(Guarded(c.value)) else c
  }
}
