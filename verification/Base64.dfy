/** Base64 (section 4 of RFC 4648): a block encoder, a bit-accumulator decoder, and why each is
    the inverse of the other. */
module Base64 {
  import opened Scan

  datatype Base64Error = InvalidCharacter | InvalidPadding

  const PAD: byte := 61

  // ---- Alphabet ----

  /** `BASE64_ALPHABET`. */
  function Letter(v: nat): byte
    requires v < 64
  {
    if v < 26 then 65 + v
    else if v < 52 then 97 + (v - 26)
    else if v < 62 then 48 + (v - 52)
    else if v == 62 then 43
    else 47
  }

  function Value(b: byte): (v: Option<nat>)
    ensures v.Some? ==> v.value < 64 && Letter(v.value) == b
  {
    if 65 <= b <= 90 then Some(b - 65)
    else if 97 <= b <= 122 then Some(b - 97 + 26)
    else if IsDigit(b) then Some(b - 48 + 52)
    else if b == 43 then Some(62)
    else if b == 47 then Some(63)
    else None
  }

  predicate IsLetter(b: byte) { Value(b).Some? }

  predicate IsSpace(b: byte) { b == SP || b == HTAB || b == LF || b == CR }

  predicate IsAscii(b: byte) { b < 128 }

  lemma LetterValue(v: nat)
    requires v < 64
    ensures Value(Letter(v)) == Some(v)
    ensures var b := Letter(v); !IsSpace(b) && IsAscii(b) && b != PAD
  {
  }

  // ---- Encoding ----

  /** The 24 bits of up to three bytes, as four characters. */
  function Block(s: bytes): (r: bytes)
    requires s != []
    ensures |r| == 4
  {
    var b0: nat := s[0];
    var b1: nat := if |s| > 1 then s[1] else 0;
    var b2: nat := if |s| > 2 then s[2] else 0;
    var n := b0 * 65536 + b1 * 256 + b2;
    [Letter(n / 262144 % 64),
     Letter(n / 4096 % 64),
     if |s| > 1 then Letter(n / 64 % 64) else PAD,
     if |s| > 2 then Letter(n % 64) else PAD]
  }

  function Encode(s: bytes): bytes
    decreases |s|
  {
    if s == [] then [] else if |s| < 3 then Block(s) else Block(s) + Encode(s[3..])
  }

  /** What is still to be written when the bytes before `i` are done. */
  ghost function Rest(s: bytes, i: nat): bytes {
    if i < |s| then Encode(s[i..]) else []
  }

  lemma RestAt(s: bytes, i: nat)
    requires i < |s|
    ensures Rest(s, i) == Block(s[i..]) + Rest(s, i + 3)
  {
    hide Block;
    if i + 3 <= |s| {
      DropTwice(s, i, 3);
    } else {
      EmptyConcat(Block(s[i..]));
    }
  }

  method EncodeBlock(input: bytes, i: nat) returns (block: bytes)
    requires i < |input|
    ensures block == Block(input[i..])
  {
    hide Letter;
    var b0: nat := input[i];
    var b1: nat := if i + 1 < |input| then input[i + 1] else 0;
    var b2: nat := if i + 2 < |input| then input[i + 2] else 0;
    var n := b0 * 65536 + b1 * 256 + b2;
    block := [Letter(n / 262144 % 64), Letter(n / 4096 % 64)];
    if i + 1 < |input| {
      block := block + [Letter(n / 64 % 64)];
    } else {
      block := block + [PAD];
    }
    if i + 2 < |input| {
      block := block + [Letter(n % 64)];
    } else {
      block := block + [PAD];
    }
  }

  /** `encode`. */
  method EncodeBytes(input: bytes) returns (result: bytes)
    ensures result == Encode(input)
  {
    hide Encode, Block, Rest;
    result := [];
    var i := 0;
    RestOfAll(input);
    EmptyConcat(Encode(input));
    while i < |input|
      invariant result + Rest(input, i) == Encode(input)
    {
      RestAt(input, i);
      var block := EncodeBlock(input, i);
      ConcatAssociative(result, block, Rest(input, i + 3));
      result := result + block;
      i := i + 3;
    }
    NoRest(input, i);
    EmptyConcat(result);
  }

  lemma RestOfAll(s: bytes)
    ensures Rest(s, 0) == Encode(s)
  {
    assert s[0..] == s;
  }

  lemma NoRest(s: bytes, i: nat)
    requires i >= |s|
    ensures Rest(s, i) == []
  {
  }

  // ---- Decoding ----

  /** The input without its white space. */
  function Strip(s: bytes): bytes
    decreases |s|
  {
    if s == [] then []
    else if IsSpace(s[0]) then Strip(s[1..])
    else [s[0]] + Strip(s[1..])
  }

  /** Number of "=" at the end. */
  function PadCount(s: bytes): (n: nat)
    ensures n <= |s|
    ensures n < |s| ==> s[|s| - 1 - n] != PAD
    ensures forall k :: |s| - n <= k < |s| ==> s[k] == PAD
    decreases |s|
  {
    if s == [] || s[|s| - 1] != PAD then 0 else 1 + PadCount(s[..|s| - 1])
  }

  function After(done: bytes, r: Result<bytes, Base64Error>): Result<bytes, Base64Error> {
    if r.Ok? then Ok(done + r.value) else r
  }

  lemma AfterTwice(s: bytes, t: bytes, r: Result<bytes, Base64Error>)
    ensures After(s, After(t, r)) == After(s + t, r)
  {
    if r.Ok? {
      ConcatAssociative(s, t, r.value);
    }
  }

  /** Between two characters the accumulator holds less than one byte. */
  predicate Pending(buf: nat, bits: nat) {
    (bits == 0 && buf == 0) || (bits == 2 && buf < 4) || (bits == 4 && buf < 16) || (bits == 6 && buf < 64)
  }

  /** A byte and what is pending behind it. */
  predicate Full(buf: nat, bits: nat) {
    (bits == 0 && buf < 256) || (bits == 2 && buf < 1024) || (bits == 4 && buf < 4096)
  }

  /** `buf >> bits`. */
  function High(buf: nat, bits: nat): byte
    requires Full(buf, bits)
  {
    if bits == 0 then buf else if bits == 2 then buf / 4 else buf / 16
  }

  /** `buf & ((1 << bits) - 1)`. */
  function Low(buf: nat, bits: nat): (r: nat)
    requires Full(buf, bits)
    ensures Pending(r, bits)
  {
    if bits == 0 then 0 else if bits == 2 then buf % 4 else buf % 16
  }

  lemma Shifted(buf: nat, bits: nat, val: nat)
    requires Pending(buf, bits) && val < 64
    ensures if bits < 2 then Pending(buf * 64 + val, bits + 6) else Full(buf * 64 + val, bits - 2)
  {
  }

  /** Reading characters into the accumulator, six bits at a time. */
  function Bits(data: bytes, buf: nat, bits: nat): Result<bytes, Base64Error>
    requires Pending(buf, bits)
    decreases |data|
  {
    if data == [] then
      if buf == 0 then Ok([]) else Err(InvalidPadding)
    else
      var val := Value(data[0]);
      if val.None? then Err(InvalidCharacter)
      else
        Shifted(buf, bits, val.value);
        var all := buf * 64 + val.value;
        if bits < 2 then Bits(data[1..], all, bits + 6)
        else After([High(all, bits - 2)], Bits(data[1..], Low(all, bits - 2), bits - 2))
  }

  function Decode(input: bytes): Result<bytes, Base64Error> {
    var s := Strip(input);
    if !All(s, IsAscii) then Err(InvalidCharacter)
    else if s == [] then Ok([])
    else
      var pad := PadCount(s);
      if pad > 2 || |s| % 4 != 0 || !Consistent(pad, (|s| - pad) % 4) then Err(InvalidPadding)
      else
        Bits(s[..|s| - pad], 0, 0)
  }

  /** How many characters a last block of data may have in front of its padding. */
  predicate Consistent(pad: nat, last: nat) {
    (pad == 0 && last == 0) || (pad == 1 && last == 3) || (pad == 2 && last == 2)
  }

  lemma StripAt(s: bytes, i: nat)
    requires i < |s|
    ensures Strip(s[i..]) == if IsSpace(s[i]) then Strip(s[i + 1..]) else [s[i]] + Strip(s[i + 1..])
  {
    DropTwice(s, i, 1);
  }

  method StripWhitespace(input: bytes) returns (r: Result<bytes, Base64Error>)
    ensures r == if All(Strip(input), IsAscii) then Ok(Strip(input)) else Err(InvalidCharacter)
  {
    hide Strip, IsSpace;
    var normalized: bytes := [];
    var i := 0;
    assert input[0..] == input;
    EmptyConcat(Strip(input));
    while i < |input|
      invariant i <= |input| && All(normalized, IsAscii)
      invariant normalized + Strip(input[i..]) == Strip(input)
    {
      StripAt(input, i);
      if !IsSpace(input[i]) {
        ConcatAssociative(normalized, [input[i]], Strip(input[i + 1..]));
        if !IsAscii(input[i]) {
          assert Strip(input)[|normalized|] == input[i];
          return Err(InvalidCharacter);
        }
        normalized := normalized + [input[i]];
      }
      i := i + 1;
    }
    assert input[i..] == [];
    StripNothing();
    EmptyConcat(normalized);
    r := Ok(normalized);
  }

  lemma StripNothing()
    ensures Strip([]) == []
  {
  }

  method CountPadding(s: bytes) returns (n: nat)
    ensures n == PadCount(s)
  {
    n := 0;
    assert s[..|s|] == s;
    while n < |s| && s[|s| - 1 - n] == PAD
      invariant n <= |s|
      invariant n + PadCount(s[..|s| - n]) == PadCount(s)
    {
      assert s[..|s| - n][..|s| - n - 1] == s[..|s| - (n + 1)];
      n := n + 1;
    }
  }

  lemma BitsAt(data: bytes, i: nat, buf: nat, bits: nat)
    requires i < |data| && Pending(buf, bits)
    ensures Value(data[i]).None? ==> Bits(data[i..], buf, bits) == Err(InvalidCharacter)
    ensures Value(data[i]).Some? && bits < 2 ==>
              var all := buf * 64 + Value(data[i]).value;
              Pending(all, bits + 6) && Bits(data[i..], buf, bits) == Bits(data[i + 1..], all, bits + 6)
    ensures Value(data[i]).Some? && bits >= 2 ==>
              var all := buf * 64 + Value(data[i]).value;
              Full(all, bits - 2)
              && Bits(data[i..], buf, bits)
                 == After([High(all, bits - 2)], Bits(data[i + 1..], Low(all, bits - 2), bits - 2))
  {
    hide Value, High, Low;
    DropTwice(data, i, 1);
    if Value(data[i]).Some? {
      Shifted(buf, bits, Value(data[i]).value);
    }
  }

  /** The decoding loop. */
  method DecodeData(data: bytes) returns (r: Result<bytes, Base64Error>)
    ensures r == Bits(data, 0, 0)
  {
    hide Bits, High, Low, Value;
    var result: bytes := [];
    var buf: nat := 0;
    var bits: nat := 0;
    var i := 0;
    assert data[0..] == data;
    EmptyAfter(Bits(data, 0, 0));
    while i < |data|
      invariant i <= |data| && Pending(buf, bits)
      invariant After(result, Bits(data[i..], buf, bits)) == Bits(data, 0, 0)
    {
      BitsAt(data, i, buf, bits);
      var val := Value(data[i]);
      if val.None? {
        return Err(InvalidCharacter);
      }
      buf := buf * 64 + val.value;
      bits := bits + 6;
      if bits >= 8 {
        bits := bits - 8;
        var complete := High(buf, bits);
        buf := Low(buf, bits);
        AfterTwice(result, [complete], Bits(data[i + 1..], buf, bits));
        result := result + [complete];
      }
      i := i + 1;
    }
    assert data[i..] == [];
    BitsOfNothing(buf, bits);
    EmptyConcat(result);
    r := if buf != 0 then Err(InvalidPadding) else Ok(result);
  }

  lemma EmptyAfter(r: Result<bytes, Base64Error>)
    ensures After([], r) == r
  {
    if r.Ok? {
      EmptyConcat(r.value);
    }
  }

  lemma BitsOfNothing(buf: nat, bits: nat)
    requires Pending(buf, bits)
    ensures Bits([], buf, bits) == if buf == 0 then Ok([]) else Err(InvalidPadding)
  {
  }

  /** `decode`. */
  method DecodeBytes(input: bytes) returns (r: Result<bytes, Base64Error>)
    ensures r == Decode(input)
  {
    hide Strip, Bits, PadCount;
    r := StripWhitespace(input);
    if r.Err? || r.value == [] {
      return;
    }
    var normalized := r.value;
    var pad := CountPadding(normalized);
    if pad > 2 {
      return Err(InvalidPadding);
    }
    if |normalized| % 4 != 0 {
      return Err(InvalidPadding);
    }
    var data := normalized[..|normalized| - pad];
    if !Consistent(pad, |data| % 4) {
      return Err(InvalidPadding);
    }
    r := DecodeData(data);
  }

  // ---- Each is the inverse of the other ----

  /** The characters of the encoding without the padding. */
  function Letters(s: bytes): bytes
    decreases |s|
  {
    if s == [] then [] else if |s| < 3 then Block(s)[..|s| + 1] else Block(s) + Letters(s[3..])
  }

  /** How much padding goes with so many bytes. */
  function Padding(n: nat): bytes {
    if n % 3 == 1 then [PAD, PAD] else if n % 3 == 2 then [PAD] else []
  }

  lemma {:induction false} EncodeIsLettersAndPadding(s: bytes)
    ensures Encode(s) == Letters(s) + Padding(|s|)
    decreases |s|
  {
    hide Block;
    if |s| >= 3 {
      EncodeIsLettersAndPadding(s[3..]);
      ConcatAssociative(Block(s), Letters(s[3..]), Padding(|s|));
    } else if |s| > 0 {
      ShortBlock(s);
    }
  }

  lemma ShortBlock(s: bytes)
    requires 0 < |s| < 3
    ensures Block(s) == Block(s)[..|s| + 1] + Padding(|s|)
  {
    hide Letter;
  }

  lemma {:induction false} LettersAreLetters(s: bytes)
    ensures All(Letters(s), IsLetter)
    ensures Consistent(|Padding(|s|)|, |Letters(s)| % 4) && (|Letters(s)| + |Padding(|s|)|) % 4 == 0
    decreases |s|
  {
    hide Block, Letter, Value;
    if |s| >= 3 {
      BlockLetters(s);
      LettersAreLetters(s[3..]);
    } else if |s| > 0 {
      BlockLetters(s);
    }
  }

  lemma BlockLetters(s: bytes)
    requires s != []
    ensures forall k :: 0 <= k < 4 && k <= |s| ==> IsLetter(Block(s)[k])
  {
    hide Letter, Value;
    forall v: nat | v < 64
      ensures Value(Letter(v)) == Some(v)
    {
      LetterValue(v);
    }
  }

  /** The two sides of the byte boundary, for each position in a group of four characters. */
  lemma Boundaries(w: nat, x: nat, y: nat, z: nat)
    requires w < 64 && x < 64 && y < 64 && z < 64
    ensures High(w * 64 + x, 4) == 4 * w + x / 16 && Low(w * 64 + x, 4) == x % 16
    ensures High(x % 16 * 64 + y, 2) == x % 16 * 16 + y / 4 && Low(x % 16 * 64 + y, 2) == y % 4
    ensures High(y % 4 * 64 + z, 0) == y % 4 * 64 + z && Low(y % 4 * 64 + z, 0) == 0
  {
    assert w * 64 + x == (4 * w + x / 16) * 16 + x % 16;
    assert x % 16 * 64 + y == (x % 16 * 16 + y / 4) * 4 + y % 4;
  }

  /** Four characters bring the accumulator back to zero and give three bytes. */
  lemma FourCharacters(data: bytes, w: nat, x: nat, y: nat, z: nat)
    requires |data| >= 4 && Value(data[0]) == Some(w) && Value(data[1]) == Some(x)
    requires Value(data[2]) == Some(y) && Value(data[3]) == Some(z)
    ensures 4 * w + x / 16 < 256
    ensures Bits(data, 0, 0)
         == After([4 * w + x / 16, x % 16 * 16 + y / 4, y % 4 * 64 + z], Bits(data[4..], 0, 0))
  {
    hide Bits, Value, After, High, Low;
    assert data[0..] == data;
    Boundaries(w, x, y, z);
    BitsAt(data, 0, 0, 0);
    BitsAt(data, 1, w, 6);
    BitsAt(data, 2, x % 16, 4);
    BitsAt(data, 3, y % 4, 2);
    assert [x % 16 * 16 + y / 4, y % 4 * 64 + z] == [x % 16 * 16 + y / 4] + [y % 4 * 64 + z];
    assert [4 * w + x / 16, x % 16 * 16 + y / 4, y % 4 * 64 + z]
        == [4 * w + x / 16] + [x % 16 * 16 + y / 4, y % 4 * 64 + z];
    AfterTwice([x % 16 * 16 + y / 4], [y % 4 * 64 + z], Bits(data[4..], 0, 0));
    AfterTwice([4 * w + x / 16], [x % 16 * 16 + y / 4, y % 4 * 64 + z], Bits(data[4..], 0, 0));
  }

  /** Two characters give one byte, if no bit is left over. */
  lemma TwoCharacters(data: bytes, w: nat, x: nat)
    requires |data| == 2 && Value(data[0]) == Some(w) && Value(data[1]) == Some(x)
    ensures Bits(data, 0, 0) == if x % 16 == 0 then Ok([4 * w + x / 16]) else Err(InvalidPadding)
  {
    hide Bits, Value, High, Low;
    assert data[0..] == data && data[2..] == [];
    Boundaries(w, x, 0, 0);
    BitsAt(data, 0, 0, 0);
    BitsAt(data, 1, w, 6);
    BitsOfNothing(x % 16, 4);
    EmptyConcat([4 * w + x / 16]);
  }

  /** Three characters give two bytes, if no bit is left over. */
  lemma ThreeCharacters(data: bytes, w: nat, x: nat, y: nat)
    requires |data| == 3 && Value(data[0]) == Some(w) && Value(data[1]) == Some(x) && Value(data[2]) == Some(y)
    ensures Bits(data, 0, 0)
         == if y % 4 == 0 then Ok([4 * w + x / 16, x % 16 * 16 + y / 4]) else Err(InvalidPadding)
  {
    hide Bits, Value, High, Low;
    assert data[0..] == data && data[3..] == [];
    Boundaries(w, x, y, 0);
    BitsAt(data, 0, 0, 0);
    BitsAt(data, 1, w, 6);
    BitsAt(data, 2, x % 16, 4);
    BitsOfNothing(y % 4, 2);
    EmptyConcat([x % 16 * 16 + y / 4]);
    assert [4 * w + x / 16, x % 16 * 16 + y / 4] == [4 * w + x / 16] + [x % 16 * 16 + y / 4];
  }

  /** The four numbers below 64 that spell three bytes. */
  lemma Regroup(b0: byte, b1: byte, b2: byte)
    ensures var n := b0 * 65536 + b1 * 256 + b2;
            && n / 262144 % 64 == b0 / 4 && n / 4096 % 64 == b0 % 4 * 16 + b1 / 16
            && n / 64 % 64 == b1 % 16 * 4 + b2 / 64 && n % 64 == b2 % 64
  {
    var n := b0 * 65536 + b1 * 256 + b2;
    var (q0, r0) := (b0 / 4, b0 % 4);
    var (q1, r1) := (b1 / 16, b1 % 16);
    var (q2, r2) := (b2 / 64, b2 % 64);
    Quotient(n, 262144, q0, r0 * 65536 + b1 * 256 + b2);
    Quotient(n, 4096, q0 * 64 + r0 * 16 + q1, r1 * 256 + b2);
    Quotient(n, 64, (q0 * 64 + r0 * 16 + q1) * 64 + r1 * 4 + q2, r2);
    Quotient(q0 * 64 + r0 * 16 + q1, 64, q0, r0 * 16 + q1);
    Quotient((q0 * 64 + r0 * 16 + q1) * 64 + r1 * 4 + q2, 64, q0 * 64 + r0 * 16 + q1, r1 * 4 + q2);
  }

  lemma Quotient(n: nat, d: nat, q: nat, r: nat)
    requires d > 0 && n == q * d + r && r < d
    ensures n / d == q && n % d == r
  {
    assert (n / d - q) * d == r - n % d by {
      assert n == n / d * d + n % d;
    }
    Product(n / d - q, d);
  }

  lemma Product(k: int, d: nat)
    ensures (k >= 1 ==> k * d >= d) && (k <= -1 ==> k * d + d <= 0)
  {
    if k <= -1 {
      assert (-k - 1) * d >= 0;
    }
  }

  /** Splitting three bytes into four numbers and joining these again. */
  lemma Rejoin(b0: byte, b1: byte, b2: byte)
    ensures var (w, x, y, z) := (b0 / 4, b0 % 4 * 16 + b1 / 16, b1 % 16 * 4 + b2 / 64, b2 % 64);
            4 * w + x / 16 == b0 && x % 16 * 16 + y / 4 == b1 && y % 4 * 64 + z == b2
            && (b1 == 0 ==> x % 16 == 0) && (b2 == 0 ==> y % 4 == 0)
  {
    var (q1, q2) := (b1 / 16, b2 / 64);
    Quotient(b0 % 4 * 16 + q1, 16, b0 % 4, q1);
    Quotient(b1 % 16 * 4 + q2, 4, b1 % 16, q2);
  }

  /** Joining four numbers to three bytes and splitting these again. */
  lemma Resplit(w: nat, x: nat, y: nat, z: nat)
    requires w < 64 && x < 64 && y < 64 && z < 64
    ensures var (b0, b1, b2) := (4 * w + x / 16, x % 16 * 16 + y / 4, y % 4 * 64 + z);
            b0 < 256 && b1 < 256 && b2 < 256
            && b0 / 4 == w && b0 % 4 * 16 + b1 / 16 == x && b1 % 16 * 4 + b2 / 64 == y && b2 % 64 == z
  {
    Quotient(4 * w + x / 16, 4, w, x / 16);
    Quotient(x % 16 * 16 + y / 4, 16, x % 16, y / 4);
    Quotient(y % 4 * 64 + z, 64, y % 4, z);
  }

  /** The block of three bytes, in the numbers its characters stand for. */
  lemma BlockValues(s: bytes)
    requires s != []
    ensures var b1 := if |s| > 1 then s[1] else 0;
            var b2 := if |s| > 2 then s[2] else 0;
            Block(s) == [Letter(s[0] / 4), Letter(s[0] % 4 * 16 + b1 / 16)]
                        + [if |s| > 1 then Letter(b1 % 16 * 4 + b2 / 64) else PAD]
                        + [if |s| > 2 then Letter(b2 % 64) else PAD]
  {
    hide Letter;
    Regroup(s[0], if |s| > 1 then s[1] else 0, if |s| > 2 then s[2] else 0);
  }

  lemma {:induction false} LettersDecode(s: bytes)
    ensures Bits(Letters(s), 0, 0) == Ok(s)
    decreases |s|
  {
    hide Bits, Letter, Value, Block;
    if s == [] {
      BitsOfNothing(0, 0);
    } else {
      var b0 := s[0];
      var b1 := if |s| > 1 then s[1] else 0;
      var b2 := if |s| > 2 then s[2] else 0;
      var (w, x, y, z) := (b0 / 4, b0 % 4 * 16 + b1 / 16, b1 % 16 * 4 + b2 / 64, b2 % 64);
      ValuesOfBlock(s);
      Rejoin(b0, b1, b2);
      var data := Letters(s);
      if |s| >= 3 {
        LettersDecode(s[3..]);
        assert data[4..] == Letters(s[3..]);
        FourCharacters(data, w, x, y, z);
        assert s == [b0, b1, b2] + s[3..];
      } else if |s| == 2 {
        ThreeCharacters(data, w, x, y);
        assert s == [b0, b1];
      } else {
        TwoCharacters(data, w, x);
        assert s == [b0];
      }
    }
  }

  lemma ValuesOfBlock(s: bytes)
    requires s != []
    ensures Value(Block(s)[0]) == Some(s[0] / 4)
    ensures Value(Block(s)[1]) == Some(s[0] % 4 * 16 + (if |s| > 1 then s[1] else 0) / 16)
    ensures |s| > 1 ==> Value(Block(s)[2]) == Some(s[1] % 16 * 4 + (if |s| > 2 then s[2] else 0) / 64)
    ensures |s| > 2 ==> Value(Block(s)[3]) == Some(s[2] % 64)
  {
    hide Letter, Value, Block;
    BlockValues(s);
    LetterValue(s[0] / 4);
    LetterValue(s[0] % 4 * 16 + (if |s| > 1 then s[1] else 0) / 16);
    if |s| > 1 {
      LetterValue(s[1] % 16 * 4 + (if |s| > 2 then s[2] else 0) / 64);
    }
    if |s| > 2 {
      LetterValue(s[2] % 64);
    }
  }

  /** What the accumulator accepts is exactly what the encoder writes. */
  lemma {:induction false} DecodedLetters(data: bytes, s: bytes)
    requires Bits(data, 0, 0) == Ok(s) && |data| % 4 != 1
    ensures Letters(s) == data && Consistent(|Padding(|s|)|, |data| % 4)
    decreases |data|
  {
    hide Bits, Value, Block, Letters, Spells, Padding;
    AcceptedAreLetters(data, 0, 0);
    if data == [] {
      BitsOfNothing(0, 0);
    } else if |data| >= 4 {
      FirstCharacters(data, s);
      DecodedLetters(data[4..], s[3..]);
      BlockOf(data, s);
      assert data == data[..4] + data[4..];
    } else {
      LastCharacters(data, s);
      BlockOf(data, s);
    }
    LettersStep(s);
    PaddingStep(|s|);
  }

  lemma LettersStep(s: bytes)
    ensures Letters(s) == if s == [] then [] else if |s| < 3 then Block(s)[..|s| + 1] else Block(s) + Letters(s[3..])
  {
    hide Block;
  }

  lemma PaddingStep(n: nat)
    ensures n >= 3 ==> Padding(n) == Padding(n - 3)
    ensures n < 3 ==> |Padding(n)| == if n == 0 then 0 else 3 - n
  {
  }

  lemma FirstCharacters(data: bytes, s: bytes)
    requires |data| >= 4 && All(data, IsLetter) && Bits(data, 0, 0) == Ok(s)
    ensures |s| >= 3 && Spells(data, s) && Bits(data[4..], 0, 0) == Ok(s[3..])
  {
    hide Bits, Value;
    var (w, x, y, z) := (Value(data[0]).value, Value(data[1]).value, Value(data[2]).value, Value(data[3]).value);
    FourCharacters(data, w, x, y, z);
    assert Bits(data[4..], 0, 0).Ok? ==> s[3..] == Bits(data[4..], 0, 0).value;
  }

  lemma LastCharacters(data: bytes, s: bytes)
    requires 2 <= |data| <= 3 && All(data, IsLetter) && Bits(data, 0, 0) == Ok(s)
    ensures |s| == |data| - 1 && Spells(data, s)
  {
    hide Bits, Value;
    var (w, x) := (Value(data[0]).value, Value(data[1]).value);
    if |data| == 2 {
      TwoCharacters(data, w, x);
    } else {
      ThreeCharacters(data, w, x, Value(data[2]).value);
    }
  }

  /** The first characters stand for the first bytes, and no bit is lost. */
  predicate Spells(data: bytes, s: bytes)
    requires 2 <= |data| && All(data[..if |data| < 4 then |data| else 4], IsLetter)
    requires |s| >= if |data| < 4 then |data| - 1 else 3
  {
    assert forall k :: 0 <= k < |data| && k < 4 ==> data[k] == data[..if |data| < 4 then |data| else 4][k];
    var (w, x) := (Value(data[0]).value, Value(data[1]).value);
    var y := if |data| > 2 then Value(data[2]).value else 0;
    var z := if |data| > 3 then Value(data[3]).value else 0;
    && s[0] == 4 * w + x / 16
    && (if |data| == 2 then x % 16 == 0 else s[1] == x % 16 * 16 + y / 4)
    && (if |data| <= 3 then y % 4 == 0 else s[2] == y % 4 * 64 + z)
  }

  lemma BlockOf(data: bytes, s: bytes)
    requires 2 <= |data| && All(data, IsLetter)
    requires |s| == |data| - 1 || (|data| >= 4 && |s| >= 3)
    requires Spells(data, s)
    ensures |data| >= 4 ==> Block(s) == data[..4]
    ensures |data| < 4 ==> Block(s)[..|s| + 1] == data
  {
    hide Letter, Value, Block;
    BlockValues(s);
    var (w, x) := (Value(data[0]).value, Value(data[1]).value);
    var y := if |data| > 2 then Value(data[2]).value else 0;
    var z := if |data| > 3 then Value(data[3]).value else 0;
    Resplit(w, x, y, z);
  }

  lemma {:induction false} AcceptedAreLetters(data: bytes, buf: nat, bits: nat)
    requires Pending(buf, bits) && Bits(data, buf, bits).Ok?
    ensures All(data, IsLetter)
    decreases |data|
  {
    hide Bits, Value, High, Low;
    if data != [] {
      assert data[0..] == data;
      BitsAt(data, 0, buf, bits);
      var all := buf * 64 + Value(data[0]).value;
      if bits < 2 {
        AcceptedAreLetters(data[1..], all, bits + 6);
      } else {
        AcceptedAreLetters(data[1..], Low(all, bits - 2), bits - 2);
      }
      HeadSplit(data);
    }
  }

  lemma {:induction false} StripOfPlain(s: bytes)
    requires forall k :: 0 <= k < |s| ==> !IsSpace(s[k])
    ensures Strip(s) == s
    decreases |s|
  {
    if s != [] {
      StripOfPlain(s[1..]);
      HeadSplit(s);
    }
  }

  lemma {:induction false} StripTwice(s: bytes)
    ensures Strip(Strip(s)) == Strip(s)
    decreases |s|
  {
    if s != [] {
      StripTwice(s[1..]);
      if !IsSpace(s[0]) {
        assert Strip(s)[1..] == Strip(s[1..]);
      }
    }
  }

  /** An encoding is plain ASCII, and its padding is where the decoder looks for it. */
  lemma EncodingShape(s: bytes)
    ensures var e := Encode(s);
            && Strip(e) == e && All(e, IsAscii) && |e| % 4 == 0
            && PadCount(e) == |Padding(|s|)| && Consistent(PadCount(e), (|e| - PadCount(e)) % 4)
            && e[..|e| - PadCount(e)] == Letters(s)
            && (e == [] <==> s == [])
  {
    hide Encode, Block, Strip, Value, Letters;
    EncodeIsLettersAndPadding(s);
    LettersAreLetters(s);
    var e, l := Encode(s), Letters(s);
    assert forall k :: 0 <= k < |l| ==> e[k] == l[k];
    forall k | 0 <= k < |e|
      ensures !IsSpace(e[k]) && IsAscii(e[k]) && (k < |l| ==> e[k] != PAD)
    {
      if k < |l| {
        LetterValue(Value(l[k]).value);
      }
    }
    StripOfPlain(e);
    PadCountOf(l, Padding(|s|));
    LettersOfNothing(s);
  }

  lemma PadCountOf(l: bytes, p: bytes)
    requires PAD !in l && All(p, b => b == PAD)
    ensures PadCount(l + p) == |p| && (l + p)[..|l|] == l
  {
    hide PadCount;
    var e, n := l + p, PadCount(l + p);
    assert e[..|l|] == l && e[|l|..] == p;
    assert forall k :: |l| <= k < |e| ==> e[k] == e[|l|..][k - |l|];
    assert l != [] ==> e[|l| - 1] == l[|l| - 1];
  }

  lemma EncodeNothing(s: bytes)
    requires s == []
    ensures Encode(s) == []
  {
  }

  lemma LettersOfNothing(s: bytes)
    ensures Letters(s) == [] <==> s == []
  {
  }

  /** The decoder accepts the encodings, white space aside, and nothing else, and gives back what
      was encoded: base64 is a bijection onto canonical text. */
  lemma DecodesExactlyTheEncodings(input: bytes, s: bytes)
    ensures Decode(input) == Ok(s) <==> Strip(input) == Encode(s)
  {
    hide Encode, Bits, Strip, PadCount, Letters;
    var e := Strip(input);
    if e == Encode(s) {
      EncodingShape(s);
      if e != [] {
        LettersDecode(s);
      }
    }
    if Decode(input) == Ok(s) && e != [] {
      var pad := PadCount(e);
      var data := e[..|e| - pad];
      DecodedLetters(data, s);
      EncodeIsLettersAndPadding(s);
      assert e == data + e[|e| - pad..];
    } else if Decode(input) == Ok(s) {
      EncodeNothing(s);
    }
  }

  /** Decoding undoes encoding. */
  lemma RoundTrip(s: bytes)
    ensures Decode(Encode(s)) == Ok(s)
  {
    hide Encode, Strip, Decode;
    EncodingShape(s);
    DecodesExactlyTheEncodings(Encode(s), s);
  }

  /** Two texts that decode to the same bytes are the same text, up to white space. */
  lemma DecodeIsInjective(x: bytes, y: bytes)
    requires Decode(x).Ok? && Decode(x) == Decode(y)
    ensures Strip(x) == Strip(y)
  {
    hide Encode, Decode, Strip;
    DecodesExactlyTheEncodings(x, Decode(x).value);
    DecodesExactlyTheEncodings(y, Decode(y).value);
  }
}
