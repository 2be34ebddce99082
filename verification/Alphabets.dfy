/** The characters, names and numbers of the protocols, as the standards print them. */
module Alphabets {
  import opened Scan
  import AuthParams
  import Base64
  import BodyGrammar
  import ChunkWriter
  import DotSegments
  import Encoder
  import Framing
  import MessageGrammar
  import Multipart
  import MultipartBuilder
  import Uri
  import UriNormalize

  /** The text is what is printed. */
  predicate Spells(s: bytes, text: string) {
    |s| == |text| && forall i :: 0 <= i < |s| ==> s[i] as char == text[i]
  }

  predicate Among(b: byte, text: string) { b as char in text }

  const UPPER := "ABCDEFGHIJKLMNOPQRSTUVWXYZ"
  const LOWER := "abcdefghijklmnopqrstuvwxyz"
  const DIGITS := "0123456789"

  lemma LettersAndDigits(b: byte)
    ensures IsAlpha(b) <==> Among(b, UPPER) || Among(b, LOWER)
    ensures IsDigit(b) <==> Among(b, DIGITS)
    ensures IsHexDigit(b) <==> Among(b, DIGITS) || Among(b, "abcdefABCDEF")
  {
    hide Among;
    UpperCase(b);
    LowerCase(b);
    Digits(b);
    HexadecimalLetters(b);
  }

  lemma UpperCase(b: byte)
    ensures Among(b, UPPER) <==> 65 <= b <= 90
  {
  }

  lemma LowerCase(b: byte)
    ensures Among(b, LOWER) <==> 97 <= b <= 122
  {
  }

  lemma Digits(b: byte)
    ensures Among(b, DIGITS) <==> 48 <= b <= 57
  {
  }

  lemma HexadecimalLetters(b: byte)
    ensures Among(b, "abcdefABCDEF") <==> 65 <= b <= 70 || 97 <= b <= 102
  {
  }

  /** tchar of section 5.6.2 of RFC 9110. */
  lemma TokenCharacters(b: byte)
    ensures IsTchar(b) <==> IsAlpha(b) || IsDigit(b) || Among(b, "!#$%&'*+-.^_`|~")
  {
  }

  /** qdtext, quoted-pair and field-vchar of sections 5.5 and 5.6.4 of RFC 9110: no control
      character but HTAB, and in qdtext no quote and no backslash. */
  lemma TextCharacters(b: byte)
    ensures IsQuotedPairChar(b) <==> b == 9 || (b >= 32 && b != 127)
    ensures BodyGrammar.IsFieldVchar(b) <==> b == 9 || (b >= 32 && b != 127)
    ensures IsQdtext(b) <==> IsQuotedPairChar(b) && !Among(b, "\"\\")
    ensures IsBws(b) <==> Among(b, " \t")
    ensures Base64.IsSpace(b) <==> Among(b, " \t\r\n")
    ensures Encoder.IsVisible(b) <==> 32 < b < 127
  {
  }

  /** The characters at which names, elements, codings, sizes and values end. */
  lemma Separators(b: byte)
    ensures BodyGrammar.NotColon(b) <==> !Among(b, ":")
    ensures BodyGrammar.NotSemi(b) <==> !Among(b, ";")
    ensures Framing.NotComma(b) <==> !Among(b, ",")
    ensures MessageGrammar.NotSp(b) <==> !Among(b, " ")
    ensures AuthParams.InToken(b) <==> !Among(b, " \t,")
  {
  }

  /** Sections 2.2, 2.3, 3.1, 3.3 and 3.4 of RFC 3986. */
  lemma UriCharacters(b: byte)
    ensures Uri.IsUnreserved(b) <==> IsAlpha(b) || IsDigit(b) || Among(b, "-._~")
    ensures Uri.IsSubDelim(b) <==> Among(b, "!$&'()*+,;=")
    ensures Uri.IsSchemeChar(b) <==> IsAlpha(b) || IsDigit(b) || Among(b, "+-.")
    ensures Uri.IsPathChar(b) <==> Uri.IsUnreserved(b) || Uri.IsSubDelim(b) || Among(b, ":@/")
    ensures Uri.IsQueryChar(b) <==> Uri.IsUnreserved(b) || Uri.IsSubDelim(b) || Among(b, ":@/?")
    ensures Uri.NotAuthorityEnd(b) <==> !Among(b, "/?#")
    ensures Uri.NotPathEnd(b) <==> !Among(b, "?#")
    ensures Uri.NotHash(b) <==> !Among(b, "#")
    ensures DotSegments.NotSlash(b) <==> !Among(b, "/")
  {
  }

  /** bchars of section 5.1.1 of RFC 2046. */
  lemma BoundaryCharacters(b: byte)
    ensures MultipartBuilder.IsBoundaryChar(b) <==> IsAlpha(b) || IsDigit(b) || Among(b, "'()+_,-./:=? ")
  {
  }

  /** A boundary: one to seventy of these, and no space at the end. */
  lemma Boundaries(b: bytes)
    ensures MultipartBuilder.IsValidBoundary(b) <==>
              && 1 <= |b| <= 70 && b[|b| - 1] as char != ' '
              && forall c <- b :: IsAlpha(c) || IsDigit(c) || Among(c, "'()+_,-./:=? ")
  {
    hide Among, MultipartBuilder.IsBoundaryChar;
    forall c: byte
      ensures MultipartBuilder.IsBoundaryChar(c) <==> IsAlpha(c) || IsDigit(c) || Among(c, "'()+_,-./:=? ")
    {
      BoundaryCharacters(c);
    }
    assert forall i :: 0 <= i < |b| ==> b[i] in b;
  }

  /** The values of hexadecimal digits, and the digits of values. */
  lemma HexadecimalDigits(v: nat)
    requires v < 16
    ensures UriNormalize.UpperHexDigit(v) as char == "0123456789ABCDEF"[v]
    ensures ChunkWriter.HexDigit(v) as char == "0123456789abcdef"[v]
    ensures HexDigitValue(UriNormalize.UpperHexDigit(v)) == v && HexDigitValue(ChunkWriter.HexDigit(v)) == v
  {
  }

  /** Table 1 of RFC 4648. */
  const BASE64_ALPHABET := UPPER + LOWER + DIGITS + "+/"

  lemma Base64Alphabet(v: nat)
    requires v < 64
    ensures |BASE64_ALPHABET| == 64 && Base64.Letter(v) as char == BASE64_ALPHABET[v]
    ensures Base64.Value(Base64.Letter(v)) == Some(v)
  {
    Base64.LetterValue(v);
    Base64Position(v);
    if v < 52 {
      LetterNumbers(v % 26);
    } else if v < 62 {
      DigitNumbers(v - 52);
    }
  }

  lemma Base64Position(v: nat)
    requires v < 64
    ensures |BASE64_ALPHABET| == 64
    ensures BASE64_ALPHABET[v] == if v < 26 then UPPER[v] else if v < 52 then LOWER[v - 26]
                                  else if v < 62 then DIGITS[v - 52] else "+/"[v - 62]
  {
    var letters := UPPER + LOWER;
    assert |UPPER| == 26 && |LOWER| == 26 && |DIGITS| == 10;
    assert v < 52 ==> letters[v] == (if v < 26 then UPPER[v] else LOWER[v - 26]);
    assert v < 62 ==> (letters + DIGITS)[v] == if v < 52 then letters[v] else DIGITS[v - 52];
  }

  lemma DigitNumbers(v: nat)
    requires v < 10
    ensures (48 + v) as char == DIGITS[v]
  {
  }

  lemma LetterNumbers(v: nat)
    requires v < 26
    ensures (65 + v) as char == UPPER[v] && (97 + v) as char == LOWER[v]
  {
  }

  lemma FirstBlock()
    ensures Base64.Block([102, 111, 111, 98, 97, 114]) == [90, 109, 57, 118]
    ensures Base64.Block([102, 111]) == [90, 109, 56, 61] && Base64.Block([102]) == [90, 103, 61, 61]
  {
    assert 102 * 65536 + 111 * 256 + 111 == 6713199;
    assert 102 * 65536 + 111 * 256 == 6713088 && 102 * 65536 == 6684672;
  }

  lemma SecondBlock()
    ensures Base64.Block([98, 97, 114]) == [89, 109, 70, 121]
  {
    assert 98 * 65536 + 97 * 256 + 114 == 6447474;
  }

  /** Section 10 of RFC 4648: "foobar", "fo" and "f" are "Zm9vYmFy", "Zm8=" and "Zg==". */
  lemma Base64Examples()
    ensures Spells(Base64.Encode([102, 111, 111, 98, 97, 114]), "Zm9vYmFy")
    ensures Spells(Base64.Encode([102, 111]), "Zm8=") && Spells(Base64.Encode([102]), "Zg==")
  {
    hide Base64.Block;
    FirstBlock();
    SecondBlock();
    var s, t: bytes := [102, 111, 111, 98, 97, 114], [98, 97, 114];
    assert s[3..] == t && t[3..] == [];
    EmptyConcat(Base64.Block(t));
    assert Base64.Encode(t) == [89, 109, 70, 121];
    assert Base64.Encode(s) == [90, 109, 57, 118, 89, 109, 70, 121];
  }

  /** Letters keep their place in the alphabet when they are put in lower case; nothing else changes. */
  lemma LowerCased(s: bytes, i: nat)
    requires i < |s|
    ensures forall k :: 0 <= k < 26 && s[i] as char == UPPER[k] ==> ToLower(s)[i] as char == LOWER[k]
    ensures !Among(s[i], UPPER) ==> ToLower(s)[i] == s[i]
  {
    hide Among;
    UpperCase(s[i]);
    forall k | 0 <= k < 26 && s[i] as char == UPPER[k]
      ensures ToLower(s)[i] as char == LOWER[k]
    {
      LetterNumbers(k);
    }
  }

  /** Field names in lower case, methods, the version, and the codings. */
  lemma Names()
    ensures Spells(Framing.TRANSFER_ENCODING, "transfer-encoding")
    ensures Spells(Framing.CONTENT_LENGTH, "content-length")
    ensures Spells(Framing.TRAILER, "trailer")
    ensures Spells(Framing.CHUNKED, "chunked")
    ensures Spells(Encoder.CONTENT_LENGTH_NAME, "Content-Length")
    ensures Spells(MessageGrammar.HEAD, "HEAD") && Spells(MessageGrammar.CONNECT, "CONNECT")
    ensures Spells(MessageGrammar.HTTP11, "HTTP/1.1")
  {
  }

  /** Delimiters. */
  lemma Delimiters()
    ensures Spells(CRLF, "\r\n") && Spells(Multipart.DASHES, "--") && Spells(Multipart.BLANK_LINE, "\r\n\r\n")
    ensures Spells(ChunkWriter.LAST_CHUNK, "0\r\n\r\n")
    ensures Spells([SP, HTAB, DQUOTE, BACKSLASH, COMMA, COLON, SEMI, EQUALS], " \t\"\\,:;=")
    ensures Spells([DotSegments.SLASH, DotSegments.DOT], "/.")
    ensures Spells([Uri.QUESTION, Uri.HASH, Uri.PERCENT, Uri.AT_SIGN], "?#%@")
    ensures Spells([Base64.PAD, MessageGrammar.PLUS, UriNormalize.LBRACKET, UriNormalize.RBRACKET], "=+[]")
  {
  }

  /** The greatest `usize` of 64 bits, and the length of the longest list of auth-params. */
  lemma Numbers()
    ensures USIZE_MAX == 18446744073709551615
    ensures AuthParams.MAX_AUTH_PARAMS == 32
  {
  }
}
