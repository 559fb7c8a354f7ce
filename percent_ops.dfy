/** The path-component codec of the file URL library: percent-encoding of one
    path component's raw bytes (section 2.1 of RFC 3986) against a fixed set of
    reserved bytes, and the lenient percent-decoding that reverses it.

    Text is modelled by its bytes: a Rust `&str` or `String` is the sequence of
    its UTF-8 bytes, and the encoder's output is ASCII. */
module PercentOps {

  type Byte = b: int | 0 <= b < 256

  const PERCENT: Byte := 0x25
  const SLASH: Byte := 0x2F
  const SPACE: Byte := 0x20
  const BACKSLASH: Byte := 0x5C

  /** The bytes of an ASCII string literal (used for constants and examples). */
  function Ascii(s: string): (r: seq<Byte>)
    requires forall i :: 0 <= i < |s| ==> s[i] < 128 as char
    ensures |r| == |s|
  {
    seq(|s|, i requires 0 <= i < |s| => s[i] as Byte)
  }

  // ---------------------------------------------------------------------
  // The reserved byte set
  // ---------------------------------------------------------------------

  /** The `CONTROLS` set of the percent-encoding crate: C0 controls and DEL. */
  predicate IsControl(b: Byte) {
    b < 0x20 || b == 0x7F
  }

  /** The 24 ASCII characters added to `CONTROLS`: the reserved characters of
      section 2.2 of RFC 3986 without ':', which is kept for Windows drive
      designators, plus space and the characters that are unsafe in a path. */
  const ADDED_CHARACTERS: set<Byte> := {
    '/' as Byte, ' ' as Byte, '#' as Byte, '$' as Byte, '&' as Byte, '+' as Byte,
    ',' as Byte, ';' as Byte, '=' as Byte, '?' as Byte, '@' as Byte, '[' as Byte,
    ']' as Byte, '{' as Byte, '}' as Byte, '`' as Byte, '<' as Byte, '>' as Byte,
    '^' as Byte, '!' as Byte, '\'' as Byte, '(' as Byte, ')' as Byte, '*' as Byte
  }

  /** `FILE_URL_BYTES`: the process-wide constant set of ASCII bytes that are
      always escaped in a path component. */
  const FILE_URL_BYTES: set<Byte> := (set b: Byte | IsControl(b)) + ADDED_CHARACTERS

  /** The encoder's rule: a byte is escaped when it is not ASCII or when it is
      in the reserved set. */
  predicate ShouldEncode(b: Byte) {
    b >= 0x80 || b in FILE_URL_BYTES
  }

  /** Reference description of the bytes that pass through unescaped: letters,
      digits, the unreserved marks `-._~`, and also ':', '%', '\', '"' and '|'. */
  predicate IsPassthrough(b: Byte) {
    || ('0' as Byte <= b <= '9' as Byte)
    || ('A' as Byte <= b <= 'Z' as Byte)
    || ('a' as Byte <= b <= 'z' as Byte)
    || b == '-' as Byte || b == '.' as Byte || b == '_' as Byte || b == '~' as Byte
    || b == ':' as Byte || b == '%' as Byte || b == '\\' as Byte || b == '"' as Byte || b == '|' as Byte
  }

  /** Printable ASCII: from '!' to '~', space excluded. */
  predicate IsPrintable(b: Byte) {
    0x21 <= b <= 0x7E
  }

  /** The reserved set and the passthrough list are exact complements. */
  lemma PassthroughIsComplement(b: Byte)
    ensures !ShouldEncode(b) <==> IsPassthrough(b)
  {
  }

  // ---------------------------------------------------------------------
  // Hexadecimal digits
  // ---------------------------------------------------------------------

  predicate IsHexDigit(c: Byte) {
    ('0' as Byte <= c <= '9' as Byte) || ('A' as Byte <= c <= 'F' as Byte) || ('a' as Byte <= c <= 'f' as Byte)
  }

  predicate IsUpperHexDigit(c: Byte) {
    ('0' as Byte <= c <= '9' as Byte) || ('A' as Byte <= c <= 'F' as Byte)
  }

  /** The value of a hexadecimal digit of either case. */
  function HexValue(c: Byte): (v: nat)
    requires IsHexDigit(c)
    ensures v < 16
  {
    if c <= '9' as Byte then c - '0' as Byte
    else if c <= 'F' as Byte then c - 'A' as Byte + 10
    else c - 'a' as Byte + 10
  }

  /** The uppercase hexadecimal digit of a value below 16. */
  function HexDigit(n: nat): (c: Byte)
    requires n < 16
    ensures IsUpperHexDigit(c) && HexValue(c) == n
  {
    if n < 10 then '0' as Byte + n else 'A' as Byte + (n - 10)
  }

  // ---------------------------------------------------------------------
  // Encoding
  // ---------------------------------------------------------------------

  /** What one input byte becomes: `%XX` with uppercase hex, or itself. */
  function EncodeByte(b: Byte): (r: seq<Byte>)
    ensures ShouldEncode(b) ==>
              |r| == 3 && r[0] == PERCENT && IsUpperHexDigit(r[1]) && IsUpperHexDigit(r[2])
              && 16 * HexValue(r[1]) + HexValue(r[2]) == b
    ensures !ShouldEncode(b) ==> r == [b]
  {
    if ShouldEncode(b) then [PERCENT, HexDigit(b / 16), HexDigit(b % 16)] else [b]
  }

  /** `encode_path_component`: `percent_encode` of the component's bytes with
      `FILE_URL_BYTES`, collected into one string. The result is printable
      ASCII with no byte left that the encoder would escape, so in particular
      no '/' and no space. */
  function EncodePathComponent(c: seq<Byte>): (r: seq<Byte>)
    ensures forall i :: 0 <= i < |r| ==> IsPrintable(r[i]) && !ShouldEncode(r[i])
    ensures forall i :: 0 <= i < |r| ==> r[i] != SLASH && r[i] != SPACE
    ensures |c| <= |r| <= 3 * |c|
  {
    if c == [] then []
    else
      EncodeByteOutput(c[0]);
      EncodeByte(c[0]) + EncodePathComponent(c[1..])
  }

  /** Every byte that `EncodeByte` produces is a passthrough byte, and so
      printable, never escaped, and neither '/' nor space. */
  lemma EncodeByteOutput(b: Byte)
    ensures forall i :: 0 <= i < |EncodeByte(b)| ==>
              IsPrintable(EncodeByte(b)[i]) && !ShouldEncode(EncodeByte(b)[i])
              && EncodeByte(b)[i] != SLASH && EncodeByte(b)[i] != SPACE
  {
    var r := EncodeByte(b);
    forall i | 0 <= i < |r|
      ensures IsPassthrough(r[i])
    {
      if !ShouldEncode(b) {
        PassthroughIsComplement(b);
      }
    }
    forall i | 0 <= i < |r|
      ensures !ShouldEncode(r[i])
    {
      PassthroughIsComplement(r[i]);
    }
  }

  /** The number of bytes of `c` that the encoder escapes. */
  function EscapedCount(c: seq<Byte>): (n: nat)
    ensures n <= |c|
  {
    if c == [] then 0 else (if ShouldEncode(c[0]) then 1 else 0) + EscapedCount(c[1..])
  }

  /** A single escaped byte becomes `%` and the two uppercase hex digits of
      its value. */
  lemma EncodeEscapedByte(b: Byte)
    requires ShouldEncode(b)
    ensures var r := EncodePathComponent([b]);
            |r| == 3 && r[0] == PERCENT && IsUpperHexDigit(r[1]) && IsUpperHexDigit(r[2])
            && 16 * HexValue(r[1]) + HexValue(r[2]) == b
  {
    assert EncodePathComponent([b]) == EncodeByte(b) + EncodePathComponent([]);
  }

  /** A byte that is not escaped is copied through unchanged. */
  lemma EncodePassthroughByte(b: Byte)
    requires IsPassthrough(b)
    ensures EncodePathComponent([b]) == [b]
  {
    PassthroughIsComplement(b);
    assert EncodePathComponent([b]) == EncodeByte(b) + EncodePathComponent([]);
  }

  /** Encoding works byte by byte, so it distributes over concatenation. */
  lemma {:induction false} EncodeAppend(a: seq<Byte>, b: seq<Byte>)
    ensures EncodePathComponent(a + b) == EncodePathComponent(a) + EncodePathComponent(b)
  {
    if a == [] {
      assert a + b == b;
    } else {
      assert (a + b)[1..] == a[1..] + b;
      EncodeAppend(a[1..], b);
    }
  }

  /** Each escaped byte adds two bytes to the output. */
  lemma {:induction false} EncodeLength(c: seq<Byte>)
    ensures |EncodePathComponent(c)| == |c| + 2 * EscapedCount(c)
  {
    if c != [] {
      EncodeLength(c[1..]);
    }
  }

  /** Encoding leaves a component unchanged exactly when none of its bytes is
      escaped. */
  lemma EncodeIdentity(c: seq<Byte>)
    ensures EncodePathComponent(c) == c <==> forall i :: 0 <= i < |c| ==> !ShouldEncode(c[i])
  {
    EncodeLength(c);
    if forall i :: 0 <= i < |c| ==> !ShouldEncode(c[i]) {
      EncodeUnescaped(c);
    } else {
      var i :| 0 <= i < |c| && ShouldEncode(c[i]);
      EscapedCountPositive(c, i);
    }
  }

  lemma {:induction false} EncodeUnescaped(c: seq<Byte>)
    requires forall i :: 0 <= i < |c| ==> !ShouldEncode(c[i])
    ensures EncodePathComponent(c) == c
  {
    if c != [] {
      EncodeUnescaped(c[1..]);
    }
  }

  /** A component made of passthrough bytes only is its own encoding. */
  lemma EncodePassthrough(c: seq<Byte>)
    requires forall i :: 0 <= i < |c| ==> IsPassthrough(c[i])
    ensures EncodePathComponent(c) == c
  {
    forall i | 0 <= i < |c|
      ensures !ShouldEncode(c[i])
    {
      PassthroughIsComplement(c[i]);
    }
    EncodeUnescaped(c);
  }

  lemma {:induction false} EscapedCountPositive(c: seq<Byte>, i: nat)
    requires i < |c| && ShouldEncode(c[i])
    ensures EscapedCount(c) > 0
  {
    if i > 0 {
      EscapedCountPositive(c[1..], i - 1);
    }
  }

  /** Encoded text is never encoded again: the encoder leaves its own output,
      '%' included, as it is. */
  lemma EncodeIdempotent(c: seq<Byte>)
    ensures EncodePathComponent(EncodePathComponent(c)) == EncodePathComponent(c)
  {
    EncodeUnescaped(EncodePathComponent(c));
  }

  // ---------------------------------------------------------------------
  // Decoding
  // ---------------------------------------------------------------------

  /** `percent_decode_str`, collected: `%` followed by two hex digits of
      either case becomes the byte they denote; any other byte, including a
      `%` not followed by two hex digits, is copied through. Never fails. */
  function PercentDecode(s: seq<Byte>): (r: seq<Byte>)
    ensures |r| <= |s|
    ensures s != [] ==> |r| > 0
  {
    if s == [] then []
    else if s[0] == PERCENT && |s| >= 3 && IsHexDigit(s[1]) && IsHexDigit(s[2]) then
      [16 * HexValue(s[1]) + HexValue(s[2])] + PercentDecode(s[3..])
    else
      [s[0]] + PercentDecode(s[1..])
  }

  /** One step of decoding: `%` and two hex digits of either case become the
      byte they denote. */
  lemma DecodeEscape(x: Byte, y: Byte, s: seq<Byte>)
    requires IsHexDigit(x) && IsHexDigit(y)
    ensures PercentDecode([PERCENT, x, y] + s) == [16 * HexValue(x) + HexValue(y)] + PercentDecode(s)
  {
    assert ([PERCENT, x, y] + s)[3..] == s;
  }

  /** One step of decoding: a `%` that is not followed by two hex digits,
      at the end of the input included, is copied as it is. */
  lemma DecodeLonePercent(s: seq<Byte>)
    requires !(|s| >= 2 && IsHexDigit(s[0]) && IsHexDigit(s[1]))
    ensures PercentDecode([PERCENT] + s) == [PERCENT] + PercentDecode(s)
  {
    var t := [PERCENT] + s;
    assert t[1..] == s;
    assert |t| >= 3 ==> t[1] == s[0] && t[2] == s[1];
  }

  /** One step of decoding: any byte other than `%` is copied. */
  lemma DecodeOtherByte(b: Byte, s: seq<Byte>)
    requires b != PERCENT
    ensures PercentDecode([b] + s) == [b] + PercentDecode(s)
  {
    assert ([b] + s)[1..] == s;
  }

  /** A lower-case escape decodes too: `%3e` is `>`. */
  lemma LowerCaseEscapeDecodes()
    ensures PercentDecode(Ascii("%3e")) == ['>' as Byte]
  {
    var s := Ascii("%3e");
    assert s == [PERCENT, '3' as Byte, 'e' as Byte] + [];
    DecodeEscape('3' as Byte, 'e' as Byte, []);
  }

  /** Malformed escapes are copied literally: `%4`, a trailing `%` and `%zz`
      come back unchanged. */
  lemma MalformedEscapesCopied()
    ensures PercentDecode(Ascii("%4")) == Ascii("%4")
    ensures PercentDecode(Ascii("%")) == Ascii("%")
    ensures PercentDecode(Ascii("%zz")) == Ascii("%zz")
  {
    var four, zz := Ascii("%4"), Ascii("%zz");
    assert four == [PERCENT] + ['4' as Byte];
    DecodeLonePercent(['4' as Byte]);
    DecodeNoPercent(['4' as Byte]);
    DecodeLonePercent([]);
    assert zz == [PERCENT] + ['z' as Byte, 'z' as Byte];
    DecodeLonePercent(['z' as Byte, 'z' as Byte]);
    DecodeNoPercent(['z' as Byte, 'z' as Byte]);
  }

  /** The owned buffer that `decode_path_component` returns. */
  datatype DecodeResult = DecodeResult(buff: seq<Byte>) {
    /** `to_vec`: the decoded raw bytes. */
    function ToVec(): seq<Byte> {
      buff
    }
  }

  /** `decode_path_component`: the lenient decoding of one URL piece into a raw
      byte buffer. It never promises more bytes than its input, and input
      without '%' comes back as its own bytes. */
  function DecodePathComponent(c: seq<Byte>): (r: DecodeResult)
    ensures |r.ToVec()| <= |c|
    ensures (forall i :: 0 <= i < |c| ==> c[i] != PERCENT) ==> r.ToVec() == c
  {
    DecodeNoPercent(c);
    DecodeResult(PercentDecode(c))
  }

  /** Input without '%' decodes to itself. */
  lemma {:induction false} DecodeNoPercent(s: seq<Byte>)
    ensures (forall i :: 0 <= i < |s| ==> s[i] != PERCENT) ==> PercentDecode(s) == s
  {
    if s != [] && forall i :: 0 <= i < |s| ==> s[i] != PERCENT {
      DecodeNoPercent(s[1..]);
    }
  }

  /** The decoder reads back one encoded byte other than '%'. */
  lemma DecodeEncodedByte(b: Byte, rest: seq<Byte>)
    requires b != PERCENT
    ensures PercentDecode(EncodeByte(b) + rest) == [b] + PercentDecode(rest)
  {
    var e := EncodeByte(b) + rest;
    if ShouldEncode(b) {
      assert e[3..] == rest;
    } else {
      assert e[1..] == rest;
    }
  }

  /** Round trip: decoding the encoding of a component gives back its bytes,
      provided the component has no '%' byte (which the encoder leaves as it
      is and the decoder may read as the start of an escape). */
  lemma {:induction false} DecodeEncode(c: seq<Byte>)
    requires forall i :: 0 <= i < |c| ==> c[i] != PERCENT
    ensures DecodePathComponent(EncodePathComponent(c)).ToVec() == c
  {
    if c != [] {
      DecodeEncode(c[1..]);
      DecodeEncodedByte(c[0], EncodePathComponent(c[1..]));
      assert [c[0]] + c[1..] == c;
    }
  }

  /** Why the round trip needs its condition: the literal text `%41` encodes
      to itself and then decodes to `A`. */
  lemma PercentBreaksRoundTrip()
    ensures EncodePathComponent(Ascii("%41")) == Ascii("%41")
    ensures DecodePathComponent(EncodePathComponent(Ascii("%41"))).ToVec() == Ascii("A")
  {
    var s := Ascii("%41");
    EncodeUnescaped(s);
    assert s[3..] == [];
  }
}
