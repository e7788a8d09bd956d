/** ECMAScript `encodeURIComponent`, the percent-encoding of section 2.1 of
    RFC 3986 applied to every character outside the unreserved marks, and the
    matching `decodeURIComponent`, used here only to state that the encoding
    loses nothing.

    A Dafny `char` is a Unicode scalar value, so a string here is a
    well-formed UTF-16 string in ECMAScript terms: the lone surrogates for
    which `encodeURIComponent` throws a `URIError` cannot occur. */
module UriComponent {
  import opened Wrappers

  type Byte = x: int | 0 <= x < 256

  /** The characters `encodeURIComponent` leaves as they are: ASCII letters,
      decimal digits and the marks `- _ . ! ~ * ' ( )`. */
  predicate IsUnreserved(c: char)
  {
    || ('A' <= c <= 'Z') || ('a' <= c <= 'z') || ('0' <= c <= '9')
    || c == '-' || c == '_' || c == '.' || c == '!' || c == '~'
    || c == '*' || c == '\'' || c == '(' || c == ')'
  }

  predicate IsHex(c: char)
  {
    ('0' <= c <= '9') || ('A' <= c <= 'F') || ('a' <= c <= 'f')
  }

  /** The upper-case hexadecimal digit for `d`. */
  function HexDigit(d: nat): (c: char)
    requires d < 16
    ensures IsHex(c) && IsUnreserved(c)
  {
    if d < 10 then ('0' as int + d) as char else ('A' as int + d - 10) as char
  }

  /** The value of a hexadecimal digit of either case. */
  function HexValue(c: char): (d: nat)
    requires IsHex(c)
    ensures d < 16
  {
    if '0' <= c <= '9' then c as int - '0' as int
    else if 'A' <= c <= 'F' then c as int - 'A' as int + 10
    else c as int - 'a' as int + 10
  }

  // ---------------------------------------------------------------------------
  // encoding
  // ---------------------------------------------------------------------------

  /** The UTF-8 encoding of one Unicode scalar value. */
  function Utf8(c: char): (bytes: seq<Byte>)
    ensures 1 <= |bytes| <= 4
  {
    var cp := c as int;
    if cp < 0x80 then [cp]
    else if cp < 0x800 then [0xC0 + cp / 64, 0x80 + cp % 64]
    else if cp < 0x1_0000 then [0xE0 + cp / 4096, 0x80 + (cp / 64) % 64, 0x80 + cp % 64]
    else [0xF0 + cp / 262144, 0x80 + (cp / 4096) % 64, 0x80 + (cp / 64) % 64, 0x80 + cp % 64]
  }

  /** Character `j` of the escape `%XY` of byte `b`. */
  function EscapeChar(b: Byte, j: nat): char
    requires j < 3
  {
    if j == 0 then '%' else if j == 1 then HexDigit(b / 16) else HexDigit(b % 16)
  }

  /** Every byte written as `%` and two upper-case hexadecimal digits. */
  function PercentEscapes(bytes: seq<Byte>): (r: string)
    ensures |r| == 3 * |bytes|
  {
    seq(3 * |bytes|, i requires 0 <= i < 3 * |bytes| => EscapeChar(bytes[i / 3], i % 3))
  }

  /** One character of `encodeURIComponent`'s output. */
  function EncodeChar(c: char): string
  {
    if IsUnreserved(c) then [c] else PercentEscapes(Utf8(c))
  }

  /** `encodeURIComponent(s)`. Its output is built from unreserved characters
      and `%` only (so it never holds the delimiters of a query string, see
      `EncodedHasNoDelimiters`), and a string that is already safe is left
      unchanged. */
  function EncodeURIComponent(s: string): (r: string)
    ensures forall i :: 0 <= i < |r| ==> IsUnreserved(r[i]) || r[i] == '%'
    ensures (forall i :: 0 <= i < |s| ==> IsUnreserved(s[i])) ==> r == s
    decreases |s|
  {
    if |s| == 0 then ""
    else
      EncodeCharSafe(s[0]);
      var r := EncodeChar(s[0]) + EncodeURIComponent(s[1..]);
      assert forall i :: 0 <= i < |r| ==> IsUnreserved(r[i]) || r[i] == '%';
      r
  }

  /** An encoded component never holds the `&`, `=`, `?` or `#` that delimit
      a query string. */
  lemma EncodedHasNoDelimiters(s: string)
    ensures var r := EncodeURIComponent(s);
            '&' !in r && '=' !in r && '?' !in r && '#' !in r
  {
    var r := EncodeURIComponent(s);
    forall i | 0 <= i < |r|
      ensures r[i] != '&' && r[i] != '=' && r[i] != '?' && r[i] != '#'
    {
      assert IsUnreserved(r[i]) || r[i] == '%';
    }
  }

  /** The encoding of one character is unreserved characters and `%` only. */
  lemma EncodeCharSafe(c: char)
    ensures var e := EncodeChar(c);
            forall i :: 0 <= i < |e| ==> IsUnreserved(e[i]) || e[i] == '%'
  {
    if !IsUnreserved(c) {
      var e := PercentEscapes(Utf8(c));
      forall i | 0 <= i < |e|
        ensures IsUnreserved(e[i]) || e[i] == '%'
      {
        assert e[i] == EscapeChar(Utf8(c)[i / 3], i % 3);
      }
    }
  }

  /** A reserved ASCII character is written as `%` followed by the two
      upper-case hexadecimal digits of its code. */
  lemma AsciiEscape(c: char)
    requires c as int < 0x80 && !IsUnreserved(c)
    ensures EncodeChar(c) == ['%', HexDigit(c as int / 16), HexDigit(c as int % 16)]
  {
    var e := EncodeChar(c);
    assert Utf8(c) == [c as int];
    assert e[0] == '%' && e[1] == HexDigit(c as int / 16) && e[2] == HexDigit(c as int % 16);
  }

  /** The encoding of a string is the encoding of its first character
      followed by the encoding of the rest. */
  lemma EncodeCons(c: char, rest: string)
    ensures EncodeURIComponent([c] + rest) == EncodeChar(c) + EncodeURIComponent(rest)
  {
    assert ([c] + rest)[0] == c && ([c] + rest)[1..] == rest;
  }

  // ---------------------------------------------------------------------------
  // decoding
  // ---------------------------------------------------------------------------

  /** The byte written by the escape that starts at position `3 * k` of `s`. */
  function EscapedByte(s: string, k: nat): Option<Byte>
  {
    if 3 * k + 3 <= |s| && s[3 * k] == '%' && IsHex(s[3 * k + 1]) && IsHex(s[3 * k + 2])
    then Some(HexValue(s[3 * k + 1]) * 16 + HexValue(s[3 * k + 2]))
    else None
  }

  /** The bytes of the first `count` escapes of `s`, if they all are escapes. */
  function EscapedBytes(s: string, count: nat): (r: Option<seq<Byte>>)
    ensures r.Some? ==> |r.value| == count && 3 * count <= |s|
    decreases count
  {
    if count == 0 then Some([])
    else match EscapedBytes(s, count - 1)
      case None => None
      case Some(bs) =>
        match EscapedByte(s, count - 1)
        case None => None
        case Some(b) => Some(bs + [b])
  }

  /** How many bytes a UTF-8 sequence with leading byte `b` has; 0 when `b`
      cannot lead a sequence. */
  function SequenceLength(b: Byte): nat
  {
    if b < 0x80 then 1
    else if 0xC0 <= b < 0xE0 then 2
    else if 0xE0 <= b < 0xF0 then 3
    else if 0xF0 <= b < 0xF8 then 4
    else 0
  }

  predicate IsContinuation(b: Byte)
  {
    0x80 <= b < 0xC0
  }

  /** The code point the payload bits of a UTF-8 sequence spell out. */
  function CodePoint(bytes: seq<Byte>): int
    requires 1 <= |bytes| <= 4
  {
    var b0: int := bytes[0];
    if |bytes| == 1 then b0
    else
      var b1: int := bytes[1];
      if |bytes| == 2 then (b0 - 0xC0) * 64 + (b1 - 0x80)
      else
        var b2: int := bytes[2];
        if |bytes| == 3 then ((b0 - 0xE0) * 64 + (b1 - 0x80)) * 64 + (b2 - 0x80)
        else
          var b3: int := bytes[3];
          (((b0 - 0xF0) * 64 + (b1 - 0x80)) * 64 + (b2 - 0x80)) * 64 + (b3 - 0x80)
  }

  /** The smallest code point a sequence of `n` bytes may encode: anything
      below it is an overlong form. */
  function MinCodePoint(n: nat): int
  {
    if n <= 1 then 0 else if n == 2 then 0x80 else if n == 3 then 0x800 else 0x1_0000
  }

  /** `bytes` is the UTF-8 encoding of a Unicode scalar value. */
  predicate WellFormedUtf8(bytes: seq<Byte>)
  {
    && 1 <= |bytes| <= 4
    && SequenceLength(bytes[0]) == |bytes|
    && (forall k :: 1 <= k < |bytes| ==> IsContinuation(bytes[k]))
    && MinCodePoint(|bytes|) <= CodePoint(bytes) <= 0x10_FFFF
    && !(0xD800 <= CodePoint(bytes) <= 0xDFFF)
  }

  function Utf8Decode(bytes: seq<Byte>): (r: Option<char>)
    ensures r.Some? <==> WellFormedUtf8(bytes)
  {
    if WellFormedUtf8(bytes) then Some(CodePoint(bytes) as char) else None
  }

  /** The character written by the escapes at the start of `s` and how many
      characters of `s` they take; `None` where `decodeURIComponent` throws a
      `URIError`. */
  function DecodeEscape(s: string): (r: Option<(char, nat)>)
    ensures r.Some? ==> 3 <= r.value.1 <= |s|
  {
    match EscapedByte(s, 0)
    case None => None
    case Some(b0) =>
      var n := SequenceLength(b0);
      if n == 0 then None
      else match EscapedBytes(s, n)
        case None => None
        case Some(bytes) =>
          match Utf8Decode(bytes)
          case None => None
          case Some(c) => Some((c, 3 * n))
  }

  /** `decodeURIComponent(s)`: every escape sequence replaced by the character
      it encodes, every other character kept; `None` for a malformed escape. */
  function PercentDecode(s: string): Option<string>
    decreases |s|
  {
    if |s| == 0 then Some("")
    else if s[0] != '%' then
      match PercentDecode(s[1..])
      case None => None
      case Some(t) => Some([s[0]] + t)
    else
      match DecodeEscape(s)
      case None => None
      case Some(e) =>
        match PercentDecode(s[e.1..])
        case None => None
        case Some(t) => Some([e.0] + t)
  }

  // ---------------------------------------------------------------------------
  // round trip
  // ---------------------------------------------------------------------------

  /** The UTF-8 encoder produces well-formed sequences that decode back to the
      character. */
  lemma Utf8RoundTrip(c: char)
    ensures Utf8Decode(Utf8(c)) == Some(c)
  {
    var cp := c as int;
    if cp < 0x80 {
    } else if cp < 0x800 {
      Utf8TwoBytes(c);
    } else if cp < 0x1_0000 {
      Utf8ThreeBytes(c);
    } else {
      Utf8FourBytes(c);
    }
  }

  lemma Utf8TwoBytes(c: char)
    requires 0x80 <= c as int < 0x800
    ensures Utf8Decode(Utf8(c)) == Some(c)
  {
    var cp := c as int;
    assert CodePoint(Utf8(c)) == (cp / 64) * 64 + cp % 64 == cp;
  }

  lemma Utf8ThreeBytes(c: char)
    requires 0x800 <= c as int < 0x1_0000
    ensures Utf8Decode(Utf8(c)) == Some(c)
  {
    var cp := c as int;
    var a := cp / 64;
    assert a / 64 == cp / 4096;
    assert CodePoint(Utf8(c)) == ((a / 64) * 64 + a % 64) * 64 + cp % 64;
    assert (a / 64) * 64 + a % 64 == a;
  }

  lemma Utf8FourBytes(c: char)
    requires 0x1_0000 <= c as int
    ensures Utf8Decode(Utf8(c)) == Some(c)
  {
    var cp := c as int;
    var a := cp / 64;
    var b := a / 64;
    assert b == cp / 4096;
    assert b / 64 == cp / 262144;
    assert CodePoint(Utf8(c)) == (((b / 64) * 64 + b % 64) * 64 + a % 64) * 64 + cp % 64;
    assert (b / 64) * 64 + b % 64 == b;
    assert b * 64 + a % 64 == a;
  }

  /** Escape `k` of `bytes`, followed by anything, reads back as `bytes[k]`. */
  lemma EscapedByteOf(bytes: seq<Byte>, rest: string, k: nat)
    requires k < |bytes|
    ensures EscapedByte(PercentEscapes(bytes) + rest, k) == Some(bytes[k])
  {
    var e := PercentEscapes(bytes);
    var s := e + rest;
    PercentEscapesAt(bytes, k);
    assert s[3 * k] == e[3 * k] && s[3 * k + 1] == e[3 * k + 1] && s[3 * k + 2] == e[3 * k + 2];
    HexPair(bytes[k]);
  }

  /** The three characters of escape `k` of `bytes`. */
  lemma PercentEscapesAt(bytes: seq<Byte>, k: nat)
    requires k < |bytes|
    ensures var e := PercentEscapes(bytes);
            e[3 * k] == '%' && e[3 * k + 1] == HexDigit(bytes[k] / 16)
            && e[3 * k + 2] == HexDigit(bytes[k] % 16)
  {
    assert (3 * k) / 3 == k && (3 * k) % 3 == 0;
    assert (3 * k + 1) / 3 == k && (3 * k + 1) % 3 == 1;
    assert (3 * k + 2) / 3 == k && (3 * k + 2) % 3 == 2;
  }

  /** The two hexadecimal digits written for a byte read back as that byte. */
  lemma HexPair(b: Byte)
    ensures HexValue(HexDigit(b / 16)) * 16 + HexValue(HexDigit(b % 16)) == b
  {
    HexDigitValue(b / 16);
    HexDigitValue(b % 16);
  }

  lemma HexDigitValue(d: nat)
    requires d < 16
    ensures HexValue(HexDigit(d)) == d
  {
  }

  /** The escapes of `bytes`, followed by anything, read back as `bytes`. */
  lemma {:induction false} EscapedBytesOf(bytes: seq<Byte>, rest: string, count: nat)
    requires count <= |bytes|
    ensures EscapedBytes(PercentEscapes(bytes) + rest, count) == Some(bytes[..count])
    decreases count
  {
    if count > 0 {
      EscapedBytesOf(bytes, rest, count - 1);
      var k := count - 1;
      EscapedByteOf(bytes, rest, k);
      assert bytes[..count] == bytes[..k] + [bytes[k]];
    }
  }

  /** The escapes of a reserved character decode back to that character and
      take exactly the characters the encoder wrote. */
  lemma DecodeEscapeOfEncoded(c: char, rest: string)
    requires !IsUnreserved(c)
    ensures DecodeEscape(EncodeChar(c) + rest) == Some((c, |EncodeChar(c)|))
  {
    var bytes := Utf8(c);
    var s := EncodeChar(c) + rest;
    Utf8RoundTrip(c);
    EscapedBytesOf(bytes, rest, 1);
    EscapedBytesOf(bytes, rest, |bytes|);
    assert bytes[..1] == [bytes[0]];
    assert bytes[..|bytes|] == bytes;
    assert SequenceLength(bytes[0]) == |bytes|;
  }

  /** `decodeURIComponent(encodeURIComponent(s)) == s`: percent-encoding is
      lossless. */
  lemma {:induction false} DecodeEncode(s: string)
    ensures PercentDecode(EncodeURIComponent(s)) == Some(s)
    decreases |s|
  {
    if |s| > 0 {
      var c := s[0];
      var rest := EncodeURIComponent(s[1..]);
      DecodeEncode(s[1..]);
      assert EncodeURIComponent(s) == EncodeChar(c) + rest;
      DecodeCharStep(c, rest, s[1..]);
      assert s == [c] + s[1..];
    }
  }

  /** Decoding the encoding of one character followed by text that decodes
      to `t` gives the character followed by `t`. */
  lemma DecodeCharStep(c: char, rest: string, t: string)
    requires PercentDecode(rest) == Some(t)
    ensures PercentDecode(EncodeChar(c) + rest) == Some([c] + t)
  {
    var e := EncodeChar(c) + rest;
    if IsUnreserved(c) {
      assert e[0] == c && e[1..] == rest;
    } else {
      DecodeEscapeOfEncoded(c, rest);
      assert e[0] == '%';
      assert e[|EncodeChar(c)|..] == rest;
    }
  }
}
