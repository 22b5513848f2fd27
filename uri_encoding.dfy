/**
 * `encodeURIComponent`, as the query-string serializer applies it to every
 * parameter value: unreserved characters pass through, every other
 * character becomes the `%XX` escapes (upper-case hexadecimal) of its
 * UTF-8 bytes.  A decoder that behaves as `decodeURIComponent` is defined
 * beside it, and `DecodeEncode` proves that it undoes the encoding.
 *
 * Dafny's `char` is a Unicode scalar value, so the lone surrogates for which
 * JavaScript's `encodeURIComponent` throws a URIError cannot occur here.
 */
module UriEncoding {
  import opened Wrappers

  type Byte = b: int | 0 <= b < 256

  /** The characters `encodeURIComponent` leaves unescaped. */
  predicate IsUnreserved(c: char) {
    ('A' <= c <= 'Z') || ('a' <= c <= 'z') || ('0' <= c <= '9')
    || c == '-' || c == '_' || c == '.' || c == '!' || c == '~'
    || c == '*' || c == '\'' || c == '(' || c == ')'
  }

  predicate IsUpperHex(c: char) {
    ('0' <= c <= '9') || ('A' <= c <= 'F')
  }

  /** A hexadecimal digit of either case, as a `%XX` escape may hold when decoded. */
  predicate IsHex(c: char) {
    IsUpperHex(c) || ('a' <= c <= 'f')
  }

  /** A character that can appear in the output of `EncodeURIComponent`. */
  predicate IsEncoded(c: char) {
    IsUnreserved(c) || c == '%' || IsUpperHex(c)
  }

  /** A code point that Dafny's `char` (a Unicode scalar value) can hold. */
  predicate IsScalar(x: int) {
    (0 <= x < 0xD800) || (0xE000 <= x < 0x11_0000)
  }

  // ---------------------------------------------------------------------
  // UTF-8

  /** The UTF-8 encoding of one scalar value. */
  function Utf8(c: char): (r: seq<Byte>)
    ensures 1 <= |r| <= 4
    ensures |r| == 1 <==> (c as int) < 0x80
    ensures forall k :: 1 <= k < |r| ==> 0x80 <= r[k] < 0xC0
  {
    var n := c as int;
    if n < 0x80 then [n]
    else if n < 0x800 then [0xC0 + n / 64, 0x80 + n % 64]
    else if n < 0x1_0000 then [0xE0 + n / 4096, 0x80 + (n / 64) % 64, 0x80 + n % 64]
    else [0xF0 + n / 262144, 0x80 + (n / 4096) % 64, 0x80 + (n / 64) % 64, 0x80 + n % 64]
  }

  // ---------------------------------------------------------------------
  // Percent escapes

  function HexDigit(d: int): (c: char)
    requires 0 <= d < 16
    ensures IsUpperHex(c)
  {
    if d < 10 then ('0' as int + d) as char else ('A' as int + d - 10) as char
  }

  function HexValue(c: char): (d: int)
    requires IsHex(c)
    ensures 0 <= d < 16
  {
    if c <= '9' then c as int - '0' as int
    else if c <= 'F' then c as int - 'A' as int + 10
    else c as int - 'a' as int + 10
  }

  lemma {:induction false} HexRoundTrip(d: int)
    requires 0 <= d < 16
    ensures HexValue(HexDigit(d)) == d
  {
  }

  /** `%XX` for one byte. */
  function PercentByte(b: Byte): (r: string)
    ensures |r| == 3 && r[0] == '%' && IsUpperHex(r[1]) && IsUpperHex(r[2])
  {
    ['%', HexDigit(b / 16), HexDigit(b % 16)]
  }

  function PercentBytes(bs: seq<Byte>): (r: string)
    ensures |r| == 3 * |bs|
    ensures forall k :: 0 <= k < |r| ==> r[k] == '%' || IsUpperHex(r[k])
  {
    if |bs| == 0 then [] else PercentByte(bs[0]) + PercentBytes(bs[1..])
  }

  // ---------------------------------------------------------------------
  // encodeURIComponent

  function EncodeChar(c: char): (r: string)
    ensures |r| > 0
    ensures forall k :: 0 <= k < |r| ==> IsEncoded(r[k])
    ensures IsUnreserved(c) <==> r == [c]
    ensures !IsUnreserved(c) ==> |r| % 3 == 0 && forall k :: 0 <= k < |r| ==> r[k] == '%' || IsUpperHex(r[k])
  {
    if IsUnreserved(c) then [c] else PercentBytes(Utf8(c))
  }

  /** `encodeURIComponent(s)`. */
  function EncodeURIComponent(s: string): (r: string)
    ensures |r| >= |s|
    ensures forall k :: 0 <= k < |r| ==> IsEncoded(r[k])
  {
    if |s| == 0 then [] else EncodeChar(s[0]) + EncodeURIComponent(s[1..])
  }

  // ---------------------------------------------------------------------
  // The decoder

  /** One `%XX` escape at the front of `t`, in either case, and what follows it. */
  function ReadByte(t: string): (r: Option<(Byte, string)>)
    ensures r.Some? ==> |r.value.1| == |t| - 3
  {
    if |t| >= 3 && t[0] == '%' && IsHex(t[1]) && IsHex(t[2])
    then Some((HexValue(t[1]) * 16 + HexValue(t[2]), t[3..]))
    else None
  }

  /** `count` UTF-8 continuation bytes, folded into the code point `acc`. */
  function ReadContinuation(t: string, count: nat, acc: int): (r: Option<(int, string)>)
    ensures r.Some? ==> |r.value.1| <= |t|
    decreases count
  {
    if count == 0 then Some((acc, t))
    else
      match ReadByte(t)
      case None => None
      case Some((b, rest)) =>
        if 0x80 <= b < 0xC0 then ReadContinuation(rest, count - 1, acc * 64 + (b - 0x80))
        else None
  }

  /**
   * The character a multi-byte sequence decodes to. It must be a scalar value (no surrogate,
   * nothing past U+10FFFF) and at least `least`, the smallest code point that needs that many
   * bytes: an overlong form such as `%C0%80` does not decode.
   */
  function ToChar(o: Option<(int, string)>, least: int): Option<(char, string)> {
    if o.Some? && least <= o.value.0 && IsScalar(o.value.0) then Some((o.value.0 as char, o.value.1)) else None
  }

  /** One decoded character at the front of `t`, and what follows it. */
  function DecodeOne(t: string): (r: Option<(char, string)>)
    ensures r.Some? ==> |r.value.1| < |t|
  {
    if |t| == 0 then None
    else if t[0] != '%' then Some((t[0], t[1..]))
    else
      match ReadByte(t)
      case None => None
      case Some((b, rest)) =>
        if b < 0x80 then Some((b as char, rest))
        else if 0xC0 <= b < 0xE0 then ToChar(ReadContinuation(rest, 1, b - 0xC0), 0x80)
        else if 0xE0 <= b < 0xF0 then ToChar(ReadContinuation(rest, 2, b - 0xE0), 0x800)
        else if 0xF0 <= b < 0xF8 then ToChar(ReadContinuation(rest, 3, b - 0xF0), 0x1_0000)
        else None
  }

  /**
   * `decodeURIComponent(t)`, or `None` where it would throw a URIError: a `%` without two
   * hexadecimal digits, a byte that cannot start a UTF-8 sequence, a missing or malformed
   * continuation byte, an overlong form, a surrogate or a code point past U+10FFFF.
   */
  function DecodeURIComponent(t: string): Option<string>
    decreases |t|
  {
    if |t| == 0 then Some([])
    else
      match DecodeOne(t)
      case None => None
      case Some((c, rest)) =>
        match DecodeURIComponent(rest)
        case None => None
        case Some(d) => Some([c] + d)
  }

  // ---------------------------------------------------------------------
  // Round trip

  lemma {:induction false} ReadPercentByte(b: Byte, rest: string)
    ensures ReadByte(PercentByte(b) + rest) == Some((b, rest))
  {
    var t := PercentByte(b) + rest;
    HexRoundTrip(b / 16);
    HexRoundTrip(b % 16);
    assert t[3..] == rest;
  }

  lemma {:induction false} ReadTwo(b0: Byte, b1: Byte, rest: string)
    ensures ReadByte(PercentBytes([b0, b1]) + rest) == Some((b0, PercentByte(b1) + rest))
  {
    assert PercentBytes([b0, b1]) + rest == PercentByte(b0) + (PercentByte(b1) + rest) by {
      assert [b0, b1][1..] == [b1];
      assert PercentBytes([b1]) == PercentByte(b1) + [];
    }
    ReadPercentByte(b0, PercentByte(b1) + rest);
  }

  lemma {:induction false} ReadThree(b0: Byte, b1: Byte, b2: Byte, rest: string)
    ensures ReadByte(PercentBytes([b0, b1, b2]) + rest)
         == Some((b0, PercentBytes([b1, b2]) + rest))
  {
    assert PercentBytes([b0, b1, b2]) + rest == PercentByte(b0) + (PercentBytes([b1, b2]) + rest) by {
      assert [b0, b1, b2][1..] == [b1, b2];
    }
    ReadPercentByte(b0, PercentBytes([b1, b2]) + rest);
  }

  lemma {:induction false} ReadFour(b0: Byte, b1: Byte, b2: Byte, b3: Byte, rest: string)
    ensures ReadByte(PercentBytes([b0, b1, b2, b3]) + rest)
         == Some((b0, PercentBytes([b1, b2, b3]) + rest))
  {
    assert PercentBytes([b0, b1, b2, b3]) + rest
        == PercentByte(b0) + (PercentBytes([b1, b2, b3]) + rest) by {
      assert [b0, b1, b2, b3][1..] == [b1, b2, b3];
    }
    ReadPercentByte(b0, PercentBytes([b1, b2, b3]) + rest);
  }

  lemma {:induction false} ContinueOne(b: Byte, rest: string, acc: int)
    requires 0x80 <= b < 0xC0
    ensures ReadContinuation(PercentByte(b) + rest, 1, acc) == Some((acc * 64 + (b - 0x80), rest))
  {
    ReadPercentByte(b, rest);
  }

  lemma {:induction false} ContinueTwo(b1: Byte, b2: Byte, rest: string, acc: int)
    requires 0x80 <= b1 < 0xC0 && 0x80 <= b2 < 0xC0
    ensures ReadContinuation(PercentBytes([b1, b2]) + rest, 2, acc)
         == Some(((acc * 64 + (b1 - 0x80)) * 64 + (b2 - 0x80), rest))
  {
    ReadTwo(b1, b2, rest);
    ContinueOne(b2, rest, acc * 64 + (b1 - 0x80));
  }

  lemma {:induction false} ContinueThree(b1: Byte, b2: Byte, b3: Byte, rest: string, acc: int)
    requires 0x80 <= b1 < 0xC0 && 0x80 <= b2 < 0xC0 && 0x80 <= b3 < 0xC0
    ensures ReadContinuation(PercentBytes([b1, b2, b3]) + rest, 3, acc)
         == Some((((acc * 64 + (b1 - 0x80)) * 64 + (b2 - 0x80)) * 64 + (b3 - 0x80), rest))
  {
    ReadThree(b1, b2, b3, rest);
    ContinueTwo(b2, b3, rest, acc * 64 + (b1 - 0x80));
  }

  lemma {:induction false} DecodeOneAscii(c: char, rest: string)
    requires !IsUnreserved(c) && (c as int) < 0x80
    ensures DecodeOne(EncodeChar(c) + rest) == Some((c, rest))
  {
    var n := c as int;
    assert EncodeChar(c) == PercentByte(n) + [];
    ReadPercentByte(n, rest);
  }

  /** The two-byte form is the one a character from U+0080 to U+07FF takes. */
  lemma {:induction false} Utf8Two(c: char)
    requires 0x80 <= (c as int) < 0x800
    ensures !IsUnreserved(c)
    ensures Utf8(c) == [0xC0 + (c as int) / 64, 0x80 + (c as int) % 64]
  {
  }

  lemma {:induction false} DecodeOneTwo(c: char, rest: string)
    requires 0x80 <= (c as int) < 0x800
    ensures DecodeOne(EncodeChar(c) + rest) == Some((c, rest))
  {
    var n := c as int;
    var b0, b1 := 0xC0 + n / 64, 0x80 + n % 64;
    Utf8Two(c);
    assert EncodeChar(c) == PercentBytes([b0, b1]);
    ReadTwo(b0, b1, rest);
    ContinueOne(b1, rest, b0 - 0xC0);
    assert (b0 - 0xC0) * 64 + (b1 - 0x80) == n;
  }

  lemma {:induction false} SplitThree(n: int)
    requires 0x800 <= n < 0x1_0000
    ensures 0xE0 <= 0xE0 + n / 4096 < 0xF0
    ensures ((n / 4096) * 64 + (n / 64) % 64) * 64 + n % 64 == n
  {
  }

  lemma {:induction false} SplitFour(n: int)
    requires 0x1_0000 <= n < 0x11_0000
    ensures 0xF0 <= 0xF0 + n / 262144 < 0xF8
    ensures (((n / 262144) * 64 + (n / 4096) % 64) * 64 + (n / 64) % 64) * 64 + n % 64 == n
  {
  }

  /** The three-byte form is the one a character of the basic plane past U+07FF takes. */
  lemma {:induction false} Utf8Three(c: char)
    requires 0x800 <= (c as int) < 0x1_0000
    ensures !IsUnreserved(c)
    ensures Utf8(c) == [0xE0 + (c as int) / 4096, 0x80 + ((c as int) / 64) % 64, 0x80 + (c as int) % 64]
  {
  }

  /** The four-byte form is the one a character past the basic plane takes. */
  lemma {:induction false} Utf8Four(c: char)
    requires 0x1_0000 <= (c as int)
    ensures !IsUnreserved(c)
    ensures Utf8(c) == [0xF0 + (c as int) / 262144, 0x80 + ((c as int) / 4096) % 64, 0x80 + ((c as int) / 64) % 64, 0x80 + (c as int) % 64]
  {
  }

  /** A character's own code point, when not below `least`, converts back to it. */
  lemma {:induction false} ToCharOf(c: char, rest: string, least: int)
    requires least <= c as int
    ensures ToChar(Some((c as int, rest)), least) == Some((c, rest))
  {
  }

  /** A three-byte lead escape leaves `DecodeOne` with its two continuation bytes to read. */
  lemma {:induction false} DecodeLeadThree(t: string, b0: Byte, rest: string)
    requires ReadByte(t) == Some((b0, rest)) && 0xE0 <= b0 < 0xF0
    ensures DecodeOne(t) == ToChar(ReadContinuation(rest, 2, b0 - 0xE0), 0x800)
  {
  }

  /** A four-byte lead escape leaves `DecodeOne` with its three continuation bytes to read. */
  lemma {:induction false} DecodeLeadFour(t: string, b0: Byte, rest: string)
    requires ReadByte(t) == Some((b0, rest)) && 0xF0 <= b0 < 0xF8
    ensures DecodeOne(t) == ToChar(ReadContinuation(rest, 3, b0 - 0xF0), 0x1_0000)
  {
  }

  lemma {:induction false} DecodeThreeBytes(c: char, b0: Byte, b1: Byte, b2: Byte, rest: string)
    requires 0xE0 <= b0 < 0xF0 && 0x80 <= b1 < 0xC0 && 0x80 <= b2 < 0xC0
    requires ((b0 - 0xE0) * 64 + (b1 - 0x80)) * 64 + (b2 - 0x80) == c as int >= 0x800
    ensures DecodeOne(PercentBytes([b0, b1, b2]) + rest) == Some((c, rest))
  {
    ReadThree(b0, b1, b2, rest);
    ContinueTwo(b1, b2, rest, b0 - 0xE0);
    DecodeLeadThree(PercentBytes([b0, b1, b2]) + rest, b0, PercentBytes([b1, b2]) + rest);
    ToCharOf(c, rest, 0x800);
  }

  lemma {:induction false} DecodeOneThree(c: char, rest: string)
    requires 0x800 <= (c as int) < 0x1_0000
    ensures DecodeOne(EncodeChar(c) + rest) == Some((c, rest))
  {
    var n := c as int;
    var b0, b1, b2 := 0xE0 + n / 4096, 0x80 + (n / 64) % 64, 0x80 + n % 64;
    SplitThree(n);
    Utf8Three(c);
    assert EncodeChar(c) == PercentBytes([b0, b1, b2]);
    DecodeThreeBytes(c, b0, b1, b2, rest);
  }

  lemma {:induction false} DecodeFourBytes(c: char, b0: Byte, b1: Byte, b2: Byte, b3: Byte, rest: string)
    requires 0xF0 <= b0 < 0xF8 && 0x80 <= b1 < 0xC0 && 0x80 <= b2 < 0xC0 && 0x80 <= b3 < 0xC0
    requires (((b0 - 0xF0) * 64 + (b1 - 0x80)) * 64 + (b2 - 0x80)) * 64 + (b3 - 0x80) == c as int >= 0x1_0000
    ensures DecodeOne(PercentBytes([b0, b1, b2, b3]) + rest) == Some((c, rest))
  {
    ReadFour(b0, b1, b2, b3, rest);
    ContinueThree(b1, b2, b3, rest, b0 - 0xF0);
    DecodeLeadFour(PercentBytes([b0, b1, b2, b3]) + rest, b0, PercentBytes([b1, b2, b3]) + rest);
    ToCharOf(c, rest, 0x1_0000);
  }

  lemma {:induction false} DecodeOneFour(c: char, rest: string)
    requires 0x1_0000 <= (c as int)
    ensures DecodeOne(EncodeChar(c) + rest) == Some((c, rest))
  {
    var n := c as int;
    var b0, b1, b2, b3 := 0xF0 + n / 262144, 0x80 + (n / 4096) % 64, 0x80 + (n / 64) % 64, 0x80 + n % 64;
    SplitFour(n);
    Utf8Four(c);
    assert EncodeChar(c) == PercentBytes([b0, b1, b2, b3]);
    DecodeFourBytes(c, b0, b1, b2, b3, rest);
  }

  /** Decoding the escapes of one character gives that character back. */
  lemma {:induction false} DecodeEncodeChar(c: char, rest: string)
    ensures DecodeOne(EncodeChar(c) + rest) == Some((c, rest))
  {
    var n := c as int;
    if IsUnreserved(c) {
      var t := EncodeChar(c) + rest;
      assert t[0] == c && t[1..] == rest;
    } else if n < 0x80 {
      DecodeOneAscii(c, rest);
    } else if n < 0x800 {
      DecodeOneTwo(c, rest);
    } else if n < 0x1_0000 {
      DecodeOneThree(c, rest);
    } else {
      DecodeOneFour(c, rest);
    }
  }

  /** `decodeURIComponent(encodeURIComponent(s)) == s`. */
  lemma {:induction false} DecodeEncode(s: string)
    ensures DecodeURIComponent(EncodeURIComponent(s)) == Some(s)
  {
    if |s| > 0 {
      DecodeEncodeChar(s[0], EncodeURIComponent(s[1..]));
      DecodeEncode(s[1..]);
      assert [s[0]] + s[1..] == s;
    }
  }

  /** Lower-case escapes decode too: `%c3%a9` is U+00E9. */
  lemma LowerCaseEscapes()
    ensures DecodeURIComponent("%c3%a9") == Some("\U{E9}")
  {
    var t := "%c3%a9";
    assert ReadByte(t) == Some((0xC3, t[3..]));
    assert ReadByte(t[3..]) == Some((0xA9, []));
    assert ReadContinuation(t[3..], 1, 0xC3 - 0xC0) == Some((0xE9, []));
    assert DecodeOne(t) == Some(('\U{E9}', []));
    assert DecodeURIComponent(t) == Some(['\U{E9}'] + []);
    assert ['\U{E9}'] + [] == "\U{E9}";
  }

  /** The overlong two-byte form of U+0000 does not decode. */
  lemma OverlongRejected()
    ensures DecodeURIComponent("%C0%80") == None
  {
    var t := "%C0%80";
    assert ReadByte(t) == Some((0xC0, t[3..]));
    assert ReadByte(t[3..]) == Some((0x80, []));
    assert DecodeOne(t) == None;
  }

  /** Encoding is injective, since decoding undoes it. */
  lemma {:induction false} EncodeInjective(s1: string, s2: string)
    requires EncodeURIComponent(s1) == EncodeURIComponent(s2)
    ensures s1 == s2
  {
    DecodeEncode(s1);
    DecodeEncode(s2);
  }

  /** A string of unreserved characters is its own encoding. */
  lemma {:induction false} EncodeUnreserved(s: string)
    requires forall k :: 0 <= k < |s| ==> IsUnreserved(s[k])
    ensures EncodeURIComponent(s) == s
  {
    if |s| > 0 {
      EncodeUnreserved(s[1..]);
      assert [s[0]] + s[1..] == s;
    }
  }
}
