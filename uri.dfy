/** `encodeURIComponent` and `decodeURIComponent` as section 19.2.6 of ECMA-262
    defines them: the unescaped characters (letters, digits and `- _ . ! ~ * ' ( )`)
    are kept, every other character is written as the `%XX` escapes of its UTF-8
    bytes with upper-case hexadecimal digits (percent-encoding, section 2.1 of
    RFC 3986).  A Dafny `char` is a Unicode scalar value, so the lone-surrogate
    URIError of the JavaScript function cannot arise. */
module Uri {
  import opened Wrappers

  type Byte = b: int | 0 <= b < 256

  /** The characters `encodeURIComponent` leaves as they are. */
  predicate Unescaped(c: char) {
    || ('A' <= c <= 'Z') || ('a' <= c <= 'z') || ('0' <= c <= '9')
    || c == '-' || c == '_' || c == '.' || c == '!' || c == '~'
    || c == '*' || c == '\'' || c == '(' || c == ')'
  }

  predicate IsUpperHex(c: char) {
    ('0' <= c <= '9') || ('A' <= c <= 'F')
  }

  function HexDigit(d: nat): (c: char)
    requires d < 16
    ensures IsUpperHex(c)
  {
    if d < 10 then ('0' as int + d) as char else ('A' as int + d - 10) as char
  }

  /** Value of a hexadecimal digit of either case, as `decodeURIComponent` reads it. */
  function HexValue(c: char): Option<nat> {
    if '0' <= c <= '9' then Some(c as int - '0' as int)
    else if 'A' <= c <= 'F' then Some(c as int - 'A' as int + 10)
    else if 'a' <= c <= 'f' then Some(c as int - 'a' as int + 10)
    else None
  }

  /** The UTF-8 encoding of one code point. */
  function Utf8(c: char): (bs: seq<Byte>)
    ensures 1 <= |bs| <= 4
  {
    var cp := c as int;
    if cp < 0x80 then [cp]
    else if cp < 0x800 then [0xC0 + cp / 0x40, 0x80 + cp % 0x40]
    else if cp < 0x10000 then [0xE0 + cp / 0x1000, 0x80 + (cp / 0x40) % 0x40, 0x80 + cp % 0x40]
    else [0xF0 + cp / 0x40000, 0x80 + (cp / 0x1000) % 0x40, 0x80 + (cp / 0x40) % 0x40, 0x80 + cp % 0x40]
  }

  function PercentByte(b: Byte): string {
    ['%', HexDigit(b / 16), HexDigit(b % 16)]
  }

  function PercentBytes(bs: seq<Byte>): (r: string)
    ensures |r| == 3 * |bs|
    decreases |bs|
  {
    if bs == [] then "" else PercentByte(bs[0]) + PercentBytes(bs[1..])
  }

  function EncodeChar(c: char): string {
    if Unescaped(c) then [c] else PercentBytes(Utf8(c))
  }

  /** `encodeURIComponent(s)`. */
  function EncodeUriComponent(s: string): string
    decreases |s|
  {
    if s == [] then "" else EncodeChar(s[0]) + EncodeUriComponent(s[1..])
  }

  // ---------------------------------------------------------------------------
  // Decoding
  // ---------------------------------------------------------------------------

  /** The byte written by the `%XX` escape at the start of `s`. */
  function ReadByte(s: string): Option<Byte> {
    if |s| >= 3 && s[0] == '%' && HexValue(s[1]).Some? && HexValue(s[2]).Some? then
      var hi, lo := HexValue(s[1]).value, HexValue(s[2]).value;
      if hi < 16 && lo < 16 then Some(hi * 16 + lo) else None
    else None
  }

  /** The bytes of the first `n` consecutive escapes of `s`. */
  function ReadBytes(s: string, n: nat): Option<seq<Byte>>
    decreases n
  {
    if n == 0 then Some([])
    else match ReadByte(s)
      case None => None
      case Some(b) =>
        match ReadBytes(s[3..], n - 1)
        case None => None
        case Some(rest) => Some([b] + rest)
  }

  /** How many bytes a UTF-8 sequence with this first byte has (0: not a first byte). */
  function Utf8Length(b: Byte): nat {
    if b < 0x80 then 1
    else if 0xC0 <= b < 0xE0 then 2
    else if 0xE0 <= b < 0xF0 then 3
    else if 0xF0 <= b < 0xF8 then 4
    else 0
  }

  predicate IsContinuation(b: Byte) {
    0x80 <= b < 0xC0
  }

  /** The code point of one complete UTF-8 sequence, rejecting overlong forms,
      surrogates and values past U+10FFFF as `decodeURIComponent` does. */
  function Utf8Decode(bs: seq<Byte>): Option<char> {
    if |bs| == 1 && bs[0] < 0x80 then Some(bs[0] as char)
    else if |bs| == 2 && 0xC0 <= bs[0] < 0xE0 && IsContinuation(bs[1]) then
      var cp: int := (bs[0] as int - 0xC0) * 0x40 + (bs[1] as int - 0x80);
      if cp >= 0x80 then Some(cp as char) else None
    else if |bs| == 3 && 0xE0 <= bs[0] < 0xF0 && IsContinuation(bs[1]) && IsContinuation(bs[2]) then
      var cp: int := (bs[0] as int - 0xE0) * 0x1000 + (bs[1] as int - 0x80) * 0x40 + (bs[2] as int - 0x80);
      if cp >= 0x800 && !(0xD800 <= cp < 0xE000) then Some(cp as char) else None
    else if |bs| == 4 && 0xF0 <= bs[0] < 0xF8 && IsContinuation(bs[1]) && IsContinuation(bs[2])
      && IsContinuation(bs[3]) then
      var cp: int := (bs[0] as int - 0xF0) * 0x40000 + (bs[1] as int - 0x80) * 0x1000
        + (bs[2] as int - 0x80) * 0x40 + (bs[3] as int - 0x80);
      if 0x10000 <= cp < 0x110000 then Some(cp as char) else None
    else None
  }

  /** `decodeURIComponent(s)`, with `None` for the inputs on which it throws a URIError. */
  function DecodeUriComponent(s: string): Option<string>
    decreases |s|
  {
    if s == [] then Some("")
    else if s[0] != '%' then
      match DecodeUriComponent(s[1..])
      case None => None
      case Some(rest) => Some([s[0]] + rest)
    else
      match ReadByte(s)
      case None => None
      case Some(b) =>
        var n := Utf8Length(b);
        if n == 0 || |s| < 3 * n then None
        else
          match ReadBytes(s, n)
          case None => None
          case Some(bs) =>
            match Utf8Decode(bs)
            case None => None
            case Some(c) =>
              match DecodeUriComponent(s[3 * n..])
              case None => None
              case Some(rest) => Some([c] + rest)
  }

  // ---------------------------------------------------------------------------
  // Properties
  // ---------------------------------------------------------------------------

  /** The encoding is made only of unescaped characters, `%` and upper-case hex digits. */
  predicate UriSafe(s: string) {
    forall i | 0 <= i < |s| :: Unescaped(s[i]) || s[i] == '%' || IsUpperHex(s[i])
  }

  lemma {:induction false} PercentBytesSafe(bs: seq<Byte>)
    ensures UriSafe(PercentBytes(bs))
    decreases |bs|
  {
    if bs != [] {
      PercentBytesSafe(bs[1..]);
      var r := PercentBytes(bs);
      forall i | 0 <= i < |r| ensures Unescaped(r[i]) || r[i] == '%' || IsUpperHex(r[i]) {
        if i >= 3 {
          assert r[i] == PercentBytes(bs[1..])[i - 3];
        }
      }
    }
  }

  /** Only unescaped characters, `%` and hexadecimal digits are ever emitted. */
  lemma {:induction false} EncodedIsSafe(s: string)
    ensures UriSafe(EncodeUriComponent(s))
    decreases |s|
  {
    if s != [] {
      EncodedIsSafe(s[1..]);
      var head := EncodeChar(s[0]);
      if !Unescaped(s[0]) {
        PercentBytesSafe(Utf8(s[0]));
      }
      var r := EncodeUriComponent(s);
      forall i | 0 <= i < |r| ensures Unescaped(r[i]) || r[i] == '%' || IsUpperHex(r[i]) {
        if i >= |head| {
          assert r[i] == EncodeUriComponent(s[1..])[i - |head|];
        } else {
          assert r[i] == head[i];
        }
      }
    }
  }

  /** In particular no query separator or scope colon survives encoding. */
  lemma EncodedHasNoSeparators(s: string)
    ensures '&' !in EncodeUriComponent(s) && ':' !in EncodeUriComponent(s)
    ensures '=' !in EncodeUriComponent(s) && ' ' !in EncodeUriComponent(s)
  {
    EncodedIsSafe(s);
    SafeHasNoSeparators(EncodeUriComponent(s));
  }

  lemma SafeHasNoSeparators(r: string)
    requires UriSafe(r)
    ensures '&' !in r && ':' !in r && '=' !in r && ' ' !in r
  {
    assert forall i | 0 <= i < |r| :: r[i] != '&';
    assert forall i | 0 <= i < |r| :: r[i] != ':';
    assert forall i | 0 <= i < |r| :: r[i] != '=';
    assert forall i | 0 <= i < |r| :: r[i] != ' ';
  }

  /** A string of unescaped characters is its own encoding. */
  lemma {:induction false} EncodeUnescapedIdentity(s: string)
    requires forall i | 0 <= i < |s| :: Unescaped(s[i])
    ensures EncodeUriComponent(s) == s
    decreases |s|
  {
    if s != [] {
      EncodeUnescapedIdentity(s[1..]);
      assert s == [s[0]] + s[1..];
    }
  }

  lemma HexRoundTrip(b: Byte)
    ensures HexValue(HexDigit(b / 16)) == Some(b / 16)
    ensures HexValue(HexDigit(b % 16)) == Some(b % 16)
  {
  }

  /** One escape reads back as its byte. */
  lemma ReadPercentByte(b: Byte, rest: string)
    ensures ReadByte(PercentByte(b) + rest) == Some(b)
    ensures (PercentByte(b) + rest)[3..] == rest
  {
    HexRoundTrip(b);
    var s := PercentByte(b) + rest;
    assert s[0] == '%' && s[1] == HexDigit(b / 16) && s[2] == HexDigit(b % 16);
  }

  /** `ReadBytes` takes one escape, then the rest. */
  lemma ReadBytesCons(s: string, n: nat, b: Byte, more: seq<Byte>)
    requires n > 0 && ReadByte(s) == Some(b) && |s| >= 3 && ReadBytes(s[3..], n - 1) == Some(more)
    ensures ReadBytes(s, n) == Some([b] + more)
  {
  }

  /** The escapes of a non-empty byte list, first byte split off. */
  lemma PercentBytesCons(bs: seq<Byte>, rest: string)
    requires bs != []
    ensures PercentBytes(bs) + rest == PercentByte(bs[0]) + (PercentBytes(bs[1..]) + rest)
  {
  }

  /** The escapes of `bs` read back as `bs`, and what follows them is untouched. */
  lemma {:induction false} ReadPercentBytes(bs: seq<Byte>, rest: string)
    ensures ReadBytes(PercentBytes(bs) + rest, |bs|) == Some(bs)
    decreases |bs|
  {
    if bs != [] {
      var tail := PercentBytes(bs[1..]) + rest;
      PercentBytesCons(bs, rest);
      ReadPercentByte(bs[0], tail);
      ReadPercentBytes(bs[1..], rest);
      ReadBytesCons(PercentByte(bs[0]) + tail, |bs|, bs[0], bs[1..]);
      assert [bs[0]] + bs[1..] == bs;
    }
  }

  /** The two bytes of a code point in [U+0080, U+0800) recombine to it. */
  lemma TwoByteSplit(cp: int)
    requires 0x80 <= cp < 0x800
    ensures 0xC0 <= 0xC0 + cp / 0x40 < 0xE0 && 0x80 <= 0x80 + cp % 0x40 < 0xC0
    ensures (cp / 0x40) * 0x40 + cp % 0x40 == cp
  {
  }

  /** The three bytes of a code point in [U+0800, U+10000) recombine to it. */
  lemma ThreeByteSplit(cp: int)
    requires 0x800 <= cp < 0x10000
    ensures 0xE0 <= 0xE0 + cp / 0x1000 < 0xF0
    ensures (cp / 0x1000) * 0x1000 + ((cp / 0x40) % 0x40) * 0x40 + cp % 0x40 == cp
  {
    assert cp / 0x40 == (cp / 0x1000) * 0x40 + (cp / 0x40) % 0x40;
    assert cp == (cp / 0x40) * 0x40 + cp % 0x40;
  }

  /** The four bytes of a code point from U+10000 on recombine to it. */
  lemma FourByteSplit(cp: int)
    requires 0x10000 <= cp < 0x110000
    ensures 0xF0 <= 0xF0 + cp / 0x40000 < 0xF8
    ensures (cp / 0x40000) * 0x40000 + ((cp / 0x1000) % 0x40) * 0x1000
      + ((cp / 0x40) % 0x40) * 0x40 + cp % 0x40 == cp
  {
    assert cp / 0x1000 == (cp / 0x40000) * 0x40 + (cp / 0x1000) % 0x40;
    assert cp / 0x40 == (cp / 0x1000) * 0x40 + (cp / 0x40) % 0x40;
    assert cp == (cp / 0x40) * 0x40 + cp % 0x40;
  }

  /** Decoding the UTF-8 bytes of a code point gives the code point back. */
  lemma Utf8RoundTrip(c: char)
    ensures Utf8Length(Utf8(c)[0]) == |Utf8(c)|
    ensures Utf8Decode(Utf8(c)) == Some(c)
  {
    var cp := c as int;
    if cp < 0x80 {
    } else if cp < 0x800 {
      TwoByteSplit(cp);
    } else if cp < 0x10000 {
      ThreeByteSplit(cp);
    } else {
      FourByteSplit(cp);
    }
  }

  /** Decoding after one encoded character peels off exactly that character. */
  lemma DecodeEncodedChar(c: char, rest: string)
    ensures DecodeUriComponent(EncodeChar(c) + rest) ==
      match DecodeUriComponent(rest)
      case None => None
      case Some(r) => Some([c] + r)
  {
    var s := EncodeChar(c) + rest;
    if Unescaped(c) {
      assert s[0] == c && s[1..] == rest;
    } else {
      var bs := Utf8(c);
      Utf8RoundTrip(c);
      ReadPercentBytes(bs, rest);
      ReadPercentBytes([bs[0]], PercentBytes(bs[1..]) + rest);
      assert PercentBytes(bs) == PercentBytes([bs[0]]) + PercentBytes(bs[1..]);
      assert s[3 * |bs|..] == rest;
    }
  }

  /** `decodeURIComponent(encodeURIComponent(s)) === s`. */
  lemma {:induction false} DecodeEncode(s: string)
    ensures DecodeUriComponent(EncodeUriComponent(s)) == Some(s)
    decreases |s|
  {
    if s != [] {
      DecodeEncode(s[1..]);
      DecodeEncodedChar(s[0], EncodeUriComponent(s[1..]));
      assert s == [s[0]] + s[1..];
    }
  }

  /** Different terms never produce the same encoding. */
  lemma EncodeInjective(s: string, t: string)
    requires EncodeUriComponent(s) == EncodeUriComponent(t)
    ensures s == t
  {
    DecodeEncode(s);
    DecodeEncode(t);
  }
}
