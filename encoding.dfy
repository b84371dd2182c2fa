/** Text encodings the note application relies on: UTF-8 (Unicode section
    3.9, Table 3-7 of well-formed byte sequences), JavaScript's
    `encodeURIComponent` / `decodeURIComponent` (section 19.2.6 of
    ECMA-262, percent-encoding per section 2.1 of RFC 3986) and Rust's
    lenient `percent_decode_str(..).decode_utf8()`.  A Dafny `char` is a
    Unicode scalar value, so every string has a UTF-8 form. */
module Encoding {
  import opened Common

  newtype byte = x: int | 0 <= x < 256

  // ---------------------------------------------------------------------
  // UTF-8
  // ---------------------------------------------------------------------

  /** The UTF-8 form of one scalar value: 1 to 4 bytes. */
  function Utf8Char(c: char): (bs: seq<byte>)
    ensures 1 <= |bs| <= 4
  {
    var n := c as int;
    if n < 0x80 then [n as byte]
    else if n < 0x800 then [(0xC0 + n / 64) as byte, (0x80 + n % 64) as byte]
    else if n < 0x10000 then
      [(0xE0 + n / 4096) as byte, (0x80 + (n / 64) % 64) as byte, (0x80 + n % 64) as byte]
    else
      [(0xF0 + n / 262144) as byte, (0x80 + (n / 4096) % 64) as byte,
       (0x80 + (n / 64) % 64) as byte, (0x80 + n % 64) as byte]
  }

  function Utf8Encode(s: string): (bs: seq<byte>)
    ensures |s| <= |bs|
  {
    if s == [] then [] else Utf8Char(s[0]) + Utf8Encode(s[1..])
  }

  predicate IsCont(b: byte) {
    0x80 <= b < 0xC0
  }

  /** The number of bytes announced by a leading byte, 0 when `b` cannot
      start a sequence (a continuation byte or 0xF8..0xFF). */
  function SeqLen(b: byte): (n: nat)
    ensures n <= 4
  {
    if b < 0x80 then 1
    else if b < 0xC0 then 0
    else if b < 0xE0 then 2
    else if b < 0xF0 then 3
    else if b < 0xF8 then 4
    else 0
  }

  /** Decodes the well-formed UTF-8 sequence at the start of `bs` (Table
      3-7: no overlong forms, no surrogates, nothing above U+10FFFF);
      returns the scalar value and the number of bytes it used. */
  function DecodeChar(bs: seq<byte>): (r: Option<(char, nat)>)
    ensures r.Some? ==> 1 <= r.value.1 <= |bs| && r.value.1 == SeqLen(bs[0])
  {
    if |bs| == 0 then None
    else
      var b0 := bs[0] as int;
      if b0 < 0x80 then Some((b0 as char, 1))
      else if 0xC2 <= b0 <= 0xDF then
        if |bs| >= 2 && IsCont(bs[1])
        then Some((((b0 - 0xC0) * 64 + (bs[1] as int - 0x80)) as char, 2))
        else None
      else if 0xE0 <= b0 <= 0xEF then
        var lo := if b0 == 0xE0 then 0xA0 else 0x80;
        var hi := if b0 == 0xED then 0xA0 else 0xC0;
        if |bs| >= 3 && lo <= bs[1] as int < hi && IsCont(bs[2])
        then Some((((b0 - 0xE0) * 4096 + (bs[1] as int - 0x80) * 64 + (bs[2] as int - 0x80)) as char, 3))
        else None
      else if 0xF0 <= b0 <= 0xF4 then
        var lo := if b0 == 0xF0 then 0x90 else 0x80;
        var hi := if b0 == 0xF4 then 0x90 else 0xC0;
        if |bs| >= 4 && lo <= bs[1] as int < hi && IsCont(bs[2]) && IsCont(bs[3])
        then Some((((b0 - 0xF0) * 262144 + (bs[1] as int - 0x80) * 4096
                   + (bs[2] as int - 0x80) * 64 + (bs[3] as int - 0x80)) as char, 4))
        else None
      else None
  }

  /** Strict UTF-8 decoding of a whole byte sequence (Rust `from_utf8`). */
  function Utf8Decode(bs: seq<byte>): (r: Option<string>)
    decreases |bs|
  {
    if bs == [] then Some([])
    else match DecodeChar(bs)
      case None => None
      case Some((c, n)) =>
        match Utf8Decode(bs[n..])
        case None => None
        case Some(rest) => Some([c] + rest)
  }

  lemma DecodeTwoBytes(c: char, rest: seq<byte>)
    requires 0x80 <= c as int < 0x800
    ensures DecodeChar(Utf8Char(c) + rest) == Some((c, 2))
  {
    var n := c as int;
    var bs := Utf8Char(c) + rest;
    assert bs[0] as int == 0xC0 + n / 64 && bs[1] as int == 0x80 + n % 64;
  }

  lemma DecodeThreeBytes(c: char, rest: seq<byte>)
    requires 0x800 <= c as int < 0x10000
    ensures DecodeChar(Utf8Char(c) + rest) == Some((c, 3))
  {
    var n := c as int;
    var bs := Utf8Char(c) + rest;
    var b0, b1, b2 := n / 4096, (n / 64) % 64, n % 64;
    assert n / 64 == b0 * 64 + b1;
    assert n == b0 * 4096 + b1 * 64 + b2;
    assert bs[0] as int == 0xE0 + b0 && bs[1] as int == 0x80 + b1 && bs[2] as int == 0x80 + b2;
  }

  lemma DecodeFourBytes(c: char, rest: seq<byte>)
    requires 0x10000 <= c as int
    ensures DecodeChar(Utf8Char(c) + rest) == Some((c, 4))
  {
    var n := c as int;
    var bs := Utf8Char(c) + rest;
    var b0, b1, b2, b3 := n / 262144, (n / 4096) % 64, (n / 64) % 64, n % 64;
    assert n / 4096 == b0 * 64 + b1;
    assert n / 64 == (n / 4096) * 64 + b2;
    assert n == b0 * 262144 + b1 * 4096 + b2 * 64 + b3;
    assert bs[0] as int == 0xF0 + b0 && bs[1] as int == 0x80 + b1;
    assert bs[2] as int == 0x80 + b2 && bs[3] as int == 0x80 + b3;
  }

  /** Decoding the UTF-8 form of a scalar value gives it back and uses
      exactly its bytes. */
  lemma DecodeCharRoundTrip(c: char, rest: seq<byte>)
    ensures DecodeChar(Utf8Char(c) + rest) == Some((c, |Utf8Char(c)|))
  {
    var n := c as int;
    if n < 0x80 {
    } else if n < 0x800 {
      DecodeTwoBytes(c, rest);
    } else if n < 0x10000 {
      DecodeThreeBytes(c, rest);
    } else {
      DecodeFourBytes(c, rest);
    }
  }

  /** Strict UTF-8 decoding inverts UTF-8 encoding. */
  lemma {:induction false} Utf8RoundTrip(s: string)
    ensures Utf8Decode(Utf8Encode(s)) == Some(s)
  {
    if s != [] {
      var bs := Utf8Encode(s);
      var cs := Utf8Char(s[0]);
      DecodeCharRoundTrip(s[0], Utf8Encode(s[1..]));
      assert bs[|cs|..] == Utf8Encode(s[1..]);
      Utf8RoundTrip(s[1..]);
      assert [s[0]] + s[1..] == s;
    }
  }

  /** 0xFF can start no UTF-8 sequence. */
  lemma Utf8RejectsFF()
    ensures Utf8Decode([0xFF]) == None
  {
  }

  // ---------------------------------------------------------------------
  // Percent-encoding
  // ---------------------------------------------------------------------

  /** The characters `encodeURIComponent` leaves alone: ALPHA, DIGIT and
      `- _ . ! ~ * ' ( )`. */
  predicate IsUnreserved(c: char) {
    ('A' <= c <= 'Z') || ('a' <= c <= 'z') || ('0' <= c <= '9') ||
    c == '-' || c == '_' || c == '.' || c == '!' || c == '~' || c == '*' ||
    c == '\'' || c == '(' || c == ')'
  }

  function HexDigit(d: nat): (c: char)
    requires d < 16
  {
    if d < 10 then ('0' as int + d) as char else ('A' as int + d - 10) as char
  }

  /** The value of a hexadecimal digit of either case. */
  function HexValue(c: char): (r: Option<nat>)
    ensures r.Some? ==> r.value < 16
  {
    if '0' <= c <= '9' then Some(c as int - '0' as int)
    else if 'A' <= c <= 'F' then Some(c as int - 'A' as int + 10)
    else if 'a' <= c <= 'f' then Some(c as int - 'a' as int + 10)
    else None
  }

  lemma HexDigitValue(d: nat)
    requires d < 16
    ensures HexValue(HexDigit(d)) == Some(d)
  {
  }

  /** `%HH` with upper-case hexadecimal digits. */
  function PctByte(b: byte): (s: string)
    ensures |s| == 3
  {
    ['%', HexDigit(b as int / 16), HexDigit(b as int % 16)]
  }

  function PctBytes(bs: seq<byte>): (s: string)
    ensures |s| == 3 * |bs|
  {
    if bs == [] then [] else PctByte(bs[0]) + PctBytes(bs[1..])
  }

  function EncodeUriChar(c: char): (s: string)
  {
    if IsUnreserved(c) then [c] else PctBytes(Utf8Char(c))
  }

  /** `encodeURIComponent`: every character outside the unreserved set is
      replaced by the `%HH` escapes of its UTF-8 bytes. */
  function EncodeUriComponent(s: string): (r: string)
  {
    if s == [] then [] else EncodeUriChar(s[0]) + EncodeUriComponent(s[1..])
  }

  /** The escape `%HH` at the start of `s`, if there is one. */
  function ReadPct(s: string): (r: Option<byte>)
  {
    if |s| >= 3 && s[0] == '%' && HexValue(s[1]).Some? && HexValue(s[2]).Some?
    then Some((HexValue(s[1]).value * 16 + HexValue(s[2]).value) as byte)
    else None
  }

  /** `count` consecutive escapes at the start of `s`. */
  function ReadPcts(s: string, count: nat): (r: Option<seq<byte>>)
    ensures r.Some? ==> |r.value| == count && 3 * count <= |s|
  {
    if count == 0 then Some([])
    else match ReadPct(s)
      case None => None
      case Some(b) =>
        match ReadPcts(s[3..], count - 1)
        case None => None
        case Some(bs) => Some([b] + bs)
  }

  /** `decodeURIComponent`: characters other than `%` are copied; an escape
      starts a UTF-8 sequence whose remaining bytes must follow as escapes;
      a malformed escape or an ill-formed sequence is a URIError (None). */
  function DecodeUriComponent(s: string): (r: Option<string>)
    decreases |s|
  {
    if s == [] then Some([])
    else if s[0] != '%' then Cons(s[0], DecodeUriComponent(s[1..]))
    else match DecodeEscapes(s)
      case None => None
      case Some((c, n)) => Cons(c, DecodeUriComponent(s[3 * n..]))
  }

  /** The character whose UTF-8 sequence the escapes at the start of `s`
      spell, and the number of escapes it takes: the first byte fixes the
      length of the sequence and its remaining bytes must follow as
      escapes. */
  function DecodeEscapes(s: string): (r: Option<(char, nat)>)
    ensures r.Some? ==> 1 <= r.value.1 && 3 * r.value.1 <= |s|
  {
    match ReadPct(s)
    case None => None
    case Some(b0) =>
      var n := SeqLen(b0);
      if n == 0 then None
      else match ReadPcts(s, n)
        case None => None
        case Some(octets) =>
          match DecodeChar(octets)
          case None => None
          case Some((c, used)) => if used != n then None else Some((c, n))
  }

  function Cons(c: char, r: Option<string>): Option<string> {
    match r
    case None => None
    case Some(t) => Some([c] + t)
  }

  lemma ReadPctByte(b: byte, rest: string)
    ensures ReadPct(PctByte(b) + rest) == Some(b)
  {
    HexDigitValue(b as int / 16);
    HexDigitValue(b as int % 16);
  }

  lemma {:induction false} ReadPctsRoundTrip(bs: seq<byte>, rest: string)
    ensures ReadPcts(PctBytes(bs) + rest, |bs|) == Some(bs)
  {
    if bs != [] {
      var s := PctBytes(bs) + rest;
      var t := PctBytes(bs[1..]) + rest;
      assert s == PctByte(bs[0]) + t;
      assert ReadPct(s) == Some(bs[0]) by {
        ReadPctByte(bs[0], t);
      }
      assert s[3..] == t;
      assert ReadPcts(t, |bs| - 1) == Some(bs[1..]) by {
        ReadPctsRoundTrip(bs[1..], rest);
      }
      assert [bs[0]] + bs[1..] == bs;
    }
  }

  /** Decoding the escapes of one character yields that character and
      continues right after them. */
  lemma DecodeUriCharStep(c: char, rest: string)
    ensures DecodeUriComponent(EncodeUriChar(c) + rest)
         == match DecodeUriComponent(rest)
            case None => None
            case Some(t) => Some([c] + t)
  {
    if IsUnreserved(c) {
      var s := EncodeUriChar(c) + rest;
      assert s[0] == c && s[1..] == rest;
    } else {
      DecodeUriEscapedStep(c, rest);
    }
  }

  lemma DecodeUriEscapedStep(c: char, rest: string)
    requires !IsUnreserved(c)
    ensures DecodeUriComponent(EncodeUriChar(c) + rest)
         == match DecodeUriComponent(rest)
            case None => None
            case Some(t) => Some([c] + t)
  {
    var s := EncodeUriChar(c) + rest;
    var bs := Utf8Char(c);
    assert s == PctBytes(bs) + rest;
    DecodeEscapesOf(c, rest);
    assert s[3 * |bs|..] == rest;
  }

  /** The escapes of a character's UTF-8 bytes spell that character. */
  lemma DecodeEscapesOf(c: char, rest: string)
    requires !IsUnreserved(c)
    ensures DecodeEscapes(PctBytes(Utf8Char(c)) + rest) == Some((c, |Utf8Char(c)|))
  {
    var bs := Utf8Char(c);
    var s := PctBytes(bs) + rest;
    ReadPctsRoundTrip(bs, rest);
    ReadPctByte(bs[0], PctBytes(bs[1..]) + rest);
    assert s == PctByte(bs[0]) + (PctBytes(bs[1..]) + rest);
    DecodeCharRoundTrip(c, []);
    assert bs + [] == bs;
  }

  /** `decodeURIComponent(encodeURIComponent(s)) == s`. */
  lemma {:induction false} UriRoundTrip(s: string)
    ensures DecodeUriComponent(EncodeUriComponent(s)) == Some(s)
  {
    if s != [] {
      var rest := EncodeUriComponent(s[1..]);
      assert EncodeUriComponent(s) == EncodeUriChar(s[0]) + rest;
      assert DecodeUriComponent(rest) == Some(s[1..]) by {
        UriRoundTrip(s[1..]);
      }
      assert DecodeUriComponent(EncodeUriChar(s[0]) + rest) == Some([s[0]] + s[1..]) by {
        DecodeUriCharStep(s[0], rest);
      }
      assert [s[0]] + s[1..] == s;
    }
  }

  /** A string without `%` decodes to itself. */
  lemma {:induction false} DecodeUriPlain(s: string)
    requires '%' !in s
    ensures DecodeUriComponent(s) == Some(s)
  {
    if s != [] {
      assert s[0] in s;
      assert forall i :: 0 <= i < |s[1..]| ==> s[1..][i] in s;
      DecodeUriPlain(s[1..]);
      assert [s[0]] + s[1..] == s;
    }
  }

  /** A lone `%` is a URIError. */
  lemma DecodeUriRejectsBareEscape()
    ensures DecodeUriComponent("%") == None
  {
  }

  /** Rust `percent_decode_str`: the string's UTF-8 bytes, with every `%`
      followed by two hexadecimal digits replaced by the byte they denote;
      any other `%` is kept literally. */
  function PercentDecodeLenient(s: string): (bs: seq<byte>)
  {
    if s == [] then []
    else match ReadPct(s)
      case Some(b) => [b] + PercentDecodeLenient(s[3..])
      case None => Utf8Char(s[0]) + PercentDecodeLenient(s[1..])
  }

  /** Rust `percent_decode_str(s).decode_utf8()`: lenient escapes, strict
      UTF-8. */
  function PercentDecodeUtf8(s: string): (r: Option<string>)
  {
    Utf8Decode(PercentDecodeLenient(s))
  }

  lemma {:induction false} PercentDecodeLenientPlain(s: string)
    requires '%' !in s
    ensures PercentDecodeLenient(s) == Utf8Encode(s)
  {
    if s != [] {
      assert s[0] in s;
      assert forall i :: 0 <= i < |s[1..]| ==> s[1..][i] in s;
      PercentDecodeLenientPlain(s[1..]);
    }
  }

  /** A string without `%` decodes to itself in Rust as well. */
  lemma PercentDecodeUtf8Plain(s: string)
    requires '%' !in s
    ensures PercentDecodeUtf8(s) == Some(s)
  {
    PercentDecodeLenientPlain(s);
    Utf8RoundTrip(s);
  }

  /** An escape that yields a byte which is not UTF-8 makes decoding fail. */
  lemma PercentDecodeUtf8RejectsFF()
    ensures PercentDecodeUtf8("%FF") == None
  {
    var s := "%FF";
    assert ReadPct(s) == Some(0xFF);
    assert s[3..] == [];
    assert PercentDecodeLenient(s) == [0xFF];
  }

  /** Escapes written by `PctBytes` are read back by the lenient decoder. */
  lemma {:induction false} PercentDecodeLenientPct(bs: seq<byte>, rest: string)
    ensures PercentDecodeLenient(PctBytes(bs) + rest) == bs + PercentDecodeLenient(rest)
  {
    if bs != [] {
      var s := PctBytes(bs) + rest;
      ReadPctByte(bs[0], PctBytes(bs[1..]) + rest);
      assert s == PctByte(bs[0]) + (PctBytes(bs[1..]) + rest);
      assert s[3..] == PctBytes(bs[1..]) + rest;
      PercentDecodeLenientPct(bs[1..], rest);
      assert PercentDecodeLenient(s) == [bs[0]] + PercentDecodeLenient(s[3..]);
      assert [bs[0]] + (bs[1..] + PercentDecodeLenient(rest)) == bs + PercentDecodeLenient(rest);
    } else {
      assert PctBytes(bs) + rest == rest;
      assert bs + PercentDecodeLenient(rest) == PercentDecodeLenient(rest);
    }
  }

  /** The lenient decoder turns `encodeURIComponent`'s output back into the
      UTF-8 bytes of the original string. */
  lemma {:induction false} PercentDecodeLenientOfEncoded(s: string)
    ensures PercentDecodeLenient(EncodeUriComponent(s)) == Utf8Encode(s)
  {
    if s != [] {
      var rest := EncodeUriComponent(s[1..]);
      var e := EncodeUriChar(s[0]) + rest;
      PercentDecodeLenientOfEncoded(s[1..]);
      if IsUnreserved(s[0]) {
        assert e[0] == s[0] && e[1..] == rest;
        assert s[0] != '%';
        assert ReadPct(e) == None;
      } else {
        PercentDecodeLenientPct(Utf8Char(s[0]), rest);
      }
    }
  }

  /** Rust's decoder undoes `encodeURIComponent`. */
  lemma PercentDecodeUtf8OfEncoded(s: string)
    ensures PercentDecodeUtf8(EncodeUriComponent(s)) == Some(s)
  {
    PercentDecodeLenientOfEncoded(s);
    Utf8RoundTrip(s);
  }

  /** `encodeURIComponent` escapes every `/`. */
  lemma {:induction false} EncodedHasNoSlash(s: string)
    ensures '/' !in EncodeUriComponent(s)
  {
    if s != [] {
      EncodedHasNoSlash(s[1..]);
      if !IsUnreserved(s[0]) {
        PctBytesNoSlash(Utf8Char(s[0]));
      }
    }
  }

  lemma {:induction false} PctBytesNoSlash(bs: seq<byte>)
    ensures '/' !in PctBytes(bs)
  {
    if bs != [] {
      PctBytesNoSlash(bs[1..]);
    }
  }
}
