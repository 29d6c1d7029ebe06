/** UTF-8, as Rust's `str::as_bytes` writes it and `String::from_utf8` accepts it: the
    well-formed byte sequences of Table 3-7 of the Unicode Standard (no overlong forms, no
    surrogates, nothing above U+10FFFF). The codec stores a `String` this way. */
module Utf8 {
  import opened Wrappers
  import opened Bytes

  predicate IsScalar(n: int) {
    0 <= n < 0xD800 || 0xE000 <= n < 0x11_0000
  }

  function EncodeChar(c: char): (b: Bytes)
    ensures 1 <= |b| <= 4
  {
    var n := c as int;
    if n < 0x80 then [n]
    else if n < 0x800 then [0xC0 + n / 64, 0x80 + n % 64]
    else if n < 0x1_0000 then [0xE0 + n / 4096, 0x80 + (n / 64) % 64, 0x80 + n % 64]
    else [0xF0 + n / 0x4_0000, 0x80 + (n / 4096) % 64, 0x80 + (n / 64) % 64, 0x80 + n % 64]
  }

  function Encode(s: string): Bytes
  {
    if s == [] then [] else EncodeChar(s[0]) + Encode(s[1..])
  }

  predicate IsCont(b: byte) {
    0x80 <= b < 0xC0
  }

  /** Bounds on the second byte of a three- and a four-byte sequence, by lead byte. */
  function Low3(b0: byte): byte { if b0 == 0xE0 then 0xA0 else 0x80 }
  function High3(b0: byte): byte { if b0 == 0xED then 0x9F else 0xBF }
  function Low4(b0: byte): byte { if b0 == 0xF0 then 0x90 else 0x80 }
  function High4(b0: byte): byte { if b0 == 0xF4 then 0x8F else 0xBF }

  /** The character at the front of d and the number of bytes it occupies, or None when d does
      not start with a well-formed sequence. */
  function DecodeFirst(d: Bytes): (r: Option<(char, nat)>)
    requires |d| > 0
    ensures r.Some? ==> 1 <= r.value.1 <= |d|
  {
    var b0: int := d[0];
    if b0 < 0x80 then Some((b0 as char, 1))
    else if 0xC2 <= b0 <= 0xDF then
      if |d| >= 2 && IsCont(d[1]) then
        Some((Code2(b0, d[1]) as char, 2))
      else None
    else if 0xE0 <= b0 <= 0xEF then
      if |d| >= 3 && Low3(b0) <= d[1] <= High3(b0) && IsCont(d[2]) then
        Some((Code3(b0, d[1], d[2]) as char, 3))
      else None
    else if 0xF0 <= b0 <= 0xF4 then
      if |d| >= 4 && Low4(b0) <= d[1] <= High4(b0) && IsCont(d[2]) && IsCont(d[3]) then
        Some((Code4(b0, d[1], d[2], d[3]) as char, 4))
      else None
    else None
  }

  /** The code point a two-, three- or four-byte sequence carries. */
  function Code2(b0: int, b1: int): int { (b0 - 0xC0) * 64 + (b1 - 0x80) }
  function Code3(b0: int, b1: int, b2: int): int { (b0 - 0xE0) * 4096 + (b1 - 0x80) * 64 + (b2 - 0x80) }
  function Code4(b0: int, b1: int, b2: int, b3: int): int {
    (b0 - 0xF0) * 0x4_0000 + (b1 - 0x80) * 4096 + (b2 - 0x80) * 64 + (b3 - 0x80)
  }

  /** `String::from_utf8`: the text d spells, or None when d is not well-formed UTF-8. */
  function Decode(d: Bytes): Option<string>
    decreases |d|
  {
    if d == [] then Some([])
    else match DecodeFirst(d)
      case None => None
      case Some((c, k)) =>
        match Decode(d[k..])
        case None => None
        case Some(s) => Some([c] + s)
  }

  lemma DecodeFirstOfEncodeChar(c: char, rest: Bytes)
    ensures DecodeFirst(EncodeChar(c) + rest) == Some((c, |EncodeChar(c)|))
  {
    var n := c as int;
    if n < 0x80 {
    } else if n < 0x800 {
      FirstOfTwo(c, rest);
    } else if n < 0x1_0000 {
      FirstOfThree(c, rest);
    } else {
      FirstOfFour(c, rest);
    }
  }

  lemma FirstOfTwo(c: char, rest: Bytes)
    requires 0x80 <= c as int < 0x800
    ensures DecodeFirst(EncodeChar(c) + rest) == Some((c, 2))
  {
    var n := c as int;
    var d := EncodeChar(c) + rest;
    TwoBytes(n);
    assert d[0] == 0xC0 + n / 64 && d[1] == 0x80 + n % 64;
  }

  lemma FirstOfThree(c: char, rest: Bytes)
    requires 0x800 <= c as int < 0x1_0000
    ensures DecodeFirst(EncodeChar(c) + rest) == Some((c, 3))
  {
    var n := c as int;
    var d := EncodeChar(c) + rest;
    ThreeBytes(n);
    assert d[0] == 0xE0 + n / 4096 && d[1] == 0x80 + (n / 64) % 64 && d[2] == 0x80 + n % 64;
  }

  lemma FirstOfFour(c: char, rest: Bytes)
    requires 0x1_0000 <= c as int
    ensures DecodeFirst(EncodeChar(c) + rest) == Some((c, 4))
  {
    var n := c as int;
    var d := EncodeChar(c) + rest;
    FourBytes(n);
    assert d[0] == 0xF0 + n / 0x4_0000 && d[1] == 0x80 + (n / 4096) % 64;
    assert d[2] == 0x80 + (n / 64) % 64 && d[3] == 0x80 + n % 64;
  }

  lemma TwoBytes(n: int)
    requires 0x80 <= n < 0x800
    ensures 0xC2 <= 0xC0 + n / 64 <= 0xDF && Code2(0xC0 + n / 64, 0x80 + n % 64) == n
  {
  }

  lemma ThreeBytes(n: int)
    requires 0x800 <= n < 0x1_0000 && IsScalar(n)
    ensures var b0, b1 := 0xE0 + n / 4096, 0x80 + (n / 64) % 64;
      0xE0 <= b0 <= 0xEF && Low3(b0) <= b1 <= High3(b0) && Code3(b0, b1, 0x80 + n % 64) == n
  {
    assert n == (n / 4096) * 4096 + ((n / 64) % 64) * 64 + n % 64;
  }

  lemma FourBytes(n: int)
    requires 0x1_0000 <= n < 0x11_0000
    ensures var b0, b1 := 0xF0 + n / 0x4_0000, 0x80 + (n / 4096) % 64;
      0xF0 <= b0 <= 0xF4 && Low4(b0) <= b1 <= High4(b0)
      && Code4(b0, b1, 0x80 + (n / 64) % 64, 0x80 + n % 64) == n
  {
    assert n == (n / 0x4_0000) * 0x4_0000 + ((n / 4096) % 64) * 4096 + ((n / 64) % 64) * 64 + n % 64;
  }

  lemma Inverse2(b0: int, b1: int)
    requires 0xC2 <= b0 <= 0xDF && 0x80 <= b1 < 0xC0
    ensures var n := Code2(b0, b1); 0x80 <= n < 0x800 && n / 64 == b0 - 0xC0 && n % 64 == b1 - 0x80
  {
  }

  lemma Inverse3(b0: int, b1: int, b2: int)
    requires 0xE0 <= b0 <= 0xEF && Low3(b0) <= b1 <= High3(b0) && 0x80 <= b2 < 0xC0
    ensures var n := Code3(b0, b1, b2);
      0x800 <= n < 0x1_0000 && n / 4096 == b0 - 0xE0 && (n / 64) % 64 == b1 - 0x80 && n % 64 == b2 - 0x80
  {
    var n := Code3(b0, b1, b2);
    assert n / 64 == (b0 - 0xE0) * 64 + (b1 - 0x80);
  }

  lemma Inverse4(b0: int, b1: int, b2: int, b3: int)
    requires 0xF0 <= b0 <= 0xF4 && Low4(b0) <= b1 <= High4(b0) && 0x80 <= b2 < 0xC0 && 0x80 <= b3 < 0xC0
    ensures var n := Code4(b0, b1, b2, b3);
      0x1_0000 <= n < 0x11_0000 && n / 0x4_0000 == b0 - 0xF0 && (n / 4096) % 64 == b1 - 0x80
      && (n / 64) % 64 == b2 - 0x80 && n % 64 == b3 - 0x80
  {
    var n := Code4(b0, b1, b2, b3);
    assert n / 64 == (b0 - 0xF0) * 4096 + (b1 - 0x80) * 64 + (b2 - 0x80);
    assert n / 4096 == (b0 - 0xF0) * 64 + (b1 - 0x80);
  }

  lemma EncodeCharOfDecodeFirst(d: Bytes)
    requires |d| > 0 && DecodeFirst(d).Some?
    ensures EncodeChar(DecodeFirst(d).value.0) == d[..DecodeFirst(d).value.1]
  {
    var b0: int := d[0];
    var k := DecodeFirst(d).value.1;
    if k == 2 {
      Inverse2(b0, d[1]);
    } else if k == 3 {
      Inverse3(b0, d[1], d[2]);
    } else if k == 4 {
      Inverse4(b0, d[1], d[2], d[3]);
    }
  }

  /** Text survives a trip through UTF-8. */
  lemma {:induction false} DecodeEncode(s: string)
    ensures Decode(Encode(s)) == Some(s)
  {
    if s != [] {
      var e := EncodeChar(s[0]);
      DecodeFirstOfEncodeChar(s[0], Encode(s[1..]));
      assert (e + Encode(s[1..]))[|e|..] == Encode(s[1..]);
      DecodeEncode(s[1..]);
      assert Encode(s) == e + Encode(s[1..]);
      assert [s[0]] + s[1..] == s;
    }
  }

  /** Every well-formed byte string is the encoding of the text it decodes to. */
  lemma {:induction false} EncodeDecode(d: Bytes)
    requires Decode(d).Some?
    ensures Encode(Decode(d).value) == d
    decreases |d|
  {
    if d != [] {
      var c, k := FirstPiece(d);
      var s := Decode(d[k..]).value;
      EncodeCons(c, s);
      EncodeDecode(d[k..]);
      assert d == d[..k] + d[k..];
    }
  }

  /** A well-formed non-empty byte string starts with the encoding of its first character,
      and the rest decodes to the rest of the text. */
  lemma FirstPiece(d: Bytes) returns (c: char, k: nat)
    requires d != [] && Decode(d).Some?
    ensures 0 < k <= |d| && EncodeChar(c) == d[..k]
    ensures Decode(d[k..]).Some? && Decode(d).value == [c] + Decode(d[k..]).value
  {
    DecodeUnfold(d);
    c, k := DecodeFirst(d).value.0, DecodeFirst(d).value.1;
    EncodeCharOfDecodeFirst(d);
  }

  /** A well-formed non-empty byte string decodes to its first character, then the rest. */
  lemma DecodeUnfold(d: Bytes)
    requires d != [] && Decode(d).Some?
    ensures DecodeFirst(d).Some?
    ensures var k := DecodeFirst(d).value.1;
      Decode(d[k..]).Some? && Decode(d).value == [DecodeFirst(d).value.0] + Decode(d[k..]).value
  {
  }

  lemma EncodeCons(c: char, s: string)
    ensures Encode([c] + s) == EncodeChar(c) + Encode(s)
  {
    assert ([c] + s)[1..] == s;
  }
}
