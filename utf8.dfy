/** `str.encode("utf-8")` and the strict `bytes.decode("utf-8")`, which
    rejects overlong forms, surrogates and code points above U+10FFFF. */
module Utf8 {
  import opened Wrappers
  import opened Format

  predicate IsContinuation(b: byte) {
    0x80 <= b < 0xC0
  }

  function EncodeChar(c: char): (bs: seq<byte>)
    ensures 1 <= |bs| <= 4
  {
    var cp := c as int;
    if cp < 0x80 then [cp]
    else if cp < 0x800 then [0xC0 + cp / 64, 0x80 + cp % 64]
    else if cp < 0x10000 then [0xE0 + cp / 4096, 0x80 + (cp / 64) % 64, 0x80 + cp % 64]
    else [0xF0 + cp / 262144, 0x80 + (cp / 4096) % 64, 0x80 + (cp / 64) % 64, 0x80 + cp % 64]
  }

  function Encode(s: string): (bs: seq<byte>)
    ensures |bs| >= |s|
  {
    if s == [] then [] else EncodeChar(s[0]) + Encode(s[1..])
  }

  predicate IsScalar(cp: int) {
    0 <= cp < 0xD800 || 0xE000 <= cp <= 0x10FFFF
  }

  /** The length of the well-formed sequence starting `bs`, and the code
      point it encodes; None when `bs` does not start with one. */
  function DecodeFirst(bs: seq<byte>): (r: Option<(nat, char)>)
    requires bs != []
    ensures r.Some? ==> 1 <= r.value.0 <= |bs| && r.value.0 <= 4
  {
    var b0 := bs[0] as int;
    if b0 < 0x80 then Some((1, b0 as char))
    else if 0xC0 <= b0 < 0xE0 && |bs| >= 2 && IsContinuation(bs[1]) then
      var cp := (b0 - 0xC0) * 64 + (bs[1] as int - 0x80);
      if cp >= 0x80 then Some((2, cp as char)) else None
    else if 0xE0 <= b0 < 0xF0 && |bs| >= 3 && IsContinuation(bs[1]) && IsContinuation(bs[2]) then
      var cp := (b0 - 0xE0) * 4096 + (bs[1] as int - 0x80) * 64 + (bs[2] as int - 0x80);
      if cp >= 0x800 && IsScalar(cp) then Some((3, cp as char)) else None
    else if 0xF0 <= b0 < 0xF8 && |bs| >= 4 && IsContinuation(bs[1]) && IsContinuation(bs[2]) && IsContinuation(bs[3]) then
      var cp := (b0 - 0xF0) * 262144 + (bs[1] as int - 0x80) * 4096 + (bs[2] as int - 0x80) * 64 + (bs[3] as int - 0x80);
      if 0x10000 <= cp <= 0x10FFFF then Some((4, cp as char)) else None
    else None
  }

  /** Strict UTF-8 decoding; None where Python raises UnicodeDecodeError
      (a ValueError). */
  function Decode(bs: seq<byte>): (r: Option<string>)
    decreases |bs|
  {
    if bs == [] then Some([])
    else match DecodeFirst(bs)
      case None => None
      case Some((n, c)) =>
        match Decode(bs[n..])
        case None => None
        case Some(rest) => Some([c] + rest)
  }

  lemma DecodeFirstOfEncodeChar(c: char, rest: seq<byte>)
    ensures DecodeFirst(EncodeChar(c) + rest) == Some((|EncodeChar(c)|, c))
  {
    var cp := c as int;
    if cp < 0x80 {
    } else if cp < 0x800 {
      DecodeTwo(c, rest);
    } else if cp < 0x10000 {
      DecodeThree(c, rest);
    } else {
      DecodeFour(c, rest);
    }
  }

  lemma DecodeTwo(c: char, rest: seq<byte>)
    requires 0x80 <= c as int < 0x800
    ensures DecodeFirst(EncodeChar(c) + rest) == Some((2, c))
  {
    var cp := c as int;
    var b0, b1 := 0xC0 + cp / 64, 0x80 + cp % 64;
    assert EncodeChar(c) == [b0, b1];
    var bs := [b0, b1] + rest;
    assert bs[0] == b0 && bs[1] == b1;
    assert (b0 - 0xC0) * 64 + (b1 - 0x80) == cp;
  }

  lemma DecodeThree(c: char, rest: seq<byte>)
    requires 0x800 <= c as int < 0x10000
    ensures DecodeFirst(EncodeChar(c) + rest) == Some((3, c))
  {
    var cp := c as int;
    var b0, b1, b2 := 0xE0 + cp / 4096, 0x80 + (cp / 64) % 64, 0x80 + cp % 64;
    Digits(cp);
    assert EncodeChar(c) == [b0, b1, b2];
    var bs := [b0, b1, b2] + rest;
    assert bs[0] == b0 && bs[1] == b1 && bs[2] == b2;
  }

  lemma DecodeFour(c: char, rest: seq<byte>)
    requires 0x10000 <= c as int
    ensures DecodeFirst(EncodeChar(c) + rest) == Some((4, c))
  {
    var cp := c as int;
    var b0, b1, b2, b3 := 0xF0 + cp / 262144, 0x80 + (cp / 4096) % 64, 0x80 + (cp / 64) % 64, 0x80 + cp % 64;
    Digits(cp);
    assert EncodeChar(c) == [b0, b1, b2, b3];
    var bs := [b0, b1, b2, b3] + rest;
    assert bs[0] == b0 && bs[1] == b1 && bs[2] == b2 && bs[3] == b3;
  }

  /** A code point in base 64: its three lowest digits and the rest. */
  lemma Digits(cp: nat)
    ensures cp / 4096 * 4096 + (cp / 64) % 64 * 64 + cp % 64 == cp
    ensures cp / 262144 * 262144 + (cp / 4096) % 64 * 4096 + (cp / 64) % 64 * 64 + cp % 64 == cp
  {
    var x := cp / 64;
    var y := x / 64;
    var z := y / 64;
    assert cp == x * 64 + cp % 64;
    assert x == y * 64 + x % 64;
    assert y == z * 64 + y % 64;
    assert cp == y * 4096 + x % 64 * 64 + cp % 64;
    assert cp / 4096 == y;
    assert cp == z * 262144 + y % 64 * 4096 + x % 64 * 64 + cp % 64;
    assert cp / 262144 == z;
  }

  /** Decoding undoes encoding. */
  lemma {:induction false} DecodeEncode(s: string)
    ensures Decode(Encode(s)) == Some(s)
    decreases |s|
  {
    if s != [] {
      var e := EncodeChar(s[0]);
      var bs := Encode(s);
      DecodeFirstOfEncodeChar(s[0], Encode(s[1..]));
      assert bs[|e|..] == Encode(s[1..]);
      DecodeEncode(s[1..]);
      assert s == [s[0]] + s[1..];
    }
  }

  lemma EncodeCharOfDecodeFirst(bs: seq<byte>)
    requires bs != [] && DecodeFirst(bs).Some?
    ensures EncodeChar(DecodeFirst(bs).value.1) == bs[..DecodeFirst(bs).value.0]
  {
    var b0 := bs[0] as int;
    if b0 < 0x80 {
    } else if 0xC0 <= b0 < 0xE0 {
      FromDigits(0, 0, b0 - 0xC0, bs[1] - 0x80);
    } else if 0xE0 <= b0 < 0xF0 {
      FromDigits(0, b0 - 0xE0, bs[1] - 0x80, bs[2] - 0x80);
    } else {
      FromDigits(b0 - 0xF0, bs[1] - 0x80, bs[2] - 0x80, bs[3] - 0x80);
    }
  }

  /** The base-64 digits of a number built from them. */
  lemma FromDigits(d0: nat, d1: nat, d2: nat, d3: nat)
    requires d1 < 64 && d2 < 64 && d3 < 64
    ensures var cp := d0 * 262144 + d1 * 4096 + d2 * 64 + d3;
      cp % 64 == d3 && cp / 64 == d0 * 4096 + d1 * 64 + d2 && (cp / 64) % 64 == d2 &&
      cp / 4096 == d0 * 64 + d1 && (cp / 4096) % 64 == d1 && cp / 262144 == d0
  {
  }

  /** The first character of a decodable sequence, the bytes it takes,
      and the decodable rest. */
  lemma DecodeCons(bs: seq<byte>) returns (n: nat, c: char)
    requires bs != [] && Decode(bs).Some?
    ensures 1 <= n <= |bs| && EncodeChar(c) == bs[..n]
    ensures Decode(bs[n..]).Some? && Decode(bs).value == [c] + Decode(bs[n..]).value
  {
    n, c := DecodeFirst(bs).value.0, DecodeFirst(bs).value.1;
    EncodeCharOfDecodeFirst(bs);
  }

  lemma EncodeCons(c: char, t: string)
    ensures Encode([c] + t) == EncodeChar(c) + Encode(t)
  {
    assert ([c] + t)[1..] == t;
  }

  /** Whatever decodes is the encoding of what it decodes to: the decoder
      accepts exactly the encodings of strings. */
  lemma {:induction false} EncodeDecode(bs: seq<byte>)
    requires Decode(bs).Some?
    ensures Encode(Decode(bs).value) == bs
    decreases |bs|
  {
    if bs != [] {
      var n, c := DecodeCons(bs);
      EncodeDecode(bs[n..]);
      EncodeCons(c, Decode(bs[n..]).value);
      assert bs == bs[..n] + bs[n..];
    }
  }

  /** One byte per character exactly for ASCII strings. */
  lemma {:induction false} EncodeLength(s: string)
    ensures |Encode(s)| == |s| <==> forall i :: 0 <= i < |s| ==> s[i] as int < 0x80
    decreases |s|
  {
    if s != [] {
      EncodeLength(s[1..]);
      assert forall i :: 1 <= i < |s| ==> s[i] == s[1..][i - 1];
    }
  }

  /** An ASCII string encodes to its character codes, one byte each. */
  lemma {:induction false} EncodeAscii(s: string)
    requires forall i :: 0 <= i < |s| ==> s[i] as int < 0x80
    ensures |Encode(s)| == |s|
    ensures forall i :: 0 <= i < |s| ==> Encode(s)[i] as int == s[i] as int
    decreases |s|
  {
    if s != [] {
      EncodeAscii(s[1..]);
      assert forall i :: 1 <= i < |s| ==> s[i] == s[1..][i - 1];
    }
  }
}
