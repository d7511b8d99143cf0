/** Bytes and the textual renderings the protocol code relies on: two-digit
    hexadecimal bytes, `int(s, 16)`, `bytes.fromhex`, zero-padded `X` and
    decimal formatting, big-endian integers and `int.to_bytes`. */
module Format {
  import opened Wrappers

  type byte = x: int | 0 <= x < 256

  predicate IsHexDigit(c: char) {
    '0' <= c <= '9' || 'a' <= c <= 'f' || 'A' <= c <= 'F'
  }

  predicate IsUpperHexDigit(c: char) {
    '0' <= c <= '9' || 'A' <= c <= 'F'
  }

  predicate IsHex(s: string) {
    forall i :: 0 <= i < |s| ==> IsHexDigit(s[i])
  }

  predicate IsUpperHex(s: string) {
    forall i :: 0 <= i < |s| ==> IsUpperHexDigit(s[i])
  }

  /** The value of one hexadecimal digit, either case. */
  function DigitValue(c: char): (d: nat)
    requires IsHexDigit(c)
    ensures d < 16
  {
    if '0' <= c <= '9' then c as int - '0' as int
    else if 'a' <= c <= 'f' then c as int - 'a' as int + 10
    else c as int - 'A' as int + 10
  }

  /** The upper-case digit for a value below 16 (Python's `X` format). */
  function DigitChar(d: nat): (c: char)
    requires d < 16
    ensures IsUpperHexDigit(c) && IsHexDigit(c) && DigitValue(c) == d
  {
    if d < 10 then (('0' as int) + d) as char else (('A' as int) + d - 10) as char
  }

  lemma DigitCharOfValue(c: char)
    requires IsUpperHexDigit(c)
    ensures DigitChar(DigitValue(c)) == c
  {
  }

  /** `f"{b:02X}"` for one byte. */
  function HexByte(b: byte): (s: string)
    ensures |s| == 2 && IsUpperHex(s)
  {
    [DigitChar(b / 16), DigitChar(b % 16)]
  }

  lemma HexByteInjective(a: byte, b: byte)
    requires HexByte(a) == HexByte(b)
    ensures a == b
  {
    assert DigitValue(HexByte(a)[0]) == a / 16 && DigitValue(HexByte(a)[1]) == a % 16;
  }

  /** `bytes.hex().upper()`. */
  function Hex(bs: seq<byte>): (s: string)
    ensures |s| == 2 * |bs| && IsUpperHex(s)
  {
    if bs == [] then [] else HexByte(bs[0]) + Hex(bs[1..])
  }

  lemma {:induction false} HexAppend(a: seq<byte>, b: seq<byte>)
    ensures Hex(a + b) == Hex(a) + Hex(b)
  {
    if a == [] {
      assert a + b == b;
    } else {
      assert (a + b)[1..] == a[1..] + b;
      HexAppend(a[1..], b);
    }
  }

  /** Different byte sequences have different renderings. */
  lemma {:induction false} HexInjective(a: seq<byte>, b: seq<byte>)
    requires Hex(a) == Hex(b)
    ensures a == b
    decreases |a|
  {
    if a != [] {
      assert Hex(a)[..2] == HexByte(a[0]) && Hex(b)[..2] == HexByte(b[0]);
      HexByteInjective(a[0], b[0]);
      assert Hex(a)[2..] == Hex(a[1..]) && Hex(b)[2..] == Hex(b[1..]);
      HexInjective(a[1..], b[1..]);
      assert a == [a[0]] + a[1..] && b == [b[0]] + b[1..];
    }
  }

  lemma HexAt(bs: seq<byte>, i: nat)
    requires i < |bs|
    ensures Hex(bs)[2 * i .. 2 * i + 2] == HexByte(bs[i])
  {
    HexSplit(bs, i);
    SliceOfJoin(Hex(bs[..i]), HexByte(bs[i]), Hex(bs[i + 1..]));
  }

  lemma HexSplit(bs: seq<byte>, i: nat)
    requires i < |bs|
    ensures Hex(bs) == Hex(bs[..i]) + (HexByte(bs[i]) + Hex(bs[i + 1..]))
  {
    HexAppend(bs[..i], bs[i..]);
    assert bs == bs[..i] + bs[i..];
    assert Hex(bs[i..]) == HexByte(bs[i]) + Hex(bs[i + 1..]);
  }

  lemma SliceOfJoin<T>(a: seq<T>, x: seq<T>, y: seq<T>)
    ensures (a + (x + y))[|a|..|a| + |x|] == x
  {
  }

  /** The list of two-digit upper-case strings the code builds from a received
      datagram (`bytes.hex().upper()` split into pairs). */
  function HexList(bs: seq<byte>): (h: seq<string>)
    ensures |h| == |bs|
  {
    seq(|bs|, i requires 0 <= i < |bs| => HexByte(bs[i]))
  }

  function Concat(ss: seq<string>): string {
    if ss == [] then [] else ss[0] + Concat(ss[1..])
  }

  lemma {:induction false} ConcatAppend(a: seq<string>, b: seq<string>)
    ensures Concat(a + b) == Concat(a) + Concat(b)
  {
    if a == [] {
      assert a + b == b;
    } else {
      assert (a + b)[1..] == a[1..] + b;
      ConcatAppend(a[1..], b);
    }
  }

  lemma {:induction false} ConcatHexList(bs: seq<byte>)
    ensures Concat(HexList(bs)) == Hex(bs)
  {
    if bs != [] {
      assert HexList(bs)[1..] == HexList(bs[1..]);
      ConcatHexList(bs[1..]);
    }
  }

  /** `[s[i:i+2] for i in range(0, len(s), 2)]`: consecutive two-character
      chunks, the last one shorter when the length is odd. */
  function Chunks(s: string): (h: seq<string>)
    ensures |h| == (|s| + 1) / 2
    decreases |s|
  {
    if s == [] then []
    else if |s| <= 2 then [s]
    else [s[..2]] + Chunks(s[2..])
  }

  /** Joining the chunks gives the string back. */
  lemma {:induction false} ChunksConcat(s: string)
    ensures Concat(Chunks(s)) == s
    decreases |s|
  {
    if s != [] {
      if |s| <= 2 {
        assert Concat(Chunks(s)) == s + Concat([]);
      } else {
        ChunksConcat(s[2..]);
        assert Chunks(s)[1..] == Chunks(s[2..]);
        assert s == s[..2] + s[2..];
      }
    }
  }

  /** Splitting the upper-case hex rendering of bytes gives one chunk per byte. */
  lemma {:induction false} ChunksOfHex(bs: seq<byte>)
    ensures Chunks(Hex(bs)) == HexList(bs)
    decreases |bs|
  {
    if bs != [] {
      var s := Hex(bs);
      assert s == HexByte(bs[0]) + Hex(bs[1..]);
      assert s[..2] == HexByte(bs[0]) && s[2..] == Hex(bs[1..]);
      ChunksOfHex(bs[1..]);
      if |bs| > 1 {
        assert Chunks(s) == [HexByte(bs[0])] + HexList(bs[1..]);
      } else {
        assert Hex(bs[1..]) == [] && s == HexByte(bs[0]);
        assert HexList(bs) == [HexByte(bs[0])];
        assert Chunks(s) == [s];
      }
    }
  }

  /** Joining two-character strings and splitting again gives them back. */
  lemma {:induction false} ChunksOfConcat(h: seq<string>)
    requires forall i :: 0 <= i < |h| ==> |h[i]| == 2
    ensures |Concat(h)| == 2 * |h|
    ensures Chunks(Concat(h)) == h
    decreases |h|
  {
    if h != [] {
      ChunksOfConcat(h[1..]);
      var s := Concat(h);
      assert s == h[0] + Concat(h[1..]);
      assert s[..2] == h[0] && s[2..] == Concat(h[1..]);
      if |h| > 1 {
        assert Chunks(s) == [h[0]] + h[1..];
      } else {
        assert Concat(h[1..]) == [];
        assert s == h[0];
        assert h == [s];
        assert Chunks(s) == [s];
      }
    }
  }

  /** The numeric value of a string of hex digits, most significant first. */
  function HexValue(s: string): nat
    requires IsHex(s)
  {
    if s == [] then 0 else HexValue(s[..|s| - 1]) * 16 + DigitValue(s[|s| - 1])
  }

  /** `int(s, 16)` on a string of hex digits; None where Python raises
      ValueError (an empty string, a character that is not a hex digit). */
  function ParseHex(s: string): (r: Option<nat>)
    ensures r.Some? <==> s != [] && IsHex(s)
  {
    if s != [] && IsHex(s) then Some(HexValue(s)) else None
  }

  /** The unsigned big-endian value of a byte sequence (`int.from_bytes(bs, "big")`). */
  function BigEndian(bs: seq<byte>): nat {
    if bs == [] then 0 else BigEndian(bs[..|bs| - 1]) * 256 + bs[|bs| - 1]
  }

  lemma {:induction false} HexValueOfHex(bs: seq<byte>)
    ensures HexValue(Hex(bs)) == BigEndian(bs)
    decreases |bs|
  {
    if bs != [] {
      var init, last := bs[..|bs| - 1], bs[|bs| - 1];
      assert bs == init + [last];
      HexValueSnoc(init, last);
      HexValueOfHex(init);
    }
  }

  /** One more byte is two more digits: sixteen times sixteen. */
  lemma HexValueSnoc(init: seq<byte>, last: byte)
    ensures HexValue(Hex(init + [last])) == HexValue(Hex(init)) * 256 + last
  {
    HexAppend(init, [last]);
    assert Hex([last]) == [DigitChar(last / 16), DigitChar(last % 16)];
    HexValuePair(Hex(init), DigitChar(last / 16), DigitChar(last % 16));
  }

  lemma HexValuePair(t: string, x: char, y: char)
    requires IsHex(t) && IsHexDigit(x) && IsHexDigit(y)
    ensures IsHex(t + [x, y])
    ensures HexValue(t + [x, y]) == HexValue(t) * 256 + DigitValue(x) * 16 + DigitValue(y)
  {
    var s := t + [x, y];
    assert s[..|s| - 1] == t + [x];
    assert (t + [x])[..|t|] == t;
  }

  /** Reading a byte's two-digit rendering back with `int(_, 16)` gives the byte. */
  lemma ParseHexByte(b: byte)
    ensures ParseHex(HexByte(b)) == Some(b)
  {
    HexValueOfHex([b]);
    assert Hex([b]) == HexByte(b);
  }

  lemma ParseHexOfHex(bs: seq<byte>)
    requires bs != []
    ensures ParseHex(Hex(bs)) == Some(BigEndian(bs))
  {
    HexValueOfHex(bs);
  }

  lemma HexValueOfByteString(s: string)
    requires |s| == 2 && IsHex(s)
    ensures HexValue(s) == DigitValue(s[0]) * 16 + DigitValue(s[1]) < 256
  {
    var init := s[..1];
    assert init[..0] == [] && init[0] == s[0];
    assert HexValue(init) == DigitValue(s[0]);
  }

  /** The bytes written by the hex digit pairs of `s`. */
  function HexPairs(s: string): (bs: seq<byte>)
    requires |s| % 2 == 0 && IsHex(s)
    ensures |bs| == |s| / 2
    decreases |s|
  {
    if s == [] then [] else [DigitValue(s[0]) * 16 + DigitValue(s[1])] + HexPairs(s[2..])
  }

  /** `bytes.fromhex(s)`: pairs of hex digits; ValueError otherwise. */
  function FromHex(s: string): (r: Result<seq<byte>>)
    ensures r.Ok? <==> |s| % 2 == 0 && IsHex(s)
    ensures r.Ok? ==> |r.value| == |s| / 2
    ensures r.Err? ==> r.error == ValueError
  {
    if |s| % 2 == 0 && IsHex(s) then Ok(HexPairs(s)) else Err(ValueError)
  }

  lemma ByteOfDigits(c0: char, c1: char)
    requires IsUpperHexDigit(c0) && IsUpperHexDigit(c1)
    ensures HexByte(DigitValue(c0) * 16 + DigitValue(c1)) == [c0, c1]
  {
    var b := DigitValue(c0) * 16 + DigitValue(c1);
    assert b / 16 == DigitValue(c0) && b % 16 == DigitValue(c1);
    DigitCharOfValue(c0);
    DigitCharOfValue(c1);
  }

  lemma {:induction false} FromHexOfHex(bs: seq<byte>)
    ensures FromHex(Hex(bs)) == Ok(bs)
    decreases |bs|
  {
    if bs != [] {
      var s := Hex(bs);
      assert s == HexByte(bs[0]) + Hex(bs[1..]);
      assert s[2..] == Hex(bs[1..]);
      assert s[0] == DigitChar(bs[0] / 16) && s[1] == DigitChar(bs[0] % 16);
      assert IsHex(s) by {
        forall i | 0 <= i < |s| ensures IsHexDigit(s[i]) {
          assert IsUpperHexDigit(s[i]);
        }
      }
      FromHexOfHex(bs[1..]);
      var b := bs[0];
      assert DigitValue(s[0]) * 16 + DigitValue(s[1]) == b;
      assert HexPairs(s) == [b] + HexPairs(s[2..]);
      assert HexPairs(s) == [b] + bs[1..];
      assert bs == [b] + bs[1..];
    }
  }

  lemma HexOfFromHex(s: string)
    requires |s| % 2 == 0 && IsUpperHex(s)
    ensures FromHex(s).Ok? && Hex(FromHex(s).value) == s
  {
    UpperIsHex(s);
    HexOfHexPairs(s);
  }

  lemma UpperIsHex(s: string)
    requires IsUpperHex(s)
    ensures IsHex(s)
  {
  }

  lemma UpperHexTail(s: string)
    requires |s| >= 2 && IsUpperHex(s)
    ensures IsUpperHex(s[2..]) && IsHex(s[2..])
  {
    assert forall i :: 0 <= i < |s| - 2 ==> s[2..][i] == s[i + 2];
  }

  lemma HexCons(b: byte, rest: seq<byte>)
    ensures Hex([b] + rest) == HexByte(b) + Hex(rest)
  {
    assert ([b] + rest)[1..] == rest;
  }

  lemma {:induction false} HexOfHexPairs(s: string)
    requires |s| % 2 == 0 && IsUpperHex(s) && IsHex(s)
    ensures Hex(HexPairs(s)) == s
    decreases |s|
  {
    if s != [] {
      UpperHexTail(s);
      HexOfHexPairs(s[2..]);
      ByteOfDigits(s[0], s[1]);
      HexCons(DigitValue(s[0]) * 16 + DigitValue(s[1]), HexPairs(s[2..]));
      assert s == [s[0], s[1]] + s[2..];
    }
  }

  /** `str.upper()` on ASCII letters; every other character is kept. */
  function Upper(s: string): (r: string)
    ensures |r| == |s|
  {
    seq(|s|, i requires 0 <= i < |s| => if 'a' <= s[i] <= 'z' then (s[i] as int - 32) as char else s[i])
  }

  lemma UpperOfUpperHex(s: string)
    requires IsUpperHex(s)
    ensures Upper(s) == s
  {
  }

  lemma UpperAppend(a: string, b: string)
    ensures Upper(a + b) == Upper(a) + Upper(b)
  {
  }

  /** `str.lower()` on ASCII letters; every other character is kept. */
  function Lower(s: string): (r: string)
    ensures |r| == |s|
  {
    seq(|s|, i requires 0 <= i < |s| => if 'A' <= s[i] <= 'Z' then (s[i] as int + 32) as char else s[i])
  }

  /** Upper-casing the lower-case rendering gives the upper-case rendering back. */
  lemma UpperLower(s: string)
    requires IsUpperHex(s)
    ensures Upper(Lower(s)) == s
  {
  }

  lemma LowerAppend(a: string, b: string)
    ensures Lower(a + b) == Lower(a) + Lower(b)
  {
  }

  /** An upper-case hex prefix followed by a lower-cased hex rendering
      upper-cases to the two renderings side by side. */
  lemma UpperMixed(a: string, b: string)
    requires IsUpperHex(a) && IsUpperHex(b)
    ensures Upper(a + Lower(b)) == a + b
  {
    assert forall i :: 0 <= i < |a + Lower(b)| ==> (a + Lower(b))[i] == if i < |a| then a[i] else Lower(b)[i - |a|];
  }

  /** The same for an upper-case prefix and three lower-cased renderings. */
  lemma UpperMixedThree(a: string, x: string, y: string, z: string)
    requires IsUpperHex(a) && IsUpperHex(x) && IsUpperHex(y) && IsUpperHex(z)
    ensures Upper(a + Lower(x) + Lower(y) + Lower(z)) == a + x + y + z
  {
    LowerAppend(x, y);
    LowerAppend(x + y, z);
    assert a + Lower(x) + Lower(y) + Lower(z) == a + Lower(x + y + z);
    UpperHexAppend(x, y);
    UpperHexAppend(x + y, z);
    UpperMixed(a, x + y + z);
    assert a + (x + y + z) == a + x + y + z;
  }

  lemma AppendAssoc<T>(a: seq<T>, b: seq<T>, c: seq<T>)
    ensures a + (b + c) == a + b + c
  {
  }

  lemma UpperHexAppend(a: string, b: string)
    requires IsUpperHex(a) && IsUpperHex(b)
    ensures IsUpperHex(a + b)
  {
    assert forall i :: 0 <= i < |a + b| ==> (a + b)[i] == if i < |a| then a[i] else b[i - |a|];
  }

  /** Upper-casing keeps hex digits hex digits, and makes them upper-case. */
  lemma UpperOfHex(s: string)
    requires IsHex(s)
    ensures IsUpperHex(Upper(s))
  {
  }

  /** The number of hexadecimal digits `n` is written with (at least one). */
  function HexWidth(n: nat): (w: nat)
    ensures w >= 1
  {
    if n < 16 then 1 else 1 + HexWidth(n / 16)
  }

  /** The `w` low-order upper-case hex digits of `n`, most significant first. */
  function HexFixed(n: nat, w: nat): (s: string)
    ensures |s| == w && IsUpperHex(s)
  {
    if w == 0 then [] else HexFixed(n / 16, w - 1) + [DigitChar(n % 16)]
  }

  /** `f"{n:0wX}"`: upper-case hex, left-padded with zeros to at least `w` characters. */
  function HexPad(n: nat, w: nat): (s: string)
    ensures |s| == (if HexWidth(n) < w then w else HexWidth(n))
    ensures IsUpperHex(s)
  {
    HexFixed(n, if HexWidth(n) < w then w else HexWidth(n))
  }

  lemma DivSplit(n: nat)
    ensures n / 16 / 16 == n / 256
    ensures (n / 16) % 16 == (n % 256) / 16
  {
    var q, r := n / 256, n % 256;
    assert n == 16 * (16 * q + r / 16) + r % 16;
  }

  /** Two more digits are one more byte. */
  lemma HexFixedByte(n: nat, w: nat)
    ensures HexFixed(n, w + 2) == HexFixed(n / 256, w) + HexByte(n % 256)
  {
    DivSplit(n);
  }

  lemma HexFixedTwo(n: nat)
    requires n < 256
    ensures HexFixed(n, 2) == HexByte(n)
  {
    assert HexFixed(n, 2) == HexFixed(n / 16, 1) + [DigitChar(n % 16)];
    assert HexFixed(n / 16, 1) == HexFixed(n / 16 / 16, 0) + [DigitChar(n / 16 % 16)];
    assert n / 16 % 16 == n / 16;
  }

  /** For a byte, the two-digit padded rendering is the byte's rendering. */
  lemma HexPadByte(n: nat)
    requires n < 256
    ensures HexPad(n, 2) == HexByte(n)
  {
    if n >= 16 {
      assert HexWidth(n) == 2;
    }
    HexFixedTwo(n);
  }

  lemma HexFixedWord(n: nat)
    requires n < 0x10000
    ensures HexFixed(n, 4) == HexByte(n / 256) + HexByte(n % 256)
  {
    HexFixedByte(n, 2);
    HexFixedTwo(n / 256);
  }

  /** Below 0x10000 the four-digit rendering is high byte then low byte. */
  lemma HexPadWord(n: nat)
    requires n < 0x10000
    ensures HexPad(n, 4) == HexByte(n / 256) + HexByte(n % 256)
  {
    HexWidthOfWord(n);
    HexFixedWord(n);
  }

  lemma HexWidthOfWord(n: nat)
    requires n < 0x10000
    ensures HexWidth(n) <= 4
  {
    if n >= 16 {
      var a := n / 16;
      assert a < 4096;
      if a >= 16 {
        var b := a / 16;
        assert b < 256;
        if b >= 16 {
          assert b / 16 < 16;
          assert HexWidth(b) == 2;
        }
      }
    }
  }

  /** The decimal digits of `n`, most significant first. */
  function DecimalDigits(n: nat): (ds: seq<nat>)
    ensures 1 <= |ds|
    ensures forall i :: 0 <= i < |ds| ==> ds[i] < 10
  {
    if n < 10 then [n] else DecimalDigits(n / 10) + [n % 10]
  }

  predicate IsDecimalDigit(c: char) {
    '0' <= c <= '9'
  }

  /** `str(n)` for a natural number. */
  function Decimal(n: nat): (s: string)
    ensures |s| >= 1
    ensures forall i :: 0 <= i < |s| ==> IsDecimalDigit(s[i])
  {
    var ds := DecimalDigits(n);
    seq(|ds|, i requires 0 <= i < |ds| => (('0' as int) + ds[i]) as char)
  }

  /** `f"{n:02}"`: decimal, left-padded with a zero to at least two characters. */
  function DecimalPad2(n: nat): (s: string)
    ensures |s| >= 2
    ensures forall i :: 0 <= i < |s| ==> IsDecimalDigit(s[i])
  {
    if n < 10 then "0" + Decimal(n) else Decimal(n)
  }

  function DecimalValue(s: string): nat
    requires forall i :: 0 <= i < |s| ==> IsDecimalDigit(s[i])
  {
    if s == [] then 0
    else
      var last := s[|s| - 1];
      assert IsDecimalDigit(last);
      DecimalValue(s[..|s| - 1]) * 10 + (last as int - '0' as int)
  }

  /** `int(s)` on a string of decimal digits; None where Python raises ValueError. */
  function ParseDecimal(s: string): (r: Option<nat>)
    ensures r.Some? <==> s != [] && forall i :: 0 <= i < |s| ==> IsDecimalDigit(s[i])
  {
    if s != [] && forall i :: 0 <= i < |s| ==> IsDecimalDigit(s[i]) then Some(DecimalValue(s)) else None
  }

  /** The ASCII characters `int()` strips as white space: tab to carriage
      return, the separators 0x1C to 0x1F, and space. */
  predicate IsPySpace(c: char) {
    9 <= c as int <= 13 || 28 <= c as int <= 32
  }

  /** `s` without its leading white space. */
  function TrimStart(s: string): (r: string)
    ensures |r| <= |s| && r == s[|s| - |r|..]
    ensures r != [] ==> !IsPySpace(r[0])
    decreases |s|
  {
    if s != [] && IsPySpace(s[0]) then TrimStart(s[1..]) else s
  }

  /** `s` without its trailing white space. */
  function TrimEnd(s: string): (r: string)
    ensures |r| <= |s| && r == s[..|r|]
    ensures r != [] ==> !IsPySpace(r[|r| - 1])
    decreases |s|
  {
    if s != [] && IsPySpace(s[|s| - 1]) then TrimEnd(s[..|s| - 1]) else s
  }

  /** The digits of `s` when it is decimal digits with single underscores
      between two of them; None otherwise. */
  function UnderscoredDigits(s: string): (r: Option<string>)
    ensures r.Some? ==> r.value != [] && forall i :: 0 <= i < |r.value| ==> IsDecimalDigit(r.value[i])
  {
    if s == [] || !IsDecimalDigit(s[0]) then None
    else if |s| == 1 then Some(s)
    else
      var rest := if s[1] == '_' then UnderscoredDigits(s[2..]) else UnderscoredDigits(s[1..]);
      if rest.None? then None else Some([s[0]] + rest.value)
  }

  /** Plain digits are their own digits. */
  lemma {:induction false} PlainUnderscored(d: string)
    ensures ParseDecimal(d).Some? ==> UnderscoredDigits(d) == Some(d)
    decreases |d|
  {
    if ParseDecimal(d).Some? && |d| > 1 {
      assert forall i :: 0 <= i < |d| - 1 ==> d[1..][i] == d[i + 1];
      PlainUnderscored(d[1..]);
      assert d == [d[0]] + d[1..];
    }
  }

  /** `int(s)` in base 10 on ASCII text: surrounding white space, an
      optional sign, and digits with single underscores between them; None
      where Python raises ValueError. On plain digits it is `ParseDecimal`. */
  function PyInt(s: string): (r: Option<int>)
    ensures ParseDecimal(s).Some? ==> r == Some(ParseDecimal(s).value)
  {
    PlainTrimmed(s);
    SignedDigits(TrimEnd(TrimStart(s)))
  }

  /** Plain digits have no white space to strip. */
  lemma PlainTrimmed(s: string)
    ensures ParseDecimal(s).Some? ==> TrimEnd(TrimStart(s)) == s
  {
  }

  /** The stripped text: an optional sign, then the digits. */
  function SignedDigits(t: string): (r: Option<int>)
    ensures ParseDecimal(t).Some? ==> r == Some(ParseDecimal(t).value)
  {
    PlainUnderscored(t);
    if t != [] && (t[0] == '+' || t[0] == '-') then
      var digits := UnderscoredDigits(t[1..]);
      if digits.None? then None
      else
        var v: int := DecimalValue(digits.value);
        Some(if t[0] == '-' then -v else v)
    else
      var digits := UnderscoredDigits(t);
      if digits.None? then None else Some(DecimalValue(digits.value))
  }

  /** White space before or after the text does not change `int()`. */
  lemma PyIntSpace(s: string, c: char)
    requires IsPySpace(c)
    ensures PyInt([c] + s) == PyInt(s)
    ensures PyInt(s + [c]) == PyInt(s)
  {
    assert ([c] + s)[1..] == s;
    TrimSnoc(s, c);
  }

  lemma {:induction false} TrimSnoc(s: string, c: char)
    requires IsPySpace(c)
    ensures TrimEnd(TrimStart(s + [c])) == TrimEnd(TrimStart(s))
    decreases |s|
  {
    if s == [] {
      assert TrimStart([c]) == TrimStart([c][1..]);
    } else if IsPySpace(s[0]) {
      assert (s + [c])[1..] == s[1..] + [c];
      TrimSnoc(s[1..], c);
    } else {
      assert (s + [c])[..|s|] == s;
    }
  }

  /** A sign in front of plain digits. */
  lemma PyIntSigned(d: string)
    requires ParseDecimal(d).Some?
    ensures PyInt("-" + d) == Some(-(DecimalValue(d) as int))
    ensures PyInt("+" + d) == Some(DecimalValue(d))
  {
    assert "-" + d == ['-'] + d && "+" + d == ['+'] + d;
    SignTrimmed('-', d);
    SignedOfPlain('-', d);
    SignTrimmed('+', d);
    SignedOfPlain('+', d);
  }

  lemma SignedOfPlain(sign: char, d: string)
    requires sign == '-' || sign == '+'
    requires ParseDecimal(d).Some?
    ensures SignedDigits([sign] + d) == Some(if sign == '-' then -(DecimalValue(d) as int) else DecimalValue(d))
  {
    var t := [sign] + d;
    PlainUnderscored(d);
    assert t[0] == sign && t[1..] == d;
  }

  lemma SignTrimmed(sign: char, d: string)
    requires sign == '-' || sign == '+'
    requires ParseDecimal(d).Some?
    ensures TrimEnd(TrimStart([sign] + d)) == [sign] + d
  {
    assert ([sign] + d)[|d|] == d[|d| - 1];
  }

  /** An underscore between two runs of digits is dropped. */
  lemma {:induction false} Underscored(a: string, b: string)
    requires ParseDecimal(a).Some? && ParseDecimal(b).Some?
    ensures UnderscoredDigits(a + "_" + b) == Some(a + b)
    decreases |a|
  {
    if |a| == 1 {
      UnderscoredOne(a[0], b);
      assert a == [a[0]];
    } else {
      DigitsTail(a);
      Underscored(a[1..], b);
      UnderscoredStep(a, b);
    }
  }

  /** One digit, the underscore, then digits. */
  lemma UnderscoredOne(c: char, b: string)
    requires IsDecimalDigit(c) && ParseDecimal(b).Some?
    ensures UnderscoredDigits([c] + "_" + b) == Some([c] + b)
  {
    var t := [c] + "_" + b;
    PlainUnderscored(b);
    assert t[0] == c && t[1] == '_' && t[2..] == b;
  }

  /** A leading digit followed by a digit is kept in front of the rest. */
  lemma UnderscoredStep(a: string, b: string)
    requires |a| > 1 && IsDecimalDigit(a[0]) && IsDecimalDigit(a[1])
    requires UnderscoredDigits(a[1..] + "_" + b) == Some(a[1..] + b)
    ensures UnderscoredDigits(a + "_" + b) == Some(a + b)
  {
    var t := a + "_" + b;
    assert t[0] == a[0] && t[1] == a[1] && t[1..] == a[1..] + "_" + b;
    assert a + b == [a[0]] + (a[1..] + b);
  }

  lemma DigitsTail(a: string)
    requires ParseDecimal(a).Some? && |a| > 1
    ensures ParseDecimal(a[1..]).Some? && IsDecimalDigit(a[0]) && IsDecimalDigit(a[1])
  {
    assert forall i :: 0 <= i < |a| - 1 ==> a[1..][i] == a[i + 1];
  }

  /** `int()` drops an underscore between digits. */
  lemma PyIntUnderscored(a: string, b: string)
    requires ParseDecimal(a).Some? && ParseDecimal(b).Some?
    ensures ParseDecimal(a + b).Some?
    ensures PyInt(a + "_" + b) == Some(DecimalValue(a + b))
  {
    var t := a + "_" + b;
    DigitsConcat(a, b);
    Underscored(a, b);
    assert t[|t| - 1] == b[|b| - 1] && t[0] == a[0];
    DigitLed(t, a + b);
  }

  /** Text that opens with a digit is read as its digits. */
  lemma DigitLed(t: string, d: string)
    requires t != [] && IsDecimalDigit(t[0]) && !IsPySpace(t[|t| - 1])
    requires UnderscoredDigits(t) == Some(d)
    ensures PyInt(t) == Some(DecimalValue(d))
  {
    Untrimmed(t);
  }

  lemma DigitsConcat(a: string, b: string)
    requires ParseDecimal(a).Some? && ParseDecimal(b).Some?
    ensures ParseDecimal(a + b).Some?
  {
    assert forall i :: 0 <= i < |a + b| ==> (a + b)[i] == if i < |a| then a[i] else b[i - |a|];
  }

  /** What `int()` refuses: nothing but white space, */
  lemma PyIntRejectsBlank()
    ensures PyInt("") == None && PyInt(" ") == None
  {
    assert TrimStart(" ") == TrimStart(" "[1..]);
  }

  /** an underscore that is not between two digits, */
  lemma PyIntRejectsUnderscore()
    ensures PyInt("_2") == None && PyInt("2_") == None && PyInt("2__0") == None
  {
    UnderscoreFirst("_2");
    UnderscoreUnfollowed("2_");
    UnderscoreUnfollowed("2__0");
  }

  /** An underscore cannot open the digits, */
  lemma UnderscoreFirst(t: string)
    requires t != [] && t[0] == '_' && !IsPySpace(t[|t| - 1])
    ensures PyInt(t) == None
  {
    Untrimmed(t);
  }

  /** nor be left without a digit after it. */
  lemma UnderscoreUnfollowed(t: string)
    requires |t| >= 2 && IsDecimalDigit(t[0]) && t[1] == '_' && (|t| == 2 || !IsDecimalDigit(t[2]))
    requires !IsPySpace(t[|t| - 1])
    ensures PyInt(t) == None
  {
    Untrimmed(t);
    assert UnderscoredDigits(t[2..]) == None by {
      assert t[2..] == [] || t[2..][0] == t[2];
    }
    assert UnderscoredDigits(t) == None;
  }

  /** a sign apart from its digits, */
  lemma PyIntRejectsSpacedSign()
    ensures PyInt("+ 2") == None
  {
    SignWithoutDigit("+ 2");
  }

  /** and a hex literal. */
  lemma PyIntRejectsHex()
    ensures PyInt("0x10") == None
  {
    DigitThenLetter("0x10");
  }

  /** A sign must be followed by a digit. */
  lemma SignWithoutDigit(t: string)
    requires |t| >= 2 && (t[0] == '+' || t[0] == '-') && !IsDecimalDigit(t[1]) && !IsPySpace(t[|t| - 1])
    ensures PyInt(t) == None
  {
    Untrimmed(t);
  }

  /** A digit can only be followed by a digit or an underscore. */
  lemma DigitThenLetter(t: string)
    requires |t| >= 2 && IsDecimalDigit(t[0]) && !IsDecimalDigit(t[1]) && t[1] != '_' && !IsPySpace(t[|t| - 1])
    ensures PyInt(t) == None
  {
    Untrimmed(t);
    assert t[1..][0] == t[1];
    assert UnderscoredDigits(t[1..]) == None;
    assert UnderscoredDigits(t) == None;
  }

  /** Text with no white space at either end is its own stripped text. */
  lemma Untrimmed(s: string)
    requires s != [] && !IsPySpace(s[0]) && !IsPySpace(s[|s| - 1])
    ensures TrimEnd(TrimStart(s)) == s
  {
  }

  lemma {:induction false} DecimalValueOfDecimal(n: nat)
    ensures DecimalValue(Decimal(n)) == n
    decreases n
  {
    if n >= 10 {
      DecimalValueOfDecimal(n / 10);
      var s := Decimal(n);
      assert s[..|s| - 1] == Decimal(n / 10);
    }
  }

  /** A leading zero does not change a decimal value. */
  lemma {:induction false} DecimalValueLeadingZero(s: string)
    requires forall i :: 0 <= i < |s| ==> IsDecimalDigit(s[i])
    ensures DecimalValue("0" + s) == DecimalValue(s)
    decreases |s|
  {
    if s != [] {
      var init := s[..|s| - 1];
      DecimalValueLeadingZero(init);
      DecimalValueSnoc("0" + init, s[|s| - 1]);
      DecimalValueSnoc(init, s[|s| - 1]);
      assert "0" + s == ("0" + init) + [s[|s| - 1]];
      assert s == init + [s[|s| - 1]];
    }
  }

  lemma DecimalValueSnoc(init: string, last: char)
    requires forall i :: 0 <= i < |init| ==> IsDecimalDigit(init[i])
    requires IsDecimalDigit(last)
    ensures forall i :: 0 <= i < |init + [last]| ==> IsDecimalDigit((init + [last])[i])
    ensures DecimalValue(init + [last]) == DecimalValue(init) * 10 + (last as int - '0' as int)
  {
    assert (init + [last])[..|init|] == init;
  }

  /** `int(f"{n:02}")` is n again. */
  lemma ParseDecimalPad2(n: nat)
    ensures ParseDecimal(DecimalPad2(n)) == Some(n)
  {
    DecimalValueOfDecimal(n);
    if n < 10 {
      DecimalValueLeadingZero(Decimal(n));
    }
  }

  /** The padded rendering is "00" exactly for zero. */
  lemma DecimalPad2Zero(n: nat)
    ensures DecimalPad2(n) == "00" <==> n == 0
  {
    ParseDecimalPad2(n);
    assert Decimal(0) == "0";
    assert DecimalValue("00") == 0 by {
      assert "00"[..1] == "0";
      assert "0"[..0] == [];
    }
  }

  function Pow256(k: nat): (p: nat)
    ensures p >= 1
  {
    if k == 0 then 1 else 256 * Pow256(k - 1)
  }

  /** The `size` low-order bytes of n, most significant first. */
  function BigEndianBytes(n: nat, size: nat): (bs: seq<byte>)
    ensures |bs| == size
  {
    if size == 0 then [] else BigEndianBytes(n / 256, size - 1) + [n % 256]
  }

  /** `n.to_bytes(size, "big")`: OverflowError when n is negative or does not fit. */
  function ToBytes(n: int, size: nat): (r: Result<seq<byte>>)
    ensures r.Ok? <==> 0 <= n < Pow256(size)
    ensures r.Err? ==> r.error == OverflowError
  {
    if 0 <= n < Pow256(size) then Ok(BigEndianBytes(n, size)) else Err(OverflowError)
  }

  /** Reading the bytes back gives the number: `to_bytes` and big-endian
      decoding are inverse on numbers that fit. */
  lemma {:induction false} BigEndianOfBytes(n: nat, size: nat)
    requires n < Pow256(size)
    ensures BigEndian(BigEndianBytes(n, size)) == n
    decreases size
  {
    if size > 0 {
      var bs := BigEndianBytes(n, size);
      assert bs[..|bs| - 1] == BigEndianBytes(n / 256, size - 1);
      BigEndianOfBytes(n / 256, size - 1);
    }
  }

  function Reverse<T>(s: seq<T>): (r: seq<T>)
    ensures |r| == |s|
    ensures forall i :: 0 <= i < |s| ==> r[i] == s[|s| - 1 - i]
  {
    seq(|s|, i requires 0 <= i < |s| => s[|s| - 1 - i])
  }

  /** Python slicing `s[lo:hi]` for non-negative bounds: both are clamped to the length. */
  function Slice<T>(s: seq<T>, lo: nat, hi: nat): (r: seq<T>)
    ensures |r| <= |s|
  {
    var a := if lo <= |s| then lo else |s|;
    var b := if hi <= |s| then hi else |s|;
    if a <= b then s[a..b] else []
  }
}
