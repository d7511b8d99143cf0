/** The v2 packet checksum, computed on hex strings the way both the client
    and the fake fan compute it: the sum of every byte after the two-byte
    FDFD prefix, written as four hex digits and sent low byte first. */
module Checksum {
  import opened Wrappers
  import opened Format

  /** The sum of `int(chunk, 16)` over the chunks; None if one of them is
      not a hex number (Python raises ValueError). */
  function SumHex(hs: seq<string>): Option<nat> {
    if hs == [] then Some(0)
    else match ParseHex(hs[0])
      case None => None
      case Some(v) =>
        match SumHex(hs[1..])
        case None => None
        case Some(t) => Some(v + t)
  }

  function Shift(o: Option<nat>, k: nat): Option<nat> {
    match o
    case None => None
    case Some(v) => Some(v + k)
  }

  lemma {:induction false} SumHexAppend(a: seq<string>, b: seq<string>)
    ensures SumHex(a + b) == match SumHex(a) case None => None case Some(x) => Shift(SumHex(b), x)
  {
    if a != [] {
      assert (a + b)[1..] == a[1..] + b;
      SumHexAppend(a[1..], b);
    } else {
      assert a + b == b;
    }
  }

  /** Python's `hexlist[2:]`. */
  function DropTwo<T>(s: seq<T>): seq<T> {
    if |s| >= 2 then s[2..] else []
  }

  /** `f"{sum:04X}"` with its two halves swapped: the low byte comes first. */
  function ChecksumString(sum: nat): (r: string)
    ensures |r| == 4 && IsUpperHex(r)
    ensures sum < 0x10000 ==> r == HexByte(sum % 256) + HexByte(sum / 256)
  {
    var h := HexPad(sum, 4);
    HexPadWordIf(sum);
    h[2..4] + h[0..2]
  }

  lemma HexPadWordIf(sum: nat)
    ensures sum < 0x10000 ==> HexPad(sum, 4) == HexByte(sum / 256) + HexByte(sum % 256)
  {
    if sum < 0x10000 {
      HexPadWord(sum);
    }
  }

  /** `_checksum(data)`: ValueError when a chunk past the prefix is not hex. */
  function ChecksumOf(data: string): (r: Result<string>)
    ensures r.Err? ==> r.error == ValueError
  {
    match SumHex(DropTwo(Chunks(data)))
    case None => Err(ValueError)
    case Some(sum) => Ok(ChecksumString(sum))
  }

  /** The loop `_checksum` runs, proved to compute `ChecksumOf`. */
  method ComputeChecksum(data: string) returns (r: Result<string>)
    ensures r == ChecksumOf(data)
  {
    var hexlist := Chunks(data);
    var tail := DropTwo(hexlist);
    var sum := 0;
    var i := 0;
    while i < |tail|
      invariant 0 <= i <= |tail|
      invariant SumHex(tail) == Shift(SumHex(tail[i..]), sum)
    {
      var v := ParseHex(tail[i]);
      if v.None? {
        return Err(ValueError);
      }
      assert tail[i..][1..] == tail[i + 1..];
      sum := sum + v.value;
      i := i + 1;
    }
    return Ok(ChecksumString(sum));
  }

  /** `_verify_checksum(hexlist)`: the checksum of everything before the last
      two entries, compared with those two. IndexError when there are fewer
      than two entries. */
  function VerifyChecksum(h: seq<string>): (r: Result<bool>)
    ensures |h| < 2 ==> r == Err(IndexError)
  {
    var computed := ChecksumOf(Concat(if |h| >= 2 then h[..|h| - 2] else []));
    if computed.Err? then Err(computed.error)
    else if |h| < 2 then Err(IndexError)
    else Ok(computed.value == h[|h| - 2] + h[|h| - 1])
  }

  function ByteSum(bs: seq<byte>): nat {
    if bs == [] then 0 else bs[0] + ByteSum(bs[1..])
  }

  lemma {:induction false} ByteSumAppend(a: seq<byte>, b: seq<byte>)
    ensures ByteSum(a + b) == ByteSum(a) + ByteSum(b)
  {
    if a == [] {
      assert a + b == b;
    } else {
      assert (a + b)[1..] == a[1..] + b;
      ByteSumAppend(a[1..], b);
    }
  }

  lemma ByteSumBound(bs: seq<byte>)
    ensures ByteSum(bs) <= 255 * |bs|
  {
  }

  lemma {:induction false} SumHexOfHexList(bs: seq<byte>)
    ensures SumHex(HexList(bs)) == Some(ByteSum(bs))
  {
    if bs != [] {
      ParseHexByte(bs[0]);
      assert HexList(bs)[1..] == HexList(bs[1..]);
      SumHexOfHexList(bs[1..]);
    }
  }

  /** The sum of the bytes the checksum covers: all but the first two. */
  function PacketSum(bs: seq<byte>): nat {
    ByteSum(DropTwo(bs))
  }

  /** The checksum of a packet's rendering is the sum of its bytes after the
      prefix, low byte first. */
  lemma ChecksumOfHex(bs: seq<byte>)
    ensures ChecksumOf(Hex(bs)) == Ok(ChecksumString(PacketSum(bs)))
  {
    ChunksOfHex(bs);
    assert DropTwo(HexList(bs)) == HexList(DropTwo(bs));
    SumHexOfHexList(DropTwo(bs));
  }

  /** the two bytes a correct packet ends with: the parse of the four-digit
      checksum string, which for a 16-bit sum is its low then its high byte */
  function ChecksumBytes(sum: nat): (ck: seq<byte>)
    ensures |ck| == 2
    ensures Hex(ck) == ChecksumString(sum)
    ensures sum < 0x10000 ==> ck == [sum % 256, sum / 256]
  {
    var s := ChecksumString(sum);
    HexOfFromHex(s);
    WordBytes(sum, FromHex(s).value);
    FromHex(s).value
  }

  lemma WordBytes(sum: nat, ck: seq<byte>)
    requires Hex(ck) == ChecksumString(sum)
    ensures sum < 0x10000 ==> ck == [sum % 256, sum / 256]
  {
    if sum < 0x10000 {
      assert Hex([sum % 256, sum / 256]) == HexByte(sum % 256) + HexByte(sum / 256);
      HexInjective(ck, [sum % 256, sum / 256]);
    }
  }

  /** On a received datagram, `_verify_checksum` holds exactly when the last
      two bytes are the checksum bytes of the sum of the bytes between the
      FDFD prefix and them, whatever that sum. */
  lemma VerifyChecksumOfBytes(bs: seq<byte>)
    requires |bs| >= 2
    ensures VerifyChecksum(HexList(bs)) ==
      Ok(bs[|bs| - 2..] == ChecksumBytes(PacketSum(bs[..|bs| - 2])))
  {
    var body := bs[..|bs| - 2];
    TrailerHex(bs);
    ChecksumOfHex(body);
    HexEqualIff(bs[|bs| - 2..], ChecksumBytes(PacketSum(body)));
  }

  /** On a received datagram the checksum test raises only for fewer than
      two bytes, and then IndexError. */
  lemma ChecksumRaisesOnlyShort(bs: seq<byte>)
    ensures VerifyChecksum(HexList(bs)).Err? <==> |bs| < 2
    ensures |bs| < 2 ==> VerifyChecksum(HexList(bs)) == Err(IndexError)
  {
    if |bs| >= 2 {
      VerifyChecksumOfBytes(bs);
    }
  }

  /** The rendering of a datagram, split before its last two bytes. */
  lemma TrailerHex(bs: seq<byte>)
    requires |bs| >= 2
    ensures Concat(HexList(bs)[..|bs| - 2]) == Hex(bs[..|bs| - 2])
    ensures HexList(bs)[|bs| - 2] + HexList(bs)[|bs| - 1] == Hex(bs[|bs| - 2..])
  {
    var n := |bs|;
    assert HexList(bs)[..n - 2] == HexList(bs[..n - 2]);
    ConcatHexList(bs[..n - 2]);
    assert bs[n - 2..] == [bs[n - 2], bs[n - 1]];
    assert Hex([bs[n - 1]]) == HexByte(bs[n - 1]);
  }

  lemma HexEqualIff(a: seq<byte>, b: seq<byte>)
    ensures Hex(a) == Hex(b) <==> a == b
  {
    if Hex(a) == Hex(b) {
      HexInjective(a, b);
    }
  }

  /** Appending the checksum bytes to a body makes a datagram that passes. */
  lemma SealedPasses(body: seq<byte>)
    ensures VerifyChecksum(HexList(body + ChecksumBytes(PacketSum(body)))) == Ok(true)
  {
    var bs := body + ChecksumBytes(PacketSum(body));
    assert bs[..|bs| - 2] == body;
    assert bs[|bs| - 2..] == ChecksumBytes(PacketSum(body));
    VerifyChecksumOfBytes(bs);
  }
}
