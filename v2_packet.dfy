/** The v2 (UDP, "FDFD") request packet the client builds: a login header
    carrying the device id and password, a function code, command data and
    the checksum. Packets are built as upper-case hex strings and converted
    to bytes only when sent, as the client does. */
module V2Packet {
  import opened Wrappers
  import opened Format
  import opened Utf8
  import opened Checksum

  const PacketPrefix := "FDFD"
  const ProtocolType := "02"
  const SizeId := "10"

  const FuncRead := "01"
  const FuncWrite := "02"
  const FuncReadWrite := "03"
  const FuncInc := "04"
  const FuncDec := "05"
  const FuncResult := "06"

  /** The fixed bytes every request starts with: FD FD, protocol 02 and the
      id size 0x10, which is sent whatever the id's real length. */
  const HeaderPrefix: seq<byte> := [0xFD, 0xFD, 0x02, 0x10]

  /** The login string `_login_packet` builds around a given password size:
      FDFD, 02, 10, the id's UTF-8 bytes as hex, the size as two hex digits
      and the password's UTF-8 bytes as hex, all upper-cased. */
  function LoginString(id: string, size: nat, password: string): string {
    Upper(PacketPrefix + ProtocolType + SizeId + Lower(Hex(Encode(id)))
          + Lower(HexPad(size, 2)) + Lower(Hex(Encode(password))))
  }

  /** `_login_packet` as written: the size is `len(password)`, a count of
      characters. */
  function LoginPacketAsWritten(id: string, password: string): (r: string)
    ensures |r| == 8 + 2 * |Encode(id)| + |HexPad(|password|, 2)| + 2 * |Encode(password)|
    ensures |password| < 256 ==> r == Hex(HeaderBytes(id, |password|, password))
  {
    if |password| < 256 then
      LoginStringBytes(id, |password|, password);
      LoginString(id, |password|, password)
    else
      LoginString(id, |password|, password)
  }

  /** `_login_packet` with the password size counted in bytes, the size the
      device and the fake fan read. */
  function LoginPacket(id: string, password: string): (r: string)
    ensures |r| == 8 + 2 * |Encode(id)| + |HexPad(|Encode(password)|, 2)| + 2 * |Encode(password)|
    ensures |Encode(password)| < 256 ==> r == Hex(LoginBytes(id, password))
  {
    if |Encode(password)| < 256 then
      LoginStringBytes(id, |Encode(password)|, password);
      LoginString(id, |Encode(password)|, password)
    else
      LoginString(id, |Encode(password)|, password)
  }

  /** The header bytes a login string stands for. */
  function HeaderBytes(id: string, size: byte, password: string): seq<byte> {
    HeaderPrefix + Encode(id) + [size] + Encode(password)
  }

  function LoginBytes(id: string, password: string): seq<byte>
    requires |Encode(password)| < 256
  {
    HeaderBytes(id, |Encode(password)|, password)
  }

  lemma HeaderPrefixHex()
    ensures Hex(HeaderPrefix) == PacketPrefix + ProtocolType + SizeId
  {
    assert Hex(HeaderPrefix) == HexByte(0xFD) + HexByte(0xFD) + HexByte(0x02) + HexByte(0x10);
  }

  /** Upper-casing undoes the lower-casing `.hex()` and the `02x` format do. */
  lemma LoginStringPlain(id: string, size: nat, password: string)
    ensures LoginString(id, size, password)
        == PacketPrefix + ProtocolType + SizeId + Hex(Encode(id)) + HexPad(size, 2) + Hex(Encode(password))
  {
    PrefixUpperHex();
    UpperMixedThree(PacketPrefix + ProtocolType + SizeId, Hex(Encode(id)), HexPad(size, 2), Hex(Encode(password)));
  }

  lemma PrefixUpperHex()
    ensures IsUpperHex(PacketPrefix + ProtocolType + SizeId)
  {
    assert PacketPrefix + ProtocolType + SizeId == "FDFD0210";
  }

  lemma HeaderBytesHex(id: string, size: byte, password: string)
    ensures Hex(HeaderBytes(id, size, password))
        == PacketPrefix + ProtocolType + SizeId + Hex(Encode(id)) + HexByte(size) + Hex(Encode(password))
  {
    HeaderPrefixHex();
    assert Hex([size]) == HexByte(size);
    HexAppend(HeaderPrefix, Encode(id));
    HexAppend(HeaderPrefix + Encode(id), [size]);
    HexAppend(HeaderPrefix + Encode(id) + [size], Encode(password));
  }

  /** A login string is the upper-case rendering of its header bytes. */
  lemma LoginStringBytes(id: string, size: byte, password: string)
    ensures LoginString(id, size, password) == Hex(HeaderBytes(id, size, password))
  {
    LoginStringPlain(id, size, password);
    HeaderBytesHex(id, size, password);
    HexPadByte(size);
  }

  /** For passwords whose characters are all single bytes (ASCII), the
      as-written login packet is the corrected one. */
  lemma LoginPacketAscii(id: string, password: string)
    requires |Encode(password)| == |password|
    ensures LoginPacketAsWritten(id, password) == LoginPacket(id, password)
  {
  }

  /** A password of one non-ASCII character: the as-written size byte says
      1 while two password bytes follow. */
  lemma LoginPacketAsWrittenMiscounts(id: string)
    ensures LoginPacketAsWritten(id, "é") == Hex(HeaderBytes(id, 1, "é"))
    ensures LoginPacket(id, "é") == Hex(HeaderBytes(id, 2, "é"))
    ensures Encode("é") == [0xC3, 0xA9]
    ensures LoginPacketAsWritten(id, "é") != LoginPacket(id, "é")
  {
    assert Encode("é") == [0xC3, 0xA9];
    LoginStringBytes(id, 1, "é");
    LoginStringBytes(id, 2, "é");
    var a, b := HeaderBytes(id, 1, "é"), HeaderBytes(id, 2, "é");
    assert a[4 + |Encode(id)|] == 1 && b[4 + |Encode(id)|] == 2;
    if Hex(a) == Hex(b) {
      HexInjective(a, b);
    }
  }

  /** `_build_packet` around a given login string: login, function code
      and data, upper-cased, then the checksum of all that. ValueError when
      the data holds a chunk that is not hex. */
  function PacketOf(login: string, func: string, data: string): (r: Result<string>)
    ensures r.Err? ==> r.error == ValueError
    ensures r.Ok? ==> |r.value| == |login| + |func| + |data| + 4 && r.value[..|r.value| - 4] == Upper(login + func + data)
  {
    var packet := Upper(login + func + data);
    var checksum :- ChecksumOf(packet);
    Ok(packet + checksum)
  }

  /** `_build_packet` as the client runs it, on the as-written login. */
  function BuildPacket(id: string, password: string, func: string, data: string): (r: Result<string>)
    ensures r.Err? ==> r.error == ValueError
    ensures r.Ok? ==> |r.value| >= 4 && r.value[..|r.value| - 4] == Upper(LoginPacketAsWritten(id, password) + func + data)
  {
    PacketOf(LoginPacketAsWritten(id, password), func, data)
  }

  /** `_build_packet` on the corrected login, with the size in bytes. */
  function BuildPacketCorrected(id: string, password: string, func: string, data: string): (r: Result<string>)
    ensures r.Err? ==> r.error == ValueError
    ensures r.Ok? ==> |r.value| >= 4 && r.value[..|r.value| - 4] == Upper(LoginPacket(id, password) + func + data)
  {
    PacketOf(LoginPacket(id, password), func, data)
  }

  /** For ASCII passwords the client's packet is the corrected one. */
  lemma BuildPacketAscii(id: string, password: string, func: string, data: string)
    requires |Encode(password)| == |password|
    ensures BuildPacket(id, password, func, data) == BuildPacketCorrected(id, password, func, data)
  {
    LoginPacketAscii(id, password);
  }

  /** What `_send_command` puts on the wire: `bytes.fromhex` of the packet
      string, ValueError for an odd length or a non-hex character. */
  function RequestBytes(id: string, password: string, func: string, data: string): (r: Result<seq<byte>>)
    ensures r.Err? ==> r.error == ValueError
  {
    var packet :- BuildPacket(id, password, func, data);
    FromHex(packet)
  }

  /** The bytes of the corrected packet. */
  function RequestBytesCorrected(id: string, password: string, func: string, data: string): (r: Result<seq<byte>>)
    ensures r.Err? ==> r.error == ValueError
  {
    var packet :- BuildPacketCorrected(id, password, func, data);
    FromHex(packet)
  }

  /** The request body the client sends: header with the password's
      character count as its size, function code and data bytes. */
  function RequestBody(id: string, password: string, func: byte, data: seq<byte>): (r: seq<byte>)
    requires |password| < 256
    ensures |r| == 6 + |Encode(id)| + |Encode(password)| + |data|
    ensures r[..4] == HeaderPrefix && r[4 + |Encode(id)|] == |password| && r[5 + |Encode(id)| + |Encode(password)|] == func
  {
    HeaderBytes(id, |password|, password) + [func] + data
  }

  /** Three hex digits for the numbers from 0x100 to 0xFFF. */
  lemma HexWidthThree(n: nat)
    requires 256 <= n < 4096
    ensures HexWidth(n) == 3
  {
    assert HexWidth(n / 16 / 16) == 1;
  }

  /** A password of 256 to 4095 characters gets a three-digit size, so the
      packet string has an odd length and `bytes.fromhex` refuses it. */
  lemma LongPasswordRejected(id: string, password: string, func: string, data: string)
    requires 256 <= |password| < 4096
    requires |func| % 2 == 0 && |data| % 2 == 0
    ensures RequestBytes(id, password, func, data) == Err(ValueError)
  {
    LongLoginOdd(id, password);
    OddLoginRejected(LoginPacketAsWritten(id, password), func, data);
  }

  /** A packet built on a login of odd length, with even-length function
      and data, does not convert to bytes. */
  lemma OddLoginRejected(login: string, func: string, data: string)
    requires |login| % 2 == 1 && |func| % 2 == 0 && |data| % 2 == 0
    ensures PacketOf(login, func, data).Ok? ==> FromHex(PacketOf(login, func, data).value) == Err(ValueError)
  {
    var built := PacketOf(login, func, data);
    if built.Ok? {
      OddPlusEven(|login|, |func|, |data|);
      OddTextRejected(built.value);
    }
  }

  lemma OddTextRejected(s: string)
    requires |s| % 2 == 1
    ensures FromHex(s) == Err(ValueError)
  {
  }

  lemma OddPlusEven(odd: nat, even: nat, other: nat)
    requires odd % 2 == 1 && even % 2 == 0 && other % 2 == 0
    ensures (odd + even + other + 4) % 2 == 1
  {
  }

  /** The as-written login string of such a password has an odd length. */
  lemma LongLoginOdd(id: string, password: string)
    requires 256 <= |password| < 4096
    ensures |LoginPacketAsWritten(id, password)| % 2 == 1
  {
    HexWidthThree(|password|);
  }

  /** The corrected request body, with the size in bytes. */
  function RequestBodyCorrected(id: string, password: string, func: byte, data: seq<byte>): (r: seq<byte>)
    requires |Encode(password)| < 256
    ensures |r| == 6 + |Encode(id)| + |Encode(password)| + |data|
    ensures r[..4] == HeaderPrefix && r[4 + |Encode(id)|] == |Encode(password)| && r[5 + |Encode(id)| + |Encode(password)|] == func
  {
    LoginBytes(id, password) + [func] + data
  }

  /** A packet built on a login string, with a function code and data in
      upper-case hex, is the rendering of the header, function and data
      bytes followed by their checksum bytes. */
  lemma PacketOfLayout(id: string, size: byte, password: string, func: byte, data: seq<byte>)
    ensures var body := HeaderBytes(id, size, password) + [func] + data;
      PacketOf(LoginString(id, size, password), HexByte(func), Hex(data))
        == Ok(Hex(body + ChecksumBytes(PacketSum(body))))
  {
    var header := HeaderBytes(id, size, password);
    var body := header + [func] + data;
    LoginStringBytes(id, size, password);
    HexAppend(header, [func]);
    HexAppend(header + [func], data);
    assert Hex([func]) == HexByte(func);
    assert LoginString(id, size, password) + HexByte(func) + Hex(data) == Hex(body);
    UpperOfUpperHex(Hex(body));
    ChecksumOfHex(body);
    HexAppend(body, ChecksumBytes(PacketSum(body)));
  }

  /** The request the client sends for a password under 256 characters is
      the body followed by its checksum bytes, and it passes the checksum
      test at the other end, whatever the sum. */
  lemma RequestLayout(id: string, password: string, func: byte, data: seq<byte>)
    requires |password| < 256
    ensures RequestBytes(id, password, HexByte(func), Hex(data)) ==
      (var body := RequestBody(id, password, func, data);
       Ok(body + ChecksumBytes(PacketSum(body))))
    ensures VerifyChecksum(HexList(RequestBytes(id, password, HexByte(func), Hex(data)).value)) == Ok(true)
  {
    var body := RequestBody(id, password, func, data);
    PacketOfLayout(id, |password|, password, func, data);
    FromHexOfHex(body + ChecksumBytes(PacketSum(body)));
    SealedPasses(body);
  }

  /** The same for the corrected request, for passwords under 256 bytes. */
  lemma RequestLayoutCorrected(id: string, password: string, func: byte, data: seq<byte>)
    requires |Encode(password)| < 256
    ensures RequestBytesCorrected(id, password, HexByte(func), Hex(data)) ==
      (var body := RequestBodyCorrected(id, password, func, data);
       Ok(body + ChecksumBytes(PacketSum(body))))
    ensures VerifyChecksum(HexList(RequestBytesCorrected(id, password, HexByte(func), Hex(data)).value)) == Ok(true)
  {
    var body := RequestBodyCorrected(id, password, func, data);
    PacketOfLayout(id, |Encode(password)|, password, func, data);
    FromHexOfHex(body + ChecksumBytes(PacketSum(body)));
    SealedPasses(body);
  }
}
