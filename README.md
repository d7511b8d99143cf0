# Siku fan integration: the two UDP clients and the fake fan

This project models the protocol core of an integration for Siku (Blauberg) ventilation
fans, and proves properties of that model. It covers three programs that talk UDP:

- **The v2 client** (`custom_components/siku/api_v2.py`). It builds hex-string packets:
  - the prefix `FDFD`, protocol `02` and id size `10`;
  - the device id and password as UTF-8 hex;
  - a function code (read 01, write 02, read-write 03) and the command data;
  - a two-byte checksum, low byte first.

  It sends the packet with up to three attempts, parses the reply's header and data block
  (the markers FC, FD, FE and FF) into a dictionary of command codes to values, and
  translates that dictionary into a status record.
- **The v1 client** (`custom_components/siku/api_v1.py`). It encodes a list of
  (command, value) pairs against the `CONTROL` table, frames the bytes between
  `mobile` and CR LF, and strips `master` from the reply. It walks the reply against the
  `FEEDBACK` table, building each parameter's class, and formats the result for a fan entity.
- **The fake fan** (`fake_fan/fake_fan_server.py`). This is a controller object whose fields
  are the fan's state. It checks each received datagram's checksum and authentication, then
  answers read, write, read-write, increment and decrement requests, changing its fields in
  place.

How the model is organised:

- **Pure code** is written as functions:
  - `Format`, `Utf8` and `Checksum` hold the renderings, parsers and checksum;
  - `V2Packet`, `V2Parser`, `V2Status`, `V1Values`, `V1Packet` and `V1Response` hold the
    two clients' codecs.
- **Loops** become methods proved against those functions:
  - `ComputeChecksum`, `ParseResponse` and `ParseEntry`;
  - `ControlPacket`, `TranslateResponse`, `ReadParameter` and `FindFeedback`;
  - the two clients' send loops.
- **The fake fan** is a class, `FakeFan.FakeFanController`, whose methods the functions of
  `FakeFanSpec` specify.
- **Sockets and the clock** are inputs:
  - each send attempt's outcome is a value of `Transport.Attempt`;
  - today's date is a `FakeFanSpec.Date`.
- **Constants kept in `const.py`**: those the model needs but that file does not show are a
  `Consts.Config` parameter. They are `DIRECTIONS`, `FAN_SPEEDS` and
  `DIRECTION_ALTERNATING`. `const.py` is not otherwise part of this model.
- **Two recorded test replies**: `V2Fixture` and `V1Fixture` prove what the tests expect of them.

Where the code and its design notes disagree, the model follows the code:

- The v2 `MODES` dictionary names key "01" twice, so "01" means sleep.
- The firmware string is built from the two hex digits of the first value byte.
- The v2 client always sends id size 0x10, whatever the id's length.

## Model

| member | source | states |
|---|---|---|
| Format.HexByte | custom_components/siku/api_v2.py:201-203 | a byte renders as two upper-case hex digits |
| Format.ParseHexByte | custom_components/siku/api_v2.py:466 | `int(_, 16)` of a byte's two digits is that byte |
| Format.HexInjective | custom_components/siku/api_v2.py:201-203 | two byte strings with the same hex rendering are equal |
| Format.HexList | custom_components/siku/api_v2.py:201-203 | `_hexlist` has one entry per byte |
| Format.ConcatHexList | custom_components/siku/api_v2.py:201-203 | joining the hex list gives the rendering back |
| Format.ChunksOfHex | custom_components/siku/api_v2.py:201-203 | cutting a byte string's rendering into pairs gives the renderings of its bytes |
| Format.ParseHex | custom_components/siku/api_v2.py:190 | `int(s, 16)` reads a non-empty run of hex digits, and fails on anything else |
| Format.HexValueOfHex | custom_components/siku/api_v2.py:284-310 | `int(..., 16)` of a byte string's rendering is its big-endian value |
| Format.FromHexOfHex | custom_components/siku/api_v2.py:232 | `bytes.fromhex` of a rendering gives the bytes back |
| Format.HexOfFromHex | custom_components/siku/api_v2.py:262 | `bytes.fromhex` accepts an even-length upper-case hex text, and rendering its bytes gives the text back |
| Format.UpperLower | custom_components/siku/api_v2.py:205-218 | upper-casing undoes lower-casing on hex text |
| Format.HexPadWord | custom_components/siku/api_v2.py:191 | `f"{n:04X}"` of a 16-bit number is its high byte's digits followed by its low byte's |
| Format.DecimalValueOfDecimal | custom_components/siku/api_v2.py:351 | `int()` of the decimal rendering of n is n |
| Format.ParseDecimalPad2 | custom_components/siku/api_v2.py:284-290 | `f"{n:02}"` reads back as n |
| Format.DecimalPad2Zero | custom_components/siku/api_v2.py:288-290 | the padded rendering of n is "00" exactly when n is 0 |
| Format.BigEndianOfBytes | custom_components/siku/api_v1.py:458 | `to_bytes(size, "big")` of a number below 256^size reads back big-endian as that number |
| Format.TrimStart | custom_components/siku/api_v1.py:369 | `int()` strips leading white space: what is left is a suffix that does not start with white space |
| Format.TrimEnd | custom_components/siku/api_v1.py:369 | `int()` strips trailing white space: what is left is a prefix that does not end with white space |
| Format.UnderscoredDigits | custom_components/siku/api_v1.py:369 | digits with single underscores between them give their digits, which are decimal and at least one |
| Format.PyInt | custom_components/siku/api_v1.py:369 | `int(s)` on plain decimal digits is their value |
| Format.PyIntSpace | custom_components/siku/api_v1.py:369 | white space before or after the text does not change what `int()` reads |
| Format.PyIntSigned | custom_components/siku/api_v1.py:369 | a leading "-" negates the digits' value, a leading "+" keeps it |
| Format.PyIntUnderscored | custom_components/siku/api_v1.py:369 | an underscore between two runs of digits is dropped |
| Format.PyIntRejectsBlank | custom_components/siku/api_v1.py:369 | the empty string and a lone space are refused |
| Format.PyIntRejectsUnderscore | custom_components/siku/api_v1.py:369 | a leading, a trailing or a doubled underscore is refused |
| Format.PyIntRejectsSpacedSign | custom_components/siku/api_v1.py:369 | a sign followed by a space is refused |
| Format.PyIntRejectsHex | custom_components/siku/api_v1.py:369 | a `0x` literal is refused in base 10 |
| Format.SignWithoutDigit | custom_components/siku/api_v1.py:369 | a sign not followed by a digit is refused |
| Format.UnderscoreUnfollowed | custom_components/siku/api_v1.py:369 | an underscore after a digit must be followed by a digit |
| Utf8.DecodeEncode | fake_fan/fake_fan_server.py:120-145 | decoding the UTF-8 encoding of a string gives the string back |
| Utf8.EncodeDecode | fake_fan/fake_fan_server.py:120-145 | bytes that decode are the encoding of what they decode to |
| Utf8.EncodeLength | custom_components/siku/api_v2.py:205-218 | the encoding is as long as the string exactly when every character is ASCII |
| Utf8.EncodeAscii | custom_components/siku/api_v1.py:13-15 | an ASCII string encodes byte for byte as its character codes |
| Checksum.ChecksumString | custom_components/siku/api_v2.py:191-192 | the checksum text is four upper-case hex digits, the low byte of the sum first |
| Checksum.ComputeChecksum | custom_components/siku/api_v2.py:184-192 | the summing loop computes `ChecksumOf`: ValueError on a chunk that is not hex |
| Checksum.VerifyChecksum | custom_components/siku/api_v2.py:194-199 | fewer than two entries is IndexError; otherwise the result compares the checksum of the body with the last two entries |
| Checksum.SumHexOfHexList | custom_components/siku/api_v2.py:186-190 | summing `int(chunk, 16)` over a byte string's hex list is the sum of its bytes |
| Checksum.ChecksumOfHex | custom_components/siku/api_v2.py:184-192 | the checksum of a packet's rendering is the sum of its bytes after the FDFD prefix, low byte first |
| Checksum.ChecksumBytes | custom_components/siku/api_v2.py:191-192 | for any sum, two bytes that render as the checksum text; for a sum below 0x10000 they are its low then its high byte |
| Checksum.WordBytes | custom_components/siku/api_v2.py:191-192 | two bytes rendering as the checksum text of a 16-bit sum are its low then its high byte |
| Checksum.VerifyChecksumOfBytes | custom_components/siku/api_v2.py:194-199 | for any sum, a datagram of two or more bytes passes exactly when its last two bytes are the checksum bytes of the sum of the bytes between the prefix and them |
| Checksum.ChecksumRaisesOnlyShort | custom_components/siku/api_v2.py:194-199 | on a received datagram the check raises exactly when it has fewer than two bytes, and then IndexError |
| Checksum.SealedPasses | fake_fan/fake_fan_server.py:113-118 | a body followed by its checksum bytes passes the check, whatever the sum |
| Consts.Lookup | custom_components/siku/api_v2.py:292 | `DIRECTIONS[key]` succeeds exactly for a key of the table and gives that key's entry |
| Consts.FirstKeyOf | custom_components/siku/api_v2.py:153-164 | the key found for a name belongs to the first entry carrying that name |
| Consts.ResolveDirectionAccepts | custom_components/siku/api_v2.py:153-164 | a direction argument is accepted exactly when it is a name or a key of the table |
| Consts.ResolveDirectionKey | custom_components/siku/api_v1.py:385-400 | the resolved key looks up to the name given, or, for a key given, to that key's own name |
| V2Packet.LoginPacketAsWritten | custom_components/siku/api_v2.py:205-218 | `_login_packet` as written: its length, and for a password of fewer than 256 characters the rendering of the header whose size byte is the character count |
| V2Packet.LoginPacket | custom_components/siku/api_v2.py:205-218 | the login packet with the size counted in bytes: its length, and below 256 bytes the rendering of the header a device reads |
| V2Packet.LoginStringBytes | custom_components/siku/api_v2.py:205-218 | the login string is the upper-case rendering of the header bytes: prefix, id, size byte, password |
| V2Packet.LoginPacketAscii | custom_components/siku/api_v2.py:208 | for a password of single-byte characters, the as-written login packet equals the corrected one |
| V2Packet.LoginPacketAsWrittenMiscounts | custom_components/siku/api_v2.py:208 | for the password "é" the as-written size byte says 1 while two password bytes follow |
| V2Packet.PacketOf | custom_components/siku/api_v2.py:220-226 | around any login string: ValueError only, else the upper-cased login, function and data followed by four checksum digits |
| V2Packet.BuildPacket | custom_components/siku/api_v2.py:220-226 | `_build_packet` on the as-written login fails only with ValueError, when the data is not hex; otherwise the upper-cased login, function and data followed by four checksum digits |
| V2Packet.BuildPacketCorrected | custom_components/siku/api_v2.py:220-226 | the same on the corrected login |
| V2Packet.BuildPacketAscii | custom_components/siku/api_v2.py:208-226 | for a password of single-byte characters the as-written packet is the corrected one |
| V2Packet.RequestBytes | custom_components/siku/api_v2.py:228-232 | what goes on the wire, built on the as-written login, fails only with ValueError |
| V2Packet.RequestBytesCorrected | custom_components/siku/api_v2.py:228-232 | the same on the corrected login |
| V2Packet.RequestBody | custom_components/siku/api_v2.py:205-226 | the as-written request body: its length, the fixed prefix, a size byte holding the character count, and the function byte right after the password bytes |
| V2Packet.RequestBodyCorrected | custom_components/siku/api_v2.py:205-226 | the corrected body: the same with a size byte holding the byte count |
| V2Packet.LongPasswordRejected | custom_components/siku/api_v2.py:208-232 | a password of 256 to 4095 characters gets a three-digit size, so `bytes.fromhex` raises ValueError |
| V2Packet.PacketOfLayout | custom_components/siku/api_v2.py:205-226 | a packet on a login string, with hex function and data, renders the header, function and data bytes and their checksum bytes |
| V2Packet.RequestLayout | custom_components/siku/api_v2.py:205-232 | for a password of fewer than 256 characters, the as-written request is its body (size byte = character count) and that body's checksum bytes, and it passes the checksum check, whatever the sum |
| V2Packet.RequestLayoutCorrected | custom_components/siku/api_v2.py:205-232 | the same for the corrected request, below 256 password bytes |
| V2Parser.HeaderEnd | custom_components/siku/api_v2.py:370-434 | a wrong prefix, a protocol byte other than 02 or a function byte other than 06 is ValueError; a header cut short is IndexError; otherwise the data starts right after the 06, which sits where the id and password sizes put it |
| V2Parser.Walk | custom_components/siku/api_v2.py:436-493 | the data walk fails only with NotImplementedError (an FC or FF marker), keeps every key it had, and stops two bytes before the end |
| V2Parser.ParseSpec | custom_components/siku/api_v2.py:366-493 | `_parse_response` fails only with ValueError, IndexError or NotImplementedError; a wrong prefix is ValueError; a header followed only by the checksum gives the empty dictionary |
| V2Parser.ReadEntry | custom_components/siku/api_v2.py:438-480 | each entry moves the index forward; FC and FF, and only they, fail |
| V2Parser.ParseEntry | custom_components/siku/api_v2.py:443-480 | one pass of the data loop computes `ReadEntry` |
| V2Parser.ParseResponse | custom_components/siku/api_v2.py:366-493 | the parsing loop computes `ParseSpec`: the header checks, then the data walk |
| V2Parser.ReversedPairs | custom_components/siku/api_v2.py:464-475 | reversing the pairs of a value's hex string renders the value's bytes reversed |
| V2Parser.WalkFields | custom_components/siku/api_v2.py:438-488 | the bytes of well-formed entries followed by two checksum bytes walk to the dictionary of those entries, a later entry replacing an earlier one |
| V2Parser.HeaderEndOfResponse | custom_components/siku/api_v2.py:370-434 | the header a device answers with is accepted, and the data starts right after it |
| V2Parser.ParseRoundTrip | custom_components/siku/api_v2.py:366-493 | a response of header, well-formed entries and any two checksum bytes parses to the dictionary of those entries |
| V2Parser.ParseHeaderOnly | custom_components/siku/api_v2.py:436-493 | a response with nothing between header and checksum parses to the empty dictionary |
| V2Status.IntHexOfHex | custom_components/siku/api_v2.py:306-310 | `int(v, 16)` of a stored value is its big-endian number, and ValueError for an empty value |
| V2Status.Translate | custom_components/siku/api_v2.py:276-364 | the translation fails only with ValueError or IndexError; a record has version "2", the configured speed list, the manual range, and counts manual as selected when the speed is "FF" |
| V2Status.SlicesOfHex | custom_components/siku/api_v2.py:317-319 | each two-digit slice of a value's hex string reads as that byte, and past the end as ValueError |
| V2Status.TranslateSucceeds | custom_components/siku/api_v2.py:276-364 | translation succeeds exactly on readable dictionaries; otherwise it raises the first unreadable field's error (IndexError for an empty firmware value, else ValueError) |
| V2Status.TranslateSwitches | custom_components/siku/api_v2.py:279-304 | on exactly for power byte 01; boost and alarm unless their byte is 00; mode sleep for 01, party for 02, else auto; version "2" |
| V2Status.TranslateSpeeds | custom_components/siku/api_v2.py:283-290 | speed is the preset as two decimal digits or "FF"; manual speed is the number sent or 0; manual counts as selected when no preset came or the manual speed is not 0 |
| V2Status.TranslateNumbers | custom_components/siku/api_v2.py:305-312 | humidity and rpm are the numbers sent; humidity is None and rpm 0 when absent |
| V2Status.TranslateFilterTimer | custom_components/siku/api_v2.py:313-322 | the filter timer is minutes + 60 hours + 1440 days of its first three bytes, 0 when absent |
| V2Status.TranslateCountdown | custom_components/siku/api_v2.py:336-345 | the countdown is seconds + 60 minutes + 3600 hours of its first three bytes, 0 when absent |
| V2Status.TranslateFirmware | custom_components/siku/api_v2.py:327-335 | the firmware is the two hex digits of the first byte in decimal, joined by a dot; None when absent |
| V2Status.TranslateDirection | custom_components/siku/api_v2.py:291-296 | the direction is the table's name for the code, or None; the fan oscillates for the alternating name or no name |
| V2Status.TranslateDefaults | custom_components/siku/api_v2.py:276-364 | an empty dictionary translates to every field's default |
| V2Client.SendCommand | custom_components/siku/api_v2.py:228-274 | the retry loop makes the decision `SendSpec` states |
| V2Client.Exchange | custom_components/siku/api_v2.py:234-274 | a write that succeeds returns nothing; the attempts fail only with SocketError, TimeoutError, ValueError, IndexError or LookupError |
| V2Client.SendSpec | custom_components/siku/api_v2.py:228-274 | a packet that does not convert is ValueError; LookupError never comes out; a write returns nothing; a read's reply passed the checksum check |
| V2Client.StopAt | custom_components/siku/api_v2.py:234-273 | the loop stops at the first attempt that did not time out, or at the last |
| V2Client.ExchangeRead | custom_components/siku/api_v2.py:253-274 | a read is decided by the attempt it stops at: three timeouts, a socket error, a bad checksum (ValueError), or the reply |
| V2Client.ReadTimesOut | custom_components/siku/api_v2.py:270-273 | a read raises TimeoutError exactly when all three attempts time out |
| V2Client.ExchangeResults | custom_components/siku/api_v2.py:228-274 | LookupError never comes out; a write returns nothing unless its send fails; a read's reply passed the checksum check |
| V2Client.ChecksumErrorNotRetried | custom_components/siku/api_v2.py:266-267 | a reply with a wrong checksum is ValueError and the attempts after it are not used |
| V2Client.StatusRequest | custom_components/siku/api_v2.py:99-119 | for a password of fewer than 256 characters the status request is its body (read 01 and the status commands) and that body's checksum bytes, and it passes the check |
| V2Client.PowerCommands | custom_components/siku/api_v2.py:121-131 | power_on and power_off read-write command 01 with 01 and 00 |
| V2Client.ModeCommands | custom_components/siku/api_v2.py:166-176 | sleep and party turn the fan on and set mode 07 to 01 and 02 |
| V2Client.ResetCommand | custom_components/siku/api_v2.py:178-182 | the filter reset writes 00 to commands 80 and 65 |
| V2Client.CommandChecks | custom_components/siku/api_v2.py:133-164 | speed accepts exactly the listed speeds; direction accepts exactly names and keys, and sends B7 with the key |
| V2Client.RejectedRunsNothing | custom_components/siku/api_v2.py:133-164 | a rejected argument fails with ValueError, whatever the attempts would bring |
| V2Client.ResetIsWrite | custom_components/siku/api_v2.py:178-182 | when the write's first attempt does not fail on the socket, the filter reset's result is the status read that follows it |
| V2Fixture.FixtureParse | tests/test_api_v2.py:44-157 | the recorded reply parses to the expected dictionary |
| V2Fixture.FixtureSwitches | tests/test_api_v2.py:134-157 | on, no boost, mode auto, no alarm, version "2" |
| V2Fixture.FixtureSpeeds | tests/test_api_v2.py:135-145 | speed "02", manual speed 124 and selected, manual range (0, 255) |
| V2Fixture.FixtureReadings | tests/test_api_v2.py:151-155 | humidity 51, 900 rpm, firmware "0.7", 5115 filter minutes, countdown 0 |
| V2Fixture.FixtureDirection | tests/test_api_v2.py:148 | the direction is the table's name for code "01" |
| V1Values.Construct | custom_components/siku/api_v1.py:30-99 | a class built from a number holds it; an enumeration refuses a non-member, a wrapper a value above its bound, both with ValueError |
| V1Values.WrapperRefusesAbove | custom_components/siku/api_v1.py:30-152 | the wrappers refuse exactly the values above their upper bound |
| V1Values.WrapperLimits | custom_components/siku/api_v1.py:30-152 | the bounds are 255, 80, 90, 86400 and 100 |
| V1Values.IntOf | custom_components/siku/api_v1.py:542-567 | `int(value)` succeeds exactly on numbers, with TypeError for None |
| V1Values.ControlEntry | custom_components/siku/api_v1.py:155-172 | a `CONTROL` row has size 1 or 3 and a declared class |
| V1Values.FindCmd | custom_components/siku/api_v1.py:507-508 | the search finds a row exactly when some row carries the code, and returns such a row |
| V1Values.FindCmdIncreasing | custom_components/siku/api_v1.py:507-532 | in a table with increasing codes, a row's code finds that row |
| V1Values.FeedbackIncreasing | custom_components/siku/api_v1.py:174-325 | the `FEEDBACK` codes increase row by row |
| V1Values.CodesDistinct | custom_components/siku/api_v1.py:174-325 | no two `FEEDBACK` rows share a code |
| V1Values.FeedbackKinds | custom_components/siku/api_v1.py:174-325 | every `FEEDBACK` row has a class and at least one value byte |
| V1Packet.ValueBytes | custom_components/siku/api_v1.py:455-458 | a value becomes `size` bytes, or OverflowError or AttributeError |
| V1Packet.EncodeItem | custom_components/siku/api_v1.py:441-461 | one element fails only with ValueError, TypeError, OverflowError or AttributeError, and never AttributeError with the corrected conversion |
| V1Packet.EncodeItems | custom_components/siku/api_v1.py:437-467 | the loop fails only with those errors, not AttributeError when corrected |
| V1Packet.ControlSpec | custom_components/siku/api_v1.py:437-467 | `_control_packet`: a non-list is TypeError; otherwise only the errors above |
| V1Packet.ControlPacketAsWritten | custom_components/siku/api_v1.py:437-467 | as written: a non-list is TypeError; errors only ValueError, TypeError, OverflowError or AttributeError |
| V1Packet.ControlPacketCorrected | custom_components/siku/api_v1.py:437-467 | corrected: a non-list is TypeError; errors only ValueError, TypeError or OverflowError |
| V1Packet.ControlPacket | custom_components/siku/api_v1.py:437-467 | the encoding loop, with the corrected conversion, computes `ControlPacketCorrected` |
| V1Packet.ControlPacketLayout | custom_components/siku/api_v1.py:437-467 | the corrected packet succeeds exactly on lists of encodable pairs, and is each pair's code byte followed by its value |
| V1Packet.LayoutLength | custom_components/siku/api_v1.py:453-461 | each pair takes one code byte and `size` value bytes |
| V1Packet.PairReadsBack | custom_components/siku/api_v1.py:453-461 | a pair's value bytes read back big-endian as its number |
| V1Packet.NonTupleFirst | custom_components/siku/api_v1.py:441-442 | a non-tuple anywhere in the list is TypeError before any pair is looked at |
| V1Packet.FirstFailure | custom_components/siku/api_v1.py:444-461 | the first pair that fails decides the error, whatever follows |
| V1Packet.AgreeWithoutWrappers | custom_components/siku/api_v1.py:458 | the as-written and corrected loops agree on lists holding no wrapper object |
| V1Packet.WrapperPairFails | custom_components/siku/api_v1.py:458 | as written, every pair whose command takes a wrapper class fails, with AttributeError for a value of that class |
| V1Packet.ManualSpeedAsWritten | custom_components/siku/api_v1.py:376-383 | manual speed 100 is AttributeError as written and 05 64 corrected |
| V1Packet.StatusPacket | custom_components/siku/api_v1.py:336-353 | the status request is 01 00 and the power toggle 03 00 |
| V1Packet.EnumPacket | custom_components/siku/api_v1.py:367-431 | speed, direction and timer members encode as code byte and member, the same in both versions |
| V1Packet.FramingIsAscii | custom_components/siku/api_v1.py:13-15 | the framing bytes spell "mobile", "master" and CR LF |
| V1Packet.Frame | custom_components/siku/api_v1.py:471 | a sent datagram is "mobile", the data and CR LF |
| V1Packet.StripMasterCases | custom_components/siku/api_v1.py:486-487 | a reply loses a leading "master" and is otherwise kept |
| V1Packet.SendCommand1 | custom_components/siku/api_v1.py:469-496 | the retry loop sends the framed data and computes `Exchange1` |
| V1Packet.Exchange1 | custom_components/siku/api_v1.py:473-496 | the attempts fail only with SocketError, TimeoutError or LookupError |
| V1Packet.Exchange1Decides | custom_components/siku/api_v1.py:473-496 | the first attempt that did not time out decides; three timeouts, and only they, are TimeoutError; LookupError never comes out |
| V1Packet.Exchange1Results | custom_components/siku/api_v1.py:473-496 | no LookupError; TimeoutError exactly after three timeouts; a first socket error is passed on |
| V1Response.RawValue | custom_components/siku/api_v1.py:511-514 | joining a value's hex list and reading it is its big-endian value, and ValueError when empty |
| V1Response.FeedbackOk | custom_components/siku/api_v1.py:174-325 | `FEEDBACK` has increasing codes, classes and value bytes |
| V1Response.Step1 | custom_components/siku/api_v1.py:503-535 | a pass that succeeds moves the index forward |
| V1Response.Walk1 | custom_components/siku/api_v1.py:503-535 | the walk fails only with ValueError and keeps every key it had |
| V1Response.TranslateSpec | custom_components/siku/api_v1.py:498-536 | `_translate_response` fails only with ValueError, and holds only `FEEDBACK` names with numbers of their rows' classes |
| V1Response.FindFeedback | custom_components/siku/api_v1.py:507-533 | the inner search loop computes `FindCmd` |
| V1Response.ReadParameter | custom_components/siku/api_v1.py:504-535 | one pass of the loop computes `Step1` |
| V1Response.TranslateResponse | custom_components/siku/api_v1.py:498-536 | the translation loop computes the walk |
| V1Response.StepWellTyped | custom_components/siku/api_v1.py:511-520 | what one pass stores is a table key with a number of that row's class |
| V1Response.TranslateWellTyped | custom_components/siku/api_v1.py:498-536 | a translated reply holds only `FEEDBACK` names, each with a number of its row's class |
| V1Response.WalkReadings | custom_components/siku/api_v1.py:503-535 | sendable readings' bytes walk to the dictionary of those readings, in order |
| V1Response.TranslateRoundTrip | custom_components/siku/api_v1.py:498-536 | a reply of sendable readings translates to their dictionary |
| V1Response.LastCodeAlone | custom_components/siku/api_v1.py:511-514 | a known code in last place with no value byte is ValueError |
| V1Response.Get | custom_components/siku/api_v1.py:538-571 | `data[key]` succeeds exactly for a present key, else KeyError |
| V1Response.IntAt | custom_components/siku/api_v1.py:542-556 | `int(data[key])` succeeds exactly for a present number, and gives it |
| V1Response.OptionalInt | custom_components/siku/api_v1.py:560-568 | an optional timer is None exactly when absent, and fails only on a present non-number |
| V1Response.FormatSpec | custom_components/siku/api_v1.py:538-571 | fails only with KeyError or TypeError; a record has the required keys, speeds [1, 2, 3], range (22, 255), version "1", power from the status and the speed's number |
| V1Response.FormatSucceeds | custom_components/siku/api_v1.py:538-571 | formatting succeeds exactly when the required keys are present and the `int()` values are numbers; else KeyError or TypeError |
| V1Response.FormatNumbers | custom_components/siku/api_v1.py:538-571 | a dictionary of numbers fails to format only for a missing key |
| V1Response.FormatTranslated | custom_components/siku/api_v1.py:498-571 | a translated reply formats exactly when the required keys are present, else KeyError |
| V1Response.FormatFields | custom_components/siku/api_v1.py:538-571 | each field of the record as it follows from the dictionary: power, speeds, oscillation and direction, alarm, boost, timers |
| V1Client.IntOfArg | custom_components/siku/api_v1.py:369 | `int(speed)` of an int is itself; of a string it succeeds exactly when Python's base-10 `int()` reads it (white space, sign, underscores), else ValueError |
| V1Client.Exchange | custom_components/siku/api_v1.py:336-340 | packet, send and translation fail only with ValueError, TypeError, OverflowError, SocketError or TimeoutError, and return `FEEDBACK` names with numbers of their classes |
| V1Client.PowerSteps | custom_components/siku/api_v1.py:343-365 | one exchange when the status already differs from the state to leave, two with the toggle otherwise; the second reply must hold the operation mode |
| V1Client.TimerSteps | custom_components/siku/api_v1.py:402-431 | after power_on and the timer command the reply holds the operation mode and only well-typed values |
| V1Client.DirectionArg | custom_components/siku/api_v1.py:385-396 | direction succeeds exactly when the resolved key reads with `int()` as 0, 1 or 2, and gives that member |
| V1Client.QueryPackets | custom_components/siku/api_v1.py:336-365 | the status read is 01 00 and the toggle 03 00 |
| V1Client.StatusReads | custom_components/siku/api_v1.py:336-341 | status is the formatted translation of the status read's reply |
| V1Client.PowerTogglesOnlyFrom | custom_components/siku/api_v1.py:343-365 | power_on and power_off send the toggle only when the status shows the other state |
| V1Client.PowerNeedsStatus | custom_components/siku/api_v1.py:343-365 | a reply without status is KeyError before anything else is sent |
| V1Client.SpeedChecks | custom_components/siku/api_v1.py:367-374 | speed accepts exactly 1, 2 and 3 and sends 04 n; anything else is ValueError before sending |
| V1Client.SpeedNotInt | custom_components/siku/api_v1.py:369 | a speed `int()` refuses is ValueError before anything is sent |
| V1Client.SpeedOutOfRange | custom_components/siku/api_v1.py:369 | a number other than 1, 2 and 3 is ValueError before anything is sent |
| V1Client.SpeedSpaced | custom_components/siku/api_v1.py:369 | a string speed with white space before or after is read as its digits |
| V1Client.SpeedSigned | custom_components/siku/api_v1.py:369 | a signed string speed is read with its sign |
| V1Client.SpeedUnderscored | custom_components/siku/api_v1.py:369 | an underscore between digits is dropped |
| V1Client.SpeedRejects | custom_components/siku/api_v1.py:369 | a blank string, a misplaced underscore, a spaced sign or a hex literal is ValueError |
| V1Client.DirectionChecks | custom_components/siku/api_v1.py:385-400 | a direction that is no name or key, or no member, is ValueError before sending |
| V1Client.DirectionPacket | custom_components/siku/api_v1.py:395-400 | the direction packet is 06 n |
| V1Client.TimerPackets | custom_components/siku/api_v1.py:402-431 | sleep and party send timer 09 with 01 or 02 |
| V1Client.PartyReportsOverride | custom_components/siku/api_v1.py:422-424 | party mode reports on, speed HIGH, no oscillation and no direction, whatever the reply |
| V1Client.OverrideFormats | custom_components/siku/api_v1.py:419-424 | the overridden record formats as on, speed HIGH, no manual speed, no oscillation and no direction |
| V1Client.ResetDoesNothing | custom_components/siku/api_v1.py:433-435 | the filter reset sends nothing and returns None |
| V1Client.MasterReply | custom_components/siku/api_v1.py:482-492 | a reply with the master prefix is handed on without it |
| V1Fixture.KnownReading | custom_components/siku/api_v1.py:174-325 | a known reading of a row is its code and bytes, and stores the row's class with its number |
| V1Fixture.CountdownReply | tests/test_api_v1.py:102-120 | code 0E with 00 00 05 reads as a 5-second countdown |
| V1Fixture.StatusSpeedReply | tests/test_api_v1.py:86-112 | 03 01 04 03 reads as status ON and speed HIGH |
| FakeFanSpec.Hex2 | fake_fan/fake_fan_server.py:185-220 | `f"{n:02X}"` is upper-case hex, and two digits for n below 256 |
| FakeFanSpec.StateValue | fake_fan/fake_fan_server.py:165-227 | a field is multi-byte (FE) exactly for filter timer, countdown, firmware and an rpm above 255, and then names its command after the FE marker |
| FakeFanSpec.SetSpec | fake_fan/fake_fan_server.py:229-266 | a write never changes sensors, rpm, countdown, firmware or device type; it only resets the filter timer, only clears the alarm; 02 toggles power |
| FakeFanSpec.HeaderText | fake_fan/fake_fan_server.py:147-163 | the header text starts FDFD02 and ends with function 06 |
| FakeFanSpec.VerifyAuth | fake_fan/fake_fan_server.py:120-145 | authentication requires the FD FD 02 prefix and an id field that decodes to the controller's id |
| FakeFanSpec.Dispatch | fake_fan/fake_fan_server.py:406-431 | WRITE is no answer; READ answers and changes nothing; a function outside 01 to 05 is no answer and changes nothing |
| FakeFanSpec.ProcessSpec | fake_fan/fake_fan_server.py:371-431 | IndexError exactly for fewer than two bytes, state unchanged; the state changes only for an authenticated datagram |
| FakeFanSpec.DaysHoursMinutes | fake_fan/fake_fan_server.py:197-203 | minutes split into days, hours below 24 and minutes below 60 that add back up |
| FakeFanSpec.HoursMinutesSeconds | fake_fan/fake_fan_server.py:205-211 | seconds split into hours, minutes and seconds below 60 that add back up |
| FakeFanSpec.PieceUpperHex | fake_fan/fake_fan_server.py:165-227 | every field the controller writes is upper-case hex |
| FakeFanSpec.ReadTextUpperHex | fake_fan/fake_fan_server.py:268-287 | a READ answer's fields are upper-case hex |
| FakeFanSpec.ReadWriteTextUpperHex | fake_fan/fake_fan_server.py:302-323 | a READ_WRITE answer's fields are upper-case hex |
| FakeFanSpec.HeaderUpperHex | fake_fan/fake_fan_server.py:147-163 | the response header is upper-case hex |
| FakeFanSpec.SealedResponse | fake_fan/fake_fan_server.py:280-284 | a sealed response is the text's bytes plus their checksum bytes, and passes the client's check, whatever the sum |
| FakeFanSpec.DispatchUpperHex | fake_fan/fake_fan_server.py:406-427 | every answer text after the header is upper-case hex |
| FakeFanSpec.ResponsesPass | fake_fan/fake_fan_server.py:371-431 | every response the controller sends has at least two bytes and passes the client's checksum check |
| FakeFanSpec.RejectedChangesNothing | fake_fan/fake_fan_server.py:379-396 | a datagram failing checksum or authentication gets no answer and changes nothing; fewer than two bytes is IndexError |
| FakeFanSpec.SetTwice | fake_fan/fake_fan_server.py:229-266 | toggling power twice restores the state; every other write is idempotent |
| FakeFanSpec.SetChangesOnlyItsField | fake_fan/fake_fan_server.py:229-266 | a write changes at most the field its command names; sensors, rpm, countdown, firmware and device type are never written |
| FakeFanSpec.PowerWrite | fake_fan/fake_fan_server.py:231-238 | power is on for 01, off for 00, flipped for 02, unchanged otherwise |
| FakeFanSpec.IncDecKeepRange | fake_fan/fake_fan_server.py:325-369 | INC and DEC keep the preset speed in 1..10, and undo each other when they moved |
| FakeFanSpec.IncDecSaturate | fake_fan/fake_fan_server.py:325-369 | INC and DEC stop at the ends of the range |
| FakeFanSpec.ReadWriteAppliesLikeWrite | fake_fan/fake_fan_server.py:289-323 | READ_WRITE changes the state exactly as WRITE does |
| FakeFanSpec.WriteSkipsTrailing | fake_fan/fake_fan_server.py:289-300 | a trailing command without a value is skipped |
| FakeFanSpec.HeaderLayout | fake_fan/fake_fan_server.py:147-163 | the header text renders the header bytes, which for ASCII id and password are what the client's parser expects |
| FakeFanSpec.ClientRequestAuthenticates | fake_fan/fake_fan_server.py:120-145 | a request the v2 client builds, as written, for the controller's own 16-byte id authenticates exactly when the password is ASCII, and then its function code sits right after the password |
| FakeFanSpec.RequestPlaces | fake_fan/fake_fan_server.py:120-145 | where the id, size byte, password and function sit in such a request, and that a size byte other than the password's length cuts the wrong slice |
| FakeFan.FakeFanController.constructor | fake_fan/fake_fan_server.py:76-102 | a new controller has its id and password and the initial state |
| FakeFan.FakeFanController.SetStateValue | fake_fan/fake_fan_server.py:229-266 | the fields become `SetSpec` of the old ones |
| FakeFan.FakeFanController.BuildResponse | fake_fan/fake_fan_server.py:280-284 | header, fields, checksum and `bytes.fromhex` of the lot |
| FakeFan.FakeFanController.HandleRead | fake_fan/fake_fan_server.py:268-287 | the sealed answer of one field per command, state unchanged |
| FakeFan.FakeFanController.HandleWrite | fake_fan/fake_fan_server.py:289-300 | the pairs applied in order, with `WriteSpec` |
| FakeFan.FakeFanController.HandleReadWrite | fake_fan/fake_fan_server.py:302-323 | the pairs applied and echoed, with `ReadWriteSpec` |
| FakeFan.FakeFanController.ApplyReadWrite | fake_fan/fake_fan_server.py:306-318 | the loop leaves the state and fields of `ReadWriteSpec` |
| FakeFan.FakeFanController.ReadWriteOne | fake_fan/fake_fan_server.py:306-318 | one step applies a pair and returns its echo, or skips a last lone command |
| FakeFan.FakeFanController.Increment | fake_fan/fake_fan_server.py:326-336 | the fields become `IncSpec` of the old ones |
| FakeFan.FakeFanController.Decrement | fake_fan/fake_fan_server.py:349-359 | the fields become `DecSpec` of the old ones |
| FakeFan.FakeFanController.HandleInc | fake_fan/fake_fan_server.py:325-346 | increment, then the new value sealed; IndexError with no command byte, state unchanged |
| FakeFan.FakeFanController.HandleDec | fake_fan/fake_fan_server.py:348-369 | decrement, then the new value sealed; IndexError with no command byte, state unchanged |
| FakeFan.FakeFanController.HandleFunction | fake_fan/fake_fan_server.py:406-431 | the named handler runs with `Dispatch`; an exception is no answer |
| FakeFan.FakeFanController.ProcessPacket | fake_fan/fake_fan_server.py:371-431 | state and answer are `ProcessSpec`: checksum, authentication, then the function |

## Left out

- Sockets, `udp.py`, the Home Assistant entities, coordinator and config flow, `__init__.py`
  and `send_packet.py`: they do not decide the protocol, so no part of them is modelled.
  Each send attempt's outcome is a `Transport.Attempt` input, and the fake fan's
  `datetime.now()` is a `Date` parameter.
- Logging, the fake fan's slow mode and its random delay: they do not change any value
  returned or stored.
- `speed_manual` in both clients: it converts a percentage through floating point.
- `const.py` constants not shown in the source (`DIRECTIONS`, `FAN_SPEEDS`,
  `DIRECTION_ALTERNATING`): a `Consts.Config` parameter, with distinct keys where that is
  needed.
- Python built-ins on strings are modelled only on the inputs the code gives them:
  - `int(s, 16)` takes hex digits only (no sign, whitespace or underscore);
  - `int(s)` in base 10 takes ASCII white space, a sign and underscores between digits
    (`Format.PyInt`), but not the non-ASCII digits and white space Python also accepts;
  - `str.upper` and `str.lower` act on ASCII letters only;
  - `bytes.fromhex` skips no whitespace.
- V1Packet.ControlPacket: a tuple of another length is one `WrongArity` element
  (ValueError). The elements of that tuple are not modelled.
- The v1 client's hex list is kept as the bytes it renders. The lower-case digits of
  `data.hex()` are not modelled, because `int(_, 16)` reads them like upper-case ones.
- FakeFanSpec.FanState: the fake fan's two-digit hex string fields are kept as the byte they
  spell. Every assignment stores such a string, so nothing is lost.
- FakeFanSpec.HeaderText: it counts id and password lengths in characters, like the v2
  client's password size. So it agrees with the bytes only for ASCII; HeaderLayout states
  that case.
- V1Response.FormatSpec: the recorded dictionary of the format test lacks `alarm_status`,
  so as written it raises KeyError. The model states the general law (FormatSucceeds) rather
  than that record's fields.
- V1Client.IntOfArg: a string speed of non-ASCII digits or with non-ASCII white space, which
  Python's `int()` reads, is ValueError in the model.
- V2Packet.LongPasswordRejected: passwords of 4096 characters or more, whose size has four or
  more hex digits, are not stated; RequestLayout covers fewer than 256.
- How the fake fan's multi-byte answers (the FE values) read back in the v2 client: the fake
  fan sends them high byte first, while the client reverses value bytes as a device's low
  byte first order needs. Each side is modelled as written; a round trip between them is not
  stated.

## Findings

| source | as written | input that shows it | evidently intended | confidence | as-written member | corrected member |
|---|---|---|---|---|---|---|
| custom_components/siku/api_v1.py:458 | `value.to_bytes(...)` is called on the checked value; the wrapper classes (SpeedManual, TimerSeconds, the humidity and 0-10 V thresholds) are not int subclasses and have no `to_bytes` | `[("manual_speed", SpeedManual(100))]` raises AttributeError | the value's number is encoded, `int(value).to_bytes(size, "big")`, giving 05 64 | not executed | V1Packet.ManualSpeedAsWritten | V1Packet.ControlPacketLayout |
| custom_components/siku/api_v2.py:208 | the password size byte is `len(self.password)`, a count of characters, while the password is sent as UTF-8 bytes | password "é": size byte 01, followed by the two bytes C3 A9 | the size is the number of UTF-8 bytes sent, `len(self.password.encode("utf-8"))` | not executed | V2Packet.LoginPacketAsWrittenMiscounts | V2Packet.RequestLayoutCorrected |
