/** The behaviour of the fake fan controller as functions of its state: what
    it reports for a command, what a write does, and what one received
    datagram does to the state and sends back. The class that holds the
    state is in module FakeFan. */
module FakeFanSpec {
  import opened Wrappers
  import opened Format
  import opened Utf8
  import opened Checksum
  import V2Packet
  import V2Parser

  /** The controller's state. The fields the source keeps as two-digit hex
      strings (speed, manual speed, direction, mode, device type) are only
      ever set to a received two-digit chunk or to `f"{n:02X}"` of a number
      below 256, so each is kept as the byte it spells. */
  datatype FanState = FanState(
    isOn: bool,
    speed: byte,
    manualSpeed: byte,
    direction: byte,
    boost: bool,
    mode: byte,
    humidity: nat,
    rpm: nat,
    filterTimerMinutes: nat,
    timerCountdownSeconds: nat,
    alarm: bool,
    firmwareMajor: nat,
    firmwareMinor: nat,
    deviceType: byte)

  /** the state a new controller starts in */
  const Initial := FanState(false, 0x01, 0x80, 0x00, false, 0x01, 45, 1200, 0, 0, false, 2, 5, 0x01)

  /** today's date, read by the firmware field */
  datatype Date = Date(day: nat, month: nat, year: nat)

  const CmdOnOff: byte := 0x01
  const CmdSpeed: byte := 0x02
  const CmdBoost: byte := 0x06
  const CmdMode: byte := 0x07
  const CmdTimerCountdown: byte := 0x0B
  const CmdCurrentHumidity: byte := 0x25
  const CmdManualSpeed: byte := 0x44
  const CmdFan1Rpm: byte := 0x4A
  const CmdFilterTimer: byte := 0x64
  const CmdResetFilterTimer: byte := 0x65
  const CmdResetAlarms: byte := 0x80
  const CmdReadAlarm: byte := 0x83
  const CmdFirmware: byte := 0x86
  const CmdDirection: byte := 0xB7
  const CmdDeviceType: byte := 0xB9

  const FuncRead: byte := 0x01
  const FuncWrite: byte := 0x02
  const FuncReadWrite: byte := 0x03
  const FuncInc: byte := 0x04
  const FuncDec: byte := 0x05

  /** `f"{n:02X}"` */
  function Hex2(n: nat): (s: string)
    ensures IsUpperHex(s)
    ensures n < 256 ==> s == HexByte(n)
  {
    if n < 256 then HexPadByte(n); HexPad(n, 2) else HexPad(n, 2)
  }

  function Flag(b: bool): string {
    if b then "01" else "00"
  }

  /** Minutes as days, hours and minutes. */
  function DaysHoursMinutes(m: nat): (r: (nat, nat, nat))
    ensures r.0 * 1440 + r.1 * 60 + r.2 == m && r.1 < 24 && r.2 < 60
  {
    var rest := m % 1440;
    (m / 1440, rest / 60, rest % 60)
  }

  /** Seconds as hours, minutes and seconds. */
  function HoursMinutesSeconds(t: nat): (r: (nat, nat, nat))
    ensures r.0 * 3600 + r.1 * 60 + r.2 == t && r.1 < 60 && r.2 < 60
  {
    var rest := t % 3600;
    (t / 3600, rest / 60, rest % 60)
  }

  /** `_get_state_value`: the value text for a command and whether it is in
      the multi-byte form (size, command, bytes). An unknown command is
      answered FD followed by the command. */
  function StateValue(s: FanState, cmd: byte, today: Date): (r: (string, bool))
    ensures r.1 <==> cmd == CmdFilterTimer || cmd == CmdTimerCountdown || cmd == CmdFirmware || (cmd == CmdFan1Rpm && s.rpm > 255)
    ensures r.1 ==> |r.0| >= 4 && r.0[2..4] == HexByte(cmd)
  {
    var c := HexByte(cmd);
    if cmd == CmdOnOff then (Flag(s.isOn), false)
    else if cmd == CmdSpeed then (HexByte(s.speed), false)
    else if cmd == CmdManualSpeed then (HexByte(s.manualSpeed), false)
    else if cmd == CmdDirection then (HexByte(s.direction), false)
    else if cmd == CmdBoost then (Flag(s.boost), false)
    else if cmd == CmdMode then (HexByte(s.mode), false)
    else if cmd == CmdCurrentHumidity then (Hex2(s.humidity), false)
    else if cmd == CmdFan1Rpm then
      if s.rpm > 255 then ("02" + c + Hex2(s.rpm / 256) + Hex2(s.rpm % 256), true)
      else (Hex2(s.rpm), false)
    else if cmd == CmdFilterTimer then
      var (d, h, m) := DaysHoursMinutes(s.filterTimerMinutes);
      ("03" + c + Hex2(d) + Hex2(h) + Hex2(m), true)
    else if cmd == CmdTimerCountdown then
      var (h, m, sec) := HoursMinutesSeconds(s.timerCountdownSeconds);
      ("03" + c + Hex2(h) + Hex2(m) + Hex2(sec), true)
    else if cmd == CmdReadAlarm then (Flag(s.alarm), false)
    else if cmd == CmdFirmware then
      ("06" + c + Hex2(s.firmwareMajor) + Hex2(s.firmwareMinor) + Hex2(today.day) + Hex2(today.month)
        + Hex2(today.year / 256) + Hex2(today.year % 256), true)
    else if cmd == CmdDeviceType then (HexByte(s.deviceType), false)
    else ("FD" + c, false)
  }

  /** One field of a response: FE and the multi-byte value, or the command
      and its value. */
  function Piece(s: FanState, cmd: byte, today: Date): string {
    var (value, multi) := StateValue(s, cmd, today);
    if multi then "FE" + value else HexByte(cmd) + value
  }

  /** `_set_state_value`. Power takes 01 (on), 00 (off) and 02 (toggle);
      boost is on for anything but 00; the resets clear the filter timer
      and the alarm; anything else changes nothing. */
  function SetSpec(s: FanState, cmd: byte, value: byte): (r: FanState)
    ensures r.humidity == s.humidity && r.rpm == s.rpm && r.timerCountdownSeconds == s.timerCountdownSeconds
    ensures r.firmwareMajor == s.firmwareMajor && r.firmwareMinor == s.firmwareMinor && r.deviceType == s.deviceType
    ensures r.filterTimerMinutes == s.filterTimerMinutes || r.filterTimerMinutes == 0
    ensures r.alarm ==> s.alarm
    ensures cmd == CmdOnOff && value == 0x02 ==> r == s.(isOn := !s.isOn)
  {
    if cmd == CmdOnOff then
      if value == 0x01 then s.(isOn := true)
      else if value == 0x00 then s.(isOn := false)
      else if value == 0x02 then s.(isOn := !s.isOn)
      else s
    else if cmd == CmdSpeed then s.(speed := value)
    else if cmd == CmdManualSpeed then s.(manualSpeed := value)
    else if cmd == CmdDirection then s.(direction := value)
    else if cmd == CmdBoost then s.(boost := value != 0x00)
    else if cmd == CmdMode then s.(mode := value)
    else if cmd == CmdResetFilterTimer then s.(filterTimerMinutes := 0)
    else if cmd == CmdResetAlarms then s.(alarm := false)
    else s
  }

  /** The state change of `_handle_inc`: speed up to 10, manual speed up to 255. */
  function IncSpec(s: FanState, cmd: byte): FanState {
    if cmd == CmdSpeed then (if s.speed < 10 then s.(speed := s.speed + 1) else s)
    else if cmd == CmdManualSpeed then (if s.manualSpeed < 255 then s.(manualSpeed := s.manualSpeed + 1) else s)
    else s
  }

  /** The state change of `_handle_dec`: speed down to 1, manual speed down to 0. */
  function DecSpec(s: FanState, cmd: byte): FanState {
    if cmd == CmdSpeed then (if s.speed > 1 then s.(speed := s.speed - 1) else s)
    else if cmd == CmdManualSpeed then (if s.manualSpeed > 0 then s.(manualSpeed := s.manualSpeed - 1) else s)
    else s
  }

  /** The fields of a READ response, one per command from `i` to `end`. */
  function ReadText(s: FanState, h: seq<byte>, i: nat, end: nat, today: Date): string
    requires end <= |h|
    decreases end - i
  {
    if i >= end then "" else Piece(s, h[i], today) + ReadText(s, h, i + 1, end, today)
  }

  /** The pairs of a WRITE applied in order; a last command without a
      value is skipped. */
  function WriteSpec(s: FanState, h: seq<byte>, i: nat, end: nat): FanState
    requires end <= |h|
    decreases end - i
  {
    if i >= end then s
    else if i + 1 < end then WriteSpec(SetSpec(s, h[i], h[i + 1]), h, i + 2, end)
    else WriteSpec(s, h, i + 1, end)
  }

  /** A READ_WRITE: each pair is applied and the command's new value is
      echoed. */
  function ReadWriteSpec(s: FanState, h: seq<byte>, i: nat, end: nat, today: Date): (FanState, string)
    requires end <= |h|
    decreases end - i
  {
    if i >= end then (s, "")
    else if i + 1 < end then
      var next := SetSpec(s, h[i], h[i + 1]);
      var (last, text) := ReadWriteSpec(next, h, i + 2, end, today);
      (last, Piece(next, h[i], today) + text)
    else ReadWriteSpec(s, h, i + 1, end, today)
  }

  /** `_build_response_header`: FDFD, 02, the id's length in characters,
      its UTF-8 bytes, the password's length and bytes, and function 06. */
  function HeaderText(id: string, password: string): (r: string)
    ensures |r| >= 8 && r[..6] == "FDFD02" && r[|r| - 2..] == "06"
  {
    "FDFD" + "02" + Hex2(|id|) + Hex(Encode(id)) + Hex2(|password|) + Hex(Encode(password)) + "06"
  }

  /** The checksum appended to a response and `bytes.fromhex` of the whole;
      ValueError for an odd number of digits. */
  function Seal(text: string): Result<seq<byte>> {
    var ck :- ChecksumOf(text);
    FromHex(text + ck)
  }

  /** `_verify_auth`: prefix FDFD, protocol 02, then an id and a password, each
      after its length byte, that decode as UTF-8 to the controller's own.
      A missing length byte or an undecodable id is a rejection. */
  function VerifyAuth(h: seq<byte>, id: string, password: string): (r: bool)
    ensures r ==> |h| > 4 && |h| > 4 + h[3] as nat && h[..3] == [0xFD, 0xFD, 0x02]
    ensures r ==> Decode(Slice(h, 4, 4 + h[3] as nat)) == Some(id)
  {
    if |h| < 4 || h[0] != 0xFD || h[1] != 0xFD || h[2] != 0x02 then false
    else
      var idLength := h[3] as nat;
      var receivedId := Decode(Slice(h, 4, 4 + idLength));
      var pwdStart := 4 + idLength;
      if receivedId.None? || pwdStart >= |h| then false
      else
        var pwdLength := h[pwdStart] as nat;
        var receivedPassword := Decode(Slice(h, pwdStart + 1, pwdStart + 1 + pwdLength));
        receivedPassword.Some? && receivedId.value == id && receivedPassword.value == password
  }

  /** Where the function code sits, after the id and password. */
  function FuncPos(h: seq<byte>): Option<nat> {
    if |h| < 4 then None
    else
      var pwdStart := 4 + h[3] as nat;
      if pwdStart >= |h| then None
      else
        var pos := pwdStart + 1 + h[pwdStart] as nat;
        if pos >= |h| then None else Some(pos)
  }

  /** A response, or None where `process_packet` catches an exception. */
  function Respond(r: Result<seq<byte>>): Result<Option<seq<byte>>> {
    if r.Ok? then Ok(Some(r.value)) else Ok(None)
  }

  /** The function at `pos` applied to the state: the new state, and the
      text of the answer that follows the header (None for WRITE, for an
      unknown function, and for INC or DEC with no command byte). */
  function Dispatch(s: FanState, h: seq<byte>, pos: nat, today: Date): (r: (FanState, Option<string>))
    requires 2 <= |h| && pos < |h|
    ensures h[pos] == FuncWrite ==> r.1.None?
    ensures h[pos] == FuncRead ==> r.0 == s && r.1.Some?
    ensures !(FuncRead <= h[pos] <= FuncDec) ==> r == (s, None)
  {
    var func := h[pos];
    var start := pos + 1;
    var end := |h| - 2;
    if func == FuncRead then (s, Some(ReadText(s, h, start, end, today)))
    else if func == FuncWrite then (WriteSpec(s, h, start, end), None)
    else if func == FuncReadWrite then
      var (next, text) := ReadWriteSpec(s, h, start, end, today);
      (next, Some(text))
    else if func == FuncInc || func == FuncDec then
      if start >= |h| then (s, None)
      else
        var next := if func == FuncInc then IncSpec(s, h[start]) else DecSpec(s, h[start]);
        (next, Some(Piece(next, h[start], today)))
    else (s, None)
  }

  /** `process_packet` on a received datagram: the checksum test (which
      raises IndexError on fewer than two bytes), the authentication, then
      the function. WRITE and unknown functions answer nothing, and every
      exception after authentication becomes no answer. */
  function ProcessSpec(s: FanState, id: string, password: string, h: seq<byte>, today: Date): (r: (FanState, Result<Option<seq<byte>>>))
    ensures r.1.Err? <==> |h| < 2
    ensures r.1.Err? ==> r == (s, Err(IndexError))
    ensures r.0 != s ==> VerifyAuth(h, id, password)
  {
    ChecksumRaisesOnlyShort(h);
    var checked := VerifyChecksum(HexList(h));
    if checked.Err? then (s, Err(checked.error))
    else if !checked.value || !VerifyAuth(h, id, password) then (s, Ok(None))
    else match FuncPos(h)
      case None => (s, Ok(None))
      case Some(pos) =>
        var (next, text) := Dispatch(s, h, pos, today);
        if text.None? then (next, Ok(None))
        else (next, Respond(Seal(HeaderText(id, password) + text.value)))
  }

  // ---- what the controller promises ----

  lemma LiteralsUpperHex()
    ensures IsUpperHex("00") && IsUpperHex("01") && IsUpperHex("02") && IsUpperHex("03")
    ensures IsUpperHex("06") && IsUpperHex("FD") && IsUpperHex("FE") && IsUpperHex("FDFD")
  {
  }

  /** Every field the controller writes is upper-case hex digits. */
  lemma PieceUpperHex(s: FanState, cmd: byte, today: Date)
    ensures IsUpperHex(Piece(s, cmd, today))
  {
    LiteralsUpperHex();
    var c := HexByte(cmd);
    var (value, multi) := StateValue(s, cmd, today);
    assert IsUpperHex(value) by {
      if cmd == CmdFan1Rpm && s.rpm > 255 {
        UpperHexAppend("02", c);
        UpperHexAppend("02" + c, Hex2(s.rpm / 256));
        UpperHexAppend("02" + c + Hex2(s.rpm / 256), Hex2(s.rpm % 256));
      } else if cmd == CmdFilterTimer || cmd == CmdTimerCountdown {
        var (a, b, d) := if cmd == CmdFilterTimer then DaysHoursMinutes(s.filterTimerMinutes)
                         else HoursMinutesSeconds(s.timerCountdownSeconds);
        UpperHexAppend("03", c);
        UpperHexAppend("03" + c, Hex2(a));
        UpperHexAppend("03" + c + Hex2(a), Hex2(b));
        UpperHexAppend("03" + c + Hex2(a) + Hex2(b), Hex2(d));
      } else if cmd == CmdFirmware {
        var t := "06" + c;
        UpperHexAppend("06", c);
        UpperHexAppend(t, Hex2(s.firmwareMajor));
        UpperHexAppend(t + Hex2(s.firmwareMajor), Hex2(s.firmwareMinor));
        t := t + Hex2(s.firmwareMajor) + Hex2(s.firmwareMinor);
        UpperHexAppend(t, Hex2(today.day));
        UpperHexAppend(t + Hex2(today.day), Hex2(today.month));
        t := t + Hex2(today.day) + Hex2(today.month);
        UpperHexAppend(t, Hex2(today.year / 256));
        UpperHexAppend(t + Hex2(today.year / 256), Hex2(today.year % 256));
      } else if !(cmd in {CmdOnOff, CmdSpeed, CmdManualSpeed, CmdDirection, CmdBoost, CmdMode,
                          CmdCurrentHumidity, CmdFan1Rpm, CmdReadAlarm, CmdDeviceType}) {
        UpperHexAppend("FD", c);
      }
    }
    if multi {
      UpperHexAppend("FE", value);
    } else {
      UpperHexAppend(c, value);
    }
  }

  lemma {:induction false} ReadTextUpperHex(s: FanState, h: seq<byte>, i: nat, end: nat, today: Date)
    requires end <= |h|
    ensures IsUpperHex(ReadText(s, h, i, end, today))
    decreases end - i
  {
    if i < end {
      PieceUpperHex(s, h[i], today);
      ReadTextUpperHex(s, h, i + 1, end, today);
      UpperHexAppend(Piece(s, h[i], today), ReadText(s, h, i + 1, end, today));
    }
  }

  /** One pair of a READ_WRITE: its new state carried on, its echo in front. */
  lemma ReadWritePair(s: FanState, h: seq<byte>, i: nat, end: nat, today: Date)
    requires end <= |h| && i + 1 < end
    ensures var next := SetSpec(s, h[i], h[i + 1]);
      var rest := ReadWriteSpec(next, h, i + 2, end, today);
      ReadWriteSpec(s, h, i, end, today) == (rest.0, Piece(next, h[i], today) + rest.1)
  {
  }

  lemma ReadWriteUpperCons(s: FanState, h: seq<byte>, i: nat, end: nat, today: Date)
    requires end <= |h| && i + 1 < end
    requires IsUpperHex(ReadWriteSpec(SetSpec(s, h[i], h[i + 1]), h, i + 2, end, today).1)
    ensures IsUpperHex(ReadWriteSpec(s, h, i, end, today).1)
  {
    var next := SetSpec(s, h[i], h[i + 1]);
    PieceUpperHex(next, h[i], today);
    ReadWritePair(s, h, i, end, today);
    UpperHexAppend(Piece(next, h[i], today), ReadWriteSpec(next, h, i + 2, end, today).1);
  }

  lemma {:induction false} ReadWriteTextUpperHex(s: FanState, h: seq<byte>, i: nat, end: nat, today: Date)
    requires end <= |h|
    ensures IsUpperHex(ReadWriteSpec(s, h, i, end, today).1)
    decreases end - i
  {
    if i < end {
      if i + 1 < end {
        var next := SetSpec(s, h[i], h[i + 1]);
        ReadWriteTextUpperHex(next, h, i + 2, end, today);
        ReadWriteUpperCons(s, h, i, end, today);
      } else {
        ReadWriteTextUpperHex(s, h, i + 1, end, today);
      }
    }
  }

  lemma HeaderUpperHex(id: string, password: string)
    ensures IsUpperHex(HeaderText(id, password))
  {
    LiteralsUpperHex();
    var t := "FDFD" + "02";
    UpperHexAppend("FDFD", "02");
    UpperHexAppend(t, Hex2(|id|));
    t := t + Hex2(|id|);
    UpperHexAppend(t, Hex(Encode(id)));
    t := t + Hex(Encode(id));
    UpperHexAppend(t, Hex2(|password|));
    t := t + Hex2(|password|);
    UpperHexAppend(t, Hex(Encode(password)));
    t := t + Hex(Encode(password));
    UpperHexAppend(t, "06");
  }

  /** A sealed response is the bytes of the text followed by the two
      checksum bytes of their sum, and so it passes `_verify_checksum`. */
  lemma SealedResponse(text: string)
    requires IsUpperHex(text) && Seal(text).Ok?
    ensures FromHex(text).Ok?
    ensures var body := FromHex(text).value;
      Seal(text).value == body + ChecksumBytes(PacketSum(body)) &&
      VerifyChecksum(HexList(Seal(text).value)) == Ok(true)
  {
    var ck := ChecksumOf(text).value;
    assert |ck| == 4 && IsUpperHex(ck);
    assert |text| % 2 == 0 by {
      assert FromHex(text + ck).Ok?;
    }
    HexOfFromHex(text);
    var body := FromHex(text).value;
    ChecksumOfHex(body);
    var cb := ChecksumBytes(PacketSum(body));
    HexAppend(body, cb);
    FromHexOfHex(body + cb);
    SealedPasses(body);
  }

  lemma DispatchUpperHex(s: FanState, h: seq<byte>, pos: nat, today: Date)
    requires 2 <= |h| && pos < |h|
    ensures Dispatch(s, h, pos, today).1.Some? ==> IsUpperHex(Dispatch(s, h, pos, today).1.value)
  {
    var func := h[pos];
    var start := pos + 1;
    var end := |h| - 2;
    if func == FuncRead {
      ReadTextUpperHex(s, h, start, end, today);
    } else if func == FuncReadWrite {
      ReadWriteTextUpperHex(s, h, start, end, today);
    } else if (func == FuncInc || func == FuncDec) && start < |h| {
      var next := if func == FuncInc then IncSpec(s, h[start]) else DecSpec(s, h[start]);
      PieceUpperHex(next, h[start], today);
    }
  }

  /** Every response the controller sends (to READ, READ_WRITE, INC and
      DEC) ends with the checksum of what precedes it and so passes the
      client's checksum test. */
  lemma ResponsesPass(s: FanState, id: string, password: string, h: seq<byte>, today: Date)
    requires ProcessSpec(s, id, password, h, today).1.Ok?
    requires ProcessSpec(s, id, password, h, today).1.value.Some?
    ensures var resp := ProcessSpec(s, id, password, h, today).1.value.value;
      |resp| >= 2 && VerifyChecksum(HexList(resp)) == Ok(true)
  {
    var pos := FuncPos(h).value;
    var text := Dispatch(s, h, pos, today).1.value;
    DispatchUpperHex(s, h, pos, today);
    HeaderUpperHex(id, password);
    UpperHexAppend(HeaderText(id, password), text);
    SealedResponse(HeaderText(id, password) + text);
  }

  /** A datagram whose checksum or authentication fails is answered with
      nothing and leaves the state alone; both checks come before any
      command is looked at. Fewer than two bytes make the checksum test
      raise IndexError. */
  lemma RejectedChangesNothing(s: FanState, id: string, password: string, h: seq<byte>, today: Date)
    requires VerifyChecksum(HexList(h)) != Ok(true) || !VerifyAuth(h, id, password)
    ensures ProcessSpec(s, id, password, h, today).0 == s
    ensures ProcessSpec(s, id, password, h, today).1 == (if |h| < 2 then Err(IndexError) else Ok(None))
  {
    if |h| >= 2 {
      SumHexOfHexList(DropTwo(h[..|h| - 2]));
      assert HexList(h)[..|h| - 2] == HexList(h[..|h| - 2]);
      ConcatHexList(h[..|h| - 2]);
      ChecksumOfHex(h[..|h| - 2]);
    }
  }

  /** Toggling the power twice gives the state back, and every other write
      is idempotent. */
  lemma SetTwice(s: FanState, cmd: byte, value: byte)
    ensures cmd == CmdOnOff && value == 0x02 ==> SetSpec(SetSpec(s, cmd, value), cmd, value) == s
    ensures !(cmd == CmdOnOff && value == 0x02) ==> SetSpec(SetSpec(s, cmd, value), cmd, value) == SetSpec(s, cmd, value)
  {
  }

  /** A write changes at most the field its command names; a command that
      is not writable changes nothing. Sensors, rpm, countdown, firmware
      and device type are never written. */
  lemma SetChangesOnlyItsField(s: FanState, cmd: byte, value: byte)
    ensures var t := SetSpec(s, cmd, value);
      && (t.isOn != s.isOn ==> cmd == CmdOnOff)
      && (t.speed != s.speed ==> cmd == CmdSpeed)
      && (t.manualSpeed != s.manualSpeed ==> cmd == CmdManualSpeed)
      && (t.direction != s.direction ==> cmd == CmdDirection)
      && (t.boost != s.boost ==> cmd == CmdBoost)
      && (t.mode != s.mode ==> cmd == CmdMode)
      && (t.filterTimerMinutes != s.filterTimerMinutes ==> cmd == CmdResetFilterTimer)
      && (t.alarm != s.alarm ==> cmd == CmdResetAlarms)
      && t.humidity == s.humidity && t.rpm == s.rpm && t.timerCountdownSeconds == s.timerCountdownSeconds
      && t.firmwareMajor == s.firmwareMajor && t.firmwareMinor == s.firmwareMinor && t.deviceType == s.deviceType
    ensures !(cmd in {CmdOnOff, CmdSpeed, CmdManualSpeed, CmdDirection, CmdBoost, CmdMode, CmdResetFilterTimer, CmdResetAlarms})
      ==> SetSpec(s, cmd, value) == s
  {
  }

  /** What a power write leaves: on for 01, off for 00, flipped for 02,
      unchanged for anything else. */
  lemma PowerWrite(s: FanState, value: byte)
    ensures SetSpec(s, CmdOnOff, value).isOn ==
      if value == 0x01 then true else if value == 0x00 then false else if value == 0x02 then !s.isOn else s.isOn
  {
  }

  predicate SpeedsInRange(s: FanState) {
    1 <= s.speed <= 10
  }

  /** INC and DEC keep the preset speed in 1..10 (the manual speed, a byte,
      stays in 0..255 by its type), and DEC undoes an INC that moved. */
  lemma IncDecKeepRange(s: FanState, cmd: byte)
    requires SpeedsInRange(s)
    ensures SpeedsInRange(IncSpec(s, cmd)) && SpeedsInRange(DecSpec(s, cmd))
    ensures IncSpec(s, cmd) != s ==> DecSpec(IncSpec(s, cmd), cmd) == s
    ensures DecSpec(s, cmd) != s ==> IncSpec(DecSpec(s, cmd), cmd) == s
  {
  }

  /** INC and DEC stop at the ends of the range. */
  lemma IncDecSaturate(s: FanState)
    ensures s.speed >= 10 ==> IncSpec(s, CmdSpeed) == s
    ensures s.speed <= 1 ==> DecSpec(s, CmdSpeed) == s
    ensures s.manualSpeed == 255 ==> IncSpec(s, CmdManualSpeed) == s
    ensures s.manualSpeed == 0 ==> DecSpec(s, CmdManualSpeed) == s
  {
  }

  /** READ_WRITE changes the state exactly as WRITE does. */
  lemma {:induction false} ReadWriteAppliesLikeWrite(s: FanState, h: seq<byte>, i: nat, end: nat, today: Date)
    requires end <= |h|
    ensures ReadWriteSpec(s, h, i, end, today).0 == WriteSpec(s, h, i, end)
    decreases end - i
  {
    if i < end {
      if i + 1 < end {
        ReadWriteAppliesLikeWrite(SetSpec(s, h[i], h[i + 1]), h, i + 2, end, today);
      } else {
        ReadWriteAppliesLikeWrite(s, h, i + 1, end, today);
      }
    }
  }

  /** A trailing command without a value is skipped: writing an odd run is
      writing it without its last byte. */
  lemma {:induction false} WriteSkipsTrailing(s: FanState, h: seq<byte>, i: nat, end: nat)
    requires i < end <= |h| && (end - i) % 2 == 1
    ensures WriteSpec(s, h, i, end) == WriteSpec(s, h, i, end - 1)
    decreases end - i
  {
    if i + 1 < end {
      WriteSkipsTrailing(SetSpec(s, h[i], h[i + 1]), h, i + 2, end);
    }
  }

  /** The header bytes of a response, for an id and password shorter than
      256 characters. */
  function FanHeader(id: string, password: string): seq<byte>
    requires |id| < 256 && |password| < 256
  {
    [0xFD, 0xFD, 0x02, |id| as byte] + Encode(id) + [|password| as byte] + Encode(password) + [0x06]
  }

  /** The header text is the hex of those bytes; when the id and password
      are ASCII (characters and bytes agree) it is the header the client's
      parser expects. */
  lemma HeaderLayout(id: string, password: string)
    requires |id| < 256 && |password| < 256
    ensures HeaderText(id, password) == Hex(FanHeader(id, password))
    ensures |Encode(id)| == |id| && |Encode(password)| == |password| ==>
      FanHeader(id, password) == V2Parser.ResponseHeader(Encode(id), Encode(password))
  {
    var e := Encode(id);
    var p := Encode(password);
    var a: seq<byte> := [0xFD, 0xFD, 0x02, |id| as byte];
    var b: seq<byte> := [|password| as byte];
    var c: seq<byte> := [0x06];
    assert Hex(a) == "FDFD" + "02" + Hex2(|id|) by {
      var pre: seq<byte> := [0xFD, 0xFD, 0x02];
      assert HexByte(0xFD) == "FD" && HexByte(0x02) == "02";
      assert Hex([0x02]) == "02";
      assert Hex([0xFD, 0x02]) == HexByte(0xFD) + Hex([0x02]);
      assert Hex(pre) == HexByte(0xFD) + Hex([0xFD, 0x02]);
      assert Hex(pre) == "FDFD" + "02";
      assert Hex([|id| as byte]) == Hex2(|id|);
      assert a == pre + [|id| as byte];
      HexAppend(pre, [|id| as byte]);
    }
    assert Hex(b) == Hex2(|password|);
    assert Hex(c) == "06";
    var ae := a + e;
    var aeb := ae + b;
    var aebp := aeb + p;
    HexAppend(a, e);
    HexAppend(ae, b);
    HexAppend(aeb, p);
    HexAppend(aebp, c);
    assert FanHeader(id, password) == aebp + c;
  }

  /** A request the v2 client builds for the controller's own id (sixteen
      bytes, the size the client always sends) passes the authentication
      exactly when the password is ASCII: the client's size byte counts
      characters, the controller reads that many bytes. Then the function
      code sits right after the password. */
  lemma ClientRequestAuthenticates(id: string, password: string, func: byte, data: seq<byte>, ck: seq<byte>)
    requires |Encode(id)| == 16 && |password| < 256
    ensures var h := V2Packet.RequestBody(id, password, func, data) + ck;
      VerifyAuth(h, id, password) <==> |Encode(password)| == |password|
    ensures var h := V2Packet.RequestBody(id, password, func, data) + ck;
      |Encode(password)| == |password| ==> FuncPos(h) == Some(21 + |password|) && h[21 + |password|] == func
  {
    var h := V2Packet.RequestBody(id, password, func, data) + ck;
    var e := Encode(id);
    var p := Encode(password);
    var n := |password|;
    assert h == [0xFD, 0xFD, 0x02, 0x10] + e + [n as byte] + p + [func] + data + ck;
    RequestPlaces(h, e, p, n, func, data, ck);
    DecodeEncode(id);
    if n == |p| {
      DecodeEncode(password);
      AuthOfLayout(h, id, password, n);
    } else {
      var received := Slice(h, 21, 21 + n);
      if Decode(received).Some? {
        EncodeDecode(received);
      }
    }
  }

  /** Where the pieces of a request sit, for a 16-byte id and a size byte
      `n` that may disagree with the password's byte count. */
  lemma RequestPlaces(h: seq<byte>, e: seq<byte>, p: seq<byte>, n: nat, func: byte, data: seq<byte>, ck: seq<byte>)
    requires |e| == 16 && n < 256
    requires h == [0xFD, 0xFD, 0x02, 0x10] + e + [n as byte] + p + [func] + data + ck
    ensures |h| > 21 + |p| && h[0] == 0xFD && h[1] == 0xFD && h[2] == 0x02 && h[3] == 16
    ensures Slice(h, 4, 20) == e && h[20] == n && h[21 + |p|] == func
    ensures n == |p| ==> Slice(h, 21, 21 + n) == p
    ensures n != |p| ==> |Slice(h, 21, 21 + n)| != |p|
  {
  }

  /** The authentication and the function position read off those places. */
  lemma AuthOfLayout(h: seq<byte>, id: string, password: string, n: nat)
    requires |h| > 21 + n && h[0] == 0xFD && h[1] == 0xFD && h[2] == 0x02 && h[3] == 16
    requires Decode(Slice(h, 4, 20)) == Some(id) && h[20] == n
    requires Decode(Slice(h, 21, 21 + n)) == Some(password)
    ensures VerifyAuth(h, id, password) && FuncPos(h) == Some(21 + n)
  {
  }
}
