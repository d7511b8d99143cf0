/** `_translate_response` of the v2 client: turn the parsed dictionary into
    the status record. A missing command gives the field its default (only
    KeyError is caught); a present value that `int(_, 16)` cannot read
    raises ValueError, and an empty firmware value raises IndexError. */
module V2Status {
  import opened Wrappers
  import opened Format
  import opened Consts
  import opened V2Parser

  const CmdOnOff: byte := 0x01
  const CmdSpeed: byte := 0x02
  const CmdBoost: byte := 0x06
  const CmdMode: byte := 0x07
  const CmdTimerCountdown: byte := 0x0B
  const CmdHumidity: byte := 0x25
  const CmdManualSpeed: byte := 0x44
  const CmdFan1Rpm: byte := 0x4A
  const CmdFilterTimer: byte := 0x64
  const CmdReadAlarm: byte := 0x83
  const CmdFirmware: byte := 0x86
  const CmdDirection: byte := 0xB7
  const CmdDeviceType: byte := 0xB9

  const SpeedManualMin := 0
  const SpeedManualMax := 255

  /** The dictionary `_translate_response` returns. */
  datatype Status = Status(
    isOn: bool,
    speed: string,
    speedList: seq<string>,
    manualSpeedSelected: bool,
    manualSpeed: nat,
    manualSpeedRange: (int, int),
    oscillating: bool,
    direction: Option<string>,
    boost: bool,
    mode: Preset,
    humidity: Option<nat>,
    rpm: nat,
    firmware: Option<string>,
    filterTimerDays: nat,
    timerCountdown: nat,
    alarm: bool,
    version: string)

  /** `int(s, 16)`, ValueError when it cannot read `s`. */
  function IntHex(s: string): (r: Result<nat>)
    ensures r.Err? ==> r.error == ValueError
  {
    match ParseHex(s)
    case None => Err(ValueError)
    case Some(v) => Ok(v)
  }

  /** `MODES[code]`: MODE_OFF and MODE_SLEEP are both "01", so the later
      entry wins and the dictionary maps "01" to sleep and "02" to party;
      any other code is a KeyError, caught as auto. */
  function ModeOf(code: string): Preset {
    if code == "01" then Sleep else if code == "02" then Party else Auto
  }

  /** `f"{int(v, 16):02}"` for a present value, the default otherwise. */
  function SpeedText(data: Data, cmd: byte, default: string): (r: Result<string>)
    ensures r.Ok? && cmd in data ==> ParseDecimal(r.value).Some?
  {
    if cmd in data then
      var n :- IntHex(Hex(data[cmd]));
      Ok(DecimalPad2(n))
    else Ok(default)
  }

  /** `int(v, 16)` for a present value, the default otherwise. */
  function NumberText(data: Data, cmd: byte, default: Option<nat>): Result<Option<nat>> {
    if cmd in data then
      var n :- IntHex(Hex(data[cmd]));
      Ok(Some(n))
    else Ok(default)
  }

  /** The three numbers `int(v[0:2], 16)`, `int(v[2:4], 16)` and
      `int(v[4:6], 16)` a time value is read as; None when it is absent. */
  function Clock(data: Data, cmd: byte): Result<Option<(nat, nat, nat)>> {
    if cmd in data then
      var t := Hex(data[cmd]);
      var a :- IntHex(Slice(t, 0, 2));
      var b :- IntHex(Slice(t, 2, 4));
      var c :- IntHex(Slice(t, 4, 6));
      Ok(Some((a, b, c)))
    else Ok(None)
  }

  /** days, hours, minutes to minutes */
  function FilterMinutes(t: Option<(nat, nat, nat)>): nat {
    match t
    case None => 0
    case Some((days, hours, minutes)) => minutes + hours * 60 + days * 1440
  }

  /** hours, minutes, seconds to seconds */
  function CountdownSeconds(t: Option<(nat, nat, nat)>): nat {
    match t
    case None => 0
    case Some((hours, minutes, seconds)) => seconds + minutes * 60 + hours * 3600
  }

  /** `f"{int(v[0], 16)}.{int(v[1], 16)}"`: the first two hex digits of the
      value string, IndexError when it is empty. */
  function FirmwareText(data: Data): Result<Option<string>> {
    if CmdFirmware in data then
      var t := Hex(data[CmdFirmware]);
      if |t| < 1 then Err(IndexError)
      else
        var major :- IntHex([t[0]]);
        if |t| < 2 then Err(IndexError)
        else
          var minor :- IntHex([t[1]]);
          Ok(Some(Decimal(major) + "." + Decimal(minor)))
    else Ok(None)
  }

  /** `DIRECTIONS[v]`, None for a KeyError (absent command or unknown code). */
  function DirectionName(c: Config, data: Data): Option<string> {
    if CmdDirection in data then Lookup(c.directions, Hex(data[CmdDirection])) else None
  }

  /** Whether a present value's hex string equals (or differs from) a text;
      false when it is absent. */
  function Is(data: Data, cmd: byte, text: string): bool {
    cmd in data && Hex(data[cmd]) == text
  }

  function IsNot(data: Data, cmd: byte, text: string): bool {
    cmd in data && Hex(data[cmd]) != text
  }

  /** `_translate_response`. The numeric fields are read in the source's
      order, so the first one that fails decides the exception. */
  function Translate(c: Config, data: Data): (r: Result<Status>)
    ensures r.Err? ==> r.error == ValueError || r.error == IndexError
    ensures r.Ok? ==> r.value.version == "2" && r.value.speedList == c.fanSpeeds
    ensures r.Ok? ==> r.value.manualSpeedRange == (SpeedManualMin, SpeedManualMax)
    ensures r.Ok? ==> (r.value.speed == "FF" ==> r.value.manualSpeedSelected)
  {
    var speed :- SpeedText(data, CmdSpeed, "FF");
    var manualSpeed :- SpeedText(data, CmdManualSpeed, "00");
    var humidity :- NumberText(data, CmdHumidity, None);
    var rpm :- NumberText(data, CmdFan1Rpm, Some(0));
    var filterTimer :- Clock(data, CmdFilterTimer);
    var firmware :- FirmwareText(data);
    var timerCountdown :- Clock(data, CmdTimerCountdown);
    var direction := DirectionName(c, data);
    assert ParseDecimal("00").Some?;
    Ok(Status(
      isOn := Is(data, CmdOnOff, "01"),
      speed := speed,
      speedList := c.fanSpeeds,
      manualSpeedSelected := speed == "FF" || manualSpeed != "00",
      manualSpeed := ParseDecimal(manualSpeed).value,
      manualSpeedRange := (SpeedManualMin, SpeedManualMax),
      oscillating := if direction.Some? then direction.value == c.alternating else true,
      direction := direction,
      boost := IsNot(data, CmdBoost, "00"),
      mode := if CmdMode in data then ModeOf(Hex(data[CmdMode])) else Auto,
      humidity := humidity,
      rpm := if rpm.Some? then rpm.value else 0,
      firmware := firmware,
      filterTimerDays := FilterMinutes(filterTimer),
      timerCountdown := CountdownSeconds(timerCountdown),
      alarm := IsNot(data, CmdReadAlarm, "00"),
      version := "2"))
  }

  // ---- facts about the hex strings the translation reads ----

  lemma IntHexOfHex(v: seq<byte>)
    ensures IntHex(Hex(v)) == if v == [] then Err(ValueError) else Ok(BigEndian(v))
  {
    if v != [] {
      ParseHexOfHex(v);
    }
  }

  lemma HexIsByte(v: seq<byte>, b: byte)
    ensures Hex(v) == HexByte(b) <==> v == [b]
  {
    assert Hex([b]) == HexByte(b);
    if Hex(v) == HexByte(b) {
      HexInjective(v, [b]);
    }
  }

  /** The two-digit slices of a value's hex string are its bytes. */
  lemma SlicesOfHex(v: seq<byte>, k: nat)
    ensures k < |v| ==> IntHex(Slice(Hex(v), 2 * k, 2 * k + 2)) == Ok(v[k])
    ensures k >= |v| ==> IntHex(Slice(Hex(v), 2 * k, 2 * k + 2)) == Err(ValueError)
  {
    if k < |v| {
      HexAt(v, k);
      ParseHexByte(v[k]);
    }
  }

  lemma SpeedTextOfBytes(data: Data, cmd: byte, default: string)
    ensures SpeedText(data, cmd, default) ==
      if cmd !in data then Ok(default)
      else if data[cmd] == [] then Err(ValueError)
      else Ok(DecimalPad2(BigEndian(data[cmd])))
  {
    if cmd in data {
      IntHexOfHex(data[cmd]);
    }
  }

  lemma NumberTextOfBytes(data: Data, cmd: byte, default: Option<nat>)
    ensures NumberText(data, cmd, default) ==
      if cmd !in data then Ok(default)
      else if data[cmd] == [] then Err(ValueError)
      else Ok(Some(BigEndian(data[cmd])))
  {
    if cmd in data {
      IntHexOfHex(data[cmd]);
    }
  }

  lemma ClockOfBytes(data: Data, cmd: byte)
    ensures Clock(data, cmd) ==
      if cmd !in data then Ok(None)
      else if |data[cmd]| < 3 then Err(ValueError)
      else Ok(Some((data[cmd][0], data[cmd][1], data[cmd][2])))
  {
    if cmd in data {
      var v := data[cmd];
      SlicesOfHex(v, 0);
      SlicesOfHex(v, 1);
      SlicesOfHex(v, 2);
    }
  }

  lemma DigitOfHex(c: char)
    requires IsHexDigit(c)
    ensures IntHex([c]) == Ok(DigitValue(c))
  {
    assert IsHex([c]);
    assert [c][..0] == [];
    assert HexValue([c]) == HexValue([]) * 16 + DigitValue(c);
  }

  lemma FirmwareOfBytes(data: Data)
    ensures FirmwareText(data) ==
      if CmdFirmware !in data then Ok(None)
      else if data[CmdFirmware] == [] then Err(IndexError)
      else
        var b := data[CmdFirmware][0];
        Ok(Some(Decimal(b / 16) + "." + Decimal(b % 16)))
  {
    if CmdFirmware in data && data[CmdFirmware] != [] {
      var v := data[CmdFirmware];
      var t := Hex(v);
      assert t[..2] == HexByte(v[0]);
      DigitOfHex(t[0]);
      DigitOfHex(t[1]);
    }
  }

  lemma IsOfBytes(data: Data, cmd: byte, b: byte)
    ensures Is(data, cmd, HexByte(b)) <==> cmd in data && data[cmd] == [b]
    ensures IsNot(data, cmd, HexByte(b)) <==> cmd in data && data[cmd] != [b]
  {
    if cmd in data {
      HexIsByte(data[cmd], b);
    }
  }

  // ---- what the translation promises ----

  /** Which dictionaries translate without an exception: every present
      numeric value is non-empty, both time values have at least three
      bytes and a present firmware value is not empty. */
  predicate Readable(data: Data) {
    && (CmdSpeed in data ==> data[CmdSpeed] != [])
    && (CmdManualSpeed in data ==> data[CmdManualSpeed] != [])
    && (CmdHumidity in data ==> data[CmdHumidity] != [])
    && (CmdFan1Rpm in data ==> data[CmdFan1Rpm] != [])
    && (CmdFilterTimer in data ==> |data[CmdFilterTimer]| >= 3)
    && (CmdFirmware in data ==> data[CmdFirmware] != [])
    && (CmdTimerCountdown in data ==> |data[CmdTimerCountdown]| >= 3)
  }

  /** Where the first unreadable value stops the translation: an empty
      firmware value is an IndexError, every other failure a ValueError. */
  function FirstError(data: Data): Error {
    if CmdSpeed in data && data[CmdSpeed] == [] then ValueError
    else if CmdManualSpeed in data && data[CmdManualSpeed] == [] then ValueError
    else if CmdHumidity in data && data[CmdHumidity] == [] then ValueError
    else if CmdFan1Rpm in data && data[CmdFan1Rpm] == [] then ValueError
    else if CmdFilterTimer in data && |data[CmdFilterTimer]| < 3 then ValueError
    else if CmdFirmware in data && data[CmdFirmware] == [] then IndexError
    else ValueError
  }

  lemma FieldsOfBytes(data: Data)
    ensures SpeedText(data, CmdSpeed, "FF") == if CmdSpeed !in data then Ok("FF")
      else if data[CmdSpeed] == [] then Err(ValueError) else Ok(DecimalPad2(BigEndian(data[CmdSpeed])))
    ensures SpeedText(data, CmdManualSpeed, "00") == if CmdManualSpeed !in data then Ok("00")
      else if data[CmdManualSpeed] == [] then Err(ValueError) else Ok(DecimalPad2(BigEndian(data[CmdManualSpeed])))
    ensures NumberText(data, CmdHumidity, None) == if CmdHumidity !in data then Ok(None)
      else if data[CmdHumidity] == [] then Err(ValueError) else Ok(Some(BigEndian(data[CmdHumidity])))
    ensures NumberText(data, CmdFan1Rpm, Some(0)) == if CmdFan1Rpm !in data then Ok(Some(0))
      else if data[CmdFan1Rpm] == [] then Err(ValueError) else Ok(Some(BigEndian(data[CmdFan1Rpm])))
  {
    SpeedTextOfBytes(data, CmdSpeed, "FF");
    SpeedTextOfBytes(data, CmdManualSpeed, "00");
    NumberTextOfBytes(data, CmdHumidity, None);
    NumberTextOfBytes(data, CmdFan1Rpm, Some(0));
  }

  /** The translation succeeds exactly on readable dictionaries; otherwise
      it raises the error of the first unreadable value. */
  lemma TranslateSucceeds(c: Config, data: Data)
    ensures Translate(c, data).Ok? <==> Readable(data)
    ensures Translate(c, data).Err? ==> Translate(c, data).error == FirstError(data)
  {
    if Readable(data) {
      TranslateReadable(c, data);
    } else {
      TranslateUnreadable(c, data);
    }
  }

  lemma TranslateReadable(c: Config, data: Data)
    requires Readable(data)
    ensures Translate(c, data).Ok?
  {
    FieldsOfBytes(data);
    ClockOfBytes(data, CmdFilterTimer);
    ClockOfBytes(data, CmdTimerCountdown);
    FirmwareOfBytes(data);
  }

  lemma TranslateUnreadable(c: Config, data: Data)
    requires !Readable(data)
    ensures Translate(c, data).Err? && Translate(c, data).error == FirstError(data)
  {
    FieldsOfBytes(data);
    ClockOfBytes(data, CmdFilterTimer);
    ClockOfBytes(data, CmdTimerCountdown);
    FirmwareOfBytes(data);
  }

  /** The value stored for `cmd`, read as a big-endian number, or `default`
      when the device did not send it. */
  function NumberOr(data: Data, cmd: byte, default: nat): nat {
    if cmd in data then BigEndian(data[cmd]) else default
  }

  /** On/off, boost, alarm and mode are byte comparisons: on exactly when the
      power value is the single byte 01, boost and alarm unless the value is
      the single byte 00, sleep for 01 and party for 02. */
  lemma TranslateSwitches(c: Config, data: Data)
    requires Translate(c, data).Ok?
    ensures var s := Translate(c, data).value;
      && (s.isOn <==> CmdOnOff in data && data[CmdOnOff] == [1])
      && (s.boost <==> CmdBoost in data && data[CmdBoost] != [0])
      && (s.alarm <==> CmdReadAlarm in data && data[CmdReadAlarm] != [0])
      && s.mode == (if CmdMode in data && data[CmdMode] == [1] then Sleep
                    else if CmdMode in data && data[CmdMode] == [2] then Party
                    else Auto)
      && s.version == "2"
  {
    assert HexByte(0) == "00" && HexByte(1) == "01" && HexByte(2) == "02";
    IsOfBytes(data, CmdOnOff, 1);
    IsOfBytes(data, CmdBoost, 0);
    IsOfBytes(data, CmdReadAlarm, 0);
    if CmdMode in data {
      HexIsByte(data[CmdMode], 1);
      HexIsByte(data[CmdMode], 2);
    }
  }

  /** The speed is the preset speed as two decimal digits, "FF" when absent;
      the manual speed is the number sent, 0 when absent; manual speed counts
      as selected when no preset speed came or the manual speed is not 0. */
  lemma TranslateSpeeds(c: Config, data: Data)
    requires Translate(c, data).Ok?
    ensures var s := Translate(c, data).value;
      && s.speed == (if CmdSpeed in data then DecimalPad2(BigEndian(data[CmdSpeed])) else "FF")
      && s.manualSpeed == NumberOr(data, CmdManualSpeed, 0)
      && (s.manualSpeedSelected <==> CmdSpeed !in data || NumberOr(data, CmdManualSpeed, 0) != 0)
      && s.manualSpeedRange == (0, 255)
      && s.speedList == c.fanSpeeds
  {
    FieldsOfBytes(data);
    var m := NumberOr(data, CmdManualSpeed, 0);
    DecimalPad2Zero(m);
    ParseDecimalPad2(m);
    if CmdSpeed in data {
      var t := DecimalPad2(BigEndian(data[CmdSpeed]));
      assert IsDecimalDigit(t[0]);
    }
  }

  /** Humidity and fan speed are the numbers sent (None and 0 when absent). */
  lemma TranslateNumbers(c: Config, data: Data)
    requires Translate(c, data).Ok?
    ensures var s := Translate(c, data).value;
      && s.humidity == (if CmdHumidity in data then Some(BigEndian(data[CmdHumidity])) else None)
      && s.rpm == NumberOr(data, CmdFan1Rpm, 0)
  {
    FieldsOfBytes(data);
  }

  /** The filter timer is minutes + 60 * hours + 1440 * days of the bytes
      days, hours, minutes; 0 when absent. */
  lemma TranslateFilterTimer(c: Config, data: Data)
    requires Translate(c, data).Ok?
    ensures CmdFilterTimer in data ==> |data[CmdFilterTimer]| >= 3
    ensures var s := Translate(c, data).value;
      s.filterTimerDays == (if CmdFilterTimer in data then
        var v := data[CmdFilterTimer]; v[2] as int + v[1] as int * 60 + v[0] as int * 1440 else 0)
  {
    ClockOfBytes(data, CmdFilterTimer);
  }

  /** The countdown is seconds + 60 * minutes + 3600 * hours of the bytes
      hours, minutes, seconds; 0 when absent. */
  lemma TranslateCountdown(c: Config, data: Data)
    requires Translate(c, data).Ok?
    ensures CmdTimerCountdown in data ==> |data[CmdTimerCountdown]| >= 3
    ensures var s := Translate(c, data).value;
      s.timerCountdown == (if CmdTimerCountdown in data then
        var v := data[CmdTimerCountdown]; v[2] as int + v[1] as int * 60 + v[0] as int * 3600 else 0)
  {
    ClockOfBytes(data, CmdTimerCountdown);
  }

  /** The firmware string is the two hex digits of the first byte in
      decimal, joined by a dot; None when absent. */
  lemma TranslateFirmware(c: Config, data: Data)
    requires Translate(c, data).Ok?
    ensures CmdFirmware in data ==> data[CmdFirmware] != []
    ensures var s := Translate(c, data).value;
      s.firmware == (if CmdFirmware in data then
        var b := data[CmdFirmware][0]; Some(Decimal(b / 16) + "." + Decimal(b % 16)) else None)
  {
    TranslateSucceeds(c, data);
    FirmwareOfBytes(data);
  }

  /** The direction is the table's name for the code sent, None for a code
      that is not in the table or when none came; the fan oscillates when
      the name is the alternating one or no name was found. */
  lemma TranslateDirection(c: Config, data: Data)
    requires Translate(c, data).Ok?
    ensures var s := Translate(c, data).value;
      && s.direction == (if CmdDirection in data then Lookup(c.directions, Hex(data[CmdDirection])) else None)
      && (CmdDirection in data ==> (s.direction.Some? <==> HasKey(c.directions, Hex(data[CmdDirection]))))
      && (s.oscillating <==> s.direction.None? || s.direction.value == c.alternating)
  {
  }

  /** With nothing in the dictionary every field takes its default. */
  lemma TranslateDefaults(c: Config)
    ensures Translate(c, map[]) == Ok(Status(
      isOn := false, speed := "FF", speedList := c.fanSpeeds, manualSpeedSelected := true,
      manualSpeed := 0, manualSpeedRange := (0, 255), oscillating := true, direction := None,
      boost := false, mode := Auto, humidity := None, rpm := 0, firmware := None,
      filterTimerDays := 0, timerCountdown := 0, alarm := false, version := "2"))
  {
    assert DecimalValue("00") == 0 by {
      assert "00"[..1] == "0";
      assert "0"[..0] == [];
    }
  }
}
