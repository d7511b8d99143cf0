/** The status reply recorded in the v2 client's tests, pushed through the
    whole receive path: checksum test, parser and translation. */
module V2Fixture {
  import opened Wrappers
  import opened Format
  import opened Consts
  import opened Checksum
  import opened V2Parser
  import opened V2Status

  /** the id "002E002257465704" and the password "DeRoos24", as ASCII bytes */
  const FixtureId: seq<byte> := [0x30, 0x30, 0x32, 0x45, 0x30, 0x30, 0x32, 0x32,
                                 0x35, 0x37, 0x34, 0x36, 0x35, 0x37, 0x30, 0x34]
  const FixturePassword: seq<byte> := [0x44, 0x65, 0x52, 0x6F, 0x6F, 0x73, 0x32, 0x34]

  /** The data block of the reply, entry by entry. */
  const FixtureFields: seq<Field> := [
    Sized(0xB9, [0x00, 0x03]), Plain(0x01, 0x01), Plain(0x02, 0x02), Plain(0x44, 0x7C),
    Plain(0xB7, 0x01), Plain(0x06, 0x00), Plain(0x07, 0x00), Sized(0x0B, [0x00, 0x00, 0x00]),
    Plain(0x25, 0x33), Sized(0x4A, [0x03, 0x84]), Sized(0x64, [0x00, 0x55, 0x0F, 0x2F]),
    Plain(0x83, 0x00), Sized(0x86, [0x07, 0xE8, 0x07, 0x08, 0x09, 0x00])]

  /** The reply: the header echoing id and password, the data block and
      the checksum bytes 9C 11. */
  function FixtureReply(): seq<byte> {
    ResponseHeader(FixtureId, FixturePassword) + FieldsBytes(FixtureFields) + [0x9C, 0x11]
  }

  const FixtureData: Data := map[
    0xB9 := [0x00, 0x03], 0x01 := [0x01], 0x02 := [0x02], 0x44 := [0x7C], 0xB7 := [0x01],
    0x06 := [0x00], 0x07 := [0x00], 0x0B := [0x00, 0x00, 0x00], 0x25 := [0x33],
    0x4A := [0x03, 0x84], 0x64 := [0x00, 0x55, 0x0F, 0x2F], 0x83 := [0x00],
    0x86 := [0x07, 0xE8, 0x07, 0x08, 0x09, 0x00]]

  lemma FieldsBytesFrom(fs: seq<Field>, k: nat)
    requires forall j :: 0 <= j < |fs| ==> WellFormed(fs[j])
    requires k < |fs|
    ensures FieldsBytes(fs[k..]) == FieldBytes(fs[k]) + FieldsBytes(fs[k + 1..])
  {
    assert fs[k..][1..] == fs[k + 1..];
  }

  lemma FixtureWellFormed()
    ensures forall k :: 0 <= k < |FixtureFields| ==> WellFormed(FixtureFields[k])
  {
  }

  lemma StoreFrom(fs: seq<Field>, k: nat, data: Data)
    requires k < |fs|
    ensures Store(data, fs[k..]) == Store(StoreOne(data, fs[k]), fs[k + 1..])
  {
    assert fs[k..][1..] == fs[k + 1..];
  }

  lemma StoreFirst(fs: seq<Field>, data: Data)
    requires fs != []
    ensures Store(data, fs) == Store(StoreOne(data, fs[0]), fs[1..])
  {
  }

  /** the dictionary after the first three entries */
  const FixtureThird: Data := map[0xB9 := [0x00, 0x03], 0x01 := [0x01], 0x02 := [0x02]]

  /** the dictionary after the first seven entries */
  const FixtureHalf: Data := map[
    0xB9 := [0x00, 0x03], 0x01 := [0x01], 0x02 := [0x02], 0x44 := [0x7C], 0xB7 := [0x01],
    0x06 := [0x00], 0x07 := [0x00]]

  lemma FixtureStoreStart()
    ensures Store(map[], FixtureFields) == Store(FixtureThird, FixtureFields[3..])
  {
    var fs := FixtureFields;
    var d0: Data := map[];
    StoreFirst(fs, d0);
    var d1 := StoreOne(d0, fs[0]);
    StoreFrom(fs, 1, d1);
    var d2 := StoreOne(d1, fs[1]);
    StoreFrom(fs, 2, d2);
    var d3 := StoreOne(d2, fs[2]);
    assert d3 == FixtureThird;
  }

  lemma FixtureStoreFirst()
    ensures Store(map[], FixtureFields) == Store(FixtureHalf, FixtureFields[7..])
  {
    FixtureStoreStart();
    var fs := FixtureFields;
    var d3 := FixtureThird;
    StoreFrom(fs, 3, d3);
    var d4 := StoreOne(d3, fs[3]);
    StoreFrom(fs, 4, d4);
    var d5 := StoreOne(d4, fs[4]);
    StoreFrom(fs, 5, d5);
    var d6 := StoreOne(d5, fs[5]);
    StoreFrom(fs, 6, d6);
    var d7 := StoreOne(d6, fs[6]);
    assert d7 == FixtureHalf;
  }

  lemma FixtureStoreSecond()
    ensures Store(FixtureHalf, FixtureFields[7..]) == FixtureData
  {
    var fs := FixtureFields;
    var d7 := FixtureHalf;
    StoreFrom(fs, 7, d7);
    var d8 := StoreOne(d7, fs[7]);
    StoreFrom(fs, 8, d8);
    var d9 := StoreOne(d8, fs[8]);
    StoreFrom(fs, 9, d9);
    var d10 := StoreOne(d9, fs[9]);
    StoreFrom(fs, 10, d10);
    var d11 := StoreOne(d10, fs[10]);
    StoreFrom(fs, 11, d11);
    var d12 := StoreOne(d11, fs[11]);
    StoreFrom(fs, 12, d12);
    var d13 := StoreOne(d12, fs[12]);
    assert fs[13..] == [];
    assert d13 == FixtureData;
  }

  lemma FixtureStore()
    ensures Store(map[], FixtureFields) == FixtureData
  {
    FixtureStoreFirst();
    FixtureStoreSecond();
  }

  /** The reply parses to the dictionary of its entries. */
  lemma FixtureParse()
    ensures ParseSpec(FixtureReply()) == Ok(FixtureData)
  {
    FixtureWellFormed();
    ParseRoundTrip(FixtureId, FixturePassword, FixtureFields, [0x9C, 0x11]);
    FixtureStore();
  }

  lemma SmallDecimals()
    ensures Decimal(0) == "0" && Decimal(7) == "7" && DecimalPad2(2) == "02"
  {
    assert DecimalDigits(0) == [0] && DecimalDigits(7) == [7] && DecimalDigits(2) == [2];
  }

  lemma FirmwareSeven()
    ensures Decimal(0x07 / 16) + "." + Decimal(0x07 % 16) == "0.7"
  {
    SmallDecimals();
  }

  lemma SingleByte(b: byte)
    ensures BigEndian([b]) == b
  {
    assert [b][..0] == [];
  }

  lemma HexOne()
    ensures Hex([0x01]) == "01"
  {
    assert Hex([0x01]) == HexByte(0x01) + Hex([]);
  }

  /** The test's dictionary translates without an exception. */
  lemma FixtureTranslates(c: Config)
    ensures Translate(c, FixtureData).Ok?
  {
    assert Readable(FixtureData);
    TranslateSucceeds(c, FixtureData);
  }

  /** The entries of the test's dictionary that the expectations read. */
  lemma FixtureEntries()
    ensures CmdOnOff in FixtureData && FixtureData[CmdOnOff] == [0x01]
    ensures CmdSpeed in FixtureData && FixtureData[CmdSpeed] == [0x02]
    ensures CmdBoost in FixtureData && FixtureData[CmdBoost] == [0x00]
    ensures CmdMode in FixtureData && FixtureData[CmdMode] == [0x00]
    ensures CmdTimerCountdown in FixtureData && FixtureData[CmdTimerCountdown] == [0x00, 0x00, 0x00]
    ensures CmdHumidity in FixtureData && FixtureData[CmdHumidity] == [0x33]
    ensures CmdManualSpeed in FixtureData && FixtureData[CmdManualSpeed] == [0x7C]
    ensures CmdFan1Rpm in FixtureData && FixtureData[CmdFan1Rpm] == [0x03, 0x84]
    ensures CmdFilterTimer in FixtureData && FixtureData[CmdFilterTimer] == [0x00, 0x55, 0x0F, 0x2F]
    ensures CmdReadAlarm in FixtureData && FixtureData[CmdReadAlarm] == [0x00]
    ensures CmdFirmware in FixtureData && FixtureData[CmdFirmware] == [0x07, 0xE8, 0x07, 0x08, 0x09, 0x00]
    ensures CmdDirection in FixtureData && FixtureData[CmdDirection] == [0x01]
  {
  }

  /** On, no boost, auto mode and no alarm, as the test expects. */
  lemma FixtureSwitches(c: Config)
    ensures Translate(c, FixtureData).Ok?
    ensures var s := Translate(c, FixtureData).value;
      s.isOn && !s.boost && s.mode == Auto && !s.alarm && s.version == "2"
  {
    FixtureTranslates(c);
    FixtureEntries();
    SwitchesOf(c, FixtureData);
  }

  lemma SwitchesOf(c: Config, data: Data)
    requires Translate(c, data).Ok?
    requires CmdOnOff in data && data[CmdOnOff] == [0x01]
    requires CmdBoost in data && data[CmdBoost] == [0x00]
    requires CmdMode in data && data[CmdMode] == [0x00]
    requires CmdReadAlarm in data && data[CmdReadAlarm] == [0x00]
    ensures var s := Translate(c, data).value;
      s.isOn && !s.boost && s.mode == Auto && !s.alarm && s.version == "2"
  {
    TranslateSwitches(c, data);
  }

  /** Speed "02", manual speed 124 and selected, range 0 to 255, as the test
      expects. */
  lemma FixtureSpeeds(c: Config)
    ensures Translate(c, FixtureData).Ok?
    ensures var s := Translate(c, FixtureData).value;
      s.speed == "02" && s.manualSpeedSelected && s.manualSpeed == 124 && s.manualSpeedRange == (0, 255)
  {
    FixtureTranslates(c);
    FixtureEntries();
    SpeedsOf(c, FixtureData);
  }

  lemma SpeedsOf(c: Config, data: Data)
    requires Translate(c, data).Ok?
    requires CmdSpeed in data && data[CmdSpeed] == [0x02]
    requires CmdManualSpeed in data && data[CmdManualSpeed] == [0x7C]
    ensures var s := Translate(c, data).value;
      s.speed == "02" && s.manualSpeedSelected && s.manualSpeed == 124 && s.manualSpeedRange == (0, 255)
  {
    TranslateSpeeds(c, data);
    SingleByte(0x02);
    SingleByte(0x7C);
    SmallDecimals();
  }

  /** Humidity 51, 900 rpm, firmware "0.7", 5115 filter minutes and no
      countdown, as the test expects. */
  lemma FixtureReadings(c: Config)
    ensures Translate(c, FixtureData).Ok?
    ensures var s := Translate(c, FixtureData).value;
      && s.humidity == Some(51) && s.rpm == 900 && s.firmware == Some("0.7")
      && s.filterTimerDays == 5115 && s.timerCountdown == 0
  {
    FixtureTranslates(c);
    FixtureEntries();
    NumbersOf(c, FixtureData);
    ClocksOf(c, FixtureData);
  }

  lemma NumbersOf(c: Config, data: Data)
    requires Translate(c, data).Ok?
    requires CmdHumidity in data && data[CmdHumidity] == [0x33]
    requires CmdFan1Rpm in data && data[CmdFan1Rpm] == [0x03, 0x84]
    requires CmdFirmware in data && data[CmdFirmware] == [0x07, 0xE8, 0x07, 0x08, 0x09, 0x00]
    ensures var s := Translate(c, data).value;
      s.humidity == Some(51) && s.rpm == 900 && s.firmware == Some("0.7")
  {
    TranslateNumbers(c, data);
    TranslateFirmware(c, data);
    assert BigEndian([0x03, 0x84]) == 900 by {
      assert [0x03, 0x84][..1] == [0x03];
      assert [0x03][..0] == [];
    }
    assert BigEndian([0x33]) == 51 by {
      assert [0x33][..0] == [];
    }
    FirmwareSeven();
  }

  lemma ClocksOf(c: Config, data: Data)
    requires Translate(c, data).Ok?
    requires CmdTimerCountdown in data && data[CmdTimerCountdown] == [0x00, 0x00, 0x00]
    requires CmdFilterTimer in data && data[CmdFilterTimer] == [0x00, 0x55, 0x0F, 0x2F]
    ensures var s := Translate(c, data).value;
      s.filterTimerDays == 5115 && s.timerCountdown == 0
  {
    TranslateFilterTimer(c, data);
    TranslateCountdown(c, data);
  }

  /** The direction is the table's name for code "01". */
  lemma FixtureDirection(c: Config)
    ensures Translate(c, FixtureData).Ok?
    ensures Translate(c, FixtureData).value.direction == Lookup(c.directions, "01")
  {
    FixtureTranslates(c);
    TranslateDirection(c, FixtureData);
    assert FixtureData[CmdDirection] == [0x01];
    HexOne();
  }
}
