/** Pieces of the status reply recorded in the v1 client's tests, read
    back by the translation. */
module V1Fixture {
  import opened Wrappers
  import opened Format
  import opened V1Values
  import opened V1Response

  lemma Pow256One()
    ensures Pow256(1) == 256
  {
    assert Pow256(1) == 256 * Pow256(0);
  }

  /** the table rows of status, speed and countdown */
  lemma FixtureRows()
    ensures FeedbackTable[0] == (Status, Entry(3, 1, OffOn))
    ensures FeedbackTable[1] == (Speed, Entry(4, 1, SpeedSelected))
    ensures FeedbackTable[9] == (TimerCountdown, Entry(14, 3, TimerSeconds))
  {
  }

  /** What a known reading of a given row is, sent and stored. */
  lemma KnownReading(row: nat, n: nat, key: Key, e: Entry)
    requires row < |FeedbackTable| && FeedbackTable[row] == (key, e)
    requires e.kind != NoneType && n < Pow256(e.size) && Construct(e.kind, n).Ok?
    ensures Sendable(FeedbackTable, Known(row, n))
    ensures ReadingBytes(FeedbackTable, Known(row, n)) == [e.cmd] + BigEndianBytes(n, e.size)
    ensures forall data :: StoreReading(FeedbackTable, data, Known(row, n)) == data[key := Num(e.kind, n)]
  {
  }

  /** the three bytes of the countdown */
  lemma CountdownBytes()
    ensures BigEndianBytes(5, 3) == [0, 0, 5]
  {
    assert BigEndianBytes(5, 1) == [5];
    assert BigEndianBytes(0, 1) == [0];
    assert BigEndianBytes(0, 2) == [0, 0];
  }

  lemma OneByte(n: nat)
    requires n < 256
    ensures BigEndianBytes(n, 1) == [n as byte]
  {
  }

  /** Putting one more reading in front of a reply. */
  lemma ConsReading(r: Reading, rs: seq<Reading>)
    requires Sendable(FeedbackTable, r) && AllSendable(FeedbackTable, rs)
    ensures AllSendable(FeedbackTable, [r] + rs)
    ensures ReadingsBytes(FeedbackTable, [r] + rs) == ReadingBytes(FeedbackTable, r) + ReadingsBytes(FeedbackTable, rs)
    ensures forall data :: (StoreReadings(FeedbackTable, data, [r] + rs)
                            == StoreReadings(FeedbackTable, StoreReading(FeedbackTable, data, r), rs))
  {
    var all := [r] + rs;
    assert all[0] == r && all[1..] == rs;
    assert forall k :: 1 <= k < |all| ==> all[k] == rs[k - 1];
  }

  /** The countdown at the end of the recorded reply: code 0E and three
      bytes 00 00 05 read back as a 5-second countdown. */
  lemma CountdownReply(reply: seq<byte>)
    requires reply == [0x0E, 0x00, 0x00, 0x05]
    ensures TranslateSpec(reply) == Ok(map[TimerCountdown := Num(TimerSeconds, 5)])
  {
    Pow256One();
    assert Pow256(3) == 256 * Pow256(2) && Pow256(2) == 256 * Pow256(1);
    FixtureRows();
    KnownReading(9, 5, TimerCountdown, Entry(14, 3, TimerSeconds));
    CountdownBytes();
    var rs := [Known(9, 5)];
    ConsReading(Known(9, 5), []);
    assert [Known(9, 5)] + [] == rs;
    assert ReadingsBytes(FeedbackTable, rs) == reply;
    assert StoreReadings(FeedbackTable, map[], rs) == map[TimerCountdown := Num(TimerSeconds, 5)];
    TranslateRoundTrip(rs);
  }

  /** The opening of the recorded reply: status ON and speed HIGH. */
  lemma StatusSpeedReply(reply: seq<byte>)
    requires reply == [0x03, 0x01, 0x04, 0x03]
    ensures TranslateSpec(reply) == Ok(map[Status := Num(OffOn, 1), Speed := Num(SpeedSelected, 3)])
    ensures Equals(TranslateSpec(reply).value[Status], 1) && Equals(TranslateSpec(reply).value[Speed], 3)
  {
    Pow256One();
    FixtureRows();
    OneByte(1); OneByte(3);
    KnownReading(0, 1, Status, Entry(3, 1, OffOn));
    KnownReading(1, 3, Speed, Entry(4, 1, SpeedSelected));
    ConsReading(Known(1, 3), []);
    ConsReading(Known(0, 1), [Known(1, 3)] + []);
    var rs := [Known(0, 1)] + ([Known(1, 3)] + []);
    assert ReadingsBytes(FeedbackTable, rs) == [0x03, 0x01] + ([0x04, 0x03] + []) == reply;
    assert StoreReadings(FeedbackTable, map[], rs) == map[Status := Num(OffOn, 1), Speed := Num(SpeedSelected, 3)];
    TranslateRoundTrip(rs);
  }
}
