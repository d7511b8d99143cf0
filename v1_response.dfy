/** The reply side of the v1 client: `_translate_response`, which walks the
    reply's bytes and reads each FEEDBACK parameter it recognises into a
    dictionary, and `_format_response`, which turns that dictionary into
    the record the entities read. The hex list the client walks is always
    the reply rendered byte by byte, so the walk is stated on the bytes. */
module V1Response {
  import opened Wrappers
  import opened Format
  import opened V1Values

  /** parameter name to value */
  type Data1 = map<Key, Value>

  /** `int("".join(raw), 16)` on the hex list of `raw` is the big-endian
      value of `raw`, and ValueError for an empty slice. */
  lemma RawValue(raw: seq<byte>)
    ensures ParseHex(Concat(HexList(raw))) == if raw == [] then None else Some(BigEndian(raw))
  {
    ConcatHexList(raw);
    if raw != [] {
      ParseHexOfHex(raw);
    } else {
      assert Hex(raw) == [];
    }
  }

  /** What the walk needs of the table it searches: codes in increasing
      order (so the first match is the only one), every row a real class
      and at least one value byte. */
  predicate TableOk(table: seq<(Key, Entry)>) {
    Increasing(table)
    && forall row :: 0 <= row < |table| ==> table[row].1.kind != NoneType && table[row].1.size > 0
  }

  lemma FeedbackOk()
    ensures TableOk(FeedbackTable)
  {
    assert Increasing(FeedbackTable);
    FeedbackKinds();
  }

  /** One pass of the walk at index `i`: the index after it and what it
      stores. A known code reads the `size` bytes after it (fewer at the
      end of the reply, ValueError when none are left) and builds the row's
      class from their value; an unknown code skips two places. */
  function Step1(table: seq<(Key, Entry)>, bs: seq<byte>, i: nat): (r: Result<(nat, Option<(Key, Value)>)>)
    requires i < |bs|
    ensures r.Ok? ==> r.value.0 > i
  {
    var found := FindCmd(table, bs[i]);
    if found.None? then Ok((i + 2, None))
    else
      var key, e := found.value.0, found.value.1;
      var raw := Slice(bs, i + 1, i + 1 + e.size);
      if e.kind == NoneType then Ok((i + 1 + e.size, Some((key, NoneValue))))
      else if raw == [] then Err(ValueError)
      else
        var built := Construct(e.kind, BigEndian(raw));
        if built.Err? then Err(built.error)
        else Ok((i + 1 + e.size, Some((key, built.value))))
  }

  function Put(data: Data1, st: Option<(Key, Value)>): Data1 {
    if st.Some? then data[st.value.0 := st.value.1] else data
  }

  /** The walk from index `i`; a later parameter replaces an earlier one. */
  function Walk1(table: seq<(Key, Entry)>, bs: seq<byte>, i: nat, data: Data1): (r: Result<Data1>)
    ensures r.Err? ==> r.error == ValueError
    ensures r.Ok? ==> data.Keys <= r.value.Keys
    decreases |bs| - i
  {
    if i >= |bs| then Ok(data)
    else
      var step := Step1(table, bs, i);
      if step.Err? then Err(step.error)
      else Walk1(table, bs, step.value.0, Put(data, step.value.1))
  }

  /** `_translate_response` of a reply, against FEEDBACK: ValueError or a
      dictionary from parameter names to numbers of their classes. */
  function TranslateSpec(bs: seq<byte>): (r: Result<Data1>)
    ensures r.Err? ==> r.error == ValueError
    ensures r.Ok? ==> WellTyped(FeedbackTable, r.value)
  {
    FeedbackOk();
    WalkWellTyped(FeedbackTable, bs, 0, map[]);
    Walk1(FeedbackTable, bs, 0, map[])
  }

  /** The inner `for key, item in FEEDBACK.items()` search. */
  method FindFeedback(table: seq<(Key, Entry)>, cmd: int) returns (r: Option<(Key, Entry)>)
    ensures r == FindCmd(table, cmd)
  {
    for j := 0 to |table|
      invariant FindCmd(table[j..], cmd) == FindCmd(table, cmd)
    {
      assert table[j..][0] == table[j] && table[j..][1..] == table[j + 1..];
      if table[j].1.cmd == cmd {
        return Some(table[j]);
      }
    }
    assert table[|table|..] == [];
    return None;
  }

  /** One pass of the loop of `_translate_response`, proved to compute
      `Step1`. */
  method ReadParameter(table: seq<(Key, Entry)>, bs: seq<byte>, i: nat) returns (r: Result<(nat, Option<(Key, Value)>)>)
    requires i < |bs|
    ensures r == Step1(table, bs, i)
  {
    var found := FindFeedback(table, bs[i]);
    if found.None? {
      return Ok((i + 2, None));
    }
    var key, e := found.value.0, found.value.1;
    var raw := Slice(bs, i + 1, i + 1 + e.size);
    if e.kind == NoneType {
      return Ok((i + 1 + e.size, Some((key, NoneValue))));
    }
    if raw == [] {
      return Err(ValueError);
    }
    var built := Construct(e.kind, BigEndian(raw));
    if built.Err? {
      return Err(built.error);
    }
    return Ok((i + 1 + e.size, Some((key, built.value))));
  }

  /** The loop of `_translate_response` over the table it searches (FEEDBACK
      in the client), proved to compute the walk. */
  method TranslateResponse(table: seq<(Key, Entry)>, bs: seq<byte>) returns (r: Result<Data1>)
    ensures r == Walk1(table, bs, 0, map[])
  {
    var data: Data1 := map[];
    var i := 0;
    while i < |bs|
      invariant Walk1(table, bs, i, data) == Walk1(table, bs, 0, map[])
      decreases |bs| - i
    {
      var step := ReadParameter(table, bs, i);
      if step.Err? {
        return Err(step.error);
      }
      data := Put(data, step.value.1);
      i := step.value.0;
    }
    return Ok(data);
  }

  /** Some row of the table carries this key and class. */
  predicate KeyOfRow(table: seq<(Key, Entry)>, key: Key, kind: Kind) {
    exists row :: 0 <= row < |table| && table[row].0 == key && table[row].1.kind == kind
  }

  /** Every key of a translated dictionary is a table name and holds a
      number of that row's class. */
  predicate WellTyped(table: seq<(Key, Entry)>, data: Data1) {
    forall key :: key in data ==> data[key].Num? && KeyOfRow(table, key, data[key].kind)
  }

  lemma WellTypedUpdate(table: seq<(Key, Entry)>, data: Data1, key: Key, v: Value)
    requires WellTyped(table, data) && v.Num? && KeyOfRow(table, key, v.kind)
    ensures WellTyped(table, data[key := v])
  {
  }

  /** What one pass stores is a table row's key with a number of that
      row's class. */
  lemma StepWellTyped(table: seq<(Key, Entry)>, bs: seq<byte>, i: nat)
    requires TableOk(table) && i < |bs|
    ensures Step1(table, bs, i).Ok? && Step1(table, bs, i).value.1.Some? ==>
      var (key, v) := Step1(table, bs, i).value.1.value;
      v.Num? && KeyOfRow(table, key, v.kind)
  {
    var found := FindCmd(table, bs[i]);
    if found.Some? {
      var row :| 0 <= row < |table| && table[row] == found.value;
      assert found.value.1.kind != NoneType;
      assert KeyOfRow(table, found.value.0, found.value.1.kind);
    }
  }

  lemma {:induction false} WalkWellTyped(table: seq<(Key, Entry)>, bs: seq<byte>, i: nat, data: Data1)
    requires TableOk(table) && WellTyped(table, data)
    ensures Walk1(table, bs, i, data).Ok? ==> WellTyped(table, Walk1(table, bs, i, data).value)
    decreases |bs| - i
  {
    if i < |bs| {
      var step := Step1(table, bs, i);
      if step.Ok? {
        StepWellTyped(table, bs, i);
        var st := step.value.1;
        if st.Some? {
          WellTypedUpdate(table, data, st.value.0, st.value.1);
        }
        WalkWellTyped(table, bs, step.value.0, Put(data, st));
      }
    }
  }

  /** A translated reply holds only FEEDBACK names, each with a number of
      its row's class (never None). */
  lemma TranslateWellTyped(bs: seq<byte>)
    ensures TranslateSpec(bs).Ok? ==> WellTyped(FeedbackTable, TranslateSpec(bs).value)
  {
    FeedbackOk();
    WalkWellTyped(FeedbackTable, bs, 0, map[]);
  }

  /** One parameter of a reply as a device sends it: a row of the table (by
      its place) with its number, or a code the table does not know
      followed by one byte. */
  datatype Reading = Known(row: nat, n: nat) | Unknown(code: byte, x: byte)

  predicate Sendable(table: seq<(Key, Entry)>, r: Reading) {
    match r
    case Known(row, n) =>
      row < |table| && n < Pow256(table[row].1.size)
      && table[row].1.kind != NoneType && Construct(table[row].1.kind, n).Ok?
    case Unknown(code, _) => FindCmd(table, code).None?
  }

  predicate AllSendable(table: seq<(Key, Entry)>, rs: seq<Reading>) {
    forall k :: 0 <= k < |rs| ==> Sendable(table, rs[k])
  }

  function ReadingBytes(table: seq<(Key, Entry)>, r: Reading): seq<byte>
    requires Sendable(table, r)
  {
    match r
    case Known(row, n) => [table[row].1.cmd] + BigEndianBytes(n, table[row].1.size)
    case Unknown(code, x) => [code, x]
  }

  function ReadingsBytes(table: seq<(Key, Entry)>, rs: seq<Reading>): seq<byte>
    requires AllSendable(table, rs)
    decreases |rs|
  {
    if rs == [] then [] else assert Sendable(table, rs[0]); ReadingBytes(table, rs[0]) + ReadingsBytes(table, rs[1..])
  }

  /** What a reading does to the dictionary. */
  function StoreReading(table: seq<(Key, Entry)>, data: Data1, r: Reading): Data1
    requires Sendable(table, r)
  {
    match r
    case Known(row, n) => data[table[row].0 := Num(table[row].1.kind, n)]
    case Unknown(_, _) => data
  }

  function StoreReadings(table: seq<(Key, Entry)>, data: Data1, rs: seq<Reading>): Data1
    requires AllSendable(table, rs)
    decreases |rs|
  {
    if rs == [] then data
    else assert Sendable(table, rs[0]); StoreReadings(table, StoreReading(table, data, rs[0]), rs[1..])
  }

  /** What a reading's bytes are read back as. */
  function Stored(table: seq<(Key, Entry)>, r: Reading): Option<(Key, Value)>
    requires Sendable(table, r)
  {
    match r
    case Known(row, n) => Some((table[row].0, Num(table[row].1.kind, n)))
    case Unknown(_, _) => None
  }

  /** Reading one parameter back from its bytes. */
  lemma StepReading(table: seq<(Key, Entry)>, bs: seq<byte>, i: nat, r: Reading)
    requires TableOk(table) && Sendable(table, r)
    requires i + |ReadingBytes(table, r)| <= |bs| && bs[i..i + |ReadingBytes(table, r)|] == ReadingBytes(table, r)
    ensures Step1(table, bs, i) == Ok((i + |ReadingBytes(table, r)|, Stored(table, r)))
  {
    var rb := ReadingBytes(table, r);
    assert bs[i] == rb[0];
    match r
    case Unknown(code, x) =>
    case Known(row, n) =>
      assert bs[i + 1..i + |rb|] == rb[1..];
      StepKnown(table, bs, i, row, n);
  }

  /** A known code followed by its value bytes. */
  lemma StepKnown(table: seq<(Key, Entry)>, bs: seq<byte>, i: nat, row: nat, n: nat)
    requires TableOk(table) && Sendable(table, Known(row, n))
    requires i + 1 + table[row].1.size <= |bs| && bs[i] == table[row].1.cmd
    requires bs[i + 1..i + 1 + table[row].1.size] == BigEndianBytes(n, table[row].1.size)
    ensures Step1(table, bs, i) == Ok((i + 1 + table[row].1.size, Some((table[row].0, Num(table[row].1.kind, n)))))
  {
    var e := table[row].1;
    FindCmdIncreasing(table, row);
    assert Slice(bs, i + 1, i + 1 + e.size) == BigEndianBytes(n, e.size);
    BigEndianOfBytes(n, e.size);
    assert e.size > 0;
    StepFound(table, bs, i, table[row].0, e, n);
  }

  /** A pass at a code the table knows, whose value bytes make a number of
      the row's class. */
  lemma StepFound(table: seq<(Key, Entry)>, bs: seq<byte>, i: nat, key: Key, e: Entry, n: nat)
    requires i < |bs| && FindCmd(table, bs[i]) == Some((key, e))
    requires e.kind != NoneType && e.size > 0 && i + 1 + e.size <= |bs|
    requires BigEndian(Slice(bs, i + 1, i + 1 + e.size)) == n && Construct(e.kind, n).Ok?
    ensures Step1(table, bs, i) == Ok((i + 1 + e.size, Some((key, Num(e.kind, n)))))
  {
  }

  lemma StoreReadingPut(table: seq<(Key, Entry)>, data: Data1, r: Reading)
    requires Sendable(table, r)
    ensures StoreReading(table, data, r) == Put(data, Stored(table, r))
  {
  }

  lemma WalkAtEnd1(table: seq<(Key, Entry)>, bs: seq<byte>, i: nat, data: Data1)
    requires i >= |bs|
    ensures Walk1(table, bs, i, data) == Ok(data)
  {
  }

  lemma SendableTail(table: seq<(Key, Entry)>, rs: seq<Reading>)
    requires AllSendable(table, rs) && rs != []
    ensures Sendable(table, rs[0]) && AllSendable(table, rs[1..])
  {
    assert forall k :: 0 <= k < |rs| - 1 ==> rs[1..][k] == rs[k + 1];
  }

  lemma ReadingsCons(table: seq<(Key, Entry)>, rs: seq<Reading>, data: Data1)
    requires AllSendable(table, rs) && rs != []
    ensures Sendable(table, rs[0]) && AllSendable(table, rs[1..])
    ensures ReadingsBytes(table, rs) == ReadingBytes(table, rs[0]) + ReadingsBytes(table, rs[1..])
    ensures StoreReadings(table, data, rs) == StoreReadings(table, StoreReading(table, data, rs[0]), rs[1..])
  {
    SendableTail(table, rs);
  }

  lemma SuffixSplit(bs: seq<byte>, i: nat, a: seq<byte>, b: seq<byte>)
    requires i <= |bs| && bs[i..] == a + b
    ensures i + |a| <= |bs| && bs[i..i + |a|] == a && bs[i + |a|..] == b
  {
    assert bs[i..i + |a|] == bs[i..][..|a|];
    assert bs[i + |a|..] == bs[i..][|a|..];
  }

  /** The bytes of a first reading and of the rest, where they lie. */
  lemma SplitReadings(table: seq<(Key, Entry)>, bs: seq<byte>, i: nat, rs: seq<Reading>)
    requires AllSendable(table, rs) && rs != []
    requires i <= |bs| && bs[i..] == ReadingsBytes(table, rs)
    ensures Sendable(table, rs[0]) && AllSendable(table, rs[1..])
    ensures i + |ReadingBytes(table, rs[0])| <= |bs|
    ensures bs[i..i + |ReadingBytes(table, rs[0])|] == ReadingBytes(table, rs[0])
    ensures bs[i + |ReadingBytes(table, rs[0])|..] == ReadingsBytes(table, rs[1..])
  {
    ReadingsCons(table, rs, map[]);
    SuffixSplit(bs, i, ReadingBytes(table, rs[0]), ReadingsBytes(table, rs[1..]));
  }

  /** The walk reads readings `rs` from `bs` one after the other from index
      `i`, up to the end. */
  predicate Laid1(table: seq<(Key, Entry)>, bs: seq<byte>, i: nat, rs: seq<Reading>)
    decreases |rs|
  {
    if rs == [] then i >= |bs|
    else
      i < |bs| && Sendable(table, rs[0]) && Step1(table, bs, i).Ok? &&
      Step1(table, bs, i).value.1 == Stored(table, rs[0]) &&
      Laid1(table, bs, Step1(table, bs, i).value.0, rs[1..])
  }

  lemma LaidCons1(table: seq<(Key, Entry)>, bs: seq<byte>, i: nat, j: nat, rs: seq<Reading>)
    requires rs != [] && i < |bs| && Sendable(table, rs[0])
    requires Step1(table, bs, i) == Ok((j, Stored(table, rs[0])))
    requires Laid1(table, bs, j, rs[1..])
    ensures Laid1(table, bs, i, rs)
  {
  }

  lemma {:induction false} LaidOut1(table: seq<(Key, Entry)>, bs: seq<byte>, i: nat, rs: seq<Reading>)
    requires TableOk(table) && AllSendable(table, rs)
    requires i <= |bs| && bs[i..] == ReadingsBytes(table, rs)
    ensures Laid1(table, bs, i, rs)
    decreases |rs|
  {
    if rs == [] {
      assert ReadingsBytes(table, rs) == [];
    } else {
      var j := FirstReading(table, bs, i, rs);
      LaidOut1(table, bs, j, rs[1..]);
      LaidCons1(table, bs, i, j, rs);
    }
  }

  /** The first of several readings is read back, and the rest of the
      readings' bytes follow it from index `j`. */
  lemma FirstReading(table: seq<(Key, Entry)>, bs: seq<byte>, i: nat, rs: seq<Reading>) returns (j: nat)
    requires TableOk(table) && AllSendable(table, rs) && rs != []
    requires i <= |bs| && bs[i..] == ReadingsBytes(table, rs)
    ensures i < |bs| && Sendable(table, rs[0]) && AllSendable(table, rs[1..])
    ensures j <= |bs| && bs[j..] == ReadingsBytes(table, rs[1..])
    ensures Step1(table, bs, i) == Ok((j, Stored(table, rs[0])))
  {
    SplitReadings(table, bs, i, rs);
    j := i + |ReadingBytes(table, rs[0])|;
    StepReading(table, bs, i, rs[0]);
  }

  lemma {:induction false} WalkLaid1(table: seq<(Key, Entry)>, bs: seq<byte>, i: nat, rs: seq<Reading>, data: Data1)
    requires AllSendable(table, rs) && Laid1(table, bs, i, rs)
    ensures Walk1(table, bs, i, data) == Ok(StoreReadings(table, data, rs))
    decreases |rs|
  {
    if rs == [] {
      WalkAtEnd1(table, bs, i, data);
    } else {
      var step := Step1(table, bs, i).value;
      ReadingsCons(table, rs, data);
      StoreReadingPut(table, data, rs[0]);
      WalkLaid1(table, bs, step.0, rs[1..], StoreReading(table, data, rs[0]));
    }
  }

  /** Round trip: the bytes of sendable readings walk to the dictionary
      those readings describe, in order. */
  lemma WalkReadings(table: seq<(Key, Entry)>, bs: seq<byte>, i: nat, rs: seq<Reading>, data: Data1)
    requires TableOk(table) && AllSendable(table, rs)
    requires i <= |bs| && bs[i..] == ReadingsBytes(table, rs)
    ensures Walk1(table, bs, i, data) == Ok(StoreReadings(table, data, rs))
  {
    LaidOut1(table, bs, i, rs);
    WalkLaid1(table, bs, i, rs, data);
  }

  /** A reply made of sendable FEEDBACK readings translates to the
      dictionary of those readings. */
  lemma TranslateRoundTrip(rs: seq<Reading>)
    requires AllSendable(FeedbackTable, rs)
    ensures TranslateSpec(ReadingsBytes(FeedbackTable, rs)) == Ok(StoreReadings(FeedbackTable, map[], rs))
  {
    FeedbackOk();
    var bs := ReadingsBytes(FeedbackTable, rs);
    assert bs[0..] == bs;
    WalkReadings(FeedbackTable, bs, 0, rs, map[]);
  }

  /** A known code in the last place, with no value byte after it, is
      ValueError: `int("", 16)`. */
  lemma LastCodeAlone(table: seq<(Key, Entry)>, bs: seq<byte>, data: Data1)
    requires TableOk(table)
    requires |bs| > 0 && FindCmd(table, bs[|bs| - 1]).Some?
    ensures Walk1(table, bs, |bs| - 1, data) == Err(ValueError)
  {
    var found := FindCmd(table, bs[|bs| - 1]).value;
    var row :| 0 <= row < |table| && table[row] == found;
    assert found.1.kind != NoneType;
    assert Step1(table, bs, |bs| - 1) == Err(ValueError);
  }

  /** The record `_format_response` returns. */
  datatype Formatted1 = Formatted1(
    isOn: bool,
    speed: int,
    speedList: seq<int>,
    manualSpeedSelected: bool,
    manualSpeed: int,
    manualSpeedRange: (int, int),
    oscillating: bool,
    direction: Option<Value>,
    mode: Value,
    humidity: int,
    alarm: bool,
    timerCountdown: int,
    boost: bool,
    boostModeTimer: Option<int>,
    nightModeTimer: Option<int>,
    partyModeTimer: Option<int>,
    version: string)

  /** `data[key]`, KeyError for a missing key. */
  function Get(data: Data1, key: Key): (r: Result<Value>)
    ensures r.Ok? <==> key in data
    ensures r.Err? ==> r.error == KeyError
  {
    if key in data then Ok(data[key]) else Err(KeyError)
  }

  /** `int(data[key])`. */
  function IntAt(data: Data1, key: Key): (r: Result<int>)
    ensures r.Ok? <==> key in data && data[key].Num?
    ensures r.Ok? ==> r.value == data[key].n
    ensures r.Err? ==> r.error == KeyError || r.error == TypeError
  {
    var v :- Get(data, key);
    IntOf(v)
  }

  /** `int(data[key]) if key in data else None`. */
  function OptionalInt(data: Data1, key: Key): (r: Result<Option<int>>)
    ensures r.Ok? <==> key !in data || data[key].Num?
    ensures r.Ok? ==> (r.value.Some? <==> key in data)
    ensures r.Err? ==> r.error == TypeError
  {
    if key in data then
      var n :- IntOf(data[key]);
      Ok(Some(n))
    else Ok(None)
  }

  /** The entries of the record, read in the order the dictionary display
      lists them; the first missing key is KeyError, and `int()` of a value
      that is no number is TypeError. An enumeration member compares equal
      to its number, a wrapper object to nothing. */
  function FormatSpec(data: Data1): (r: Result<Formatted1>)
    ensures r.Err? ==> r.error == KeyError || r.error == TypeError
    ensures r.Ok? ==> r.value.speedList == [1, 2, 3] && r.value.manualSpeedRange == (22, 255) && r.value.version == "1"
    ensures r.Ok? ==> RequiredKeys <= data.Keys && data[Speed].Num?
    ensures r.Ok? ==> r.value.isOn == Equals(data[Status], 1) && r.value.speed == data[Speed].n
  {
    var status :- Get(data, Status);
    var speed :- IntAt(data, Speed);
    var selected := data[Speed];
    var manual :- IntAt(data, ManualSpeed);
    var direction :- Get(data, Key.Direction);
    var mode :- Get(data, Key.OperationMode);
    var humidity :- IntAt(data, Key.HumidityLevel);
    var alarm :- Get(data, AlarmStatus);
    var countdown :- IntAt(data, TimerCountdown);
    var boost :- Get(data, BoostModeAfterSensor);
    var boostTimer :- OptionalInt(data, BoostModeTimer);
    var nightTimer :- OptionalInt(data, NightModeTimer);
    var partyTimer :- OptionalInt(data, PartyModeTimer);
    Ok(Formatted1(
      Equals(status, 1), speed, [1, 2, 3], Equals(selected, 4), manual, (22, 255),
      Equals(direction, 1), if Equals(direction, 1) then Some(direction) else None,
      mode, humidity, Equals(alarm, 1), countdown, Equals(boost, 1) || Equals(boost, 2),
      boostTimer, nightTimer, partyTimer, "1"))
  }

  /** The keys `_format_response` requires. */
  const RequiredKeys: set<Key> := {
    Status, Speed, ManualSpeed, Key.Direction, Key.OperationMode, Key.HumidityLevel,
    AlarmStatus, TimerCountdown, BoostModeAfterSensor}

  /** The keys whose values it converts with `int()`. */
  const IntKeys: set<Key> := {
    Speed, ManualSpeed, Key.HumidityLevel, TimerCountdown, BoostModeTimer, NightModeTimer, PartyModeTimer}

  predicate Formattable(data: Data1) {
    RequiredKeys <= data.Keys && forall key :: key in IntKeys && key in data ==> data[key].Num?
  }

  /** Formatting succeeds exactly when every required key is there and
      every value read with `int()` is a number; otherwise it fails with
      KeyError or TypeError. */
  lemma FormatSucceeds(data: Data1)
    ensures FormatSpec(data).Ok? <==> Formattable(data)
    ensures FormatSpec(data).Err? ==> FormatSpec(data).error in {KeyError, TypeError}
  {
    if Formattable(data) {
      assert Status in data && Speed in data && ManualSpeed in data;
      assert Key.Direction in data && Key.OperationMode in data && Key.HumidityLevel in data;
      assert AlarmStatus in data && TimerCountdown in data && BoostModeAfterSensor in data;
      assert Speed in IntKeys && ManualSpeed in IntKeys && Key.HumidityLevel in IntKeys && TimerCountdown in IntKeys;
      assert BoostModeTimer in IntKeys && NightModeTimer in IntKeys && PartyModeTimer in IntKeys;
    }
  }

  /** A dictionary holding only numbers fails to format only for a missing
      key. */
  lemma FormatNumbers(data: Data1)
    requires forall key :: key in data ==> data[key].Num?
    ensures FormatSpec(data).Ok? <==> RequiredKeys <= data.Keys
    ensures FormatSpec(data).Err? ==> FormatSpec(data).error == KeyError
  {
    FormatSucceeds(data);
    if !(RequiredKeys <= data.Keys) {
      var missing :| missing in RequiredKeys && missing !in data;
      assert FormatSpec(data).Err?;
    }
  }

  /** So does a translated reply. */
  lemma FormatTranslated(bs: seq<byte>)
    requires TranslateSpec(bs).Ok?
    ensures FormatSpec(TranslateSpec(bs).value).Ok? <==> RequiredKeys <= TranslateSpec(bs).value.Keys
    ensures FormatSpec(TranslateSpec(bs).value).Err? ==> FormatSpec(TranslateSpec(bs).value).error == KeyError
  {
    var data := TranslateSpec(bs).value;
    TranslateWellTyped(bs);
    assert WellTyped(FeedbackTable, data);
    assert forall key :: key in data ==> data[key].Num?;
    FormatNumbers(data);
  }

  /** What the record says about the dictionary: power, preset and manual
      speed, oscillation (the direction is reported only while alternating),
      alarm, boost and the optional timers. */
  lemma FormatFields(data: Data1)
    requires FormatSpec(data).Ok?
    ensures var f := FormatSpec(data).value;
      && (f.isOn <==> Equals(data[Status], 1))
      && f.speed == data[Speed].n
      && (f.manualSpeedSelected <==> Equals(data[Speed], 4))
      && f.manualSpeed == data[ManualSpeed].n
      && (f.oscillating <==> f.direction.Some?)
      && (f.oscillating <==> Equals(data[Key.Direction], 1))
      && (f.direction.Some? ==> f.direction.value == data[Key.Direction])
      && f.mode == data[Key.OperationMode]
      && (f.alarm <==> Equals(data[AlarmStatus], 1))
      && (f.boost <==> Equals(data[BoostModeAfterSensor], 1) || Equals(data[BoostModeAfterSensor], 2))
      && (f.boostModeTimer.Some? <==> BoostModeTimer in data)
      && (f.nightModeTimer.Some? <==> NightModeTimer in data)
      && (f.partyModeTimer.Some? <==> PartyModeTimer in data)
      && f.speedList == [1, 2, 3] && f.manualSpeedRange == (22, 255) && f.version == "1"
  {
  }
}
