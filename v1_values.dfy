/** The value classes of the v1 (Siku RV "mobile"/"master") protocol and its
    two descriptor tables: CONTROL (what may be sent) and FEEDBACK (what the
    device answers). Enumerations accept only their members; the wrapper
    classes test their argument with a chained comparison `lo < v > hi`,
    which is `lo < v and v > hi`, so only values above `hi` are refused. */
module V1Values {
  import opened Wrappers
  import opened Format

  /** The Python classes a value can have. `Int` is the built-in int. */
  datatype Kind =
    | NoneType
    | SpeedSelection | Direction | Timer | OffOn | SpeedSelected | OperationMode | NoYes | NoYesYes
    | SpeedManual | HumiditySensorThreshold | HumidityLevel | TimerSeconds | ZeroTenVoltThreshold
    | Int

  /** A Python value as the v1 client sees it: None, a number of one of the
      classes above, or anything else (a string, a float, ...). */
  datatype Value = NoneValue | Num(kind: Kind, n: int) | OtherValue

  predicate IsEnum(k: Kind) {
    k.SpeedSelection? || k.Direction? || k.Timer? || k.OffOn? || k.SpeedSelected?
    || k.OperationMode? || k.NoYes? || k.NoYesYes?
  }

  predicate IsWrapper(k: Kind) {
    k.SpeedManual? || k.HumiditySensorThreshold? || k.HumidityLevel? || k.TimerSeconds?
    || k.ZeroTenVoltThreshold?
  }

  /** The members of each enumeration. */
  function Members(k: Kind): set<int>
    requires IsEnum(k)
  {
    match k
    case SpeedSelection => {1, 2, 3}
    case Direction => {0, 1, 2}
    case Timer => {0, 1, 2}
    case OffOn => {0, 1}
    case SpeedSelected => {1, 2, 3, 4}
    case OperationMode => {0, 1, 2}
    case NoYes => {0, 1}
    case NoYesYes => {0, 1, 2}
  }

  /** The two bounds each wrapper's chained comparison names. */
  function Bounds(k: Kind): (int, int)
    requires IsWrapper(k)
  {
    match k
    case SpeedManual => (22, 255)
    case HumiditySensorThreshold => (40, 80)
    case HumidityLevel => (39, 90)
    case TimerSeconds => (0, 86400)
    case ZeroTenVoltThreshold => (5, 100)
  }

  /** `k(v)`: an enumeration refuses a non-member, a wrapper raises when
      `lo < v > hi`, an int takes anything; ValueError either way. */
  function Construct(k: Kind, v: int): (r: Result<Value>)
    requires k != NoneType
    ensures r.Ok? ==> r.value == Num(k, v)
    ensures r.Err? ==> r.error == ValueError
    ensures k == Int ==> r.Ok?
  {
    if IsEnum(k) then (if v in Members(k) then Ok(Num(k, v)) else Err(ValueError))
    else if IsWrapper(k) then
      var (lo, hi) := Bounds(k);
      if lo < v && v > hi then Err(ValueError) else Ok(Num(k, v))
    else Ok(Num(k, v))
  }

  /** The wrappers refuse exactly the values above their upper bound; the
      nominal lower bound is never enforced. */
  lemma WrapperRefusesAbove(k: Kind, v: int)
    requires IsWrapper(k)
    ensures Construct(k, v).Err? <==> v > Bounds(k).1
    ensures Construct(k, v).Ok? ==> Construct(k, v).value == Num(k, v)
  {
  }

  /** So SpeedManual raises iff v > 255, HumidityLevel iff v > 90,
      TimerSeconds iff v > 86400 and ZeroTenVoltThreshold iff v > 100; a
      value below the nominal minimum, such as 0 for SpeedManual, passes. */
  lemma WrapperLimits(v: int)
    ensures Construct(SpeedManual, v).Err? <==> v > 255
    ensures Construct(Kind.HumiditySensorThreshold, v).Err? <==> v > 80
    ensures Construct(Kind.HumidityLevel, v).Err? <==> v > 90
    ensures Construct(TimerSeconds, v).Err? <==> v > 86400
    ensures Construct(Kind.ZeroTenVoltThreshold, v).Err? <==> v > 100
    ensures Construct(SpeedManual, 0) == Ok(Num(SpeedManual, 0))
  {
    WrapperRefusesAbove(SpeedManual, v);
    WrapperRefusesAbove(Kind.HumiditySensorThreshold, v);
    WrapperRefusesAbove(Kind.HumidityLevel, v);
    WrapperRefusesAbove(TimerSeconds, v);
    WrapperRefusesAbove(Kind.ZeroTenVoltThreshold, v);
  }

  /** `isinstance(value, k)`. An enumeration member is also an int. */
  predicate IsInstance(v: Value, k: Kind) {
    match v
    case NoneValue => k == NoneType
    case Num(kind, _) => kind == k || (k == Int && IsEnum(kind))
    case OtherValue => false
  }

  /** `int(value)`: the number inside; TypeError for None and other values. */
  function IntOf(v: Value): (r: Result<int>)
    ensures r.Ok? <==> v.Num?
  {
    if v.Num? then Ok(v.n) else Err(TypeError)
  }

  /** `value == member` for an enumeration member: integers compare by
      value, the wrapper classes (which define no equality) never equal a
      member, nor does None. */
  predicate Equals(v: Value, member: int) {
    v.Num? && (IsEnum(v.kind) || v.kind == Int) && v.n == member
  }

  /** One row of a descriptor table. */
  datatype Entry = Entry(cmd: byte, size: nat, kind: Kind)

  /** The FEEDBACK parameter names, which are the keys of every dictionary
      the reply side builds. */
  datatype Key =
    | Status
    | Speed
    | ManualSpeed
    | Direction
    | HumidityLevel
    | OperationMode
    | HumiditySensorThreshold
    | AlarmStatus
    | RelaySensorStatus
    | TimerCountdown
    | NightModeTimer
    | PartyModeTimer
    | BoostModeTimer
    | FilterEndOfLife
    | HumiditySensorStatus
    | BoostModeAfterSensor
    | HumiditySensor
    | RelaySensor
    | ZeroTenVoltSensor
    | ZeroTenVoltThreshold
    | ZeroTenVoltSensorStatus
    | SlaveSearch
    | SlaveResponse
    | CloudStatus
    | ZeroTenVoltCurrent

  /** The dictionary key each parameter is stored under. */
  function Name(k: Key): string {
    match k
    case Status => "status"
    case Speed => "speed"
    case ManualSpeed => "manual_speed"
    case Direction => "direction"
    case HumidityLevel => "humidity_level"
    case OperationMode => "operation_mode"
    case HumiditySensorThreshold => "humidity_sensor_threshold"
    case AlarmStatus => "alarm_status"
    case RelaySensorStatus => "relay_sensor_status"
    case TimerCountdown => "timer_countdown"
    case NightModeTimer => "night_mode_timer"
    case PartyModeTimer => "party_mode_timer"
    case BoostModeTimer => "boost_mode_timer"
    case FilterEndOfLife => "filter_end_of_life"
    case HumiditySensorStatus => "humidity_sensor_status"
    case BoostModeAfterSensor => "boost_mode_after_sensor"
    case HumiditySensor => "humidity_sensor"
    case RelaySensor => "relay_sensor"
    case ZeroTenVoltSensor => "zero_ten_volt_sensor"
    case ZeroTenVoltThreshold => "zero_ten_volt_threshold"
    case ZeroTenVoltSensorStatus => "zero_ten_volt_sensor_status"
    case SlaveSearch => "slave_search"
    case SlaveResponse => "slave_response"
    case CloudStatus => "cloud_status"
    case ZeroTenVoltCurrent => "zero_ten_volt_current"
  }

  const FeedbackTable: seq<(Key, Entry)> := [
    (Status, Entry(3, 1, OffOn)),
    (Speed, Entry(4, 1, SpeedSelected)),
    (ManualSpeed, Entry(5, 1, SpeedManual)),
    (Key.Direction, Entry(6, 1, Kind.Direction)),
    (Key.HumidityLevel, Entry(8, 1, Kind.HumidityLevel)),
    (Key.OperationMode, Entry(9, 1, Kind.OperationMode)),
    (Key.HumiditySensorThreshold, Entry(11, 1, Kind.HumiditySensorThreshold)),
    (AlarmStatus, Entry(12, 1, NoYes)),
    (RelaySensorStatus, Entry(13, 1, NoYes)),
    (TimerCountdown, Entry(14, 3, TimerSeconds)),
    (NightModeTimer, Entry(15, 3, TimerSeconds)),
    (PartyModeTimer, Entry(16, 3, TimerSeconds)),
    (BoostModeTimer, Entry(17, 3, TimerSeconds)),
    (FilterEndOfLife, Entry(18, 1, NoYes)),
    (HumiditySensorStatus, Entry(19, 1, NoYes)),
    (BoostModeAfterSensor, Entry(20, 1, NoYesYes)),
    (HumiditySensor, Entry(21, 1, OffOn)),
    (RelaySensor, Entry(22, 1, OffOn)),
    (ZeroTenVoltSensor, Entry(23, 1, OffOn)),
    (Key.ZeroTenVoltThreshold, Entry(25, 1, Kind.ZeroTenVoltThreshold)),
    (ZeroTenVoltSensorStatus, Entry(26, 1, NoYes)),
    (SlaveSearch, Entry(27, 32, Int)),
    (SlaveResponse, Entry(28, 4, Int)),
    (CloudStatus, Entry(31, 1, NoYes)),
    (ZeroTenVoltCurrent, Entry(37, 1, Int))]

  /** `CONTROL[name]`: the row stored under a command name, None for a
      name that is not a key. */
  function ControlEntry(name: string): (r: Option<Entry>)
    ensures r.Some? ==> r.value.size in {1, 3}
    ensures r.Some? ==> r.value.kind == NoneType || IsEnum(r.value.kind) || IsWrapper(r.value.kind)
  {
    match name
    case "status" => Some(Entry(1, 1, NoneType))
    case "activation" => Some(Entry(2, 1, NoneType))
    case "power" => Some(Entry(3, 1, NoneType))
    case "speed" => Some(Entry(4, 1, SpeedSelection))
    case "manual_speed" => Some(Entry(5, 1, SpeedManual))
    case "direction" => Some(Entry(6, 1, Kind.Direction))
    case "timer" => Some(Entry(9, 1, Timer))
    case "humidity_sensor_threshold" => Some(Entry(11, 1, Kind.HumiditySensorThreshold))
    case "night_mode_timer" => Some(Entry(15, 3, TimerSeconds))
    case "party_mode_timer" => Some(Entry(16, 3, TimerSeconds))
    case "deactivation_delay_timer" => Some(Entry(17, 3, TimerSeconds))
    case "humidity_sensor" => Some(Entry(21, 1, NoneType))
    case _ => None
  }

  /** The first FEEDBACK row whose code is `cmd`, with its key; the walker
      scans the table in order and stops at the first match. */
  function FindCmd(table: seq<(Key, Entry)>, cmd: int): (r: Option<(Key, Entry)>)
    ensures r.Some? <==> exists i :: 0 <= i < |table| && table[i].1.cmd == cmd
    ensures r.Some? ==> r.value.1.cmd == cmd && exists i :: 0 <= i < |table| && table[i] == r.value
  {
    if table == [] then None
    else if table[0].1.cmd == cmd then Some(table[0])
    else
      var r := FindCmd(table[1..], cmd);
      assert forall i :: 1 <= i < |table| ==> table[i] == table[1..][i - 1];
      r
  }

  /** FEEDBACK lists its codes in increasing order. */
  predicate Increasing(table: seq<(Key, Entry)>) {
    forall i :: 0 <= i < |table| - 1 ==> table[i].1.cmd < table[i + 1].1.cmd
  }

  lemma {:induction false} IncreasingFar(table: seq<(Key, Entry)>, i: nat, j: nat)
    requires Increasing(table) && i < j < |table|
    ensures table[i].1.cmd < table[j].1.cmd
    decreases j - i
  {
    if i + 1 < j {
      IncreasingFar(table, i + 1, j);
    }
  }

  /** In a table with increasing codes, a row's code finds that row. */
  lemma {:induction false} FindCmdIncreasing(table: seq<(Key, Entry)>, row: nat)
    requires Increasing(table) && row < |table|
    ensures FindCmd(table, table[row].1.cmd) == Some(table[row])
  {
    if row > 0 {
      IncreasingFar(table, 0, row);
      var tail := table[1..];
      assert Increasing(tail) by {
        forall i | 0 <= i < |tail| - 1 ensures tail[i].1.cmd < tail[i + 1].1.cmd {
          assert tail[i] == table[i + 1] && tail[i + 1] == table[i + 2];
        }
      }
      assert tail[row - 1] == table[row];
      FindCmdIncreasing(tail, row - 1);
    }
  }

  /** The FEEDBACK rows are listed in increasing order of their codes. */
  lemma FeedbackIncreasing()
    ensures Increasing(FeedbackTable)
  {
    FeedbackIncreasingBelow();
    FeedbackIncreasingAbove();
  }

  lemma FeedbackIncreasingBelow()
    ensures forall i :: 0 <= i < 12 ==> FeedbackTable[i].1.cmd < FeedbackTable[i + 1].1.cmd
  {
  }

  lemma FeedbackIncreasingAbove()
    ensures forall i :: 12 <= i < |FeedbackTable| - 1 ==> FeedbackTable[i].1.cmd < FeedbackTable[i + 1].1.cmd
  {
  }

  lemma FeedbackRow(row: nat)
    requires row < |FeedbackTable|
    ensures FindCmd(FeedbackTable, FeedbackTable[row].1.cmd) == Some(FeedbackTable[row])
  {
    FeedbackIncreasing();
    FindCmdIncreasing(FeedbackTable, row);
  }

  /** No two FEEDBACK rows share a code, so the first match is the only one. */
  lemma CodesDistinct(i: nat, j: nat)
    requires i < j < |FeedbackTable|
    ensures FeedbackTable[i].1.cmd != FeedbackTable[j].1.cmd
  {
    FeedbackIncreasing();
    IncreasingFar(FeedbackTable, i, j);
  }

  /** No FEEDBACK row is declared NoneType, and none has size 0. */
  lemma FeedbackKinds()
    ensures forall i :: 0 <= i < |FeedbackTable| ==> FeedbackTable[i].1.kind != NoneType && FeedbackTable[i].1.size > 0
  {
  }
}
