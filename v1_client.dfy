/** The public operations of the v1 client. Each exchange builds a control
    packet, runs the retry loop on its own attempts and translates the
    reply; most operations end by formatting the last dictionary. The
    attempts of the successive exchanges are a parameter. */
module V1Client {
  import opened Wrappers
  import opened Format
  import opened Consts
  import opened Transport
  import opened V1Values
  import opened V1Packet
  import opened V1Response

  /** The most exchanges one operation performs (sleep and party: the
      status read, the power toggle, the timer). */
  const MaxExchanges := 3

  /** The attempts of each exchange, in the order the operation runs them. */
  predicate ScriptOk(net: seq<seq<Attempt>>) {
    |net| == MaxExchanges && forall i :: 0 <= i < |net| ==> |net[i]| == Attempts
  }

  /** One round: `_control_packet`, `_send_command`, `_translate_response`.
      The packet is built with `ControlPacketCorrected`; on every command
      list the operations send (the status query, the power toggle, and
      single pairs of enumeration members) it agrees with the as-written
      `_control_packet` (see `V1Packet.StatusPacket`, `V1Packet.EnumPacket`
      and `V1Packet.AgreeWithoutWrappers`). */
  function Exchange(cmds: Commands, attempts: seq<Attempt>): (r: Result<Data1>)
    requires |attempts| == Attempts
    ensures r.Err? ==>
      r.error == ValueError || r.error == TypeError || r.error == OverflowError || r.error == SocketError || r.error == TimeoutError
    ensures r.Ok? ==> WellTyped(FeedbackTable, r.value)
  {
    Exchange1Results(attempts);
    var data :- ControlPacketCorrected(cmds);
    var reply :- Exchange1(attempts, 0);
    TranslateSpec(reply)
  }

  const StatusQuery: Commands := List([Pair("status", NoneValue)])
  const PowerToggle: Commands := List([Pair("power", NoneValue)])

  /** The argument of `speed`, an int or a string. */
  datatype SpeedArg = IntArg(n: int) | TextArg(s: string)

  /** `int(speed)`: an int is kept, a string is read as Python reads it. */
  function IntOfArg(a: SpeedArg): (r: Result<int>)
    ensures a.IntArg? ==> r == Ok(a.n)
    ensures a.TextArg? ==> (r.Ok? <==> PyInt(a.s).Some?) && (r.Ok? ==> r.value == PyInt(a.s).value)
    ensures r.Err? ==> r.error == ValueError
  {
    match a
    case IntArg(n) => Ok(n)
    case TextArg(s) => if PyInt(s).Some? then Ok(PyInt(s).value) else Err(ValueError)
  }

  /** The checks of `direction`: a name is replaced by its key, the key
      must be in the table, and `Direction(int(key))` must be a member. */
  function DirectionArg(c: Config, direction: string): (r: Result<Value>)
    ensures r.Ok? <==> ResolveDirection(c, direction).Ok? && PyInt(ResolveDirection(c, direction).value).Some?
                       && PyInt(ResolveDirection(c, direction).value).value in {0, 1, 2}
    ensures r.Ok? ==> r.value == Num(Kind.Direction, PyInt(ResolveDirection(c, direction).value).value)
    ensures r.Err? ==> r.error == ValueError
  {
    var key :- ResolveDirection(c, direction);
    var n :- if PyInt(key).Some? then Ok(PyInt(key).value) else Err(ValueError);
    Construct(Kind.Direction, n)
  }

  datatype Operation1 =
    | GetStatus
    | PowerOn
    | PowerOff
    | SetSpeed(speed: SpeedArg)
    | SetDirection(direction: string)
    | SleepMode
    | PartyMode
    | ResetFilterAlarm

  /** The status read of `power_on` (`from` = 0) and `power_off` (`from` =
      1): the toggle is sent only while the status equals `from`, and its
      reply must name the operation mode (it is logged). The dictionary
      kept and the number of exchanges used. */
  function PowerSteps(net: seq<seq<Attempt>>, from: int): (r: Result<(Data1, nat)>)
    requires ScriptOk(net)
    ensures r.Ok? ==> r.value.1 == 1 || r.value.1 == 2
    ensures r.Ok? && r.value.1 == 1 ==> Status in r.value.0 && !Equals(r.value.0[Status], from)
    ensures r.Ok? && r.value.1 == 2 ==> Key.OperationMode in r.value.0
    ensures r.Err? ==> r.error != AttributeError
  {
    var result :- Exchange(StatusQuery, net[0]);
    var status :- Get(result, Status);
    if Equals(status, from) then
      var toggled :- Exchange(PowerToggle, net[1]);
      var _ :- Get(toggled, Key.OperationMode);
      Ok((toggled, 2))
    else Ok((result, 1))
  }

  /** `power_on`/`power_off`: the power steps and the formatted result. */
  function Power(net: seq<seq<Attempt>>, from: int): Result<(Formatted1, nat)>
    requires ScriptOk(net)
  {
    var (data, used) :- PowerSteps(net, from);
    var f :- FormatSpec(data);
    Ok((f, used))
  }

  /** The timer command of sleep (NIGHT = 1) and party (PARTY = 2), after
      `power_on`, whose own formatting still has to succeed. */
  function TimerSteps(net: seq<seq<Attempt>>, member: int): (r: Result<Data1>)
    requires ScriptOk(net)
    ensures r.Ok? ==> Key.OperationMode in r.value && WellTyped(FeedbackTable, r.value)
  {
    var (_, used) :- Power(net, 0);
    var result :- Exchange(List([Pair("timer", Num(Timer, member))]), net[used]);
    var _ :- Get(result, Key.OperationMode);
    Ok(result)
  }

  /** What party mode reports whatever the reply says: on, speed HIGH,
      direction VENTILATION. */
  function PartyOverride(data: Data1): Data1 {
    data[Status := Num(OffOn, 1)][Speed := Num(SpeedSelection, 3)][Key.Direction := Num(Kind.Direction, 0)]
  }

  /** `set_speed`: the speed as a SpeedSelection, sent, and the reply
      formatted once it holds the speed. */
  function SpeedRun(net: seq<seq<Attempt>>, arg: SpeedArg): Result<Option<Formatted1>>
    requires ScriptOk(net)
  {
    var n :- IntOfArg(arg);
    var speed :- Construct(SpeedSelection, n);
    var result :- Exchange(List([Pair("speed", speed)]), net[0]);
    var _ :- Get(result, Speed);
    var f :- FormatSpec(result);
    Ok(Some(f))
  }

  /** `party_mode`: the timer command, then the override formatted once
      the reply holds the countdown. */
  function PartyRun(net: seq<seq<Attempt>>): Result<Option<Formatted1>>
    requires ScriptOk(net)
  {
    var result :- TimerSteps(net, 2);
    var _ :- Get(result, TimerCountdown);
    var f :- FormatSpec(PartyOverride(result));
    Ok(Some(f))
  }

  /** An operation and the record it returns (None for the filter reset,
      which does nothing in this version). */
  function Run(c: Config, net: seq<seq<Attempt>>, op: Operation1): Result<Option<Formatted1>>
    requires ScriptOk(net)
  {
    match op
    case GetStatus =>
      var result :- Exchange(StatusQuery, net[0]);
      var f :- FormatSpec(result);
      Ok(Some(f))
    case PowerOn =>
      var (f, _) :- Power(net, 0);
      Ok(Some(f))
    case PowerOff =>
      var (f, _) :- Power(net, 1);
      Ok(Some(f))
    case SetSpeed(arg) => SpeedRun(net, arg)
    case SetDirection(direction) =>
      var d :- DirectionArg(c, direction);
      var result :- Exchange(List([Pair("direction", d)]), net[0]);
      var _ :- Get(result, Key.Direction);
      var f :- FormatSpec(result);
      Ok(Some(f))
    case SleepMode =>
      var result :- TimerSteps(net, 1);
      var f :- FormatSpec(result);
      Ok(Some(f))
    case PartyMode => PartyRun(net)
    case ResetFilterAlarm => Ok(None)
  }

  // ---- what the operations send and promise ----

  /** The status read is command 01 with a zero byte, the toggle 03. */
  lemma QueryPackets()
    ensures ControlPacketCorrected(StatusQuery) == Ok([0x01, 0x00])
    ensures ControlPacketCorrected(PowerToggle) == Ok([0x03, 0x00])
  {
    StatusPacket();
  }

  /** `status` is the formatted answer to the status read. */
  lemma StatusReads(c: Config, net: seq<seq<Attempt>>)
    requires ScriptOk(net)
    ensures Run(c, net, GetStatus) ==
      match Exchange1(net[0], 0)
      case Err(e) => Err(e)
      case Ok(reply) => match TranslateSpec(reply)
        case Err(e) => Err(e)
        case Ok(data) => match FormatSpec(data)
          case Err(e) => Err(e)
          case Ok(f) => Ok(Some(f))
  {
    QueryPackets();
  }

  /** `power_on` and `power_off` send the toggle exactly when the status
      read shows the fan in the other state, so they never switch it the
      wrong way. */
  lemma PowerTogglesOnlyFrom(net: seq<seq<Attempt>>, from: int)
    requires ScriptOk(net)
    requires Exchange(StatusQuery, net[0]).Ok? && Status in Exchange(StatusQuery, net[0]).value
    ensures var status := Exchange(StatusQuery, net[0]).value[Status];
      PowerSteps(net, from).Ok? && PowerSteps(net, from).value.1 == 2 ==> Equals(status, from)
    ensures var status := Exchange(StatusQuery, net[0]).value[Status];
      !Equals(status, from) ==> PowerSteps(net, from) == Ok((Exchange(StatusQuery, net[0]).value, 1))
  {
  }

  /** A missing status in the first reply is a KeyError before anything
      else is sent. */
  lemma PowerNeedsStatus(net: seq<seq<Attempt>>, from: int)
    requires ScriptOk(net)
    requires Exchange(StatusQuery, net[0]).Ok? && Status !in Exchange(StatusQuery, net[0]).value
    ensures PowerSteps(net, from) == Err(KeyError)
  {
  }

  /** `speed` accepts exactly the members LOW, MEDIUM, HIGH (1, 2, 3) and
      sends them as 04 n; any other number, or a string that is no number,
      is ValueError before anything is sent. */
  lemma SpeedChecks(c: Config, net: seq<seq<Attempt>>, arg: SpeedArg)
    requires ScriptOk(net)
    ensures IntOfArg(arg).Err? ==> Run(c, net, SetSpeed(arg)) == Err(ValueError)
    ensures IntOfArg(arg).Ok? && IntOfArg(arg).value !in {1, 2, 3} ==> Run(c, net, SetSpeed(arg)) == Err(ValueError)
    ensures IntOfArg(arg).Ok? && IntOfArg(arg).value in {1, 2, 3} ==>
      ControlPacketCorrected(List([Pair("speed", Num(SpeedSelection, IntOfArg(arg).value))]))
        == Ok([0x04, IntOfArg(arg).value as byte])
  {
    if IntOfArg(arg).Err? {
      SpeedNotInt(c, net, arg);
    } else if IntOfArg(arg).value !in {1, 2, 3} {
      SpeedOutOfRange(c, net, arg);
    } else {
      EnumPacket("speed", SpeedSelection, IntOfArg(arg).value);
      assert ControlEntry("speed") == Some(Entry(4, 1, SpeedSelection));
    }
  }

  lemma SpeedNotInt(c: Config, net: seq<seq<Attempt>>, arg: SpeedArg)
    requires ScriptOk(net) && IntOfArg(arg).Err?
    ensures Run(c, net, SetSpeed(arg)) == Err(ValueError)
  {
  }

  lemma SpeedOutOfRange(c: Config, net: seq<seq<Attempt>>, arg: SpeedArg)
    requires ScriptOk(net) && IntOfArg(arg).Ok? && IntOfArg(arg).value !in {1, 2, 3}
    ensures Run(c, net, SetSpeed(arg)) == Err(ValueError)
  {
    assert Construct(SpeedSelection, IntOfArg(arg).value) == Err(ValueError);
  }

  /** A string speed may carry white space around it, a sign, or
      underscores between its digits, as `int()` allows; */
  lemma SpeedSpaced(d: string, c: char)
    requires ParseDecimal(d).Some? && IsPySpace(c)
    ensures IntOfArg(TextArg([c] + d)) == Ok(DecimalValue(d))
    ensures IntOfArg(TextArg(d + [c])) == Ok(DecimalValue(d))
  {
    PyIntSpace(d, c);
  }

  lemma SpeedSigned(d: string)
    requires ParseDecimal(d).Some?
    ensures IntOfArg(TextArg("+" + d)) == Ok(DecimalValue(d))
    ensures IntOfArg(TextArg("-" + d)) == Ok(-(DecimalValue(d) as int))
  {
    PyIntSigned(d);
  }

  lemma SpeedUnderscored(a: string, b: string)
    requires ParseDecimal(a).Some? && ParseDecimal(b).Some?
    ensures IntOfArg(TextArg(a + "_" + b)) == Ok(DecimalValue(a + b))
  {
    PyIntUnderscored(a, b);
  }

  /** an empty or blank string, a misplaced underscore, a sign apart from
      its digits or a hex literal is ValueError. */
  lemma SpeedRejects()
    ensures IntOfArg(TextArg("")) == Err(ValueError) && IntOfArg(TextArg(" ")) == Err(ValueError)
    ensures IntOfArg(TextArg("_2")) == Err(ValueError) && IntOfArg(TextArg("2_")) == Err(ValueError)
    ensures IntOfArg(TextArg("2__0")) == Err(ValueError) && IntOfArg(TextArg("+ 2")) == Err(ValueError)
    ensures IntOfArg(TextArg("0x10")) == Err(ValueError)
  {
    PyIntRejectsBlank();
    PyIntRejectsUnderscore();
    PyIntRejectsSpacedSign();
    PyIntRejectsHex();
  }

  /** `direction` accepts only a name or key of the table whose key reads
      as 0, 1 or 2; anything else is ValueError before anything is sent. */
  lemma DirectionChecks(c: Config, net: seq<seq<Attempt>>, direction: string)
    requires ScriptOk(net)
    ensures !(HasName(c.directions, direction) || HasKey(c.directions, direction)) ==>
      Run(c, net, SetDirection(direction)) == Err(ValueError)
    ensures DirectionArg(c, direction).Err? ==> Run(c, net, SetDirection(direction)) == Err(ValueError)
  {
    ResolveDirectionAccepts(c, direction);
  }

  /** The direction packet is 06 n. */
  lemma DirectionPacket(n: int)
    requires n in {0, 1, 2}
    ensures ControlPacketCorrected(List([Pair("direction", Num(Kind.Direction, n))])) == Ok([0x06, n as byte])
  {
    EnumPacket("direction", Kind.Direction, n);
    assert ControlEntry("direction") == Some(Entry(6, 1, Kind.Direction));
  }

  /** Sleep and party send timer 09 with NIGHT (01) or PARTY (02). */
  lemma TimerPackets()
    ensures ControlPacketCorrected(List([Pair("timer", Num(Timer, 1))])) == Ok([0x09, 0x01])
    ensures ControlPacketCorrected(List([Pair("timer", Num(Timer, 2))])) == Ok([0x09, 0x02])
  {
    EnumPacket("timer", Timer, 1);
    EnumPacket("timer", Timer, 2);
    assert ControlEntry("timer") == Some(Entry(9, 1, Timer));
  }

  /** Party mode reports the fan on, at speed HIGH, not oscillating and
      without a direction, whatever the device answered. */
  lemma PartyReportsOverride(c: Config, net: seq<seq<Attempt>>)
    requires ScriptOk(net)
    requires Run(c, net, PartyMode).Ok?
    ensures Run(c, net, PartyMode).value.Some?
    ensures var f := Run(c, net, PartyMode).value.value;
      f.isOn && f.speed == 3 && !f.manualSpeedSelected && !f.oscillating && f.direction == None
  {
    var data := TimerSteps(net, 2).value;
    assert Run(c, net, PartyMode) == Ok(Some(FormatSpec(PartyOverride(data)).value));
    OverrideFormats(data);
  }

  lemma OverrideFormats(data: Data1)
    requires FormatSpec(PartyOverride(data)).Ok?
    ensures var f := FormatSpec(PartyOverride(data)).value;
      f.isOn && f.speed == 3 && !f.manualSpeedSelected && !f.oscillating && f.direction == None
  {
    var o := PartyOverride(data);
    assert o[Status] == Num(OffOn, 1) && o[Speed] == Num(SpeedSelection, 3) && o[Key.Direction] == Num(Kind.Direction, 0);
    FormatFields(o);
  }

  /** The filter reset does nothing and always succeeds. */
  lemma ResetDoesNothing(c: Config, net: seq<seq<Attempt>>)
    requires ScriptOk(net)
    ensures Run(c, net, ResetFilterAlarm) == Ok(None)
  {
  }

  /** A reply carrying the `master` prefix is handed on without it,
      whatever follows it. */
  lemma MasterReply(payload: seq<byte>, rest: seq<Attempt>)
    requires |rest| == Attempts - 1
    ensures Exchange1([Reply(MasterPrefix + payload)] + rest, 0) == Ok(payload)
  {
    StripMasterCases(payload, payload);
  }
}
