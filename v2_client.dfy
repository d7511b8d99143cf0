/** The v2 client's commands: the retry decision of `_send_command` over the
    outcomes of its attempts, the status request, and the argument checks
    and command strings of the operations that change the fan. The socket
    itself is not modelled: each attempt's outcome is an input. */
module V2Client {
  import opened Wrappers
  import opened Format
  import opened Utf8
  import opened Consts
  import opened Checksum
  import opened V2Packet
  import opened V2Parser
  import opened V2Status
  import opened Transport

  /** The loop from attempt `k` on. A write returns the empty list once its
      datagram is sent; a timeout is retried, the third one is TimeoutError;
      a reply with a wrong checksum is ValueError, not retried; a reply too
      short to hold a checksum is IndexError. */
  function Exchange(isWrite: bool, outcomes: seq<Attempt>, k: nat): (r: Result<seq<byte>>)
    requires |outcomes| == Attempts
    ensures isWrite && r.Ok? ==> r.value == []
    ensures r.Err? ==>
      r.error == SocketError || r.error == TimeoutError || r.error == ValueError || r.error == IndexError || r.error == LookupError
    decreases Attempts - k
  {
    if k >= Attempts then Err(LookupError)
    else match outcomes[k]
      case SocketFailed => Err(SocketError)
      case TimedOut =>
        if isWrite then Ok([])
        else if k == Attempts - 1 then Err(TimeoutError)
        else Exchange(isWrite, outcomes, k + 1)
      case Reply(d) =>
        if isWrite then Ok([])
        else
          var ok :- VerifyChecksum(HexList(d));
          if ok then Ok(d) else Err(ValueError)
  }

  /** `_send_command(func, data)`: the datagram is built first (ValueError
      when it is not hex), then the attempts run. The bytes returned stand
      for the hex list, which is their upper-case rendering. */
  function SendSpec(id: string, password: string, func: string, data: string, outcomes: seq<Attempt>): (r: Result<seq<byte>>)
    requires |outcomes| == Attempts
    ensures RequestBytes(id, password, func, data).Err? ==> r == Err(ValueError)
    ensures r != Err(LookupError)
    ensures func == FuncWrite && r.Ok? ==> r.value == []
    ensures func != FuncWrite && r.Ok? ==> VerifyChecksum(HexList(r.value)) == Ok(true)
  {
    var packet :- RequestBytes(id, password, func, data);
    ExchangeResults(func == FuncWrite, outcomes);
    Exchange(func == FuncWrite, outcomes, 0)
  }

  /** The retry loop, proved to make the decision `SendSpec` states. */
  method SendCommand(id: string, password: string, func: string, data: string, outcomes: seq<Attempt>)
    returns (r: Result<seq<byte>>)
    requires |outcomes| == Attempts
    ensures r == SendSpec(id, password, func, data, outcomes)
  {
    var packet := RequestBytes(id, password, func, data);
    if packet.Err? {
      return Err(packet.error);
    }
    var isWrite := func == FuncWrite;
    for attempt := 0 to Attempts
      invariant Exchange(isWrite, outcomes, attempt) == Exchange(isWrite, outcomes, 0)
    {
      match outcomes[attempt]
      case SocketFailed =>
        return Err(SocketError);
      case TimedOut =>
        if isWrite {
          return Ok([]);
        }
        if attempt == Attempts - 1 {
          return Err(TimeoutError);
        }
      case Reply(d) =>
        if isWrite {
          return Ok([]);
        }
        var ok := VerifyChecksum(HexList(d));
        if ok.Err? {
          return Err(ok.error);
        }
        if !ok.value {
          return Err(ValueError);
        }
        return Ok(d);
    }
    return Err(LookupError);
  }

  /** The index of the attempt the loop stops at: the first one that did not
      time out, or the last. */
  function StopAt(outcomes: seq<Attempt>, k: nat): (j: nat)
    requires |outcomes| == Attempts && k < Attempts
    ensures k <= j < Attempts
    ensures forall i :: k <= i < j ==> outcomes[i] == TimedOut
    ensures j < Attempts - 1 ==> outcomes[j] != TimedOut
    decreases Attempts - k
  {
    if outcomes[k] != TimedOut || k == Attempts - 1 then k else StopAt(outcomes, k + 1)
  }

  /** A read is decided by the attempt it stops at alone: three timeouts are
      TimeoutError, a socket error is passed on, and a reply is returned
      exactly when its checksum is right. LookupError never comes out. */
  lemma {:induction false} ExchangeRead(outcomes: seq<Attempt>, k: nat)
    requires |outcomes| == Attempts && k < Attempts
    ensures var j := StopAt(outcomes, k);
      Exchange(false, outcomes, k) ==
        match outcomes[j]
        case TimedOut => Err(TimeoutError)
        case SocketFailed => Err(SocketError)
        case Reply(d) =>
          match VerifyChecksum(HexList(d))
          case Err(e) => Err(e)
          case Ok(ok) => if ok then Ok(d) else Err(ValueError)
    decreases Attempts - k
  {
    if outcomes[k] == TimedOut && k < Attempts - 1 {
      ExchangeRead(outcomes, k + 1);
    }
  }

  /** Three timeouts in a row, and only they, make a read raise TimeoutError. */
  lemma ReadTimesOut(outcomes: seq<Attempt>)
    requires |outcomes| == Attempts
    ensures Exchange(false, outcomes, 0) == Err(TimeoutError)
        <==> forall i :: 0 <= i < Attempts ==> outcomes[i] == TimedOut
  {
    ExchangeRead(outcomes, 0);
    var j := StopAt(outcomes, 0);
    var r := Exchange(false, outcomes, 0);
    if outcomes[j].Reply? {
      var d := outcomes[j].datagram;
      if |HexList(d)| < 2 {
        assert VerifyChecksum(HexList(d)) == Err(IndexError);
      }
      assert r != Err(TimeoutError);
    }
  }

  /** What a read returns passed the checksum test; a write returns nothing
      unless its first send fails; the loop never ends in LookupError. */
  lemma ExchangeResults(isWrite: bool, outcomes: seq<Attempt>)
    requires |outcomes| == Attempts
    ensures Exchange(isWrite, outcomes, 0) != Err(LookupError)
    ensures isWrite ==>
      Exchange(isWrite, outcomes, 0) == (if outcomes[0] == SocketFailed then Err(SocketError) else Ok([]))
    ensures !isWrite && Exchange(isWrite, outcomes, 0).Ok? ==>
      VerifyChecksum(HexList(Exchange(isWrite, outcomes, 0).value)) == Ok(true)
  {
    if !isWrite {
      ExchangeRead(outcomes, 0);
      var j := StopAt(outcomes, 0);
      if outcomes[j].Reply? {
        var d := outcomes[j].datagram;
        if |HexList(d)| < 2 {
          assert VerifyChecksum(HexList(d)) == Err(IndexError);
        }
      }
    }
  }

  /** A checksum mismatch is not retried: the attempts after it are never
      looked at. */
  lemma ChecksumErrorNotRetried(outcomes: seq<Attempt>, k: nat, d: seq<byte>)
    requires |outcomes| == Attempts && k < Attempts
    requires outcomes[k] == Reply(d) && VerifyChecksum(HexList(d)) == Ok(false)
    ensures Exchange(false, outcomes, k) == Err(ValueError)
  {
  }

  // ---- the status request ----

  /** The commands `status` asks for, in its order. */
  const StatusCommands: seq<byte> := [CmdDeviceType, CmdOnOff, CmdSpeed, CmdManualSpeed, CmdDirection,
    CmdBoost, CmdMode, CmdTimerCountdown, CmdHumidity, CmdFan1Rpm, CmdFilterTimer, CmdReadAlarm, CmdFirmware]

  /** `status()`: read every status command, parse the reply, translate it. */
  function StatusSpec(c: Config, id: string, password: string, outcomes: seq<Attempt>): Result<Status>
    requires |outcomes| == Attempts
  {
    var reply :- SendSpec(id, password, FuncRead, Hex(StatusCommands), outcomes);
    var data :- ParseSpec(reply);
    Translate(c, data)
  }

  /** The status request is a well-formed read: its bytes are the header, the
      read function 01 and the command codes, sealed with their checksum, for
      any password under 256 characters. */
  lemma StatusRequest(id: string, password: string)
    requires |password| < 256
    ensures var body := RequestBody(id, password, 0x01, StatusCommands);
      && RequestBytes(id, password, FuncRead, Hex(StatusCommands)) == Ok(body + ChecksumBytes(PacketSum(body)))
      && VerifyChecksum(HexList(body + ChecksumBytes(PacketSum(body)))) == Ok(true)
  {
    assert HexByte(0x01) == FuncRead;
    RequestLayout(id, password, 0x01, StatusCommands);
  }

  // ---- the operations ----

  /** The public operations that change the fan. `speed_manual` is not part
      of this model. */
  datatype Operation =
    | PowerOn
    | PowerOff
    | SetSpeed(speed: string)
    | SetDirection(direction: string)
    | SleepMode
    | PartyMode
    | ResetFilterAlarm

  /** The function code and data string an operation sends, or the
      ValueError its argument check raises before anything is sent. */
  function Command(c: Config, op: Operation): (r: Result<(string, string)>)
    ensures r.Err? ==> r.error == ValueError
  {
    match op
    case PowerOn => Ok((FuncReadWrite, Upper("01" + "01")))
    case PowerOff => Ok((FuncReadWrite, Upper("01" + "00")))
    case SetSpeed(speed) =>
      if speed in c.fanSpeeds then Ok((FuncReadWrite, Upper("02" + speed))) else Err(ValueError)
    case SetDirection(direction) =>
      var key :- ResolveDirection(c, direction);
      Ok((FuncReadWrite, Upper("B7" + key)))
    case SleepMode => Ok((FuncReadWrite, Upper("01" + "01" + "07" + "01")))
    case PartyMode => Ok((FuncReadWrite, Upper("01" + "01" + "07" + "02")))
    case ResetFilterAlarm => Ok((FuncWrite, Upper("80" + "00" + "65" + "00")))
  }

  /** An operation: its command, then a fresh status read (two runs of the
      retry loop, each with its own attempts). */
  function Run(c: Config, id: string, password: string, op: Operation, first: seq<Attempt>, second: seq<Attempt>): Result<Status>
    requires |first| == Attempts && |second| == Attempts
  {
    var command :- Command(c, op);
    var _ :- SendSpec(id, password, command.0, command.1, first);
    StatusSpec(c, id, password, second)
  }

  /** The command strings are upper-case hex already. */
  lemma UpperHexText(text: string, bs: seq<byte>)
    requires text == Hex(bs)
    ensures Upper(text) == Hex(bs)
  {
    UpperOfUpperHex(text);
  }

  /** Power 01 is set to on (01) or off (00). */
  lemma PowerCommands(c: Config)
    ensures Command(c, PowerOn) == Ok((FuncReadWrite, Hex([0x01, 0x01])))
    ensures Command(c, PowerOff) == Ok((FuncReadWrite, Hex([0x01, 0x00])))
  {
    UpperHexText("01" + "01", [0x01, 0x01]);
    UpperHexText("01" + "00", [0x01, 0x00]);
  }

  /** Sleep and party also set mode 07 to 01 or 02. */
  lemma ModeCommands(c: Config)
    ensures Command(c, SleepMode) == Ok((FuncReadWrite, Hex([0x01, 0x01, 0x07, 0x01])))
    ensures Command(c, PartyMode) == Ok((FuncReadWrite, Hex([0x01, 0x01, 0x07, 0x02])))
  {
    UpperHexText("01" + "01" + "07" + "01", [0x01, 0x01, 0x07, 0x01]);
    UpperHexText("01" + "01" + "07" + "02", [0x01, 0x01, 0x07, 0x02]);
  }

  /** The filter reset writes 00 to reset-alarms 80 and to reset-filter-timer 65. */
  lemma ResetCommand(c: Config)
    ensures Command(c, ResetFilterAlarm) == Ok((FuncWrite, Hex([0x80, 0x00, 0x65, 0x00])))
  {
    UpperHexText("80" + "00" + "65" + "00", [0x80, 0x00, 0x65, 0x00]);
  }

  /** `speed` sends only the speeds of the list, and `direction` only names
      and keys of the direction table; anything else is ValueError before
      any datagram is sent. */
  lemma CommandChecks(c: Config, op: Operation)
    ensures op.SetSpeed? ==> (Command(c, op).Ok? <==> op.speed in c.fanSpeeds)
    ensures op.SetDirection? ==>
      (Command(c, op).Ok? <==> HasName(c.directions, op.direction) || HasKey(c.directions, op.direction))
    ensures op.SetDirection? && Command(c, op).Ok? ==>
      Command(c, op).value == (FuncReadWrite, Upper("B7" + ResolveDirection(c, op.direction).value))
  {
    if op.SetDirection? {
      ResolveDirectionAccepts(c, op.direction);
    }
  }

  /** A rejected argument fails the operation with ValueError whatever the
      attempts would have brought. */
  lemma RejectedRunsNothing(c: Config, id: string, password: string, op: Operation, first: seq<Attempt>, second: seq<Attempt>)
    requires |first| == Attempts && |second| == Attempts
    requires Command(c, op).Err?
    ensures Run(c, id, password, op, first, second) == Err(ValueError)
  {
  }

  /** The filter reset is a write: it succeeds without a reply, and the
      operation's result is the status that follows. */
  lemma ResetIsWrite(c: Config, id: string, password: string, first: seq<Attempt>, second: seq<Attempt>)
    requires |first| == Attempts && |second| == Attempts
    requires |password| < 256
    requires first[0] != SocketFailed
    ensures Run(c, id, password, ResetFilterAlarm, first, second) == StatusSpec(c, id, password, second)
  {
    ResetCommand(c);
    var data := [0x80, 0x00, 0x65, 0x00];
    assert HexByte(0x02) == FuncWrite;
    RequestLayout(id, password, 0x02, data);
    ExchangeResults(true, first);
  }
}
