/** The fake fan controller: an object whose fields are the fan's state,
    updated in place by the datagrams it receives. Each method is proved to
    do what the functions of module FakeFanSpec say. */
module FakeFan {
  import opened Wrappers
  import opened Format
  import opened Checksum
  import opened FakeFanSpec

  class FakeFanController {
    const deviceId: string
    const password: string

    var isOn: bool
    var speed: byte
    var manualSpeed: byte
    var direction: byte
    var boost: bool
    var mode: byte
    var humidity: nat
    var rpm: nat
    var filterTimerMinutes: nat
    var timerCountdownSeconds: nat
    var alarm: bool
    var firmwareMajor: nat
    var firmwareMinor: nat
    var deviceType: byte

    /** the fields, as one value */
    function State(): FanState
      reads this
    {
      FanState(isOn, speed, manualSpeed, direction, boost, mode, humidity, rpm,
               filterTimerMinutes, timerCountdownSeconds, alarm, firmwareMajor, firmwareMinor, deviceType)
    }

    constructor (deviceId: string, password: string)
      ensures this.deviceId == deviceId && this.password == password
      ensures State() == Initial
    {
      this.deviceId := deviceId;
      this.password := password;
      isOn := false;
      speed := 0x01;
      manualSpeed := 0x80;
      direction := 0x00;
      boost := false;
      mode := 0x01;
      humidity := 45;
      rpm := 1200;
      filterTimerMinutes := 0;
      timerCountdownSeconds := 0;
      alarm := false;
      firmwareMajor := 2;
      firmwareMinor := 5;
      deviceType := 0x01;
    }

    /** `_set_state_value` */
    method SetStateValue(cmd: byte, value: byte)
      modifies this
      ensures State() == SetSpec(old(State()), cmd, value)
    {
      if cmd == CmdOnOff {
        if value == 0x01 {
          isOn := true;
        } else if value == 0x00 {
          isOn := false;
        } else if value == 0x02 {
          isOn := !isOn;
        }
      } else if cmd == CmdSpeed {
        speed := value;
      } else if cmd == CmdManualSpeed {
        manualSpeed := value;
      } else if cmd == CmdDirection {
        direction := value;
      } else if cmd == CmdBoost {
        boost := value != 0x00;
      } else if cmd == CmdMode {
        mode := value;
      } else if cmd == CmdResetFilterTimer {
        filterTimerMinutes := 0;
      } else if cmd == CmdResetAlarms {
        alarm := false;
      }
    }

    /** The header, the checksum of header and fields, and `bytes.fromhex`
        of the lot. */
    method BuildResponse(fields: string) returns (r: Result<seq<byte>>)
      ensures r == Seal(HeaderText(deviceId, password) + fields)
    {
      var response := HeaderText(deviceId, password) + fields;
      var ck := ComputeChecksum(response);
      if ck.Err? {
        return Err(ck.error);
      }
      r := FromHex(response + ck.value);
    }

    /** `_handle_read`: one field per command from `start` to `end`, the
        state unchanged. */
    method HandleRead(h: seq<byte>, start: nat, end: nat, today: Date) returns (r: Result<seq<byte>>)
      requires end <= |h|
      ensures r == Seal(HeaderText(deviceId, password) + ReadText(State(), h, start, end, today))
    {
      var fields := "";
      var i := start;
      while i < end
        invariant ReadText(State(), h, start, end, today) == fields + ReadText(State(), h, i, end, today)
        decreases end - i
      {
        var piece := Piece(State(), h[i], today);
        assert ReadText(State(), h, i, end, today) == piece + ReadText(State(), h, i + 1, end, today);
        fields := fields + piece;
        i := i + 1;
      }
      assert ReadText(State(), h, i, end, today) == "";
      assert fields == ReadText(State(), h, start, end, today);
      r := BuildResponse(fields);
    }

    /** `_handle_write`: the pairs applied in order; no response. */
    method HandleWrite(h: seq<byte>, start: nat, end: nat)
      requires end <= |h|
      modifies this
      ensures State() == WriteSpec(old(State()), h, start, end)
    {
      var i := start;
      while i < end
        invariant WriteSpec(old(State()), h, start, end) == WriteSpec(State(), h, i, end)
        decreases end - i
      {
        if i + 1 < end {
          SetStateValue(h[i], h[i + 1]);
          i := i + 2;
        } else {
          i := i + 1;
        }
      }
    }

    /** `_handle_read_write`: each pair applied, then its new value echoed. */
    method HandleReadWrite(h: seq<byte>, start: nat, end: nat, today: Date) returns (r: Result<seq<byte>>)
      requires end <= |h|
      modifies this
      ensures State() == ReadWriteSpec(old(State()), h, start, end, today).0
      ensures r == Seal(HeaderText(deviceId, password) + ReadWriteSpec(old(State()), h, start, end, today).1)
    {
      var fields := ApplyReadWrite(h, start, end, today);
      r := BuildResponse(fields);
    }

    /** The loop of `_handle_read_write`: the pairs from `start` to `end`
        applied in order, and the echoed fields. */
    method ApplyReadWrite(h: seq<byte>, start: nat, end: nat, today: Date) returns (fields: string)
      requires end <= |h|
      modifies this
      ensures State() == ReadWriteSpec(old(State()), h, start, end, today).0
      ensures fields == ReadWriteSpec(old(State()), h, start, end, today).1
    {
      ghost var total := ReadWriteSpec(old(State()), h, start, end, today);
      fields := "";
      var i := start;
      while i < end
        invariant total.0 == ReadWriteSpec(State(), h, i, end, today).0
        invariant total.1 == fields + ReadWriteSpec(State(), h, i, end, today).1
        decreases end - i
      {
        var piece, j := ReadWriteOne(h, i, end, today);
        ghost var rest := ReadWriteSpec(State(), h, j, end, today).1;
        AppendAssoc(fields, piece, rest);
        fields := fields + piece;
        i := j;
      }
      assert ReadWriteSpec(State(), h, i, end, today) == (State(), "");
    }

    /** One step of `_handle_read_write` at `i`: a pair applied and its echo
        returned, or a last command without a value skipped. */
    method ReadWriteOne(h: seq<byte>, i: nat, end: nat, today: Date) returns (piece: string, j: nat)
      requires end <= |h| && i < end
      modifies this
      ensures i < j <= end
      ensures ReadWriteSpec(State(), h, j, end, today).0 == ReadWriteSpec(old(State()), h, i, end, today).0
      ensures piece + ReadWriteSpec(State(), h, j, end, today).1 == ReadWriteSpec(old(State()), h, i, end, today).1
    {
      ghost var before := State();
      if i + 1 < end {
        SetStateValue(h[i], h[i + 1]);
        piece := Piece(State(), h[i], today);
        ReadWritePair(before, h, i, end, today);
        j := i + 2;
      } else {
        piece := "";
        j := i + 1;
      }
    }

    /** The state change of `_handle_inc`. */
    method Increment(cmd: byte)
      modifies this
      ensures State() == IncSpec(old(State()), cmd)
    {
      if cmd == CmdSpeed {
        if speed < 10 {
          speed := speed + 1;
        }
      } else if cmd == CmdManualSpeed {
        if manualSpeed < 255 {
          manualSpeed := manualSpeed + 1;
        }
      }
    }

    /** The state change of `_handle_dec`. */
    method Decrement(cmd: byte)
      modifies this
      ensures State() == DecSpec(old(State()), cmd)
    {
      if cmd == CmdSpeed {
        if speed > 1 {
          speed := speed - 1;
        }
      } else if cmd == CmdManualSpeed {
        if manualSpeed > 0 {
          manualSpeed := manualSpeed - 1;
        }
      }
    }

    /** `_handle_inc`: the change, then the command's new value;
        IndexError when there is no command byte. */
    method HandleInc(h: seq<byte>, start: nat, today: Date) returns (r: Result<seq<byte>>)
      modifies this
      ensures start >= |h| ==> State() == old(State()) && r == Err(IndexError)
      ensures start < |h| ==> State() == IncSpec(old(State()), h[start])
      ensures start < |h| ==> r == Seal(HeaderText(deviceId, password) + Piece(State(), h[start], today))
    {
      if start >= |h| {
        return Err(IndexError);
      }
      Increment(h[start]);
      r := BuildResponse(Piece(State(), h[start], today));
    }

    /** `_handle_dec`: the change, then the command's new value;
        IndexError when there is no command byte. */
    method HandleDec(h: seq<byte>, start: nat, today: Date) returns (r: Result<seq<byte>>)
      modifies this
      ensures start >= |h| ==> State() == old(State()) && r == Err(IndexError)
      ensures start < |h| ==> State() == DecSpec(old(State()), h[start])
      ensures start < |h| ==> r == Seal(HeaderText(deviceId, password) + Piece(State(), h[start], today))
    {
      if start >= |h| {
        return Err(IndexError);
      }
      Decrement(h[start]);
      r := BuildResponse(Piece(State(), h[start], today));
    }

    /** The `try` block of `process_packet`, from the function code at
        `pos` on: the handler it names, with an exception turned into no
        response. */
    method HandleFunction(data: seq<byte>, pos: nat, today: Date) returns (r: Result<Option<seq<byte>>>)
      requires 2 <= |data| && pos < |data|
      modifies this
      ensures State() == Dispatch(old(State()), data, pos, today).0
      ensures var text := Dispatch(old(State()), data, pos, today).1;
        r == if text.None? then Ok(None) else Respond(Seal(HeaderText(deviceId, password) + text.value))
    {
      var func := data[pos];
      var start := pos + 1;
      var end := |data| - 2;
      ghost var s0 := State();
      var response: Result<seq<byte>>;
      if func == FuncRead {
        assert Dispatch(s0, data, pos, today) == (s0, Some(ReadText(s0, data, start, end, today)));
        response := HandleRead(data, start, end, today);
      } else if func == FuncWrite {
        assert Dispatch(s0, data, pos, today) == (WriteSpec(s0, data, start, end), None);
        HandleWrite(data, start, end);
        return Ok(None);
      } else if func == FuncReadWrite {
        assert Dispatch(s0, data, pos, today) ==
          (ReadWriteSpec(s0, data, start, end, today).0, Some(ReadWriteSpec(s0, data, start, end, today).1));
        response := HandleReadWrite(data, start, end, today);
      } else if func == FuncInc {
        ghost var next := if start < |data| then IncSpec(s0, data[start]) else s0;
        assert start < |data| ==>
          Dispatch(s0, data, pos, today) == (next, Some(Piece(next, data[start], today)));
        response := HandleInc(data, start, today);
      } else if func == FuncDec {
        ghost var next := if start < |data| then DecSpec(s0, data[start]) else s0;
        assert start < |data| ==>
          Dispatch(s0, data, pos, today) == (next, Some(Piece(next, data[start], today)));
        response := HandleDec(data, start, today);
      } else {
        return Ok(None);
      }
      r := Respond(response);
    }

    /** `process_packet`: the checksum test (IndexError on fewer than two
        bytes), the authentication, then the function. */
    method ProcessPacket(data: seq<byte>, today: Date) returns (r: Result<Option<seq<byte>>>)
      modifies this
      ensures (State(), r) == ProcessSpec(old(State()), deviceId, password, data, today)
    {
      var checked := VerifyChecksum(HexList(data));
      if checked.Err? {
        return Err(checked.error);
      }
      if !checked.value || !VerifyAuth(data, deviceId, password) {
        return Ok(None);
      }
      var pos := FuncPos(data);
      if pos.None? {
        return Ok(None);
      }
      r := HandleFunction(data, pos.value, today);
    }
  }
}
