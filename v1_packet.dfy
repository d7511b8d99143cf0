/** The request side of the v1 client: `_control_packet`, which turns a list
    of (command, value) pairs into command bytes, and `_send_command`, which
    frames them as "mobile" + data + CR LF, tries three times and strips the
    "master" prefix from the reply. The socket is not modelled: each
    attempt's outcome is an input. */
module V1Packet {
  import opened Wrappers
  import opened Format
  import opened Utf8
  import opened V1Values
  import opened Transport

  /** One element of the command list: a (command, value) pair, a tuple of
      another length, or something that is not a tuple. */
  datatype Item = Pair(name: string, value: Value) | WrongArity | NotATuple

  /** The argument of `_control_packet`: a list, or anything else. */
  datatype Commands = List(items: seq<Item>) | NotAList

  /** Every element of the list is a tuple. */
  predicate AllTuples(items: seq<Item>) {
    forall k :: 0 <= k < |items| ==> !items[k].NotATuple?
  }

  /** The bytes a checked value becomes. None becomes 0. As written, an
      enumeration member (an int) has `to_bytes` and a wrapper object has
      not (AttributeError); `castToInt` converts through `int(value)` first,
      which every modelled value supports. */
  function ValueBytes(value: Value, size: nat, castToInt: bool): (r: Result<seq<byte>>)
    ensures r.Ok? ==> |r.value| == size
    ensures r.Err? ==> r.error == OverflowError || r.error == AttributeError
  {
    match value
    case NoneValue => ToBytes(0, size)
    case OtherValue => Err(AttributeError)
    case Num(kind, n) =>
      if IsWrapper(kind) && !castToInt then Err(AttributeError) else ToBytes(n, size)
  }

  /** One loop iteration: unpack the pair (ValueError for another length),
      look the command up (ValueError), check the value's class (TypeError),
      then the one code byte followed by the value bytes. */
  function EncodeItem(item: Item, castToInt: bool): (r: Result<seq<byte>>)
    requires !item.NotATuple?
    ensures r.Err? ==> r.error == ValueError || r.error == TypeError || r.error == OverflowError || r.error == AttributeError
    ensures castToInt && r.Err? ==> r.error != AttributeError
  {
    if item.WrongArity? then Err(ValueError)
    else match ControlEntry(item.name)
      case None => Err(ValueError)
      case Some(e) =>
        if !IsInstance(item.value, e.kind) then Err(TypeError)
        else
          var v :- ValueBytes(item.value, e.size, castToInt);
          Ok([e.cmd] + v)
  }

  /** The loop over all pairs, in order; the first failing pair decides
      the error. */
  function EncodeItems(items: seq<Item>, castToInt: bool): (r: Result<seq<byte>>)
    requires AllTuples(items)
    ensures r.Err? ==> r.error == ValueError || r.error == TypeError || r.error == OverflowError || r.error == AttributeError
    ensures castToInt && r.Err? ==> r.error != AttributeError
    ensures items == [] ==> r == Ok([])
  {
    if items == [] then Ok([])
    else
      assert AllTuples(items[1..]) by {
        assert forall k :: 1 <= k < |items| ==> items[1..][k - 1] == items[k];
      }
      var head :- EncodeItem(items[0], castToInt);
      var tail :- EncodeItems(items[1..], castToInt);
      Ok(head + tail)
  }

  /** The two type checks come before the loop: a non-list, or a list with
      any non-tuple anywhere in it, is TypeError. */
  function ControlSpec(cmds: Commands, castToInt: bool): (r: Result<seq<byte>>)
    ensures r.Err? ==> r.error == ValueError || r.error == TypeError || r.error == OverflowError || r.error == AttributeError
    ensures castToInt && r.Err? ==> r.error != AttributeError
    ensures cmds.NotAList? ==> r == Err(TypeError)
  {
    if cmds.NotAList? then Err(TypeError)
    else if !AllTuples(cmds.items) then Err(TypeError)
    else EncodeItems(cmds.items, castToInt)
  }

  /** `_control_packet` as written: TypeError for a non-list or a
      non-tuple, ValueError for a bad pair or name, OverflowError for a
      value too wide, AttributeError for a wrapper object. */
  function ControlPacketAsWritten(cmds: Commands): (r: Result<seq<byte>>)
    ensures r.Err? ==> r.error == ValueError || r.error == TypeError || r.error == OverflowError || r.error == AttributeError
    ensures cmds.NotAList? ==> r == Err(TypeError)
  {
    ControlSpec(cmds, false)
  }

  /** `_control_packet` with `int(value).to_bytes(...)`, so that the wrapper
      classes it accepts can be sent. */
  function ControlPacketCorrected(cmds: Commands): (r: Result<seq<byte>>)
    ensures r.Err? ==> r.error == ValueError || r.error == TypeError || r.error == OverflowError
    ensures cmds.NotAList? ==> r == Err(TypeError)
  {
    ControlSpec(cmds, true)
  }

  function Join(parts: seq<seq<byte>>): seq<byte> {
    if parts == [] then [] else parts[0] + Join(parts[1..])
  }

  lemma {:induction false} JoinAppend(parts: seq<seq<byte>>, p: seq<byte>)
    ensures Join(parts + [p]) == Join(parts) + p
  {
    if parts == [] {
      assert [] + [p] == [p];
    } else {
      assert (parts + [p])[1..] == parts[1..] + [p];
      JoinAppend(parts[1..], p);
    }
  }

  /** A result with `p` put in front of what it holds. */
  function After(p: seq<byte>, r: Result<seq<byte>>): Result<seq<byte>> {
    if r.Ok? then Ok(p + r.value) else r
  }

  /** One pair of the loop: its piece goes after what was collected. */
  lemma EncodeStep(items: seq<Item>, i: nat, p: seq<byte>)
    requires AllTuples(items) && i < |items|
    ensures AllTuples(items[i..]) && AllTuples(items[i + 1..])
    ensures After(p, EncodeItems(items[i..], true)) ==
      match EncodeItem(items[i], true)
      case Err(e) => Err(e)
      case Ok(h) => After(p + h, EncodeItems(items[i + 1..], true))
  {
    var here, next := items[i..], items[i + 1..];
    assert forall k :: 0 <= k < |here| ==> here[k] == items[i + k];
    assert forall k :: 0 <= k < |next| ==> next[k] == here[k + 1];
    assert here[0] == items[i] && here[1..] == next;
    match EncodeItem(items[i], true)
    case Err(e) =>
    case Ok(h) =>
      var rest := EncodeItems(next, true);
      assert EncodeItems(here, true) == After(h, rest);
      if rest.Ok? {
        assert p + (h + rest.value) == p + h + rest.value;
      }
  }

  lemma AfterEmpty(r: Result<seq<byte>>)
    ensures After([], r) == r
  {
    if r.Ok? {
      assert [] + r.value == r.value;
    }
  }

  /** The loop of `_control_packet` (with the corrected conversion), which
      collects one piece per pair and joins them. */
  method ControlPacket(cmds: Commands) returns (r: Result<seq<byte>>)
    ensures r == ControlPacketCorrected(cmds)
  {
    if cmds.NotAList? {
      return Err(TypeError);
    }
    var items := cmds.items;
    if exists k :: 0 <= k < |items| && items[k].NotATuple? {
      return Err(TypeError);
    }
    var pieces: seq<seq<byte>> := [];
    var i := 0;
    assert items[0..] == items && Join(pieces) == [];
    AfterEmpty(EncodeItems(items, true));
    while i < |items|
      invariant 0 <= i <= |items|
      invariant AllTuples(items[i..])
      invariant EncodeItems(items, true) == After(Join(pieces), EncodeItems(items[i..], true))
    {
      EncodeStep(items, i, Join(pieces));
      var piece := EncodeItem(items[i], true);
      if piece.Err? {
        return Err(piece.error);
      }
      JoinAppend(pieces, piece.value);
      pieces := pieces + [piece.value];
      i := i + 1;
    }
    assert items[i..] == [];
    assert Join(pieces) + [] == Join(pieces);
    return Ok(Join(pieces));
  }

  /** A pair the corrected loop accepts: a known command, a value of its
      class, and a number that fits its size. */
  predicate Encodable(item: Item) {
    item.Pair? && ControlEntry(item.name).Some?
    && IsInstance(item.value, ControlEntry(item.name).value.kind)
    && (item.value.Num? ==> 0 <= item.value.n < Pow256(ControlEntry(item.name).value.size))
  }

  /** The number a pair sends: 0 for None. */
  function Number(value: Value): int {
    if value.Num? then value.n else 0
  }

  /** Reference layout: per pair its code byte followed by its number in
      `size` bytes, most significant first. */
  function Layout(items: seq<Item>): seq<byte>
    requires forall k :: 0 <= k < |items| ==> Encodable(items[k])
  {
    if items == [] then []
    else
      assert Encodable(items[0]);
      var e := ControlEntry(items[0].name).value;
      [e.cmd] + BigEndianBytes(Number(items[0].value), e.size) + Layout(items[1..])
  }

  /** The corrected loop succeeds exactly on lists of encodable pairs, and
      then returns the reference layout. */
  lemma {:induction false} EncodeItemsLayout(items: seq<Item>)
    requires AllTuples(items)
    ensures EncodeItems(items, true).Ok? <==> forall k :: 0 <= k < |items| ==> Encodable(items[k])
    ensures EncodeItems(items, true).Ok? ==> EncodeItems(items, true).value == Layout(items)
  {
    if items != [] {
      var tail := items[1..];
      assert forall k :: 1 <= k < |items| ==> items[k] == tail[k - 1];
      EncodeItemsLayout(tail);
      var item := items[0];
      if item.Pair? && ControlEntry(item.name).Some? {
        var e := ControlEntry(item.name).value;
        assert Pow256(e.size) >= 256 by {
          assert Pow256(e.size) == 256 * Pow256(e.size - 1);
        }
      }
    }
  }

  lemma ControlPacketLayout(items: seq<Item>)
    requires AllTuples(items)
    ensures ControlPacketCorrected(List(items)).Ok? <==> forall k :: 0 <= k < |items| ==> Encodable(items[k])
    ensures ControlPacketCorrected(List(items)).Ok? ==> ControlPacketCorrected(List(items)).value == Layout(items)
  {
    EncodeItemsLayout(items);
  }

  /** Each pair takes one code byte and `size` value bytes. */
  function LayoutSize(items: seq<Item>): nat
    requires forall k :: 0 <= k < |items| ==> Encodable(items[k])
  {
    if items == [] then 0 else assert Encodable(items[0]); 1 + ControlEntry(items[0].name).value.size + LayoutSize(items[1..])
  }

  lemma {:induction false} LayoutLength(items: seq<Item>)
    requires forall k :: 0 <= k < |items| ==> Encodable(items[k])
    ensures |Layout(items)| == LayoutSize(items)
  {
    if items != [] {
      assert forall k :: 1 <= k < |items| ==> items[k] == items[1..][k - 1];
      LayoutLength(items[1..]);
    }
  }

  /** The value bytes of a pair read back, big-endian, as its number. */
  lemma PairReadsBack(item: Item)
    requires Encodable(item)
    ensures var e := ControlEntry(item.name).value;
      BigEndian(Layout([item])[1..]) == Number(item.value)
      && Layout([item])[0] == e.cmd
  {
    var e := ControlEntry(item.name).value;
    assert Pow256(e.size) == 256 * Pow256(e.size - 1);
    assert [item][1..] == [];
    assert Layout([item]) == [e.cmd] + BigEndianBytes(Number(item.value), e.size);
    BigEndianOfBytes(Number(item.value), e.size);
  }

  /** A list holding a non-tuple anywhere is refused before any pair is
      looked at, even when an earlier pair names an unknown command. */
  lemma NonTupleFirst(before: seq<Item>, after: seq<Item>)
    ensures ControlPacketCorrected(List(before + [NotATuple] + after)) == Err(TypeError)
    ensures ControlPacketAsWritten(List(before + [NotATuple] + after)) == Err(TypeError)
  {
    var items := before + [NotATuple] + after;
    assert items[|before|].NotATuple?;
  }

  /** Otherwise the first pair that fails decides the error, whatever follows. */
  lemma {:induction false} FirstFailure(good: seq<Item>, bad: Item, rest: seq<Item>, castToInt: bool)
    requires forall k :: 0 <= k < |good| ==> !good[k].NotATuple? && EncodeItem(good[k], castToInt).Ok?
    requires !bad.NotATuple? && EncodeItem(bad, castToInt).Err?
    requires forall k :: 0 <= k < |rest| ==> !rest[k].NotATuple?
    ensures var items := good + [bad] + rest;
      (forall k :: 0 <= k < |items| ==> !items[k].NotATuple?)
      && EncodeItems(items, castToInt) == Err(EncodeItem(bad, castToInt).error)
    decreases |good|
  {
    var items := good + [bad] + rest;
    assert forall k :: 0 <= k < |items| ==> !items[k].NotATuple? by {
      forall k | 0 <= k < |items| ensures !items[k].NotATuple? {
        if k < |good| { assert items[k] == good[k]; }
        else if k > |good| { assert items[k] == rest[k - |good| - 1]; }
      }
    }
    if good == [] {
      assert items == [bad] + rest;
      assert items[0] == bad;
    } else {
      assert items[0] == good[0];
      assert items[1..] == good[1..] + [bad] + rest;
      FirstFailure(good[1..], bad, rest, castToInt);
    }
  }

  /** The two versions agree on every list holding no wrapper object. */
  lemma {:induction false} AgreeWithoutWrappers(items: seq<Item>)
    requires AllTuples(items)
    requires forall k :: 0 <= k < |items| ==> items[k].Pair? && items[k].value.Num? ==> !IsWrapper(items[k].value.kind)
    ensures EncodeItems(items, false) == EncodeItems(items, true)
  {
    if items != [] {
      assert forall k :: 1 <= k < |items| ==> items[k] == items[1..][k - 1];
      AgreeWithoutWrappers(items[1..]);
    }
  }

  /** As written, every pair whose command takes a wrapper class fails:
      its value passes the class check and then has no `to_bytes`. */
  lemma WrapperPairFails(name: string, v: Value)
    requires ControlEntry(name).Some? && IsWrapper(ControlEntry(name).value.kind)
    ensures EncodeItem(Pair(name, v), false).Err?
    ensures IsInstance(v, ControlEntry(name).value.kind) ==> EncodeItem(Pair(name, v), false) == Err(AttributeError)
  {
  }

  lemma ToOneByte(n: int)
    requires 0 <= n < 256
    ensures ToBytes(n, 1) == Ok([n])
  {
    assert Pow256(1) == 256 * Pow256(0) == 256;
    assert BigEndianBytes(n, 1) == BigEndianBytes(n / 256, 0) + [n % 256];
    assert BigEndianBytes(n / 256, 0) == [];
    assert n % 256 == n;
    assert BigEndianBytes(n, 1) == [n];
    assert ToBytes(n, 1) == Ok(BigEndianBytes(n, 1));
  }

  /** A list of one pair encodes as that pair. */
  lemma OnePair(item: Item, castToInt: bool)
    requires !item.NotATuple?
    ensures ControlSpec(List([item]), castToInt) == EncodeItem(item, castToInt)
  {
    var items := [item];
    assert AllTuples(items);
    assert items[0] == item && items[1..] == [];
    assert EncodeItems([], castToInt) == Ok([]);
    var head := EncodeItem(item, castToInt);
    if head.Ok? {
      assert head.value + [] == head.value;
      assert EncodeItems(items, castToInt) == Ok(head.value + []);
    }
  }

  /** The manual speed 100: as written AttributeError, corrected 05 64. */
  lemma ManualSpeedAsWritten()
    ensures ControlPacketAsWritten(List([Pair("manual_speed", Num(SpeedManual, 100))])) == Err(AttributeError)
    ensures ControlPacketCorrected(List([Pair("manual_speed", Num(SpeedManual, 100))])) == Ok([0x05, 0x64])
  {
    OnePair(Pair("manual_speed", Num(SpeedManual, 100)), false);
    OnePair(Pair("manual_speed", Num(SpeedManual, 100)), true);
    assert ControlEntry("manual_speed") == Some(Entry(5, 1, SpeedManual));
    ToOneByte(100);
    assert [5] + [100] == [0x05, 0x64];
  }

  /** The requests the client's operations send. */
  lemma StatusPacket()
    ensures ControlPacketCorrected(List([Pair("status", NoneValue)])) == Ok([0x01, 0x00])
    ensures ControlPacketCorrected(List([Pair("power", NoneValue)])) == Ok([0x03, 0x00])
  {
    OnePair(Pair("status", NoneValue), true);
    OnePair(Pair("power", NoneValue), true);
    assert ControlEntry("status") == Some(Entry(1, 1, NoneType));
    assert ControlEntry("power") == Some(Entry(3, 1, NoneType));
    ToOneByte(0);
    assert [1] + [0] == [0x01, 0x00] && [3] + [0] == [0x03, 0x00];
  }

  lemma EnumPacket(name: string, k: Kind, n: int)
    requires (name, k) == ("speed", SpeedSelection) || (name, k) == ("direction", Kind.Direction) || (name, k) == ("timer", Timer)
    requires n in Members(k)
    ensures ControlPacketCorrected(List([Pair(name, Num(k, n))])) == Ok([ControlEntry(name).value.cmd, n])
    ensures ControlPacketAsWritten(List([Pair(name, Num(k, n))])) == ControlPacketCorrected(List([Pair(name, Num(k, n))]))
  {
    OnePair(Pair(name, Num(k, n)), true);
    OnePair(Pair(name, Num(k, n)), false);
    var e := ControlEntry(name).value;
    assert e.size == 1 && e.kind == k;
    ToOneByte(n);
    assert EncodeItem(Pair(name, Num(k, n)), true) == Ok([e.cmd] + [n]);
    assert [e.cmd] + [n] == [e.cmd, n];
  }

  /** The request opens with "mobile" and ends with CR LF; the reply opens
      with "master". */
  const MobilePrefix: seq<byte> := [0x6D, 0x6F, 0x62, 0x69, 0x6C, 0x65]
  const Postfix: seq<byte> := [0x0D, 0x0A]
  const MasterPrefix: seq<byte> := [0x6D, 0x61, 0x73, 0x74, 0x65, 0x72]

  lemma FramingIsAscii()
    ensures MobilePrefix == Encode("mobile")
    ensures MasterPrefix == Encode("master")
    ensures Postfix == Encode("\r\n")
  {
    MobileIsAscii();
    MasterIsAscii();
  }

  lemma MobileIsAscii()
    ensures MobilePrefix == Encode("mobile")
  {
    EncodeAscii("mobile");
  }

  lemma MasterIsAscii()
    ensures MasterPrefix == Encode("master")
  {
    EncodeAscii("master");
  }

  function Frame(data: seq<byte>): (packet: seq<byte>)
    ensures |packet| == |data| + 8
    ensures packet[..6] == MobilePrefix && packet[|packet| - 2..] == Postfix
    ensures packet[6..|packet| - 2] == data
  {
    MobilePrefix + data + Postfix
  }

  /** A reply that starts with "master" loses it; any other reply is kept. */
  function StripMaster(d: seq<byte>): seq<byte> {
    if |d| >= 6 && d[..6] == MasterPrefix then d[6..] else d
  }

  lemma StripMasterCases(payload: seq<byte>, d: seq<byte>)
    ensures StripMaster(MasterPrefix + payload) == payload
    ensures !(|d| >= 6 && d[..6] == MasterPrefix) ==> StripMaster(d) == d
  {
    assert (MasterPrefix + payload)[..6] == MasterPrefix;
  }

  /** The loop of `_send_command` from attempt `k` on: a timeout is
      retried and the third is TimeoutError; any other socket error is
      passed on; a reply is returned without its prefix (the bytes stand
      for the hex list). LookupError stands for the loop running out
      without returning, which cannot happen. */
  function Exchange1(outcomes: seq<Attempt>, k: nat): (r: Result<seq<byte>>)
    requires |outcomes| == Attempts
    ensures r.Err? ==> r.error == SocketError || r.error == TimeoutError || r.error == LookupError
    decreases Attempts - k
  {
    if k >= Attempts then Err(LookupError)
    else match outcomes[k]
      case SocketFailed => Err(SocketError)
      case TimedOut => if k == Attempts - 1 then Err(TimeoutError) else Exchange1(outcomes, k + 1)
      case Reply(d) => Ok(StripMaster(d))
  }

  /** The retry loop; the datagram it sends on every attempt is the framed data. */
  method SendCommand1(data: seq<byte>, outcomes: seq<Attempt>) returns (sent: seq<byte>, r: Result<seq<byte>>)
    requires |outcomes| == Attempts
    ensures sent == Frame(data)
    ensures r == Exchange1(outcomes, 0)
  {
    sent := MobilePrefix + data + Postfix;
    for attempt := 0 to Attempts
      invariant Exchange1(outcomes, attempt) == Exchange1(outcomes, 0)
    {
      match outcomes[attempt]
      case SocketFailed =>
        return sent, Err(SocketError);
      case TimedOut =>
        if attempt == Attempts - 1 {
          return sent, Err(TimeoutError);
        }
      case Reply(d) =>
        var reply := d;
        if |reply| >= 6 && reply[..6] == MasterPrefix {
          reply := reply[6..];
        }
        return sent, Ok(reply);
    }
    return sent, Err(LookupError);
  }

  /** The first attempt that did not time out decides, and three timeouts
      are TimeoutError; the loop never runs out. */
  lemma {:induction false} Exchange1Decides(outcomes: seq<Attempt>, k: nat)
    requires |outcomes| == Attempts && k < Attempts
    ensures Exchange1(outcomes, k) != Err(LookupError)
    ensures Exchange1(outcomes, k) == Err(TimeoutError) <==> forall i :: k <= i < Attempts ==> outcomes[i] == TimedOut
    ensures forall j :: (k <= j < Attempts && outcomes[j].Reply? && (forall i :: k <= i < j ==> outcomes[i] == TimedOut)) ==>
      Exchange1(outcomes, k) == Ok(StripMaster(outcomes[j].datagram))
    decreases Attempts - k
  {
    if outcomes[k] == TimedOut && k < Attempts - 1 {
      Exchange1Decides(outcomes, k + 1);
    }
  }

  lemma Exchange1Results(outcomes: seq<Attempt>)
    requires |outcomes| == Attempts
    ensures Exchange1(outcomes, 0) != Err(LookupError)
    ensures Exchange1(outcomes, 0) == Err(TimeoutError) <==> forall i :: 0 <= i < Attempts ==> outcomes[i] == TimedOut
    ensures outcomes[0] == SocketFailed ==> Exchange1(outcomes, 0) == Err(SocketError)
  {
    Exchange1Decides(outcomes, 0);
  }
}
