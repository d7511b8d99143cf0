/** `_parse_response` of the v2 client: check the response header, skip the
    echoed id and password, then read the data block into a dictionary from
    command code to value. The hex list the client parses is always the
    datagram rendered byte by byte, so the parser is stated on the bytes;
    dictionary keys and values are the bytes behind the two-digit strings. */
module V2Parser {
  import opened Wrappers
  import opened Format

  /** command code to value bytes (most significant first) */
  type Data = map<byte, seq<byte>>

  const ChangeFunc: byte := 0xFC
  const InvalidCommand: byte := 0xFD
  const ValueSize: byte := 0xFE
  const HighByte: byte := 0xFF
  const ResultFunc: byte := 0x06

  /** The header checks, in the order the client makes them; the result is
      the index of the first data byte. ValueError for a wrong prefix,
      protocol or function; IndexError where the packet ends too early. */
  function HeaderEnd(h: seq<byte>): (r: Result<nat>)
    ensures (|h| < 2 || h[0] != 0xFD || h[1] != 0xFD) ==> r == Err(ValueError)
    ensures |h| >= 3 && h[..2] == [0xFD, 0xFD] && h[2] != 0x02 ==> r == Err(ValueError)
    ensures h == [0xFD, 0xFD] || h == [0xFD, 0xFD, 0x02] ==> r == Err(IndexError)
    ensures |h| >= 4 && h[..3] == [0xFD, 0xFD, 0x02] && 4 + h[3] as int >= |h| ==> r == Err(IndexError)
    ensures |h| >= 4 && h[..3] == [0xFD, 0xFD, 0x02] && 4 + h[3] as int < |h| ==>
      var funcAt := 5 + h[3] as int + h[4 + h[3] as int] as int;
      (funcAt >= |h| ==> r == Err(IndexError)) &&
      (funcAt < |h| && h[funcAt] != ResultFunc ==> r == Err(ValueError)) &&
      (funcAt < |h| && h[funcAt] == ResultFunc ==> r == Ok(funcAt + 1))
    ensures r.Ok? ==> 3 < r.value <= |h| && h[..3] == [0xFD, 0xFD, 0x02] && h[r.value - 1] == ResultFunc
  {
    if |h| < 2 || h[0] != 0xFD || h[1] != 0xFD then Err(ValueError)
    else if |h| < 3 then Err(IndexError)
    else if h[2] != 0x02 then Err(ValueError)
    else if |h| < 4 then Err(IndexError)
    else
      var pwAt := 4 + h[3] as int;
      if pwAt >= |h| then Err(IndexError)
      else
        var funcAt := pwAt + 1 + h[pwAt] as int;
        if funcAt >= |h| then Err(IndexError)
        else if h[funcAt] != ResultFunc then Err(ValueError)
        else Ok(funcAt + 1)
  }

  /** an entry read from the data block: the index after it, its command
      and its value */
  datatype Entry = Entry(next: nat, cmd: byte, value: seq<byte>)

  /** One entry of the data block at index `i` (which is at least two bytes
      before the end): the index after it, its command and its value. FC
      and FF are not implemented; FD marks a command the device does not
      know (stored with an empty value); FE gives a value of the size that
      follows, sent low byte first and stored reversed; anything else is a
      command followed by a one-byte value. */
  function ReadEntry(h: seq<byte>, i: nat): (r: Result<Entry>)
    requires i + 2 < |h|
    ensures r.Ok? ==> r.value.next >= i + 2
    ensures r.Err? <==> h[i] == ChangeFunc || h[i] == HighByte
  {
    if h[i] == ChangeFunc || h[i] == HighByte then Err(NotImplementedError)
    else if h[i] == InvalidCommand then Ok(Entry(i + 2, h[i + 1], []))
    else if h[i] == ValueSize then
      var n := h[i + 1] as int;
      Ok(Entry(i + 3 + n, h[i + 2], Reverse(Slice(h, i + 3, i + 3 + n))))
    else Ok(Entry(i + 2, h[i], [h[i + 1]]))
  }

  /** The data loop from index `i`, stopping two bytes before the end (the
      checksum). A later entry for the same command replaces an earlier one. */
  function Walk(h: seq<byte>, i: nat, data: Data): (r: Result<Data>)
    ensures r.Err? ==> r.error == NotImplementedError
    ensures r.Ok? ==> data.Keys <= r.value.Keys
    ensures i + 2 >= |h| ==> r == Ok(data)
    decreases |h| - i
  {
    if i + 2 >= |h| then Ok(data)
    else match ReadEntry(h, i)
      case Err(e) => Err(e)
      case Ok(e) => Walk(h, e.next, data[e.cmd := e.value])
  }

  /** `_parse_response`: the header, then the data block. The errors are
      the header's ValueError and IndexError and the data block's
      NotImplementedError. */
  function ParseSpec(h: seq<byte>): (r: Result<Data>)
    ensures r.Err? ==> r.error == ValueError || r.error == IndexError || r.error == NotImplementedError
    ensures (|h| < 2 || h[0] != 0xFD || h[1] != 0xFD) ==> r == Err(ValueError)
    ensures HeaderEnd(h).Ok? && HeaderEnd(h).value + 2 >= |h| ==> r == Ok(map[])
  {
    var start :- HeaderEnd(h);
    Walk(h, start, map[])
  }

  /** One pass of the loop of `_parse_response`, proved to compute
      `ReadEntry`. */
  method ParseEntry(h: seq<byte>, i: nat) returns (r: Result<Entry>)
    requires i + 2 < |h|
    ensures r == ReadEntry(h, i)
  {
    var parameter := h[i];
    if parameter == ChangeFunc || parameter == HighByte {
      return Err(NotImplementedError);
    }
    if parameter == InvalidCommand {
      return Ok(Entry(i + 2, h[i + 1], []));
    }
    if parameter == ValueSize {
      var size := h[i + 1] as int;
      return Ok(Entry(i + 3 + size, h[i + 2], Reverse(Slice(h, i + 3, i + 3 + size))));
    }
    return Ok(Entry(i + 2, parameter, [h[i + 1]]));
  }

  /** The loop `_parse_response` runs, proved to compute `ParseSpec`. */
  method ParseResponse(h: seq<byte>) returns (r: Result<Data>)
    ensures r == ParseSpec(h)
  {
    var start := HeaderEnd(h);
    if start.Err? {
      return Err(start.error);
    }
    var data: Data := map[];
    var i := start.value;
    while i + 2 < |h|
      invariant Walk(h, i, data) == ParseSpec(h)
      decreases |h| - i
    {
      var entry := ParseEntry(h, i);
      if entry.Err? {
        return Err(entry.error);
      }
      data := data[entry.value.cmd := entry.value.value];
      i := entry.value.next;
    }
    return Ok(data);
  }

  /** The client rebuilds a sized value by splitting its hex string into
      pairs, reversing them and joining them again: on the bytes that is
      reversing the sequence. */
  lemma ReversedPairs(v: seq<byte>)
    ensures Concat(Reverse(Chunks(Hex(v)))) == Hex(Reverse(v))
  {
    ChunksOfHex(v);
    assert Reverse(HexList(v)) == HexList(Reverse(v));
    ConcatHexList(Reverse(v));
  }

  /** One entry of a data block, as a device sends it. */
  datatype Field =
    | Plain(cmd: byte, value: byte)
    | Invalid(cmd: byte)
    | Sized(cmd: byte, bytes: seq<byte>)

  predicate WellFormed(f: Field) {
    match f
    case Plain(cmd, _) => cmd != ChangeFunc && cmd != InvalidCommand && cmd != ValueSize && cmd != HighByte
    case Invalid(_) => true
    case Sized(_, value) => |value| < 256
  }

  function FieldBytes(f: Field): seq<byte>
    requires WellFormed(f)
  {
    match f
    case Plain(cmd, value) => [cmd, value]
    case Invalid(cmd) => [InvalidCommand, cmd]
    case Sized(cmd, value) => [ValueSize, |value|, cmd] + Reverse(value)
  }

  function FieldsBytes(fs: seq<Field>): seq<byte>
    requires forall k :: 0 <= k < |fs| ==> WellFormed(fs[k])
  {
    if fs == [] then [] else FieldBytes(fs[0]) + FieldsBytes(fs[1..])
  }

  /** What one entry does to the dictionary. */
  function StoreOne(data: Data, f: Field): Data {
    data[f.cmd := FieldValue(f)]
  }

  /** The dictionary after a sequence of entries, applied in order. */
  function Store(data: Data, fs: seq<Field>): Data
    decreases |fs|
  {
    if fs == [] then data else Store(StoreOne(data, fs[0]), fs[1..])
  }

  /** The entry a well-formed field's bytes stand for is read back. */
  lemma ReadEntryField(h: seq<byte>, i: nat, f: Field)
    requires WellFormed(f)
    requires i + |FieldBytes(f)| + 2 <= |h| && h[i..i + |FieldBytes(f)|] == FieldBytes(f)
    ensures ReadEntry(h, i) == Ok(Entry(i + |FieldBytes(f)|, f.cmd, FieldValue(f)))
  {
    match f
    case Plain(cmd, value) => PairAt(h, i, [cmd, value]);
    case Invalid(cmd) => PairAt(h, i, [InvalidCommand, cmd]);
    case Sized(cmd, value) => SizedAt(h, i, cmd, value);
  }

  lemma PairAt(h: seq<byte>, i: nat, pair: seq<byte>)
    requires |pair| == 2 && i + 4 <= |h| && h[i..i + 2] == pair
    ensures h[i] == pair[0] && h[i + 1] == pair[1]
  {
    assert h[i] == h[i..i + 2][0];
    assert h[i + 1] == h[i..i + 2][1];
  }

  /** A sized entry: the marker, the size, the command, then the value low
      byte first. */
  lemma SizedAt(h: seq<byte>, i: nat, cmd: byte, value: seq<byte>)
    requires |value| < 256 && i + 3 + |value| + 2 <= |h|
    requires h[i..i + 3 + |value|] == [ValueSize, |value|, cmd] + Reverse(value)
    ensures ReadEntry(h, i) == Ok(Entry(i + 3 + |value|, cmd, value))
  {
    var n := |value|;
    var run := h[i..i + 3 + n];
    assert h[i] == run[0] && h[i + 1] == run[1] && h[i + 2] == run[2];
    assert Slice(h, i + 3, i + 3 + n) == run[3..] == Reverse(value);
    ReverseTwice(value);
  }

  lemma ReverseTwice(v: seq<byte>)
    ensures Reverse(Reverse(v)) == v
  {
    assert forall k :: 0 <= k < |v| ==> Reverse(Reverse(v))[k] == v[k];
  }

  /** the value the dictionary ends up holding for an entry */
  function FieldValue(f: Field): seq<byte> {
    match f
    case Plain(_, value) => [value]
    case Invalid(_) => []
    case Sized(_, value) => value
  }

  lemma {:induction false} WalkAtEnd(h: seq<byte>, i: nat, data: Data)
    requires i + 2 >= |h|
    ensures Walk(h, i, data) == Ok(data)
  {
  }

  lemma WalkStep(h: seq<byte>, i: nat, data: Data, e: Entry)
    requires i + 2 < |h| && ReadEntry(h, i) == Ok(e)
    ensures Walk(h, i, data) == Walk(h, e.next, data[e.cmd := e.value])
  {
  }

  /** Cutting a known prefix off a run of bytes inside `h`. */
  lemma SplitRun(h: seq<byte>, i: nat, front: seq<byte>, back: seq<byte>)
    requires i + |front| + |back| + 2 == |h| && h[i..|h| - 2] == front + back
    ensures h[i..i + |front|] == front && h[i + |front|..|h| - 2] == back
  {
    var run := h[i..|h| - 2];
    assert h[i..i + |front|] == run[..|front|];
    assert h[i + |front|..|h| - 2] == run[|front|..];
  }

  lemma TailWellFormed(fs: seq<Field>)
    requires fs != [] && forall k :: 0 <= k < |fs| ==> WellFormed(fs[k])
    ensures forall k :: 0 <= k < |fs[1..]| ==> WellFormed(fs[1..][k])
  {
    forall k | 0 <= k < |fs[1..]| ensures WellFormed(fs[1..][k]) {
      assert fs[1..][k] == fs[k + 1];
    }
  }

  lemma FieldsCons(fs: seq<Field>)
    requires fs != [] && forall k :: 0 <= k < |fs| ==> WellFormed(fs[k])
    requires forall k :: 0 <= k < |fs[1..]| ==> WellFormed(fs[1..][k])
    ensures FieldsBytes(fs) == FieldBytes(fs[0]) + FieldsBytes(fs[1..])
  {
  }

  /** The data loop reads entries `fs` from `h` one after the other from
      index `i`, and then exactly two bytes (the checksum) are left. */
  predicate Laid(h: seq<byte>, i: nat, fs: seq<Field>)
    decreases |fs|
  {
    if fs == [] then i + 2 == |h|
    else
      i + 2 < |h| && ReadEntry(h, i).Ok? &&
      ReadEntry(h, i).value.cmd == fs[0].cmd && ReadEntry(h, i).value.value == FieldValue(fs[0]) &&
      Laid(h, ReadEntry(h, i).value.next, fs[1..])
  }

  lemma {:induction false} LaidOut(h: seq<byte>, i: nat, fs: seq<Field>)
    requires forall k :: 0 <= k < |fs| ==> WellFormed(fs[k])
    requires i + 2 <= |h| && h[i..|h| - 2] == FieldsBytes(fs)
    ensures Laid(h, i, fs)
    decreases |fs|
  {
    if fs != [] {
      var j := FirstField(h, i, fs);
      LaidOut(h, j, fs[1..]);
      LaidCons(h, i, j, fs);
    }
  }

  /** The first of several well-formed entries is read back, and the rest
      of the entries' bytes follow it from index `j`. */
  lemma FirstField(h: seq<byte>, i: nat, fs: seq<Field>) returns (j: nat)
    requires fs != [] && forall k :: 0 <= k < |fs| ==> WellFormed(fs[k])
    requires i + 2 <= |h| && h[i..|h| - 2] == FieldsBytes(fs)
    ensures forall k :: 0 <= k < |fs[1..]| ==> WellFormed(fs[1..][k])
    ensures i + 2 < |h| && j + 2 <= |h| && h[j..|h| - 2] == FieldsBytes(fs[1..])
    ensures ReadEntry(h, i) == Ok(Entry(j, fs[0].cmd, FieldValue(fs[0])))
  {
    FirstFieldRest(h, i, fs);
    j := i + |FieldBytes(fs[0])|;
    ReadEntryField(h, i, fs[0]);
  }

  /** The bytes after the first of several well-formed entries are the
      rest of the entries. */
  lemma FirstFieldRest(h: seq<byte>, i: nat, fs: seq<Field>)
    requires fs != [] && forall k :: 0 <= k < |fs| ==> WellFormed(fs[k])
    requires i + 2 <= |h| && h[i..|h| - 2] == FieldsBytes(fs)
    ensures forall k :: 0 <= k < |fs[1..]| ==> WellFormed(fs[1..][k])
    ensures i + |FieldBytes(fs[0])| + 2 <= |h|
    ensures h[i..i + |FieldBytes(fs[0])|] == FieldBytes(fs[0])
    ensures h[i + |FieldBytes(fs[0])|..|h| - 2] == FieldsBytes(fs[1..])
  {
    TailWellFormed(fs);
    FieldsCons(fs);
    var front, back := FieldBytes(fs[0]), FieldsBytes(fs[1..]);
    assert |h| == i + |front| + |back| + 2;
    SplitRun(h, i, front, back);
  }

  lemma LaidCons(h: seq<byte>, i: nat, j: nat, fs: seq<Field>)
    requires fs != [] && i + 2 < |h| && ReadEntry(h, i) == Ok(Entry(j, fs[0].cmd, FieldValue(fs[0])))
    requires Laid(h, j, fs[1..])
    ensures Laid(h, i, fs)
  {
  }

  lemma {:induction false} WalkLaid(h: seq<byte>, i: nat, fs: seq<Field>, data: Data)
    requires Laid(h, i, fs)
    ensures Walk(h, i, data) == Ok(Store(data, fs))
    decreases |fs|
  {
    if fs == [] {
      WalkAtEnd(h, i, data);
    } else {
      var e := ReadEntry(h, i).value;
      WalkStep(h, i, data, e);
      WalkLaid(h, e.next, fs[1..], StoreOne(data, fs[0]));
    }
  }

  /** Walking well-formed entries followed by a two-byte checksum stores
      every entry, in order. */
  lemma WalkFields(h: seq<byte>, i: nat, fs: seq<Field>, data: Data)
    requires forall k :: 0 <= k < |fs| ==> WellFormed(fs[k])
    requires i + 2 <= |h| && h[i..|h| - 2] == FieldsBytes(fs)
    ensures Walk(h, i, data) == Ok(Store(data, fs))
  {
    LaidOut(h, i, fs);
    WalkLaid(h, i, fs, data);
  }

  /** The header a device answers with: FD FD 02, the id with its length,
      the password with its length, and the result function 06. */
  function ResponseHeader(id: seq<byte>, password: seq<byte>): seq<byte>
    requires |id| < 256 && |password| < 256
  {
    [0xFD, 0xFD, 0x02, |id|] + id + [|password|] + password + [ResultFunc]
  }

  lemma HeaderEndOfResponse(id: seq<byte>, password: seq<byte>, rest: seq<byte>)
    requires |id| < 256 && |password| < 256
    ensures HeaderEnd(ResponseHeader(id, password) + rest) == Ok(|ResponseHeader(id, password)|)
  {
    var h := ResponseHeader(id, password) + rest;
    assert h[3] == |id|;
    assert h[4 + |id|] == |password|;
    assert h[5 + |id| + |password|] == ResultFunc;
  }

  /** Round trip: a response built from a header, well-formed entries and
      any two checksum bytes parses to the dictionary of those entries. */
  lemma ParseRoundTrip(id: seq<byte>, password: seq<byte>, fs: seq<Field>, ck: seq<byte>)
    requires |id| < 256 && |password| < 256
    requires forall k :: 0 <= k < |fs| ==> WellFormed(fs[k])
    requires |ck| == 2
    ensures ParseSpec(ResponseHeader(id, password) + FieldsBytes(fs) + ck) == Ok(Store(map[], fs))
  {
    var header := ResponseHeader(id, password);
    var run := FieldsBytes(fs);
    Middle(header, run, ck);
    HeaderEndOfResponse(id, password, run + ck);
    ParseAfterHeader(header + run + ck, |header|, fs);
  }

  /** The concatenation of three runs, the last two bytes long. */
  lemma Middle(a: seq<byte>, b: seq<byte>, c: seq<byte>)
    requires |c| == 2
    ensures a + b + c == a + (b + c)
    ensures (a + b + c)[|a|..|a + b + c| - 2] == b
  {
  }

  /** Once the header ends at `n`, the data block is parsed by the walk. */
  lemma ParseAfterHeader(h: seq<byte>, n: nat, fs: seq<Field>)
    requires HeaderEnd(h) == Ok(n)
    requires forall k :: 0 <= k < |fs| ==> WellFormed(fs[k])
    requires n + 2 <= |h| && h[n..|h| - 2] == FieldsBytes(fs)
    ensures ParseSpec(h) == Ok(Store(map[], fs))
  {
    WalkFields(h, n, fs, map[]);
  }

  /** A response that ends right after its header holds no data. */
  lemma ParseHeaderOnly(id: seq<byte>, password: seq<byte>, ck: seq<byte>)
    requires |id| < 256 && |password| < 256 && |ck| == 2
    ensures ParseSpec(ResponseHeader(id, password) + ck) == Ok(map[])
  {
    ParseRoundTrip(id, password, [], ck);
    assert FieldsBytes([]) == [];
    assert ResponseHeader(id, password) + [] + ck == ResponseHeader(id, password) + ck;
  }
}
