/** The integration-wide constants both protocol clients read: the direction
    table (code to name), the preset fan speeds and the name that means
    "alternating". Their values are not part of this model, so every
    operation takes them as a parameter; only their shape is fixed. */
module Consts {
  import opened Wrappers

  /** The three preset modes a fan can report. */
  datatype Preset = Auto | Sleep | Party

  /** `DIRECTIONS` is a dictionary, kept here as its ordered list of
      (key, name) entries; `FAN_SPEEDS` is a list of speed codes. */
  datatype Config = Config(
    directions: seq<(string, string)>,
    alternating: string,
    fanSpeeds: seq<string>)

  /** A dictionary never holds a key twice. */
  predicate DistinctKeys(entries: seq<(string, string)>) {
    forall i, j :: 0 <= i < j < |entries| ==> entries[i].0 != entries[j].0
  }

  predicate Valid(c: Config) {
    DistinctKeys(c.directions)
  }

  predicate HasKey(entries: seq<(string, string)>, key: string) {
    exists i :: 0 <= i < |entries| && entries[i].0 == key
  }

  predicate HasName(entries: seq<(string, string)>, name: string) {
    exists i :: 0 <= i < |entries| && entries[i].1 == name
  }

  /** `DIRECTIONS[key]`: the name stored under a key, None for KeyError. */
  function Lookup(entries: seq<(string, string)>, key: string): (r: Option<string>)
    ensures r.Some? <==> HasKey(entries, key)
    ensures r.Some? ==> exists i :: 0 <= i < |entries| && entries[i] == (key, r.value)
  {
    if entries == [] then None
    else if entries[0].0 == key then Some(entries[0].1)
    else
      var r := Lookup(entries[1..], key);
      assert r.Some? ==> entries[1..][0].0 == entries[1].0;
      if r.Some? then
        ghost var i :| 0 <= i < |entries[1..]| && entries[1..][i] == (key, r.value);
        assert entries[i + 1] == (key, r.value);
        r
      else
        assert forall i :: 1 <= i < |entries| ==> entries[i] == entries[1..][i - 1];
        r
  }

  /** `list(DIRECTIONS.keys())[list(DIRECTIONS.values()).index(name)]`: the
      key of the first entry carrying the name. */
  function FirstKeyOf(entries: seq<(string, string)>, name: string): (k: string)
    requires HasName(entries, name)
    ensures exists i :: 0 <= i < |entries| && entries[i] == (k, name)
                        && (forall j :: 0 <= j < i ==> entries[j].1 != name)
  {
    if entries[0].1 == name then
      assert entries[0] == (entries[0].0, name);
      entries[0].0
    else
      assert HasName(entries[1..], name) by {
        var i :| 0 <= i < |entries| && entries[i].1 == name;
        assert entries[1..][i - 1].1 == name;
      }
      var k := FirstKeyOf(entries[1..], name);
      ghost var i :| 0 <= i < |entries[1..]| && entries[1..][i] == (k, name)
                     && (forall j :: 0 <= j < i ==> entries[1..][j].1 != name);
      assert entries[i + 1] == (k, name);
      assert forall j :: 1 <= j < i + 1 ==> entries[j] == entries[1..][j - 1];
      k
  }

  /** The direction argument both clients accept: a name is first replaced
      by its key; what is left must be a key, or ValueError. */
  function ResolveDirection(c: Config, direction: string): (r: Result<string>)
    ensures r.Ok? ==> HasKey(c.directions, r.value)
    ensures r.Err? ==> r.error == ValueError
  {
    var key := if HasName(c.directions, direction) then FirstKeyOf(c.directions, direction) else direction;
    if HasKey(c.directions, key) then Ok(key) else Err(ValueError)
  }

  /** A direction is accepted exactly when it is a name or a key. */
  lemma ResolveDirectionAccepts(c: Config, direction: string)
    ensures ResolveDirection(c, direction).Ok?
        <==> HasName(c.directions, direction) || HasKey(c.directions, direction)
  {
    if HasName(c.directions, direction) {
      var k := FirstKeyOf(c.directions, direction);
      assert HasKey(c.directions, k);
    }
  }

  /** A name resolves to the key whose name it is; a key that is no name
      resolves to itself. */
  lemma ResolveDirectionKey(c: Config, direction: string)
    requires Valid(c)
    requires ResolveDirection(c, direction).Ok?
    ensures Lookup(c.directions, ResolveDirection(c, direction).value)
        == Some(if HasName(c.directions, direction) then direction
                else Lookup(c.directions, direction).value)
  {
    var key := ResolveDirection(c, direction).value;
    if HasName(c.directions, direction) {
      var i :| 0 <= i < |c.directions| && c.directions[i] == (key, direction);
      LookupUnique(c.directions, i);
    }
  }

  /** With distinct keys, every entry is what its key looks up. */
  lemma LookupUnique(entries: seq<(string, string)>, i: nat)
    requires DistinctKeys(entries)
    requires i < |entries|
    ensures Lookup(entries, entries[i].0) == Some(entries[i].1)
  {
    var r := Lookup(entries, entries[i].0);
    var j :| 0 <= j < |entries| && entries[j] == (entries[i].0, r.value);
    assert j == i;
  }
}
