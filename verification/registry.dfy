/**
 The command registry: the `completions` table of the language server, one
 entry per keyword of the script language with its label, its one-line
 description and its numeric identifier. The same table feeds completion,
 hover and validation.
 */
module Registry {
  import opened Wrappers

  /** The nine registry keys. `Auto` is a value keyword (accepted by
      ATSPEED and ATDIRECTION), not a command of its own. */
  datatype Key =
    | Auto | MoveTo | AtSpeed | WithHdop | WithSatellites
    | WithAltitude | WithParam | Wait | AtDirection

  /** The label of a key: the word written in scripts. */
  function Name(k: Key): string {
    match k
    case Auto => "AUTO"
    case MoveTo => "MOVETO"
    case AtSpeed => "ATSPEED"
    case WithHdop => "WITHHDOP"
    case WithSatellites => "WITHSATELLITES"
    case WithAltitude => "WITHALTITUDE"
    case WithParam => "WITHPARAM"
    case Wait => "WAIT"
    case AtDirection => "ATDIRECTION"
  }

  /** The `detail` text shown on completion and hover. */
  function Detail(k: Key): string {
    match k
    case Auto => "Allows to the system to calculate the value automatically using previous and current message. Only works in ATSPEED and ATDIRECTION"
    case MoveTo => "Set the latitude and longitude of the message, you should provide the latitude and longitude in decimal degrees."
    case AtSpeed => "Set the speed of the message, you should provide the speed in km/h. You can use AUTO to calculate the speed automatically."
    case WithHdop => "Set the HDOP of the message, you should provide the HDOP with a value between 0 and 1 (decimal)."
    case WithSatellites => "Set the number of satellites of the message, you should provide the number of satellites with a value greater than 0 (integer)."
    case WithAltitude => "Set the altitude of the message, you should provide the altitude in meters. Should be positive."
    case WithParam => "Set a raw parameter of the message, you should provide the parameter name and value. The parameter name should be a string and the parameter value can be anything you want (integer, float, boolean, string)."
    case Wait => "Wait for a certain amount of time before sending the message, you should provide the time in minutes (integer)"
    case AtDirection => "Set the direction of the message, you should provide the direction in degrees. You can use AUTO to calculate the direction automatically."
  }

  /** The `data` identifier of a completion item. */
  function Data(k: Key): nat {
    match k
    case Auto => 1
    case MoveTo => 2
    case AtSpeed => 3
    case WithHdop => 4
    case WithSatellites => 5
    case WithAltitude => 6
    case WithParam => 7
    case Wait => 8
    case AtDirection => 9
  }

  /** `Object.keys(completions)`: the keys in declaration order. */
  const Keys: seq<Key> :=
    [Auto, MoveTo, AtSpeed, WithHdop, WithSatellites, WithAltitude, WithParam, Wait, AtDirection]

  /** The keys in `keys` whose entry names `name`: the first one, if any. */
  function LookupIn(keys: seq<Key>, name: string): (r: Option<Key>)
    ensures r.Some? ==> r.value in keys && Name(r.value) == name
    ensures r.None? ==> forall k :: k in keys ==> Name(k) != name
  {
    if keys == [] then None
    else if Name(keys[0]) == name then Some(keys[0])
    else LookupIn(keys[1..], name)
  }

  /** `completions[name]` restricted to the table's own entries. */
  function Lookup(name: string): Option<Key> {
    LookupIn(Keys, name)
  }

  /** Every key is in the table, once, at the position its identifier gives. */
  lemma KeysInDeclarationOrder()
    ensures |Keys| == 9
    ensures forall k: Key :: k in Keys
    ensures forall i :: 0 <= i < |Keys| ==> Data(Keys[i]) == i + 1
  {
    forall k: Key ensures k in Keys {
      assert Keys[Data(k) - 1] == k;
    }
  }

  /** No two keys share a label. */
  lemma NamesDistinct(a: Key, b: Key)
    requires Name(a) == Name(b)
    ensures a == b
  {
    assert |Name(a)| == |Name(b)| && Name(a)[0] == Name(b)[0];
    if |Name(a)| == 7 {
      assert Name(a)[1] == Name(b)[1];
    }
  }

  /** Looking up a key's label finds that key, and a lookup that succeeds
      names a key whose label is the word looked up. */
  lemma LookupName(k: Key, name: string)
    ensures Lookup(name) == Some(k) <==> Name(k) == name
  {
    KeysInDeclarationOrder();
    var r := Lookup(name);
    if Name(k) == name {
      assert k in Keys;
      NamesDistinct(r.value, k);
    }
  }
}
