/**
 The parts of the nexus WAMP library that the publish filter relies on, seen
 only at their interface: dynamically typed option and detail values, the
 type-narrowing selectors `AsID`, `AsList` and `AsString`, the reserved
 option keys, and a subscriber session reduced to its ID and its details.
 */
module Wamp {

  datatype Option<+T> = None | Some(value: T)

  /** A WAMP session or subscription ID: an unsigned 64-bit integer. */
  newtype ID = x: int | 0 <= x < 0x1_0000_0000_0000_0000

  /**
   A dynamically typed value as found in an options or details dictionary.
   `Absent` stands for Go's `nil` (a missing key reads as `nil`), `Other` for
   any value of a type the filter never narrows to (a bool, a dictionary, ...).
   */
  datatype Value =
    | Absent
    | Id(id: ID)
    | Str(s: string)
    | List(items: seq<Value>)
    | Other

  /** An untyped dictionary, `wamp.Dict`. */
  type Dict = map<string, Value>

  /** A subscriber session as the filter sees it: its ID and its details. */
  datatype Session = Session(id: ID, details: Dict)

  /** Reserved option key holding the session IDs to exclude. */
  const BlacklistKey: string := "exclude"
  /** Reserved option key holding the only session IDs that are eligible. */
  const WhitelistKey: string := "eligible"

  /** Reading a key of a Go map: a missing key yields the zero value, `nil`. */
  function Lookup(d: Dict, k: string): (v: Value)
    ensures k !in d ==> v == Absent
    ensures k in d ==> v == d[k]
  {
    if k in d then d[k] else Absent
  }

  /** `wamp.AsID`: succeeds exactly on an ID value. */
  function AsID(v: Value): (r: Option<ID>)
    ensures r.Some? <==> v.Id?
    ensures r.Some? ==> v == Id(r.value)
  {
    match v
    case Id(id) => Some(id)
    case _ => None
  }

  /** `wamp.AsList`: succeeds exactly on a list value. */
  function AsList(v: Value): (r: Option<seq<Value>>)
    ensures r.Some? <==> v.List?
    ensures r.Some? ==> v == List(r.value)
  {
    match v
    case List(items) => Some(items)
    case _ => None
  }

  /** `wamp.AsString`: succeeds exactly on a string value. */
  function AsString(v: Value): (r: Option<string>)
    ensures r.Some? <==> v.Str?
    ensures r.Some? ==> v == Str(r.value)
  {
    match v
    case Str(s) => Some(s)
    case _ => None
  }
}
