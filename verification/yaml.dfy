/** The YAML value tree that rosdep rule files and distribution files load into.
    Mapping keys are strings; the order of mapping keys is not kept. */
module Yaml {

  datatype Value =
    | Null
    | Bool(b: bool)
    | Int(i: int)
    | Str(s: string)
    | List(items: seq<Value>)
    | Dict(entries: map<string, Value>)
  {
    /** Python `d.get(key, default)` on a mapping value. */
    function Get(key: string, default: Value): Value
      requires Dict?
    {
      if key in entries then entries[key] else default
    }
  }

  /** A list of YAML strings. */
  function Strs(xs: seq<string>): (r: seq<Value>)
    ensures |r| == |xs|
    ensures forall i :: 0 <= i < |xs| ==> r[i] == Str(xs[i])
  {
    seq(|xs|, i requires 0 <= i < |xs| => Str(xs[i]))
  }

  /** The strings of a YAML list whose items are all strings. */
  predicate AllStrs(items: seq<Value>) {
    forall i :: 0 <= i < |items| ==> items[i].Str?
  }

  function StrsOf(items: seq<Value>): (r: seq<string>)
    requires AllStrs(items)
    ensures |r| == |items|
    ensures forall i :: 0 <= i < |items| ==> items[i] == Str(r[i])
  {
    seq(|items|, i requires 0 <= i < |items| => items[i].s)
  }
}
