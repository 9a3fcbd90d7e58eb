/** Decoded JSON as the monitoring backend returns it: a tagged variant in
    place of Python's dynamic `dict` / `list` / scalar values. */
module Values {
  import opened Outcomes

  /** A `dict` keeps its entries in insertion order, as Python's does. */
  datatype Value =
    | Dict(entries: seq<Entry>)
    | List(items: seq<Value>)
    | Str(s: string)
    | Int(i: int)
    | Bool(b: bool)
    | Null

  datatype Entry = Entry(key: string, val: Value)

  /** `k in d` and `d[k]`: the value stored under `k`, if any.  With the
      distinct keys of a decoded JSON object, the first match is the only one. */
  function Lookup(entries: seq<Entry>, k: string): (r: Option<Value>)
    ensures r.None? <==> forall i :: 0 <= i < |entries| ==> entries[i].key != k
    ensures r.Some? ==> exists i :: 0 <= i < |entries| && entries[i] == Entry(k, r.value)
  {
    if entries == [] then None
    else if entries[0].key == k then Some(entries[0].val)
    else Lookup(entries[1..], k)
  }

  /** What `for dt in v` iterates over: the items of a list, the keys of a
      dict, the one-character strings of a str; other values raise
      (None here). */
  function Members(v: Value): (r: Option<seq<Value>>)
    ensures r.Some? <==> v.List? || v.Dict? || v.Str?
  {
    match v
    case List(items) => Some(items)
    case Dict(entries) => Some(seq(|entries|, i requires 0 <= i < |entries| => Str(entries[i].key)))
    case Str(s) => Some(seq(|s|, i requires 0 <= i < |s| => Str([s[i]])))
    case _ => None
  }

  /** What `len()` accepts. */
  predicate Sized(v: Value) { v.Dict? || v.List? || v.Str? }
}
