/**
 * A parsed JSON document, as Python's `json.loads` hands it over. Objects
 * are Python dicts: ordered lists of (key, value) pairs.
 */
module Json {
  import opened Wrappers
  import opened Strings

  datatype Value =
    | JNull
    | JBool(b: bool)
    | JNum(n: int)
    | JStr(s: string)
    | JArr(items: seq<Value>)
    | JObj(fields: seq<(string, Value)>)

  /** `d.get(key)` on a dict given as its (key, value) pairs. */
  function Lookup<V>(pairs: seq<(string, V)>, key: string): (r: Option<V>)
    ensures r.Some? <==> exists k :: 0 <= k < |pairs| && pairs[k].0 == key
    ensures r.Some? ==> exists k :: 0 <= k < |pairs| && pairs[k] == (key, r.value)
  {
    if pairs == [] then None
    else if pairs[0].0 == key then Some(pairs[0].1)
    else
      var r := Lookup(pairs[1..], key);
      assert forall k :: 1 <= k < |pairs| ==> pairs[k] == pairs[1..][k - 1];
      r
  }

  /** `list(d.keys())` */
  function Keys<V>(pairs: seq<(string, V)>): (r: seq<string>)
    ensures |r| == |pairs| && forall k :: 0 <= k < |pairs| ==> r[k] == pairs[k].0
  {
    seq(|pairs|, k requires 0 <= k < |pairs| => pairs[k].0)
  }

  /** `list(d.values())` */
  function Values<V>(pairs: seq<(string, V)>): (r: seq<V>)
    ensures |r| == |pairs| && forall k :: 0 <= k < |pairs| ==> r[k] == pairs[k].1
  {
    seq(|pairs|, k requires 0 <= k < |pairs| => pairs[k].1)
  }

  /**
   * Python's `key in data` for a decoded document: a key test on a dict,
   * an element test on a list, a substring test on a string; `None` where
   * Python raises `TypeError` (a number, a boolean, `null`).
   */
  function MemberTest(data: Value, key: string): (r: Option<bool>)
    ensures data.JObj? ==> r == Some(Lookup(data.fields, key).Some?)
    ensures (data.JNull? || data.JBool? || data.JNum?) <==> r.None?
  {
    match data
    case JObj(fields) => Some(Lookup(fields, key).Some?)
    case JArr(items) => Some(JStr(key) in items)
    case JStr(s) => Some(Contains(s, key))
    case _ => None
  }
}
