/** Small value types shared by every component of the input-translation pipeline. */
module Types {

  /** Python's `None`-or-value, as used for dictionary lookups and optional state. */
  datatype Option<+T> = None | Some(value: T)

  /** One trigger -> output binding, the `{"input", "output", "type"}` record the
      action mapper emits and the observer consumes. */
  datatype Rule = Rule(input: string, output: string, kind: string)

  /** A JSON object whose insertion order matters, as a sequence of key/value pairs. */
  type OrderedDict<V> = seq<(string, V)>

  /** `d.get(k)` on an ordered dictionary: the value under the first pair with key `k`. */
  function DictGet<V>(d: OrderedDict<V>, k: string): (r: Option<V>)
    ensures r.Some? <==> exists i :: 0 <= i < |d| && d[i].0 == k
    ensures r.Some? ==> exists i :: 0 <= i < |d| && d[i] == (k, r.value)
  {
    if |d| == 0 then None
    else if d[0].0 == k then Some(d[0].1)
    else
      var r := DictGet(d[1..], k);
      assert r.Some? ==> d[1..][0..] == d[1..];
      r
  }

  /** No key occurs twice. A JSON object read by `json.load` has this shape: a repeated
      key keeps only its last value. */
  predicate DistinctKeys<V>(d: OrderedDict<V>)
  {
    forall i, j :: 0 <= i < j < |d| ==> d[i].0 != d[j].0
  }

  /** With distinct keys, a lookup finds a value exactly when that key/value pair is
      stored, so the first-match reading agrees with the loaded object. */
  lemma DictGetDistinct<V>(d: OrderedDict<V>, k: string, v: V)
    requires DistinctKeys(d)
    ensures DictGet(d, k) == Some(v) <==> (k, v) in d
  {
    if (k, v) in d {
      var i :| 0 <= i < |d| && d[i] == (k, v);
      var j :| 0 <= j < |d| && d[j] == (k, DictGet(d, k).value);
      assert i == j;
    }
  }

  /** The elements of a sequence, as Python's `set(list)`. */
  function Elems<T>(s: seq<T>): set<T>
  {
    set x | x in s
  }

  /** `m.get(k, default)` on an unordered map. */
  function MapGetOr<V>(m: map<string, V>, k: string, default: V): V
  {
    if k in m then m[k] else default
  }
}
