/**
 * String-keyed dictionaries that remember insertion order: a JavaScript object with
 * non-numeric keys and a Python `dict` behave alike here. Reading takes the first entry
 * with the key; writing an existing key keeps its place, a new key goes last.
 */
module Dict {
  import opened Wrappers

  type Dict<V> = seq<(string, V)>

  /** `d[key]` / `d.get(key)`: the value of the first entry with that key. */
  function Get<V>(d: Dict<V>, key: string): (r: Option<V>)
    ensures r.Some? <==> key in Keys(d)
  {
    if d == [] then None
    else if d[0].0 == key then Some(d[0].1)
    else Get(d[1..], key)
  }

  /** `Object.keys(d)` / `list(d)`: the keys in order. */
  function Keys<V>(d: Dict<V>): (ks: seq<string>)
    ensures |ks| == |d|
    ensures forall i :: 0 <= i < |d| ==> ks[i] == d[i].0
  {
    if d == [] then [] else [d[0].0] + Keys(d[1..])
  }

  /** No key occurs twice, as in every JavaScript object and Python dict. */
  predicate UniqueKeys<V>(d: Dict<V>)
  {
    forall i, j :: 0 <= i < j < |d| ==> d[i].0 != d[j].0
  }

  /** `d[key] = value` (Python) or `{ ...d, [key]: value }` (JavaScript). */
  function Put<V>(d: Dict<V>, key: string, value: V): (r: Dict<V>)
    ensures key in Keys(d) ==> Keys(r) == Keys(d)
    ensures key !in Keys(d) ==> Keys(r) == Keys(d) + [key]
  {
    if d == [] then [(key, value)]
    else if d[0].0 == key then [(key, value)] + d[1..]
    else [d[0]] + Put(d[1..], key, value)
  }

  /** After a write, the key reads back the value written and every other key reads as before. */
  lemma {:induction false} PutGet<V>(d: Dict<V>, key: string, value: V, k: string)
    ensures Get(Put(d, key, value), k) == if k == key then Some(value) else Get(d, k)
  {
    if d != [] && d[0].0 != key {
      PutGet(d[1..], key, value, k);
      assert Put(d, key, value)[1..] == Put(d[1..], key, value);
    }
  }

  /** Writing never creates a second entry for a key. */
  lemma PutUnique<V>(d: Dict<V>, key: string, value: V)
    requires UniqueKeys(d)
    ensures UniqueKeys(Put(d, key, value))
  {
    var r := Put(d, key, value);
    var kd, kr := Keys(d), Keys(r);
    forall i, j | 0 <= i < j < |r| ensures r[i].0 != r[j].0 {
      assert kr[i] == r[i].0 && kr[j] == r[j].0;
      if key !in kd && j == |d| {
        assert kr[i] == kd[i];
      }
    }
  }
}
