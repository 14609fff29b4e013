/**
 * A plain JavaScript object used as a dictionary: string keys in insertion order
 * (the order `Object.keys` and `Object.entries` report) and a value per key.
 */
module JsObjects {
  import opened Sequences

  datatype Dict<V> = Dict(keys: seq<string>, entries: map<string, V>) {

    /** Keys are listed once each, and exactly the keys that have an entry are listed. */
    ghost predicate Valid() {
      Distinct(keys) && forall k :: k in entries <==> k in keys
    }

    /** `obj[k] = v`: a new key goes to the end of the key order, an existing one keeps its place. */
    function Put(k: string, v: V): (d: Dict<V>)
      requires Valid()
      ensures d.Valid()
      ensures d.entries == entries[k := v]
      ensures d.keys == if k in entries then keys else keys + [k]
    {
      if k in entries then Dict(keys, entries[k := v]) else Dict(keys + [k], entries[k := v])
    }

    /** `Object.values(obj)`, in key order. */
    function Values(): (vs: seq<V>)
      requires Valid()
      ensures |vs| == |keys| && forall i :: 0 <= i < |keys| ==> vs[i] == entries[keys[i]]
    {
      seq(|keys|, i requires 0 <= i < |keys| => entries[keys[i]])
    }
  }

  function Empty<V>(): (d: Dict<V>)
    ensures d.Valid() && d.keys == [] && d.entries == map[]
  {
    Dict([], map[])
  }
}
