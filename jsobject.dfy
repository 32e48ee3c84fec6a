/** Plain JavaScript objects used as dictionaries keyed by string, and
    `null`/`undefined` as an optional value. */
module JsObject {

  /** A value that may be `null` or `undefined` (`None`). */
  datatype Option<T> = None | Some(value: T) {
    /** `x ?? fallback`. */
    function GetOr(fallback: T): T {
      match this
      case Some(v) => v
      case None => fallback
    }
  }

  predicate Distinct(s: seq<string>) {
    forall i, j :: 0 <= i < j < |s| ==> s[i] != s[j]
  }

  /** An object's own properties: its keys in `Object.keys` order (insertion
      order) and the value stored under each key. */
  datatype Dict<V> = Dict(keys: seq<string>, entries: map<string, V>)

  predicate WellFormed<V>(d: Dict<V>) {
    && Distinct(d.keys)
    && (forall k :: k in d.keys ==> k in d.entries)
    && (forall k :: k in d.entries ==> k in d.keys)
  }

  /** A dictionary whose key list names each stored key exactly once. */
  type Table<V> = d: Dict<V> | WellFormed(d) witness Dict([], map[])

  /** `{}`. */
  function EmptyTable<V>(): (t: Table<V>)
    ensures t.keys == [] && t.entries == map[]
  {
    Dict([], map[])
  }

  /** `t[k] = v`: an existing key keeps its place in the key order, a new
      key is enumerated after all existing ones. */
  function Put<V>(t: Table<V>, k: string, v: V): (r: Table<V>)
    ensures r.entries == t.entries[k := v]
    ensures k in t.entries ==> r.keys == t.keys
    ensures k !in t.entries ==> r.keys == t.keys + [k]
  {
    if k in t.entries then Dict(t.keys, t.entries[k := v])
    else
      var keys := t.keys + [k];
      assert forall i :: 0 <= i < |t.keys| ==> keys[i] == t.keys[i];
      Dict(keys, t.entries[k := v])
  }
}
