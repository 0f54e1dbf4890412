/** A string-keyed dictionary that remembers insertion order, as a
    JavaScript `Map` and a plain object with non-numeric keys both do:
    iteration visits keys in the order they were first set, and setting an
    existing key replaces its value without moving it. */
module OrderedMap {
  import opened Common

  datatype OMap<V> = OMap(keys: seq<string>, vals: map<string, V>)

  ghost predicate Distinct(ks: seq<string>) {
    forall i, j :: 0 <= i < j < |ks| ==> ks[i] != ks[j]
  }

  /** The keys listed once each, and exactly the keys of the map. */
  ghost predicate WellFormed<V>(m: OMap<V>) {
    && Distinct(m.keys)
    && (forall k :: k in m.vals <==> k in m.keys)
  }

  type Dict<V> = m: OMap<V> | WellFormed(m) witness OMap([], map[])

  /** `new Map()` / `{}`: nothing to iterate and nothing to find. */
  function Empty<V>(): (r: Dict<V>)
    ensures r.keys == []
    ensures forall k :: Get(r, k).None?
  {
    OMap([], map[])
  }

  /** `m.get(k)` / `o[k]`: the value stored under `k`, if any. */
  function Get<V>(m: Dict<V>, k: string): (r: Option<V>)
    ensures r.Some? <==> k in m.keys
    ensures r.Some? ==> r.value == m.vals[k]
  {
    if k in m.vals then Some(m.vals[k]) else None
  }

  /** `m.set(k, v)` / `o[k] = v`: an existing key keeps its position, a new
      key goes last; no other key changes. */
  function Put<V>(m: Dict<V>, k: string, v: V): (r: Dict<V>)
    ensures Get(r, k) == Some(v)
    ensures forall j :: j != k ==> Get(r, j) == Get(m, j)
    ensures k in m.keys ==> r.keys == m.keys
    ensures k !in m.keys ==> r.keys == m.keys + [k]
  {
    var ks := if k in m.vals then m.keys else m.keys + [k];
    assert forall j :: j in m.vals[k := v] <==> j in ks;
    OMap(ks, m.vals[k := v])
  }

  /** Copying key/value pairs into a fresh object one after another, as
      `for (const [key, value] of pairs) o[key] = value` does. */
  function FromPairs<V>(pairs: seq<(string, V)>): (r: Dict<V>)
  {
    if pairs == [] then Empty()
    else
      var last := pairs[|pairs| - 1];
      Put(FromPairs(pairs[..|pairs| - 1]), last.0, last.1)
  }

  /** Index of the last pair whose key is `k`. */
  function LastIndexOf<V>(pairs: seq<(string, V)>, k: string): (r: Option<nat>)
    ensures r.Some? ==> r.value < |pairs| && pairs[r.value].0 == k
    ensures r.Some? ==> forall j :: r.value < j < |pairs| ==> pairs[j].0 != k
    ensures r.None? ==> forall j :: 0 <= j < |pairs| ==> pairs[j].0 != k
  {
    if pairs == [] then None
    else if pairs[|pairs| - 1].0 == k then Some(|pairs| - 1)
    else LastIndexOf(pairs[..|pairs| - 1], k)
  }

  /** Every key among the pairs is in the result, with the value of its last
      occurrence, and no other key is. */
  lemma {:induction false} FromPairsLookup<V>(pairs: seq<(string, V)>, k: string)
    ensures Get(FromPairs(pairs), k) ==
            match LastIndexOf(pairs, k)
            case None => None
            case Some(j) => Some(pairs[j].1)
  {
    if pairs != [] {
      FromPairsLookup(pairs[..|pairs| - 1], k);
    }
  }
}
