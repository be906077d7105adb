/**
 * Python's built-in `dict` as the rest of the model uses it: a map whose keys
 * also carry their insertion order, because iteration, `popitem` and the
 * write-back loops of the evaluator observe that order.
 */
module Dicts {

  datatype Option<T> = None | Some(value: T)

  /** The Python exceptions raised by the modelled operations. */
  datatype PyError = KeyError | IndexError | AttributeError | TypeError

  /** What a Python call does: return a value or raise. */
  datatype Result<T> = Ok(value: T) | Err(error: PyError)

  predicate Distinct<T(==)>(s: seq<T>) {
    forall i, j :: 0 <= i < j < |s| ==> s[i] != s[j]
  }

  /** `order` lists the keys in insertion order, `entries` holds the values. */
  datatype RawDict<K(==), V> = RawDict(order: seq<K>, entries: map<K, V>)

  ghost predicate WellFormed<K, V>(d: RawDict<K, V>) {
    && Distinct(d.order)
    && (forall k :: k in d.order ==> k in d.entries)
    && (forall k :: k in d.entries ==> k in d.order)
  }

  /** A Python dict value: every key listed exactly once in the order. */
  type Dict<K(==), V> = d: RawDict<K, V> | WellFormed(d) witness RawDict([], map[])

  function Empty<K(==), V>(): Dict<K, V> {
    RawDict([], map[])
  }

  /** `d[k] = v`: a new key goes to the end of the order, an existing key keeps its place. */
  function Set<K(==), V>(d: Dict<K, V>, k: K, v: V): Dict<K, V> {
    if k in d.entries then RawDict(d.order, d.entries[k := v])
    else RawDict(d.order + [k], d.entries[k := v])
  }

  /** The key sequence `s` without `k`, the rest in their order. */
  function RemoveKey<K(==)>(s: seq<K>, k: K): (r: seq<K>)
    ensures forall x :: x in r ==> x in s && x != k
    ensures forall x :: x in s && x != k ==> x in r
    ensures Distinct(s) ==> Distinct(r)
    ensures k !in s ==> r == s
  {
    if s == [] then []
    else if s[0] == k then RemoveKey(s[1..], k)
    else
      var rest := RemoveKey(s[1..], k);
      assert Distinct(s) ==> s[0] !in s[1..];
      [s[0]] + rest
  }

  /** The dict without key `k`; the other keys keep their order and values. */
  function Remove<K(==), V>(d: Dict<K, V>, k: K): Dict<K, V> {
    RawDict(RemoveKey(d.order, k), d.entries - {k})
  }

  /** Removing a key that is not there changes nothing. */
  lemma RemoveAbsent<K, V>(d: Dict<K, V>, k: K)
    requires k !in d.entries
    ensures Remove(d, k) == d
  {
  }

  /**
   * `d[k] = src[k]` for every `k` of `keys`, in that order: the loop inside
   * `dict.update` and the evaluator's write-back loop.
   */
  function SetAll<K(==), V>(d: Dict<K, V>, keys: seq<K>, src: map<K, V>): Dict<K, V>
    requires forall k :: k in keys ==> k in src
    decreases |keys|
  {
    if keys == [] then d
    else
      var last := keys[|keys| - 1];
      Set(SetAll(d, keys[..|keys| - 1], src), last, src[last])
  }

  /** After `SetAll`, the listed keys hold their `src` values and every other key is as before. */
  lemma {:induction false} SetAllEntries<K, V>(d: Dict<K, V>, keys: seq<K>, src: map<K, V>)
    requires forall k :: k in keys ==> k in src
    ensures SetAll(d, keys, src).entries == d.entries + map k | k in keys :: src[k]
    decreases |keys|
  {
    if keys != [] {
      var last := keys[|keys| - 1];
      SetAllEntries(d, keys[..|keys| - 1], src);
      SetAllStep(keys, src);
      MapUnionUpdate(d.entries, map k | k in keys[..|keys| - 1] :: src[k], last, src[last]);
    }
  }

  lemma SetAllStep<K, V>(keys: seq<K>, src: map<K, V>)
    requires keys != [] && forall k :: k in keys ==> k in src
    ensures (map k | k in keys :: src[k])
      == (map k | k in keys[..|keys| - 1] :: src[k])[keys[|keys| - 1] := src[keys[|keys| - 1]]]
  {
    assert keys == keys[..|keys| - 1] + [keys[|keys| - 1]];
  }

  lemma MapUnionUpdate<K, V>(a: map<K, V>, b: map<K, V>, k: K, v: V)
    ensures (a + b)[k := v] == a + b[k := v]
  {
  }

  /** `d.update(other)`: values of `other` win; new keys are appended in `other`'s order. */
  function Update<K(==), V>(d: Dict<K, V>, other: Dict<K, V>): (r: Dict<K, V>)
    ensures r.entries == d.entries + other.entries
  {
    SetAllEntries(d, other.order, other.entries);
    assert (map k | k in other.order :: other.entries[k]) == other.entries;
    SetAll(d, other.order, other.entries)
  }

  /** `dict.fromkeys(keys, v)`. */
  function FromKeys<K(==), V>(keys: seq<K>, v: V): (r: Dict<K, V>)
    ensures forall k :: k in r.entries ==> k in keys
    ensures forall k :: k in keys ==> k in r.entries
    ensures forall k :: k in r.entries ==> r.entries[k] == v
    ensures Distinct(keys) ==> r.order == keys
  {
    SetAllEntries(Empty(), keys, map k | k in keys :: v);
    assert Distinct(keys) ==> SetAll(Empty(), keys, map k | k in keys :: v).order == keys by {
      if Distinct(keys) {
        SetAllAppends(Empty(), keys, map k | k in keys :: v);
      }
    }
    SetAll(Empty(), keys, map k | k in keys :: v)
  }

  /** `d.pop(k)` when `default` is None, `d.pop(k, default)` otherwise. */
  function Pop<K(==), V>(d: Dict<K, V>, k: K, default: Option<V>): (Dict<K, V>, Result<V>) {
    if k in d.entries then (Remove(d, k), Ok(d.entries[k]))
    else if default.Some? then (d, Ok(default.value))
    else (d, Err(KeyError))
  }

  /** `d.popitem()`: the most recently inserted pair. */
  function PopItem<K(==), V>(d: Dict<K, V>): (Dict<K, V>, Result<(K, V)>) {
    if d.order == [] then (d, Err(KeyError))
    else
      var k := d.order[|d.order| - 1];
      (Remove(d, k), Ok((k, d.entries[k])))
  }

  /** `d.setdefault(k, v)`. */
  function SetDefault<K(==), V>(d: Dict<K, V>, k: K, v: V): (Dict<K, V>, V) {
    if k in d.entries then (d, d.entries[k]) else (Set(d, k, v), v)
  }

  /** `del d[k]`. */
  function DelItem<K(==), V>(d: Dict<K, V>, k: K): (Dict<K, V>, Result<()>) {
    if k in d.entries then (Remove(d, k), Ok(())) else (d, Err(KeyError))
  }

  /** Removing the last key of a duplicate-free sequence drops exactly its last element. */
  lemma {:induction false} RemoveLastKey<K>(s: seq<K>)
    requires Distinct(s) && s != []
    ensures RemoveKey(s, s[|s| - 1]) == s[..|s| - 1]
  {
    if |s| > 1 {
      assert Distinct(s[1..]);
      RemoveLastKey(s[1..]);
      assert s[1..][..|s[1..]| - 1] == s[1..|s| - 1];
      assert s[0] != s[|s| - 1];
      assert s[..|s| - 1] == [s[0]] + s[1..|s| - 1];
    }
  }

  /**
   * `popitem` is last-in first-out: it returns the most recently inserted key
   * with its value, and the remaining order is the old one without that key.
   */
  lemma PopItemIsLifo<K, V>(d: Dict<K, V>)
    ensures PopItem(d).1.Ok? <==> d.entries != map[]
    ensures PopItem(d).1.Ok? ==>
      var (k, v) := PopItem(d).1.value;
      && k == d.order[|d.order| - 1] && k in d.entries && v == d.entries[k]
      && PopItem(d).0.order == d.order[..|d.order| - 1]
      && PopItem(d).0.entries == d.entries - {k}
  {
    if d.order != [] {
      RemoveLastKey(d.order);
    } else {
      assert forall k :: k !in d.entries;
    }
  }

  /**
   * Assigning keys that are new and listed once appends them to the order in
   * the order they are assigned: this is why the write-back loop rebuilds the
   * caller's namespace in the order of its flags.
   */
  lemma {:induction false} SetAllAppends<K, V>(d: Dict<K, V>, keys: seq<K>, src: map<K, V>)
    requires forall k :: k in keys ==> k in src
    requires Distinct(keys)
    requires forall k :: k in keys ==> k !in d.entries
    ensures SetAll(d, keys, src).order == d.order + keys
    decreases |keys|
  {
    if keys != [] {
      var init := keys[..|keys| - 1];
      assert Distinct(init);
      SetAllAppends(d, init, src);
      assert keys[|keys| - 1] !in init;
      assert keys == init + [keys[|keys| - 1]];
    }
  }

  /**
   * Re-inserting the keys of `keys`, in its order, into an empty dict: the
   * same keys in the same order, each with its value from `src`.
   */
  function Rebuild<K(==), V, U>(keys: Dict<K, U>, src: map<K, V>): (r: Dict<K, V>)
    requires forall k :: k in keys.entries ==> k in src
    ensures r.order == keys.order
    ensures r.entries.Keys == keys.entries.Keys
    ensures forall k :: k in r.entries ==> r.entries[k] == src[k]
  {
    SetAllAppends(Empty(), keys.order, src);
    RebuildEntries(keys, src);
    SetAll(Empty(), keys.order, src)
  }

  lemma RebuildEntries<K, V, U>(keys: Dict<K, U>, src: map<K, V>)
    requires forall k :: k in keys.entries ==> k in src
    ensures SetAll(Empty(), keys.order, src).entries.Keys == keys.entries.Keys
    ensures forall k :: k in SetAll(Empty(), keys.order, src).entries ==>
      SetAll(Empty(), keys.order, src).entries[k] == src[k]
  {
    SetAllEntries(Empty(), keys.order, src);
    var e := SetAll(Empty(), keys.order, src).entries;
    assert e == map[] + map k | k in keys.order :: src[k];
  }

  /** One more key after a prefix of the keys. */
  lemma SetAllPrefixStep<K, V>(d: Dict<K, V>, keys: seq<K>, src: map<K, V>, i: int)
    requires 0 <= i < |keys|
    requires forall k :: k in keys ==> k in src
    ensures SetAll(d, keys[..i + 1], src) == Set(SetAll(d, keys[..i], src), keys[i], src[keys[i]])
  {
    assert keys[..i + 1][..i] == keys[..i];
  }

  /** `SetAll` reads `src` only at the listed keys. */
  lemma {:induction false} SetAllSameMap<K, V>(d: Dict<K, V>, keys: seq<K>, src: map<K, V>, src': map<K, V>)
    requires forall k :: k in keys ==> k in src && k in src' && src[k] == src'[k]
    ensures SetAll(d, keys, src) == SetAll(d, keys, src')
    decreases |keys|
  {
    if keys != [] {
      SetAllSameMap(d, keys[..|keys| - 1], src, src');
    }
  }

  /** The keys listed in the order are the keys of the dict. */
  lemma KeysListed<K, V>(d: Dict<K, V>)
    ensures (set k | k in d.order) == d.entries.Keys
  {
  }

  /** A mutable dict object, shared by reference (the caller's namespace, a ReserveDict's tier). */
  class PyDict<K(==), V> {
    var contents: Dict<K, V>

    constructor (init: Dict<K, V>)
      ensures contents == init
    {
      contents := init;
    }

    /** `d.clear()`. */
    method Clear()
      modifies this
      ensures contents == Empty()
    {
      contents := Empty();
    }

    /** `d[k] = v`. */
    method SetItem(k: K, v: V)
      modifies this
      ensures contents == Set(old(contents), k, v)
    {
      contents := Set(contents, k, v);
    }
  }
}
