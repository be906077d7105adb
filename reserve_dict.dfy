/**
 * runcode/reserve_dict.py: the historical two-tier scope. A ReserveDict keeps
 * a mutable tier `d` (the dict object handed to `fromdicts`, shared with the
 * caller) and a fallback tier `reserve`; a write moves the key into `d` and
 * drops it from `reserve`, so the two tiers stay disjoint.
 */
module ReserveDicts {
  import opened Dicts

  /** The keys of `s` outside `drop`, in their order. */
  function KeepNotIn<K(==)>(s: seq<K>, drop: set<K>): (r: seq<K>)
    ensures forall x :: x in r ==> x in s && x !in drop
    ensures forall x :: x in s && x !in drop ==> x in r
    ensures Distinct(s) ==> Distinct(r)
  {
    if s == [] then []
    else if s[0] in drop then KeepNotIn(s[1..], drop)
    else
      var rest := KeepNotIn(s[1..], drop);
      assert Distinct(s) ==> s[0] !in s[1..];
      [s[0]] + rest
  }

  /** `{key: value for key, value in r.items() if key not in drop}`. */
  function Without<K(==), V>(r: Dict<K, V>, drop: set<K>): Dict<K, V> {
    RawDict(KeepNotIn(r.order, drop), r.entries - drop)
  }

  /** `for key in keys: r.pop(key, None)`. */
  function RemoveAll<K(==), V>(r: Dict<K, V>, keys: seq<K>): (r': Dict<K, V>)
    decreases |keys|
  {
    if keys == [] then r else Remove(RemoveAll(r, keys[..|keys| - 1]), keys[|keys| - 1])
  }

  lemma {:induction false} RemoveAllEntries<K, V>(r: Dict<K, V>, keys: seq<K>)
    ensures RemoveAll(r, keys).entries == r.entries - set k | k in keys
    decreases |keys|
  {
    if keys != [] {
      var init := keys[..|keys| - 1];
      RemoveAllEntries(r, init);
      assert (set k | k in keys) == (set k | k in init) + {keys[|keys| - 1]} by {
        assert keys == init + [keys[|keys| - 1]];
      }
    }
  }

  /** What `update(*args)` leaves in the two tiers: its outer loop, one argument at a time. */
  function UpdateTiers<K(==), V>(d: Dict<K, V>, reserve: Dict<K, V>, args: seq<Dict<K, V>>)
    : (Dict<K, V>, Dict<K, V>)
    decreases |args|
  {
    if args == [] then (d, reserve)
    else
      var (d', reserve') := UpdateTiers(d, reserve, args[..|args| - 1]);
      var arg := args[|args| - 1];
      (Dicts.Update(d', arg), RemoveAll(reserve', arg.order))
  }

  /** The reading of the two tiers that `__eq__` compares: `reserve` overlaid by `d`. */
  function Overlay<K(==), V>(d: Dict<K, V>, reserve: Dict<K, V>): map<K, V> {
    reserve.entries + d.entries
  }

  predicate Disjoint<K(==), V>(d: Dict<K, V>, reserve: Dict<K, V>) {
    forall k :: k in reserve.entries ==> k !in d.entries
  }

  /** A dict assigning the entries of `args` one after the other. */
  function MergeAll<K(==), V>(m: map<K, V>, args: seq<Dict<K, V>>): map<K, V>
    decreases |args|
  {
    if args == [] then m else MergeAll(m, args[..|args| - 1]) + args[|args| - 1].entries
  }

  /**
   * `update(*args)` keeps the tiers disjoint and changes the merged view as if
   * the arguments' entries had been assigned in order: every updated key is
   * afterwards served from `d`.
   */
  lemma {:induction false} UpdateTiersMerged<K, V>(d: Dict<K, V>, reserve: Dict<K, V>, args: seq<Dict<K, V>>)
    requires Disjoint(d, reserve)
    ensures Disjoint(UpdateTiers(d, reserve, args).0, UpdateTiers(d, reserve, args).1)
    ensures Overlay(UpdateTiers(d, reserve, args).0, UpdateTiers(d, reserve, args).1)
      == MergeAll(Overlay(d, reserve), args)
    decreases |args|
  {
    if args != [] {
      var init := args[..|args| - 1];
      UpdateTiersMerged(d, reserve, init);
      var t := UpdateTiers(d, reserve, init);
      UpdateOneArg(t.0, t.1, args[|args| - 1]);
    }
  }

  /** One argument of `update`: its keys are written to `d` and removed from `reserve`. */
  lemma UpdateOneArg<K, V>(d: Dict<K, V>, reserve: Dict<K, V>, arg: Dict<K, V>)
    requires Disjoint(d, reserve)
    ensures Disjoint(Dicts.Update(d, arg), RemoveAll(reserve, arg.order))
    ensures Overlay(Dicts.Update(d, arg), RemoveAll(reserve, arg.order)) == Overlay(d, reserve) + arg.entries
  {
    RemoveAllEntries(reserve, arg.order);
    KeysListed(arg);
    var d' := Dicts.Update(d, arg);
    var reserve' := RemoveAll(reserve, arg.order);
    OverlayAfterWrite(reserve.entries, d.entries, arg.entries);
    assert reserve'.entries == reserve.entries - arg.entries.Keys;
    assert d'.entries == d.entries + arg.entries;
  }

  /** Plain-map core of `UpdateOneArg`. */
  lemma OverlayAfterWrite<K, V>(r: map<K, V>, d: map<K, V>, a: map<K, V>)
    requires forall k :: k in r ==> k !in d
    ensures forall k :: k in r - a.Keys ==> k !in d + a
    ensures (r - a.Keys) + (d + a) == (r + d) + a
  {
  }

  /** The outer loop of `update` after argument `i`. */
  lemma UpdateTiersStep<K, V>(d: Dict<K, V>, reserve: Dict<K, V>, args: seq<Dict<K, V>>, i: nat)
    requires i < |args|
    ensures UpdateTiers(d, reserve, args[..i + 1]) ==
      (Dicts.Update(UpdateTiers(d, reserve, args[..i]).0, args[i]),
       RemoveAll(UpdateTiers(d, reserve, args[..i]).1, args[i].order))
  {
    assert args[..i + 1][..i] == args[..i];
  }

  /** Dropping a key held in `d`, for disjoint tiers. */
  lemma DropFromD<K, V>(d: Dict<K, V>, reserve: Dict<K, V>, k: K)
    requires Disjoint(d, reserve) && k in d.entries
    ensures Disjoint(Remove(d, k), reserve)
    ensures Overlay(Remove(d, k), reserve) == Overlay(d, reserve) - {k}
  {
    OverlayAfterDrop(reserve.entries, d.entries, k);
  }

  /** Dropping a key that is not in `d` from `reserve`. */
  lemma DropFromReserve<K, V>(d: Dict<K, V>, reserve: Dict<K, V>, k: K)
    requires Disjoint(d, reserve) && k !in d.entries
    ensures Disjoint(d, Remove(reserve, k))
    ensures Overlay(d, Remove(reserve, k)) == Overlay(d, reserve) - {k}
  {
    OverlayAfterDrop(reserve.entries, d.entries, k);
  }

  /** Updating an empty dict with `reserve`, then with `d`, gives the overlay. */
  lemma UpdatesGiveOverlay<K, V>(d: Dict<K, V>, reserve: Dict<K, V>)
    ensures Dicts.Update(Dicts.Update(Empty(), reserve), d).entries == Overlay(d, reserve)
  {
    assert map[] + reserve.entries == reserve.entries;
  }

  /** Writing a key to `d` and dropping it from `reserve`. */
  lemma WriteToD<K, V>(d: Dict<K, V>, reserve: Dict<K, V>, k: K, v: V)
    ensures k !in Remove(reserve, k).entries
    ensures Overlay(Set(d, k, v), Remove(reserve, k)) == Overlay(d, reserve)[k := v]
    ensures Disjoint(d, reserve) ==> Disjoint(Set(d, k, v), Remove(reserve, k))
  {
    OverlayAfterSet(reserve.entries, d.entries, k, v);
  }

  /** Plain-map core of `WriteToD`. */
  lemma OverlayAfterSet<K, V>(r: map<K, V>, d: map<K, V>, k: K, v: V)
    ensures (r - {k}) + d[k := v] == (r + d)[k := v]
    ensures (forall x :: x in r ==> x !in d) ==> forall x :: x in r - {k} ==> x !in d[k := v]
  {
  }

  /** Plain-map core of the two lemmas above. */
  lemma OverlayAfterDrop<K, V>(r: map<K, V>, d: map<K, V>, k: K)
    requires forall x :: x in r ==> x !in d
    ensures k in d ==> r + (d - {k}) == (r + d) - {k}
    ensures k !in d ==> (r - {k}) + d == (r + d) - {k}
    ensures forall x :: x in r - {k} ==> x !in d
    ensures forall x :: x in r ==> x !in d - {k}
  {
  }

  /** `ChainKeysView(*args)` iterates the keys of each dict in turn. */
  function ChainKeys<K(==), V>(args: seq<Dict<K, V>>): seq<K>
    decreases |args|
  {
    if args == [] then [] else ChainKeys(args[..|args| - 1]) + args[|args| - 1].order
  }

  /** `len` of a chain view: the sum of the lengths, which is the length of its iteration. */
  function ChainLen<K(==), V>(args: seq<Dict<K, V>>): (n: nat)
    ensures n == |ChainKeys(args)|
    decreases |args|
  {
    if args == [] then 0 else ChainLen(args[..|args| - 1]) + |args[|args| - 1].order|
  }

  /** `key in ChainKeysView(*args)`: `any(key in arg.keys() for arg in args)`. */
  predicate ChainHasKey<K(==), V>(args: seq<Dict<K, V>>, key: K) {
    exists i :: 0 <= i < |args| && key in args[i].entries
  }

  /** `(key, value) in ChainItemsView(*args)`. */
  predicate ChainHasItem<K(==), V(==)>(args: seq<Dict<K, V>>, key: K, value: V) {
    exists i :: 0 <= i < |args| && key in args[i].entries && args[i].entries[key] == value
  }

  /** `value in ChainValuesView(*args)`. */
  predicate ChainHasValue<K(==), V(==)>(args: seq<Dict<K, V>>, value: V) {
    exists i :: 0 <= i < |args| && value in args[i].entries.Values
  }

  /** Membership in a chain view agrees with its iteration. */
  lemma {:induction false} ChainHasKeyIffIterated<K, V>(args: seq<Dict<K, V>>, key: K)
    ensures ChainHasKey(args, key) <==> key in ChainKeys(args)
    decreases |args|
  {
    if args != [] {
      var init := args[..|args| - 1];
      ChainHasKeyIffIterated(init, key);
      if ChainHasKey(init, key) {
        var i :| 0 <= i < |init| && key in init[i].entries;
        assert key in args[i].entries;
      }
      if ChainHasKey(args, key) && !ChainHasKey(init, key) {
        var i :| 0 <= i < |args| && key in args[i].entries;
        assert i == |args| - 1;
      }
    }
  }

  function Reverse<T>(s: seq<T>): (r: seq<T>)
    ensures |r| == |s|
  {
    if s == [] then [] else Reverse(s[1..]) + [s[0]]
  }

  lemma {:induction false} ReverseAppend<T>(a: seq<T>, b: seq<T>)
    ensures Reverse(a + b) == Reverse(b) + Reverse(a)
    decreases |a|
  {
    if a == [] {
      assert a + b == b;
    } else {
      assert (a + b)[1..] == a[1..] + b;
      ReverseAppend(a[1..], b);
    }
  }

  /** A duplicate-free sequence has as many distinct elements as it is long. */
  lemma {:induction false} DistinctCard<T>(s: seq<T>)
    requires Distinct(s)
    ensures |set x | x in s| == |s|
    decreases |s|
  {
    if s != [] {
      var init := s[..|s| - 1];
      assert Distinct(init);
      DistinctCard(init);
      assert (set x | x in s) == (set x | x in init) + {s[|s| - 1]} by {
        assert s == init + [s[|s| - 1]];
      }
      assert s[|s| - 1] !in init;
    }
  }

  /**
   * `setdefault` as written: the `try` block only looks `key` up in
   * `reserve`, and when that succeeds the method ends without a `return`,
   * so it returns None; a key outside `reserve` goes to `d.setdefault`.
   * None is the first component's `None`; `Some(v)` is a returned `v`.
   */
  function SetDefaultAsWritten<K(==), V>(d: Dict<K, V>, reserve: Dict<K, V>, key: K, value: V): (r: (Dict<K, V>, Option<V>))
    ensures key in reserve.entries ==> r == (d, None)
    ensures key !in reserve.entries ==>
      && r.1.Some?
      && (key in d.entries ==> r.0 == d && r.1.value == d.entries[key])
      && (key !in d.entries ==> r.0.entries == d.entries[key := value] && r.1.value == value)
  {
    if key in reserve.entries then (d, None)
    else
      var (d', v) := Dicts.SetDefault(d, key, value);
      (d', Some(v))
  }

  /**
   * The discrepancy: for a key only `reserve` holds, the mapping holds a
   * value for the key, but `setdefault` returns None instead of it.
   */
  lemma SetDefaultAsWrittenHidesReserveValue()
    ensures var reserve: Dict<int, int> := RawDict([1], map[1 := 2]);
      && 1 in Overlay(Empty(), reserve) && Overlay(Empty(), reserve)[1] == 2
      && SetDefaultAsWritten(Empty(), reserve, 1, 3).1 == None
  {
  }

  /**
   * `setdefault` as evidently intended, `dict.setdefault` on the combined
   * mapping: `self[key]` when the key is present (`d` first, then
   * `reserve`), otherwise `d.setdefault(key, value)`.
   */
  function SetDefaultIntended<K(==), V>(d: Dict<K, V>, reserve: Dict<K, V>, key: K, value: V): (r: (Dict<K, V>, V)) {
    if key !in d.entries && key in reserve.entries then (d, reserve.entries[key])
    else Dicts.SetDefault(d, key, value)
  }

  /**
   * The intended `setdefault` returns the value the combined mapping holds
   * for `key` afterwards, and changes the mapping only by adding `key` with
   * `value` when it was absent.
   */
  lemma SetDefaultIntendedIsLookupOrInsert<K, V>(d: Dict<K, V>, reserve: Dict<K, V>, key: K, value: V)
    ensures var (d', v) := SetDefaultIntended(d, reserve, key, value);
      && key in Overlay(d', reserve) && Overlay(d', reserve)[key] == v
      && (key in Overlay(d, reserve) ==> Overlay(d', reserve) == Overlay(d, reserve))
      && (key !in Overlay(d, reserve) ==> Overlay(d', reserve) == Overlay(d, reserve)[key := value])
  {
    var (d', v) := SetDefaultIntended(d, reserve, key, value);
    if key !in Overlay(d, reserve) {
      OverlayAfterInsert(reserve.entries, d.entries, key, value);
    }
  }

  lemma OverlayAfterInsert<K, V>(r: map<K, V>, d: map<K, V>, k: K, v: V)
    ensures r + d[k := v] == (r + d)[k := v]
  {
  }

  class ReserveDict<K(==), V(==)> {
    /** The mutable tier: the very dict object passed to `fromdicts`. */
    var d: PyDict<K, V>
    /** The fallback tier, owned by this object. */
    var reserve: Dict<K, V>

    /** The two tiers are disjoint. */
    predicate Valid()
      reads this, d
    {
      Disjoint(d.contents, reserve)
    }

    function Merged(): map<K, V>
      reads this, d
    {
      Overlay(d.contents, reserve)
    }

    /**
     * `fromdicts(d, reserve)`: takes `d` itself as the mutable tier and keeps
     * only the reserve entries whose key is not in `d`.
     */
    constructor FromDicts(d: PyDict<K, V>, reserve: Dict<K, V>)
      ensures this.d == d && this.reserve == Without(reserve, d.contents.entries.Keys)
      ensures Valid()
      ensures Merged() == reserve.entries + d.contents.entries
    {
      this.d := d;
      this.reserve := Without(reserve, d.contents.entries.Keys);
      new;
      assert Merged() == reserve.entries + d.contents.entries;
    }

    /** `fromkeys(keys, value)`: a fresh mutable tier holding every key, an empty reserve. */
    constructor FromKeys(keys: seq<K>, value: V)
      ensures fresh(d) && d.contents == Dicts.FromKeys(keys, value)
      ensures reserve == Empty() && Valid()
    {
      d := new PyDict(Dicts.FromKeys(keys, value));
      reserve := Empty();
    }

    method Clear()
      modifies this, d
      ensures d == old(d) && d.contents == Empty() && reserve == Empty()
      ensures Valid()
    {
      d.Clear();
      reserve := Empty();
    }

    /**
     * A new ReserveDict over copies of both tiers, built by `fromdicts`: equal,
     * sharing no state, and disjoint even when a write through the shared `d`
     * left a key in both tiers of this one.
     */
    method Copy() returns (c: ReserveDict<K, V>)
      ensures fresh(c) && fresh(c.d)
      ensures c.d.contents == d.contents && c.reserve == Without(reserve, d.contents.entries.Keys)
      ensures Valid() ==> c.reserve == reserve
      ensures c.Valid() && c.Merged() == Merged()
    {
      var d' := new PyDict(d.contents);
      c := new ReserveDict.FromDicts(d', reserve);
      if Valid() {
        assert reserve.entries - d.contents.entries.Keys == reserve.entries;
        KeepNotInDisjoint(reserve.order, d.contents.entries.Keys);
      }
    }

    /** `get(key, default)`: the `d` value, else the `reserve` value, else `default`. */
    function Get(key: K, default: V): (r: V)
      reads this, d
      ensures r == if key in Merged() then Merged()[key] else default
    {
      if key in d.contents.entries then d.contents.entries[key]
      else if key in reserve.entries then reserve.entries[key]
      else default
    }

    /** `self[key]`. */
    function GetItem(key: K): (r: Result<V>)
      reads this, d
      ensures r.Ok? <==> key in Merged()
      ensures r.Ok? ==> r.value == Merged()[key]
      ensures r.Err? ==> r.error == KeyError
    {
      if key in d.contents.entries then Ok(d.contents.entries[key])
      else if key in reserve.entries then Ok(reserve.entries[key])
      else Err(KeyError)
    }

    /** `key in self`. */
    function Contains(key: K): (r: bool)
      reads this, d
      ensures r <==> key in Merged()
    {
      key in d.contents.entries || key in reserve.entries
    }

    /** `self == other` for a plain dict `other`: compares the merged view, regardless of order. */
    function Equals(other: Dict<K, V>): (r: bool)
      reads this, d
      ensures r <==> other.entries == Merged()
    {
      var tmp := Dicts.Update(Dicts.Update(Empty(), reserve), d.contents);
      UpdatesGiveOverlay(d.contents, reserve);
      tmp.entries == other.entries
    }

    /** `iter(self)`: the `reserve` keys, then the `d` keys. */
    function Iter(): (r: seq<K>)
      reads this, d
      ensures Valid() ==> Distinct(r)
      ensures forall k :: k in r ==> k in Merged()
      ensures forall k :: k in Merged() ==> k in r
    {
      var r := reserve.order + d.contents.order;
      assert Valid() ==> Distinct(r) by {
        if Valid() {
          forall i, j | 0 <= i < j < |r| ensures r[i] != r[j] {
            if j >= |reserve.order| && i < |reserve.order| {
              assert r[i] in reserve.entries && r[j] in d.contents.entries;
            }
          }
        }
      }
      r
    }

    /** `len(self)`: the two tiers' sizes added, which for disjoint tiers is the number of keys. */
    function Len(): (n: nat)
      reads this, d
      ensures n == |Iter()|
      ensures Valid() ==> n == |Merged().Keys|
    {
      var n := |d.contents.order| + |reserve.order|;
      assert Valid() ==> n == |Merged().Keys| by {
        if Valid() {
          var it := Iter();
          DistinctCard(it);
          assert (set k | k in it) == Merged().Keys;
        }
      }
      n
    }

    /** `reversed(self)`: the `d` keys reversed, then the `reserve` keys reversed. */
    function Reversed(): (r: seq<K>)
      reads this, d
      ensures r == Reverse(Iter())
    {
      ReverseAppend(reserve.order, d.contents.order);
      Reverse(d.contents.order) + Reverse(reserve.order)
    }

    /** `keys()` / `items()` / `values()`: chain views over `reserve` then `d`. */
    function View(): (v: seq<Dict<K, V>>)
      reads this, d
      ensures v == [reserve, d.contents]
      ensures ChainKeys(v) == Iter() && ChainLen(v) == Len()
    {
      var v := [reserve, d.contents];
      assert v[..1][..0] == [] && v[..1] == [reserve];
      assert ChainKeys(v[..1]) == reserve.order;
      v
    }

    /** `pop(k)` when `default` is None, `pop(k, default)` otherwise. */
    method Pop(k: K, default: Option<V>) returns (r: Result<V>)
      modifies this, d
      ensures d == old(d)
      ensures old(k in d.contents.entries) ==>
        d.contents == Remove(old(d.contents), k) && reserve == old(reserve)
        && r == Ok(old(d.contents.entries[k]))
      ensures old(k !in d.contents.entries) ==>
        d.contents == old(d.contents) && (reserve, r) == Dicts.Pop(old(reserve), k, default)
      ensures old(Valid()) ==> Valid()
      ensures old(Valid()) && r.Ok? && old(k in Merged()) ==> Merged() == old(Merged()) - {k}
      ensures r.Err? <==> old(k !in Merged()) && default.None?
    {
      if k in d.contents.entries {
        if Valid() {
          DropFromD(d.contents, reserve, k);
        }
        r := Ok(d.contents.entries[k]);
        d.contents := Remove(d.contents, k);
      } else {
        if Valid() {
          DropFromReserve(d.contents, reserve, k);
        }
        var (reserve', result) := Dicts.Pop(reserve, k, default);
        reserve, r := reserve', result;
      }
    }

    /** `popitem()`: from `d` while it has entries, then from `reserve`. */
    method PopItem() returns (r: Result<(K, V)>)
      modifies this, d
      ensures d == old(d)
      ensures old(d.contents.order != []) ==>
        (d.contents, r) == Dicts.PopItem(old(d.contents)) && reserve == old(reserve)
      ensures old(d.contents.order == []) ==>
        (reserve, r) == Dicts.PopItem(old(reserve)) && d.contents == old(d.contents)
      ensures r.Err? <==> old(Merged()) == map[]
      ensures old(Valid()) ==> Valid()
    {
      PopItemIsLifo(d.contents);
      PopItemIsLifo(reserve);
      if d.contents.order != [] {
        var (contents', result) := Dicts.PopItem(d.contents);
        d.contents, r := contents', result;
      } else {
        var (reserve', result) := Dicts.PopItem(reserve);
        reserve, r := reserve', result;
      }
    }

    /**
     * `setdefault(key, value)`, as intended (see `SetDefaultAsWritten` for
     * the source's version): the value the mapping holds for `key`, else
     * `d.setdefault(key, value)`; `reserve` is never changed.
     */
    method SetDefault(key: K, value: V) returns (r: V)
      modifies d
      ensures (d.contents, r) == SetDefaultIntended(old(d.contents), reserve, key, value)
      ensures key in Merged() && Merged()[key] == r
      ensures old(Valid()) ==> Valid()
    {
      SetDefaultIntendedIsLookupOrInsert(d.contents, reserve, key, value);
      if key !in d.contents.entries && key in reserve.entries {
        r := reserve.entries[key];
      } else {
        var (contents', v) := Dicts.SetDefault(d.contents, key, value);
        d.contents, r := contents', v;
      }
    }

    /** `update(*args)`: each argument's keys go into `d` and leave `reserve`. */
    method Update(args: seq<Dict<K, V>>)
      modifies this, d
      ensures d == old(d)
      ensures d.contents == UpdateTiers(old(d.contents), old(reserve), args).0
      ensures reserve == UpdateTiers(old(d.contents), old(reserve), args).1
      ensures old(Valid()) ==> Valid() && Merged() == MergeAll(old(Merged()), args)
    {
      ghost var d0, reserve0 := d.contents, reserve;
      var i := 0;
      while i < |args|
        invariant 0 <= i <= |args| && d == old(d)
        invariant d.contents == UpdateTiers(d0, reserve0, args[..i]).0
        invariant reserve == UpdateTiers(d0, reserve0, args[..i]).1
      {
        // `tmp = {}; tmp.update(arg)` is a copy of the argument.
        var tmp := args[i];
        UpdateTiersStep(d0, reserve0, args, i);
        d.contents := Dicts.Update(d.contents, tmp);
        DropKeys(tmp.order);
        i := i + 1;
      }
      assert args[..i] == args;
      if old(Valid()) {
        UpdateTiersMerged(d0, reserve0, args);
      }
    }

    /** The inner loop of `update`: `self.reserve.pop(key, None)` for each key. */
    method DropKeys(keys: seq<K>)
      modifies this
      ensures d == old(d) && reserve == RemoveAll(old(reserve), keys)
    {
      var j := 0;
      while j < |keys|
        invariant 0 <= j <= |keys| && d == old(d)
        invariant reserve == RemoveAll(old(reserve), keys[..j])
      {
        assert keys[..j + 1][..j] == keys[..j];
        reserve := Remove(reserve, keys[j]);
        j := j + 1;
      }
      assert keys[..j] == keys;
    }

    /** `del self[key]`: from `d` if there, else from `reserve`, else KeyError. */
    method DelItem(key: K) returns (r: Result<()>)
      modifies this, d
      ensures d == old(d)
      ensures old(key in d.contents.entries) ==>
        d.contents == Remove(old(d.contents), key) && reserve == old(reserve)
      ensures old(key !in d.contents.entries) ==>
        (reserve, r) == Dicts.DelItem(old(reserve), key) && d.contents == old(d.contents)
      ensures r.Err? <==> old(key !in Merged())
      ensures old(Valid()) ==> Valid() && key !in Merged() && Merged() == old(Merged()) - {key}
    {
      if key in d.contents.entries {
        if Valid() {
          DropFromD(d.contents, reserve, key);
        }
        d.contents := Remove(d.contents, key);
        r := Ok(());
      } else {
        if Valid() {
          DropFromReserve(d.contents, reserve, key);
        }
        var (reserve', result) := Dicts.DelItem(reserve, key);
        reserve, r := reserve', result;
      }
    }

    /** `self[key] = value`: drops `key` from `reserve` and stores it in `d`. */
    method SetItem(key: K, value: V)
      modifies this, d
      ensures d == old(d)
      ensures d.contents == Set(old(d.contents), key, value)
      ensures reserve == Remove(old(reserve), key)
      ensures key !in reserve.entries && Merged() == old(Merged())[key := value]
      ensures old(Valid()) ==> Valid()
    {
      WriteToD(d.contents, reserve, key, value);
      reserve := Remove(reserve, key);
      d.contents := Set(d.contents, key, value);
    }
  }

  /** A key is in the `keys()` view of a ReserveDict exactly when it is in either tier. */
  lemma ViewHasKey<K, V>(d: Dict<K, V>, reserve: Dict<K, V>, key: K)
    ensures ChainHasKey([reserve, d], key) <==> key in Overlay(d, reserve)
  {
    ChainHasKeyIffIterated([reserve, d], key);
    assert [reserve, d][..1][..0] == [];
  }

  /** Filtering out keys that are not there changes nothing. */
  lemma {:induction false} KeepNotInDisjoint<K>(s: seq<K>, drop: set<K>)
    requires forall x :: x in s ==> x !in drop
    ensures KeepNotIn(s, drop) == s
    decreases |s|
  {
    if s != [] {
      KeepNotInDisjoint(s[1..], drop);
    }
  }
}
