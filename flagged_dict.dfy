/**
 * neval/flagged_dict.py: the FlaggedDict object, whose methods update its
 * contents and its `flags` dict in place. Each method is proved to leave the
 * object in the state that module FlaggedSpec gives for that call.
 */
module FlaggedDicts {
  import opened Dicts
  import FlaggedSpec

  class FlaggedDict<K(==), V> {
    var contents: Dict<K, V>
    var flags: Dict<K, ()>

    function State(): FlaggedSpec.Flagged<K, V>
      reads this
    {
      FlaggedSpec.Flagged(contents, flags)
    }

    /** `FlaggedDict(init, __flags__=flagKeys)`. */
    constructor (init: Dict<K, V>, flagKeys: seq<K>)
      ensures State() == FlaggedSpec.Init(init, flagKeys)
    {
      contents := init;
      flags := FromKeys(flagKeys, ());
    }

    method Clear()
      modifies this
      ensures State() == FlaggedSpec.Clear(old(State()))
    {
      contents := Empty();
      flags := Empty();
    }

    /** A new FlaggedDict with the same contents and the same flags, in the same order. */
    method Copy() returns (c: FlaggedDict<K, V>)
      ensures fresh(c) && c.State() == State()
    {
      c := new FlaggedDict(contents, flags.order);
      assert FromKeys(flags.order, ()) == flags by {
        SameKeysSameOrder(flags);
      }
    }

    /** `pop(k)` when `default` is None, `pop(k, default)` otherwise. */
    method Pop(k: K, default: Option<V>) returns (r: Result<V>)
      modifies this
      ensures (State(), r) == FlaggedSpec.Pop(old(State()), k, default)
    {
      flags := Remove(flags, k);
      var (contents', result) := Dicts.Pop(contents, k, default);
      contents, r := contents', result;
    }

    method PopItem() returns (r: Result<(K, V)>)
      modifies this
      ensures (State(), r) == FlaggedSpec.PopItem(old(State()))
    {
      var (contents', result) := Dicts.PopItem(contents);
      r := result;
      if result.Ok? {
        contents := contents';
        flags := Remove(flags, result.value.0);
      }
    }

    method SetDefault(k: K, d: V) returns (v: V)
      modifies this
      ensures (State(), v) == FlaggedSpec.SetDefault(old(State()), k, d)
    {
      if k !in contents.entries {
        flags := Set(flags, k, ());
      }
      var (contents', value) := Dicts.SetDefault(contents, k, d);
      contents, v := contents', value;
    }

    /** `update(positional, **kwargs)`: the loop flags the keyword keys one by one. */
    method Update(positional: Dict<K, V>, kwargs: Dict<K, V>)
      modifies this
      ensures State() == FlaggedSpec.Update(old(State()), positional, kwargs)
    {
      contents := Dicts.Update(Dicts.Update(contents, positional), kwargs);
      ghost var none := map k | k in kwargs.order :: ();
      var i := 0;
      while i < |kwargs.order|
        invariant 0 <= i <= |kwargs.order|
        invariant flags == SetAll(old(flags), kwargs.order[..i], none)
        invariant contents == Dicts.Update(Dicts.Update(old(contents), positional), kwargs)
      {
        assert kwargs.order[..i + 1][..i] == kwargs.order[..i];
        flags := Set(flags, kwargs.order[i], ());
        i := i + 1;
      }
      assert kwargs.order[..i] == kwargs.order;
    }

    method DelItem(k: K) returns (r: Result<()>)
      modifies this
      ensures (State(), r) == FlaggedSpec.DelItem(old(State()), k)
    {
      flags := Remove(flags, k);
      var (contents', result) := Dicts.DelItem(contents, k);
      contents, r := contents', result;
    }

    method SetItem(k: K, v: V)
      modifies this
      ensures State() == FlaggedSpec.SetItem(old(State()), k, v)
    {
      flags := Set(flags, k, ());
      contents := Set(contents, k, v);
    }
  }

  /** Rebuilding a flags dict from its own key order gives it back unchanged. */
  lemma SameKeysSameOrder<K>(flags: Dict<K, ()>)
    ensures FromKeys(flags.order, ()) == flags
  {
    var keys := flags.order;
    SetAllAppends(Empty(), keys, map k | k in keys :: ());
    var r := FromKeys(keys, ());
    assert r.entries.Keys == flags.entries.Keys;
    UnitMapsByKeys(r.entries, flags.entries);
  }

  /** Two maps to `()` with the same keys are equal. */
  lemma UnitMapsByKeys<K>(a: map<K, ()>, b: map<K, ()>)
    requires a.Keys == b.Keys
    ensures a == b
  {
    forall k | k in a
      ensures a[k] == b[k]
    {
    }
  }

}
