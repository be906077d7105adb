/**
 * The value semantics of a FlaggedDict (neval/flagged_dict.py): a dict plus a
 * side dict `flags` recording which keys were written through `__setitem__`,
 * `setdefault` or keyword `update`. One function per method of the class;
 * the class in module FlaggedDicts is proved against them.
 */
module FlaggedSpec {
  import opened Dicts

  /** A FlaggedDict's contents and its `flags` dict (whose values are all None). */
  datatype Flagged<K(==), V> = Flagged(contents: Dict<K, V>, flags: Dict<K, ()>)

  /** Every flagged key is present: `flags ⊆ keys`. */
  predicate Tracked<K(==), V>(s: Flagged<K, V>) {
    forall k :: k in s.flags.entries ==> k in s.contents.entries
  }

  /** `for k in keys: self.flags[k] = None`. */
  function FlagAll<K(==)>(flags: Dict<K, ()>, keys: seq<K>): (r: Dict<K, ()>)
    ensures r.entries.Keys == flags.entries.Keys + set k | k in keys
  {
    SetAllEntries(flags, keys, map k | k in keys :: ());
    SetAll(flags, keys, map k | k in keys :: ())
  }

  /** `FlaggedDict(init, __flags__=flagKeys)`: the flags are exactly the listed keys. */
  function Init<K(==), V>(init: Dict<K, V>, flagKeys: seq<K>): (r: Flagged<K, V>)
    ensures r.contents == init
    ensures r.flags.entries.Keys == set k | k in flagKeys
    ensures (forall k :: k in flagKeys ==> k in init.entries) ==> Tracked(r)
  {
    Flagged(init, FromKeys(flagKeys, ()))
  }

  /** `clear()` empties both the contents and the flags. */
  function Clear<K(==), V>(s: Flagged<K, V>): (r: Flagged<K, V>)
    ensures r.contents.entries == map[] && r.flags.entries == map[]
    ensures Tracked(r)
  {
    Flagged(Empty(), Empty())
  }

  /** `pop(k)` (default None) and `pop(k, d)`: the flag goes first, then the key. */
  function Pop<K(==), V>(s: Flagged<K, V>, k: K, default: Option<V>): (r: (Flagged<K, V>, Result<V>))
    ensures r.0.contents.entries == s.contents.entries - {k}
    ensures r.0.flags.entries.Keys == s.flags.entries.Keys - {k}
    ensures k in s.contents.entries ==> r.1 == Ok(s.contents.entries[k])
    ensures k !in s.contents.entries && default.Some? ==> r.1 == Ok(default.value)
    ensures k !in s.contents.entries && default.None? ==> r.1 == Err(KeyError)
    ensures Tracked(s) && k !in s.contents.entries ==> r.0 == s
    ensures Tracked(s) ==> Tracked(r.0)
  {
    var (contents', result) := Dicts.Pop(s.contents, k, default);
    if k !in s.flags.entries then
      RemoveAbsent(s.flags, k);
      (Flagged(contents', Remove(s.flags, k)), result)
    else (Flagged(contents', Remove(s.flags, k)), result)
  }

  /** `popitem()`: removes the most recently inserted key from the contents and the flags. */
  function PopItem<K(==), V>(s: Flagged<K, V>): (r: (Flagged<K, V>, Result<(K, V)>))
    ensures r.1.Err? <==> s.contents.entries == map[]
    ensures r.1.Err? ==> r.0 == s && r.1 == Err(KeyError)
    ensures r.1.Ok? ==>
      var (k, v) := r.1.value;
      && k == s.contents.order[|s.contents.order| - 1]
      && k in s.contents.entries && v == s.contents.entries[k]
      && r.0.contents.entries == s.contents.entries - {k}
      && r.0.flags.entries.Keys == s.flags.entries.Keys - {k}
    ensures Tracked(s) ==> Tracked(r.0)
  {
    PopItemIsLifo(s.contents);
    var (contents', result) := Dicts.PopItem(s.contents);
    if result.Err? then (s, result)
    else (Flagged(contents', Remove(s.flags, result.value.0)), result)
  }

  /** `setdefault(k, d)`: flags and inserts `k` only when it is absent. */
  function SetDefault<K(==), V>(s: Flagged<K, V>, k: K, d: V): (r: (Flagged<K, V>, V))
    ensures k in s.contents.entries ==> r == (s, s.contents.entries[k])
    ensures k !in s.contents.entries ==>
      && r.1 == d
      && r.0.contents.entries == s.contents.entries[k := d]
      && r.0.flags.entries.Keys == s.flags.entries.Keys + {k}
    ensures Tracked(s) ==> Tracked(r.0)
  {
    var flags' := if k !in s.contents.entries then Set(s.flags, k, ()) else s.flags;
    var (contents', value) := Dicts.SetDefault(s.contents, k, d);
    (Flagged(contents', flags'), value)
  }

  /**
   * `update(positional, **kwargs)`: both overwrite values, but only the
   * keyword keys become flagged.
   */
  function Update<K(==), V>(s: Flagged<K, V>, positional: Dict<K, V>, kwargs: Dict<K, V>): (r: Flagged<K, V>)
    ensures r.contents.entries == s.contents.entries + positional.entries + kwargs.entries
    ensures r.flags.entries.Keys == s.flags.entries.Keys + kwargs.entries.Keys
    ensures Tracked(s) ==> Tracked(r)
  {
    var contents' := Dicts.Update(Dicts.Update(s.contents, positional), kwargs);
    var flags' := FlagAll(s.flags, kwargs.order);
    KeysListed(kwargs);
    Flagged(contents', flags')
  }

  /** `del self[k]`: unflags, then deletes or raises KeyError. */
  function DelItem<K(==), V>(s: Flagged<K, V>, k: K): (r: (Flagged<K, V>, Result<()>))
    ensures r.0.contents.entries == s.contents.entries - {k}
    ensures r.0.flags.entries.Keys == s.flags.entries.Keys - {k}
    ensures r.1.Err? <==> k !in s.contents.entries
    ensures r.1.Err? ==> r.1.error == KeyError
    ensures Tracked(s) ==> Tracked(r.0)
  {
    var (contents', result) := Dicts.DelItem(s.contents, k);
    (Flagged(contents', Remove(s.flags, k)), result)
  }

  /** `self[k] = v`: stores the value and flags the key. */
  function SetItem<K(==), V>(s: Flagged<K, V>, k: K, v: V): (r: Flagged<K, V>)
    ensures r.contents.entries == s.contents.entries[k := v]
    ensures r.flags.entries.Keys == s.flags.entries.Keys + {k}
    ensures Tracked(s) ==> Tracked(r)
  {
    Flagged(Set(s.contents, k, v), Set(s.flags, k, ()))
  }

  /** One call the executed fragment makes on its namespace. */
  datatype Op<K(==), V> =
    | SetItemOp(key: K, value: V)
    | DelItemOp(key: K)
    | PopOp(key: K, default: Option<V>)
    | PopItemOp
    | SetDefaultOp(key: K, value: V)
    | UpdateOp(positional: Dict<K, V>, kwargs: Dict<K, V>)
    | ClearOp

  /** The state after one call; what the call returned or raised is not kept. */
  function Step<K(==), V>(s: Flagged<K, V>, op: Op<K, V>): (r: Flagged<K, V>)
    ensures Tracked(s) ==> Tracked(r)
  {
    match op
    case SetItemOp(k, v) => SetItem(s, k, v)
    case DelItemOp(k) => DelItem(s, k).0
    case PopOp(k, d) => Pop(s, k, d).0
    case PopItemOp => PopItem(s).0
    case SetDefaultOp(k, d) => SetDefault(s, k, d).0
    case UpdateOp(p, kw) => Update(s, p, kw)
    case ClearOp => Clear(s)
  }

  /** The state after a sequence of calls, made in order. */
  function Run<K(==), V>(s: Flagged<K, V>, ops: seq<Op<K, V>>): (r: Flagged<K, V>)
    ensures Tracked(s) ==> Tracked(r)
    decreases |ops|
  {
    if ops == [] then s else Step(Run(s, ops[..|ops| - 1]), ops[|ops| - 1])
  }

  /** The call can add `k` to the flags. */
  predicate MayFlag<K(==), V>(op: Op<K, V>, k: K) {
    match op
    case SetItemOp(k', _) => k' == k
    case SetDefaultOp(k', _) => k' == k
    case UpdateOp(_, kw) => k in kw.entries
    case _ => false
  }

  /** The call can change whether `k` is present, its value or its flag. */
  predicate Touches<K(==), V>(op: Op<K, V>, k: K) {
    match op
    case SetItemOp(k', _) => k' == k
    case DelItemOp(k') => k' == k
    case PopOp(k', _) => k' == k
    case PopItemOp => true
    case SetDefaultOp(k', _) => k' == k
    case UpdateOp(p, kw) => k in p.entries || k in kw.entries
    case ClearOp => true
  }

  /** One more call after a prefix of the calls. */
  lemma RunPrefixStep<K, V>(s: Flagged<K, V>, ops: seq<Op<K, V>>, i: int)
    requires 0 <= i < |ops|
    ensures Run(s, ops[..i + 1]) == Step(Run(s, ops[..i]), ops[i])
  {
    assert ops[..i + 1][..i] == ops[..i];
  }

  lemma {:induction false} RunAppend<K, V>(s: Flagged<K, V>, a: seq<Op<K, V>>, b: seq<Op<K, V>>)
    ensures Run(s, a + b) == Run(Run(s, a), b)
    decreases |b|
  {
    if b == [] {
      assert a + b == a;
    } else {
      RunAppend(s, a, b[..|b| - 1]);
      assert (a + b)[..|a + b| - 1] == a + b[..|b| - 1];
    }
  }

  /**
   * A key that is not flagged stays unflagged through calls none of which can
   * flag it: positional `update` writes (how the read-only namespace is merged
   * in) never flag.
   */
  lemma {:induction false} UnflaggedStaysUnflagged<K, V>(s: Flagged<K, V>, ops: seq<Op<K, V>>, k: K)
    requires k !in s.flags.entries
    requires forall i :: 0 <= i < |ops| ==> !MayFlag(ops[i], k)
    ensures k !in Run(s, ops).flags.entries
    decreases |ops|
  {
    if ops != [] {
      UnflaggedStaysUnflagged(s, ops[..|ops| - 1], k);
      StepKeepsUnflagged(Run(s, ops[..|ops| - 1]), ops[|ops| - 1], k);
    }
  }

  lemma StepKeepsUnflagged<K, V>(s: Flagged<K, V>, op: Op<K, V>, k: K)
    requires k !in s.flags.entries && !MayFlag(op, k)
    ensures k !in Step(s, op).flags.entries
  {
  }

  lemma StepKeepsUntouched<K, V>(s: Flagged<K, V>, op: Op<K, V>, k: K)
    requires !Touches(op, k)
    ensures k in Step(s, op).contents.entries <==> k in s.contents.entries
    ensures k in s.contents.entries ==> Step(s, op).contents.entries[k] == s.contents.entries[k]
    ensures k in Step(s, op).flags.entries <==> k in s.flags.entries
  {
  }

  /** Calls that do not touch `k` leave its presence, value and flag as they were. */
  lemma {:induction false} UntouchedKeyUnchanged<K, V>(s: Flagged<K, V>, ops: seq<Op<K, V>>, k: K)
    requires forall i :: 0 <= i < |ops| ==> !Touches(ops[i], k)
    ensures k in Run(s, ops).contents.entries <==> k in s.contents.entries
    ensures k in s.contents.entries ==> Run(s, ops).contents.entries[k] == s.contents.entries[k]
    ensures k in Run(s, ops).flags.entries <==> k in s.flags.entries
    decreases |ops|
  {
    if ops != [] {
      UntouchedKeyUnchanged(s, ops[..|ops| - 1], k);
      StepKeepsUntouched(Run(s, ops[..|ops| - 1]), ops[|ops| - 1], k);
    }
  }

  /**
   * Deleting a key and writing it again leaves it present and flagged with the
   * new value, whatever came before and whatever later calls leave it alone:
   * the final state records it as changed, not deleted.
   */
  lemma DeleteThenWriteIsChange<K, V>(
    s: Flagged<K, V>, before: seq<Op<K, V>>, k: K, v: V, after: seq<Op<K, V>>)
    requires forall i :: 0 <= i < |after| ==> !Touches(after[i], k)
    ensures var r := Run(s, before + [DelItemOp(k), SetItemOp(k, v)] + after);
      && k in r.contents.entries && r.contents.entries[k] == v
      && k in r.flags.entries
  {
    var mid := before + [DelItemOp(k), SetItemOp(k, v)];
    RunAppend(s, mid, after);
    RunAppend(s, before, [DelItemOp(k), SetItemOp(k, v)]);
    UntouchedKeyUnchanged(Run(s, mid), after, k);
  }
}
