/**
 * What one call of the evaluator promises its caller, proved about
 * `EvaluationSpec.Evaluation`: which keys reach the caller's mapping, with
 * which values, and what the call returns. Each property is first proved
 * about the execution namespace at the `finally` block (`FinalState`), then
 * carried to the call through `EvaluationSpec.EvaluationNamespace` and
 * `EvaluationSpec.EvaluationOutcome`.
 */
module EvaluationProperties {
  import opened Dicts
  import FlaggedSpec
  import opened Capture
  import opened EvaluationSpec

  /** Every call the executed statements make leaves `k` unflagged. */
  predicate NeverFlags(ops: seq<NsOp>, k: string) {
    forall i :: 0 <= i < |ops| ==> !FlaggedSpec.MayFlag(ops[i], k)
  }

  /** No call the executed statements make changes `k`. */
  predicate NeverTouches(ops: seq<NsOp>, k: string) {
    forall i :: 0 <= i < |ops| ==> !FlaggedSpec.Touches(ops[i], k)
  }

  /** The calls on the namespace when the fragment compiled; none otherwise. */
  function ExecutedOps(fragment: Fragment, host: Host, slot: string): seq<NsOp> {
    if CompileFailure(fragment, host, slot).Some? then []
    else Executed(Rewritten(fragment, host, slot).value, host.execution)
  }

  /** The namespace the executed calls start from: the set-up, with `__builtins__` injected when `exec` runs. */
  function Start(fragment: Fragment, caller: Namespace, readonly: Namespace, slot: string, host: Host): State {
    var s0 := SetUp(caller, readonly);
    if CompileFailure(fragment, host, slot).Some? then s0 else Inject(s0, host.builtins)
  }

  /** The execution namespace at the `finally` block, reached from the start by the executed calls. */
  lemma FinalStateIsRun(fragment: Fragment, caller: Namespace, readonly: Namespace, slot: string, host: Host)
    ensures FinalState(fragment, caller, readonly, slot, host)
      == FlaggedSpec.Run(Start(fragment, caller, readonly, slot, host), ExecutedOps(fragment, host, slot))
  {
  }

  /** A fragment that parsed and compiled runs inside the `try` block, and fails only by raising. */
  lemma Compiled(fragment: Fragment, host: Host, slot: string)
    requires Body(fragment, host).Some? && host.compileError.None?
    ensures !FailsBeforeTry(fragment, host) && CompileFailure(fragment, host, slot).None?
    ensures Failure(fragment, host, slot)
      == if host.execution.ending.Raised? then Some(host.execution.ending.error) else None
  {
  }

  /** `Run` of calls followed by one more is that call applied last. */
  lemma RunSnoc(s: State, ops: seq<NsOp>, op: NsOp)
    ensures FlaggedSpec.Run(s, ops + [op]) == FlaggedSpec.Step(FlaggedSpec.Run(s, ops), op)
  {
    assert (ops + [op])[..|ops + [op]| - 1] == ops;
  }

  /** A stored key keeps its flag and its value through calls that leave it alone. */
  lemma WriteSurvives(s: State, before: seq<NsOp>, k: string, v: Value, after: seq<NsOp>)
    requires NeverTouches(after, k)
    ensures var r := FlaggedSpec.Run(s, before + [FlaggedSpec.SetItemOp(k, v)] + after);
      k in r.flags.entries && k in r.contents.entries && r.contents.entries[k] == v
  {
    var write := before + [FlaggedSpec.SetItemOp(k, v)];
    FlaggedSpec.RunAppend(s, write, after);
    RunSnoc(s, before, FlaggedSpec.SetItemOp(k, v));
    FlaggedSpec.UntouchedKeyUnchanged(FlaggedSpec.Run(s, write), after, k);
  }

  // ---- the execution namespace at the `finally` block ----

  /** A key the caller lacked, and that no executed call flags, is unflagged at the end. */
  lemma ReadonlyKeyStaysUnflagged(fragment: Fragment, caller: Namespace, readonly: Namespace, slot: string, host: Host, k: string)
    requires k !in caller.entries
    requires NeverFlags(ExecutedOps(fragment, host, slot), k)
    ensures k !in FinalState(fragment, caller, readonly, slot, host).flags.entries
  {
    FinalStateIsRun(fragment, caller, readonly, slot, host);
    FlaggedSpec.UnflaggedStaysUnflagged(Start(fragment, caller, readonly, slot, host), ExecutedOps(fragment, host, slot), k);
  }

  /** A caller key that no executed call touches is still flagged and holds its set-up value at the end. */
  lemma UntouchedCallerKeyKept(fragment: Fragment, caller: Namespace, readonly: Namespace, slot: string, host: Host, k: string)
    requires k in caller.entries
    requires NeverTouches(ExecutedOps(fragment, host, slot), k)
    ensures var s := FinalState(fragment, caller, readonly, slot, host);
      && k in s.flags.entries && k in s.contents.entries
      && s.contents.entries[k] == if k in readonly.entries then readonly.entries[k] else caller.entries[k]
  {
    var s0 := SetUp(caller, readonly);
    var s1 := Start(fragment, caller, readonly, slot, host);
    assert s1 == s0 || k != Builtins;
    FinalStateIsRun(fragment, caller, readonly, slot, host);
    FlaggedSpec.UntouchedKeyUnchanged(s1, ExecutedOps(fragment, host, slot), k);
  }

  /** A fragment ending in an expression that completes leaves the expression's value in the slot. */
  lemma CaptureStored(fragment: Fragment, caller: Namespace, readonly: Namespace, slot: string, host: Host, v: Value)
    requires Body(fragment, host).Some? && EndsInExpr(Body(fragment, host).value)
    requires host.compileError.None? && host.execution.ending == Completed(v)
    ensures var s := FinalState(fragment, caller, readonly, slot, host);
      slot in s.contents.entries && s.contents.entries[slot] == v
  {
    var ops := host.execution.ops;
    assert ExecutedOps(fragment, host, slot) == ops + [FlaggedSpec.SetItemOp(slot, v)];
    FinalStateIsRun(fragment, caller, readonly, slot, host);
    RunSnoc(Start(fragment, caller, readonly, slot, host), ops, FlaggedSpec.SetItemOp(slot, v));
  }

  /** Without a final expression, and with nothing else writing the fresh slot, the slot is empty at the end. */
  lemma SlotStaysEmpty(fragment: Fragment, caller: Namespace, readonly: Namespace, slot: string, host: Host)
    requires Body(fragment, host).Some? && !EndsInExpr(Body(fragment, host).value)
    requires slot !in caller.entries && slot !in readonly.entries && slot != Builtins
    requires NeverTouches(host.execution.ops, slot)
    requires var body := Body(fragment, host).value;
      body != [] && body[|body| - 1].Assign? ==> body[|body| - 1].target != slot
    ensures slot !in FinalState(fragment, caller, readonly, slot, host).contents.entries
  {
    var executed := ExecutedOps(fragment, host, slot);
    assert NeverTouches(executed, slot) by {
      if executed != [] && executed != host.execution.ops {
        assert executed == host.execution.ops + [executed[|executed| - 1]];
      }
    }
    FinalStateIsRun(fragment, caller, readonly, slot, host);
    FlaggedSpec.UntouchedKeyUnchanged(Start(fragment, caller, readonly, slot, host), executed, slot);
  }

  /** A key stored before the fragment raised, and left alone afterwards, is flagged with that value at the end. */
  lemma StoredKeyKept(
    fragment: Fragment, caller: Namespace, readonly: Namespace, slot: string, host: Host,
    before: seq<NsOp>, k: string, v: Value, after: seq<NsOp>)
    requires Body(fragment, host).Some? && host.compileError.None?
    requires host.execution.ending.Raised?
    requires host.execution.ops == before + [FlaggedSpec.SetItemOp(k, v)] + after
    requires NeverTouches(after, k)
    ensures var s := FinalState(fragment, caller, readonly, slot, host);
      k in s.flags.entries && k in s.contents.entries && s.contents.entries[k] == v
  {
    assert ExecutedOps(fragment, host, slot) == host.execution.ops;
    FinalStateIsRun(fragment, caller, readonly, slot, host);
    WriteSurvives(Start(fragment, caller, readonly, slot, host), before, k, v, after);
  }

  /** A fragment ending in an assignment that completes leaves the assigned value, flagged, under the target. */
  lemma FinalAssignmentStored(fragment: Fragment, caller: Namespace, readonly: Namespace, slot: string, host: Host, v: Value)
    requires Body(fragment, host).Some? && Body(fragment, host).value != []
    requires Body(fragment, host).value[|Body(fragment, host).value| - 1].Assign?
    requires host.compileError.None? && host.execution.ending == Completed(v)
    ensures var target := Body(fragment, host).value[|Body(fragment, host).value| - 1].target;
      var s := FinalState(fragment, caller, readonly, slot, host);
      target in s.flags.entries && target in s.contents.entries && s.contents.entries[target] == v
  {
    var body := Body(fragment, host).value;
    var target := body[|body| - 1].target;
    assert Rewritten(fragment, host, slot).value == body;
    var ops := host.execution.ops;
    assert ExecutedOps(fragment, host, slot) == ops + [FlaggedSpec.SetItemOp(target, v)];
    FinalStateIsRun(fragment, caller, readonly, slot, host);
    RunSnoc(Start(fragment, caller, readonly, slot, host), ops, FlaggedSpec.SetItemOp(target, v));
  }

  /** When compiling fails nothing runs: the flags are the caller's keys in the caller's order. */
  lemma NothingRunsOnCompileFailure(fragment: Fragment, caller: Namespace, readonly: Namespace, slot: string, host: Host)
    requires CompileFailure(fragment, host, slot).Some?
    ensures var s := FinalState(fragment, caller, readonly, slot, host);
      && s.flags.order == caller.order
      && s.contents.entries == caller.entries + readonly.entries
  {
    var s := SetUp(caller, readonly);
    assert s.flags.order == caller.order by {
      var init := FlaggedSpec.Init(caller, caller.order);
      SetAllAppends(Empty(), caller.order, map k | k in caller.order :: ());
      assert s.flags == init.flags;
    }
  }

  // ---- the call ----

  /**
   * A key the caller did not have is never written back unless some call of
   * the fragment flags it: the read-only namespace, merged in by positional
   * `update`, stays invisible to the caller.
   */
  lemma ReadonlyOnlyKeyNotWrittenBack(
    variant: Variant, fragment: Fragment, caller: Namespace, readonly: Namespace,
    slot: string, filename: string, host: Host, k: string)
    requires k !in caller.entries
    requires NeverFlags(ExecutedOps(fragment, host, slot), k)
    ensures k !in Evaluation(variant, fragment, caller, readonly, slot, filename, host).namespace.entries
  {
    if !FailsBeforeTry(fragment, host) {
      ReadonlyKeyStaysUnflagged(fragment, caller, readonly, slot, host, k);
      EvaluationNamespace(variant, fragment, caller, readonly, slot, filename, host);
    }
  }

  /**
   * The capture slot never reaches the caller once the `try` block is
   * entered, and neither does the `__builtins__` entry that `exec` injects.
   */
  lemma SlotAndBuiltinsNotWrittenBack(
    variant: Variant, fragment: Fragment, caller: Namespace, readonly: Namespace,
    slot: string, filename: string, host: Host)
    ensures var ns := Evaluation(variant, fragment, caller, readonly, slot, filename, host).namespace;
      && (!FailsBeforeTry(fragment, host) ==> slot !in ns.entries)
      && (Builtins !in caller.entries ==> Builtins !in ns.entries)
  {
    if !FailsBeforeTry(fragment, host) {
      EvaluationNamespace(variant, fragment, caller, readonly, slot, filename, host);
    }
  }

  /**
   * A caller key that the fragment leaves alone is written back with the
   * value the execution namespace gave it: the read-only value when the
   * read-only namespace shares the key, the caller's own otherwise.
   */
  lemma UntouchedCallerKeyWrittenBack(
    variant: Variant, fragment: Fragment, caller: Namespace, readonly: Namespace,
    slot: string, filename: string, host: Host, k: string)
    requires !FailsBeforeTry(fragment, host)
    requires k in caller.entries && k != slot
    requires NeverTouches(ExecutedOps(fragment, host, slot), k)
    ensures var ns := Evaluation(variant, fragment, caller, readonly, slot, filename, host).namespace;
      && k in ns.entries
      && ns.entries[k] == if k in readonly.entries then readonly.entries[k] else caller.entries[k]
  {
    UntouchedCallerKeyKept(fragment, caller, readonly, slot, host, k);
    EvaluationNamespace(variant, fragment, caller, readonly, slot, filename, host);
  }

  /**
   * A fragment ending in an expression that runs to completion returns that
   * expression's value.
   */
  lemma ReturnsCapturedValue(
    variant: Variant, fragment: Fragment, caller: Namespace, readonly: Namespace,
    slot: string, filename: string, host: Host, v: Value)
    requires Body(fragment, host).Some? && EndsInExpr(Body(fragment, host).value)
    requires host.compileError.None? && host.execution.ending == Completed(v)
    ensures Evaluation(variant, fragment, caller, readonly, slot, filename, host).outcome == Returned(v)
  {
    CaptureStored(fragment, caller, readonly, slot, host, v);
    Compiled(fragment, host, slot);
    EvaluationOutcome(variant, fragment, caller, readonly, slot, filename, host);
  }

  /**
   * A fragment whose last statement is not an expression returns None when
   * it completes, provided nothing else writes the fresh capture slot.
   */
  lemma UncapturedReturnsNone(
    variant: Variant, fragment: Fragment, caller: Namespace, readonly: Namespace,
    slot: string, filename: string, host: Host)
    requires Body(fragment, host).Some? && !EndsInExpr(Body(fragment, host).value)
    requires host.compileError.None? && host.execution.ending.Completed?
    requires slot !in caller.entries && slot !in readonly.entries && slot != Builtins
    requires NeverTouches(host.execution.ops, slot)
    requires var body := Body(fragment, host).value;
      body != [] && body[|body| - 1].Assign? ==> body[|body| - 1].target != slot
    ensures Evaluation(variant, fragment, caller, readonly, slot, filename, host).outcome == Returned(NoneVal)
  {
    SlotStaysEmpty(fragment, caller, readonly, slot, host);
    Compiled(fragment, host, slot);
    EvaluationOutcome(variant, fragment, caller, readonly, slot, filename, host);
  }

  /**
   * Writes made before the fragment raised are still committed: a key
   * stored and not touched afterwards reaches the caller with the stored
   * value, while the call itself raises.
   */
  lemma MutationsCommittedOnError(
    variant: Variant, fragment: Fragment, caller: Namespace, readonly: Namespace,
    slot: string, filename: string, host: Host,
    before: seq<NsOp>, k: string, v: Value, after: seq<NsOp>)
    requires Body(fragment, host).Some? && host.compileError.None?
    requires host.execution.ending.Raised?
    requires host.execution.ops == before + [FlaggedSpec.SetItemOp(k, v)] + after
    requires NeverTouches(after, k)
    requires k != slot && (k == Builtins ==> Builtins in caller.entries)
    ensures var r := Evaluation(variant, fragment, caller, readonly, slot, filename, host);
      && k in r.namespace.entries && r.namespace.entries[k] == v
      && !r.outcome.Returned?
  {
    StoredKeyKept(fragment, caller, readonly, slot, host, before, k, v, after);
    Compiled(fragment, host, slot);
    EvaluationNamespace(variant, fragment, caller, readonly, slot, filename, host);
    EvaluationOutcome(variant, fragment, caller, readonly, slot, filename, host);
  }

  /**
   * A `BaseException` that is not an `Exception` (`SystemExit`,
   * `KeyboardInterrupt`) escapes `except Exception`: it is re-raised as it
   * is, with no line lookup and no note, while the `finally` write-back still
   * runs (`MutationsCommittedOnError` holds for it as for any exception).
   */
  lemma InterruptPassesThrough(
    variant: Variant, fragment: Fragment, caller: Namespace, readonly: Namespace,
    slot: string, filename: string, host: Host, e: PyException)
    requires Body(fragment, host).Some? && host.compileError.None?
    requires host.execution.ending == Raised(e) && e.Interrupt?
    ensures Evaluation(variant, fragment, caller, readonly, slot, filename, host).outcome == Threw(e, None)
  {
    Compiled(fragment, host, slot);
  }

  /**
   * Evaluating a tree a second time: the first call rewrote its last
   * expression into an assignment to that call's slot `oldSlot`, so the
   * second call captures nothing. The assignment runs through `__setitem__`
   * and is flagged, and only the new slot is popped, so `oldSlot` is
   * written back into the caller's mapping; the call returns None when
   * nothing else writes the new slot.
   */
  lemma ReEvaluationWritesBackOldSlot(
    variant: Variant, body: seq<Stmt>, oldSlot: string, caller: Namespace, readonly: Namespace,
    slot: string, filename: string, host: Host, v: Value)
    requires EndsInExpr(body) && oldSlot != slot && oldSlot != Builtins
    requires host.compileError.None? && host.execution.ending == Completed(v)
    ensures var r := Evaluation(variant, Ast(CaptureLast(body, oldSlot)), caller, readonly, slot, filename, host);
      oldSlot in r.namespace.entries && r.namespace.entries[oldSlot] == v
    ensures (slot !in caller.entries && slot !in readonly.entries && slot != Builtins
             && NeverTouches(host.execution.ops, slot)) ==>
      Evaluation(variant, Ast(CaptureLast(body, oldSlot)), caller, readonly, slot, filename, host).outcome
      == Returned(NoneVal)
  {
    var fragment := Ast(CaptureLast(body, oldSlot));
    FinalAssignmentStored(fragment, caller, readonly, slot, host, v);
    Compiled(fragment, host, slot);
    EvaluationNamespace(variant, fragment, caller, readonly, slot, filename, host);
    if slot !in caller.entries && slot !in readonly.entries && slot != Builtins && NeverTouches(host.execution.ops, slot) {
      UncapturedReturnsNone(variant, fragment, caller, readonly, slot, filename, host);
    }
  }

  /**
   * When compiling fails (a SyntaxError included) nothing runs: the caller
   * gets back its own keys in its own order, each with the value of the
   * execution namespace, and the call raises.
   */
  lemma CompileFailureRestoresCaller(
    variant: Variant, fragment: Fragment, caller: Namespace, readonly: Namespace,
    slot: string, filename: string, host: Host)
    requires !FailsBeforeTry(fragment, host) && CompileFailure(fragment, host, slot).Some?
    requires slot !in caller.entries
    ensures var r := Evaluation(variant, fragment, caller, readonly, slot, filename, host);
      && r.namespace.order == caller.order
      && (forall k :: k in r.namespace.entries ==>
            r.namespace.entries[k] == if k in readonly.entries then readonly.entries[k] else caller.entries[k])
      && !r.outcome.Returned?
  {
    NothingRunsOnCompileFailure(fragment, caller, readonly, slot, host);
    EvaluationNamespace(variant, fragment, caller, readonly, slot, filename, host);
    EvaluationOutcome(variant, fragment, caller, readonly, slot, filename, host);
  }

  // ---- an example from tests/test_runcode.py ----

  /** Running two stores is storing one, then the other. */
  lemma TwoStores<K, V>(s: FlaggedSpec.Flagged<K, V>, a: K, x: V, b: K, y: V)
    ensures FlaggedSpec.Run(s, [FlaggedSpec.SetItemOp(a, x), FlaggedSpec.SetItemOp(b, y)])
      == FlaggedSpec.SetItem(FlaggedSpec.SetItem(s, a, x), b, y)
  {
    var first, second := FlaggedSpec.SetItemOp(a, x), FlaggedSpec.SetItemOp(b, y);
    assert FlaggedSpec.Run(s, [first]) == FlaggedSpec.SetItem(s, a, x) by {
      assert [first][..0] == [];
    }
    assert [first, second][..1] == [first];
  }

  /** Two stores from a start with nothing flagged flag exactly those two keys. */
  lemma TwoStoresFlagged<K, V>(s: FlaggedSpec.Flagged<K, V>, a: K, x: V, b: K, y: V)
    requires s.flags.entries.Keys == {}
    requires a != b
    ensures var r := FlaggedSpec.SetItem(FlaggedSpec.SetItem(s, a, x), b, y);
      && r.flags.entries.Keys == {a, b}
      && r.contents.entries.Keys == s.contents.entries.Keys + {a, b}
      && r.contents.entries[a] == x && r.contents.entries[b] == y
  {
  }

  /**
   * Removing two other keys from a pair leaves it whole. Kept apart from
   * `TwoAssignmentsWrittenBack` because the fact costs far less stated generically.
   */
  lemma TwoKeysKept<K>(a: K, b: K, c: K, d: K)
    requires c != a && c != b && d != a && d != b
    ensures {a, b} - {c} - {d} == {a, b}
  {
  }

  /**
   * A map with two keys is the display of its two entries; generic for the
   * same reason as `TwoKeysKept`.
   */
  lemma TwoEntries<K, V>(m: map<K, V>, a: K, x: V, b: K, y: V)
    requires m.Keys == {a, b} && m[a] == x && m[b] == y
    ensures m == map[a := x, b := y]
  {
  }

  /**
   * The fragment of `runcode("a=1;b=2;", {}, {"a": 0})`, with the names and
   * values left open: it parses to two assignments, the first stores `x` in
   * `a` while running, and it completes with `y` as the final value.
   */
  predicate TwoAssignments(fragment: Fragment, host: Host, a: string, x: Value, b: string, y: Value) {
    && Body(fragment, host).Some?
    && |Body(fragment, host).value| == 2
    && Body(fragment, host).value[0].Assign? && Body(fragment, host).value[0].target == a
    && Body(fragment, host).value[1].Assign? && Body(fragment, host).value[1].target == b
    && host.compileError.None?
    && host.execution == Execution([FlaggedSpec.SetItemOp(a, x)], Completed(y))
  }

  /** The two-assignment fragment compiles, and running it stores `a`, then `b`. */
  lemma TwoAssignmentsRun(fragment: Fragment, host: Host, slot: string, a: string, x: Value, b: string, y: Value)
    requires TwoAssignments(fragment, host, a, x, b, y)
    ensures CompileFailure(fragment, host, slot).None?
    ensures ExecutedOps(fragment, host, slot) == [FlaggedSpec.SetItemOp(a, x), FlaggedSpec.SetItemOp(b, y)]
  {
    var body := Body(fragment, host).value;
    assert CaptureLast(body, slot) == body;
  }

  /** With nothing from the caller, the two names are the only flagged keys at the `finally` block, with their values. */
  lemma TwoAssignmentsFlagged(
    fragment: Fragment, caller: Namespace, readonly: Namespace, slot: string, host: Host,
    a: string, x: Value, b: string, y: Value)
    requires TwoAssignments(fragment, host, a, x, b, y)
    requires caller.entries == map[] && slot !in readonly.entries && slot != Builtins && a != b
    ensures var s := FinalState(fragment, caller, readonly, slot, host);
      && s.flags.entries.Keys == {a, b}
      && s.contents.entries[a] == x && s.contents.entries[b] == y
  {
    TwoAssignmentsStores(fragment, caller, readonly, slot, host, a, x, b, y);
    StartWithoutCaller(fragment, caller, readonly, slot, host);
    TwoStoresFlagged(Start(fragment, caller, readonly, slot, host), a, x, b, y);
  }

  /** The capture slot stays empty: neither assignment is to it. */
  lemma TwoAssignmentsSlotEmpty(
    fragment: Fragment, caller: Namespace, readonly: Namespace, slot: string, host: Host,
    a: string, x: Value, b: string, y: Value)
    requires TwoAssignments(fragment, host, a, x, b, y)
    requires caller.entries == map[] && slot !in readonly.entries && slot != Builtins
    requires slot != a && slot != b
    ensures slot !in FinalState(fragment, caller, readonly, slot, host).contents.entries
  {
    TwoAssignmentsStores(fragment, caller, readonly, slot, host, a, x, b, y);
    StartWithoutCaller(fragment, caller, readonly, slot, host);
  }

  /** The two-assignment fragment's namespace at the `finally` block is the start with `a`, then `b`, stored. */
  lemma TwoAssignmentsStores(
    fragment: Fragment, caller: Namespace, readonly: Namespace, slot: string, host: Host,
    a: string, x: Value, b: string, y: Value)
    requires TwoAssignments(fragment, host, a, x, b, y)
    ensures FinalState(fragment, caller, readonly, slot, host)
      == FlaggedSpec.SetItem(FlaggedSpec.SetItem(Start(fragment, caller, readonly, slot, host), a, x), b, y)
  {
    TwoAssignmentsRun(fragment, host, slot, a, x, b, y);
    FinalStateIsRun(fragment, caller, readonly, slot, host);
    TwoStores(Start(fragment, caller, readonly, slot, host), a, x, b, y);
  }

  /** With nothing from the caller, nothing is flagged at the start, and the slot is absent unless the read-only namespace has it. */
  lemma StartWithoutCaller(fragment: Fragment, caller: Namespace, readonly: Namespace, slot: string, host: Host)
    requires caller.entries == map[] && slot !in readonly.entries && slot != Builtins
    ensures Start(fragment, caller, readonly, slot, host).flags.entries.Keys == {}
    ensures slot !in Start(fragment, caller, readonly, slot, host).contents.entries
  {
  }

  /**
   * `runcode("a=1;b=2;", namespace, readonly)` with an empty `namespace`
   * (the test's read-only namespace is `{"a": 0}`): the caller gets exactly
   * the two assignments, the stored `a` in place of any read-only one.
   */
  lemma TwoAssignmentsWrittenBack(
    variant: Variant, fragment: Fragment, caller: Namespace, readonly: Namespace,
    slot: string, filename: string, host: Host, a: string, x: Value, b: string, y: Value)
    requires TwoAssignments(fragment, host, a, x, b, y)
    requires caller.entries == map[] && slot !in readonly.entries
    requires a != b && slot != a && slot != b && slot != Builtins && a != Builtins && b != Builtins
    ensures Evaluation(variant, fragment, caller, readonly, slot, filename, host).namespace.entries == map[a := x, b := y]
  {
    TwoAssignmentsFlagged(fragment, caller, readonly, slot, host, a, x, b, y);
    Compiled(fragment, host, slot);
    EvaluationNamespace(variant, fragment, caller, readonly, slot, filename, host);
    var ns := Evaluation(variant, fragment, caller, readonly, slot, filename, host).namespace;
    TwoKeysKept(a, b, slot, Builtins);
    TwoEntries(ns.entries, a, x, b, y);
  }

  /** The same call returns None: the fragment ends in an assignment, which is not captured. */
  lemma TwoAssignmentsReturnNone(
    variant: Variant, fragment: Fragment, caller: Namespace, readonly: Namespace,
    slot: string, filename: string, host: Host, a: string, x: Value, b: string, y: Value)
    requires TwoAssignments(fragment, host, a, x, b, y)
    requires caller.entries == map[] && slot !in readonly.entries
    requires slot != a && slot != b && slot != Builtins
    ensures Evaluation(variant, fragment, caller, readonly, slot, filename, host).outcome == Returned(NoneVal)
  {
    TwoAssignmentsSlotEmpty(fragment, caller, readonly, slot, host, a, x, b, y);
    Compiled(fragment, host, slot);
    EvaluationOutcome(variant, fragment, caller, readonly, slot, filename, host);
  }
}
