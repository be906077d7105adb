/**
 * The body of `neval` (neval/_neval.py) and of the two `runcode` variants
 * (runcode/_runcode.py, runcode/runcode.py), step by step: it builds the
 * FlaggedDict, rewrites the tree in place, runs the calls `exec` makes on the
 * namespace, handles a failure, and in the `finally` block clears the
 * caller's mapping and copies the flagged keys back into it. The method is
 * proved to leave the caller's mapping, and to return, what
 * `EvaluationSpec.Evaluation` says.
 */
module Evaluator {
  import opened Dicts
  import FlaggedSpec
  import opened FlaggedDicts
  import opened Capture
  import opened Diagnostics
  import opened EvaluationSpec

  /** The `code` argument: source text, or an `ast.Module` the call rewrites in place. */
  datatype Code = Text(text: string) | Tree(tree: Module)

  /** The objects a call may change besides the caller's mapping: the tree it is given. */
  function TreeOf(code: Code): set<object> {
    if code.Tree? then {code.tree} else {}
  }

  /** What the call starts from: the text, or the statements of the tree as given. */
  function FragmentOf(code: Code): Fragment
    reads TreeOf(code)
  {
    match code
    case Text(text) => Source(text)
    case Tree(tree) => Ast(tree.body)
  }

  /** One call the executed statements make on the namespace, through the FlaggedDict's own methods. */
  method Apply(ns: FlaggedDict<string, Value>, op: NsOp)
    modifies ns
    ensures ns.State() == FlaggedSpec.Step(old(ns.State()), op)
  {
    match op {
      case SetItemOp(k, v) => ns.SetItem(k, v);
      case DelItemOp(k) => var _ := ns.DelItem(k);
      case PopOp(k, d) => var _ := ns.Pop(k, d);
      case PopItemOp => var _ := ns.PopItem();
      case SetDefaultOp(k, d) => var _ := ns.SetDefault(k, d);
      case UpdateOp(p, kw) => ns.Update(p, kw);
      case ClearOp => ns.Clear();
    }
  }

  /** `FlaggedDict(nspace, __flags__=nspace)` then `update(readonly)`. */
  method SetUpNamespace(nspace: PyDict<string, Value>, readonly: PyDict<string, Value>)
    returns (ns: FlaggedDict<string, Value>)
    ensures fresh(ns)
    ensures ns.State() == SetUp(nspace.contents, readonly.contents)
  {
    ns := new FlaggedDict(nspace.contents, nspace.contents.order);
    ns.Update(readonly.contents, Empty());
  }

  /**
   * `exec(compile(runme, filename, "exec"), ns_exec)` once compiling
   * succeeded: `__builtins__` is stored when missing, without a flag, then
   * the statements' calls are made in order.
   */
  method Execute(ns: FlaggedDict<string, Value>, body: seq<Stmt>, host: Host)
    modifies ns
    ensures ns.State() == FlaggedSpec.Run(Inject(old(ns.State()), host.builtins), Executed(body, host.execution))
  {
    if Builtins !in ns.contents.entries {
      // `exec` writes the entry at the dict level, which the flags never see
      ns.Update(Set(Empty(), Builtins, host.builtins), Empty());
    }
    var ops := Executed(body, host.execution);
    ghost var start := ns.State();
    for i := 0 to |ops|
      invariant ns.State() == FlaggedSpec.Run(start, ops[..i])
    {
      FlaggedSpec.RunPrefixStep(start, ops, i);
      Apply(ns, ops[i]);
    }
    assert ops[..|ops|] == ops;
  }

  /**
   * The `except Exception` block: an `Interrupt` is not caught and propagates
   * as it is; otherwise the line is looked up (the deepest record in the
   * synthetic file, or the record after the evaluator's own), and for source
   * text the display of that line is attached as a note.
   */
  method HandleFailure(variant: Variant, fragment: Fragment, e: PyException, filename: string, hasAddNote: bool)
    returns (r: Outcome)
    ensures r == Handle(variant, fragment, e, filename, hasAddNote)
  {
    if e.Interrupt? {
      return Threw(e, None);
    }
    var raised := Retagged(e, filename);
    var lineno: Option<int> := if e.SyntaxError? then e.lineno else None;
    match variant {
      case Deepest =>
        r := Threw(raised, None);
        if fragment.Source? && hasAddNote {
          if lineno.None? {
            var found := DeepestTraceback(e.tb, filename);
            if found.Some? {
              lineno := Some(e.tb[found.value].lineno);
            }
          }
          if lineno.Some? {
            match FormatWithHeader(fragment.text, lineno.value, filename) {
              case Ok(note) => r := Threw(raised, Some(note));
              case Err(err) => r := HandlerFailed(err);
            }
          }
        }
      case SecondFrame =>
        if !e.SyntaxError? {
          // `e.__traceback__.tb_next.tb_lineno`
          match Diagnostics.SecondFrameLine(e.tb) {
            case Ok(n) => lineno := Some(n);
            case Err(err) => return HandlerFailed(err);
          }
        }
        r := Threw(raised, None);
        if fragment.Source? && hasAddNote {
          if lineno.None? {
            // `int(None)`
            return HandlerFailed(TypeError);
          }
          match FormatNoHeader(fragment.text, lineno.value) {
            case Ok(note) => r := Threw(raised, Some(note));
            case Err(err) => r := HandlerFailed(err);
          }
        }
    }
  }

  /**
   * The `finally` block: pop the slot (its value or None is the result), pop
   * `__builtins__` when the caller lacked it, clear the caller's mapping and
   * store every flagged key back into it, in the order of the flags.
   */
  method CopyBack(ns: FlaggedDict<string, Value>, nspace: PyDict<string, Value>, slot: string, removeBuiltins: bool)
    returns (value: Value)
    requires FlaggedSpec.Tracked(ns.State())
    modifies ns, nspace
    ensures (nspace.contents, value) == WriteBack(old(ns.State()), slot, removeBuiltins)
  {
    var popped := ns.Pop(slot, Some(NoneVal));
    value := popped.value;
    if removeBuiltins {
      var _ := ns.Pop(Builtins, Some(NoneVal));
    }
    StoreFlagged(ns, nspace);
  }

  /** `nspace.clear()`, then `nspace[k] = ns[k]` for every flagged key, in the order of the flags. */
  method StoreFlagged(ns: FlaggedDict<string, Value>, nspace: PyDict<string, Value>)
    requires FlaggedSpec.Tracked(ns.State())
    modifies nspace
    ensures nspace.contents == Refill(ns.flags, ns.contents)
  {
    nspace.Clear();
    var keys := ns.flags.order;
    var src := ns.contents.entries;
    for i := 0 to |keys|
      invariant nspace.contents == SetAll(Empty(), keys[..i], src)
    {
      SetAllPrefixStep(Empty(), keys, src, i);
      nspace.SetItem(keys[i], src[keys[i]]);
    }
    assert keys[..|keys|] == keys;
  }

  /**
   * `ast.parse` for source text, then the capture rewrite of the tree in
   * place; a SyntaxError is left for `compile` to raise again.
   */
  method Prepare(code: Code, slot: string, host: Host) returns (compiled: Option<seq<Stmt>>)
    requires !FailsBeforeTry(FragmentOf(code), host)
    modifies TreeOf(code)
    ensures compiled == Rewritten(old(FragmentOf(code)), host, slot)
    ensures code.Tree? ==> code.tree.body == CaptureLast(old(code.tree.body), slot)
  {
    compiled := None;
    match code {
      case Text(_) =>
        if host.parse.Parsed? {
          var tree := new Module(host.parse.body);
          AddAssignmentToLastStatement(tree, slot);
          compiled := Some(tree.body);
        }
      case Tree(tree) =>
        AddAssignmentToLastStatement(tree, slot);
        compiled := Some(tree.body);
    }
  }

  /**
   * `compile` then `exec`, starting from the set-up namespace: the exception
   * the `except` block gets, if any, and the namespace as the `finally` block
   * finds it.
   */
  method CompileAndRun(
    ns: FlaggedDict<string, Value>, compiled: Option<seq<Stmt>>, host: Host,
    ghost fragment: Fragment, ghost caller: Namespace, ghost readonly: Namespace, ghost slot: string)
    returns (failure: Option<PyException>)
    requires !FailsBeforeTry(fragment, host)
    requires compiled == Rewritten(fragment, host, slot)
    requires ns.State() == SetUp(caller, readonly)
    modifies ns
    ensures failure == Failure(fragment, host, slot)
    ensures ns.State() == FinalState(fragment, caller, readonly, slot, host)
  {
    if compiled.None? {
      failure := Some(host.parse.error);
    } else if host.compileError.Some? {
      failure := host.compileError;
    } else {
      Execute(ns, compiled.value, host);
      failure := if host.execution.ending.Raised? then Some(host.execution.ending.error) else None;
    }
  }

  /**
   * One call of the evaluator on `code`, the caller's mapping `nspace` and
   * the read-only mapping `readonly`, with `slot` the generated capture name
   * and `filename` the synthetic file name. Building the FlaggedDict, which
   * the source does first, changes nothing visible, so it is done here once
   * parsing has succeeded.
   */
  method Evaluate(
    variant: Variant, code: Code, nspace: PyDict<string, Value>, readonly: PyDict<string, Value>,
    slot: string, filename: string, host: Host)
    returns (outcome: Outcome)
    modifies nspace, TreeOf(code)
    ensures var r := Evaluation(variant, old(FragmentOf(code)), old(nspace.contents), old(readonly.contents), slot, filename, host);
      nspace.contents == r.namespace && outcome == r.outcome
    ensures code.Tree? ==> code.tree.body == CaptureLast(old(code.tree.body), slot)
  {
    var fragment := FragmentOf(code);
    if FailsBeforeTry(fragment, host) {
      return Threw(host.parse.error, None);
    }
    ghost var caller, ro := nspace.contents, readonly.contents;
    var compiled := Prepare(code, slot, host);
    assert nspace.contents == caller && readonly.contents == ro;
    ghost var rewritten := if code.Tree? then code.tree.body else [];
    outcome := TryBlock(variant, fragment, nspace, readonly, compiled, slot, filename, host);
    assert code.Tree? ==> code.tree.body == rewritten;
    assert fragment == old(FragmentOf(code));
  }

  /**
   * The set-up, then the `try` block with its `except` and `finally`:
   * compile and run, handle a failure, then copy the flagged keys back into
   * the caller's mapping.
   */
  method TryBlock(
    variant: Variant, fragment: Fragment, nspace: PyDict<string, Value>, readonly: PyDict<string, Value>,
    compiled: Option<seq<Stmt>>, slot: string, filename: string, host: Host)
    returns (outcome: Outcome)
    requires !FailsBeforeTry(fragment, host)
    requires compiled == Rewritten(fragment, host, slot)
    modifies nspace
    ensures var r := Evaluation(variant, fragment, old(nspace.contents), old(readonly.contents), slot, filename, host);
      nspace.contents == r.namespace && outcome == r.outcome
  {
    ghost var caller, ro := nspace.contents, readonly.contents;
    var removeBuiltins := Builtins !in nspace.contents.entries;
    var ns := SetUpNamespace(nspace, readonly);
    var failure := CompileAndRun(ns, compiled, host, fragment, caller, ro, slot);
    if failure.Some? {
      outcome := HandleFailure(variant, fragment, failure.value, filename, host.hasAddNote);
    }
    var value := CopyBack(ns, nspace, slot, removeBuiltins);
    if failure.None? {
      outcome := Returned(value);
    }
    EvaluationSteps(variant, fragment, caller, ro, slot, filename, host);
  }

  /** `Evaluation` once the `try` block is entered, piece by piece. */
  lemma EvaluationSteps(
    variant: Variant, fragment: Fragment, caller: Namespace, readonly: Namespace,
    slot: string, filename: string, host: Host)
    requires !FailsBeforeTry(fragment, host)
    ensures var s := FinalState(fragment, caller, readonly, slot, host);
      var failure := Failure(fragment, host, slot);
      var (namespace, value) := WriteBack(s, slot, Builtins !in caller.entries);
      Evaluation(variant, fragment, caller, readonly, slot, filename, host)
      == Evaluated(namespace, if failure.None? then Returned(value)
           else Handle(variant, fragment, failure.value, filename, host.hasAddNote))
  {
  }
}
