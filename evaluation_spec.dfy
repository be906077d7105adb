/**
 * What one call of `neval` (neval/_neval.py) or `runcode` (runcode/_runcode.py,
 * runcode/runcode.py) does, as a function of its inputs: the caller's
 * namespace afterwards and the returned value or raised exception. `ast.parse`,
 * `compile` and `exec` are opaque; what they do for the fragment at hand is a
 * `Host` parameter, with `exec` given as the calls it makes on the namespace.
 */
module EvaluationSpec {
  import opened Dicts
  import FlaggedSpec
  import opened Capture
  import opened Diagnostics

  /** The Python values the model distinguishes; any other object is an `Object`. */
  datatype Value = NoneVal | IntVal(i: int) | StrVal(s: string) | Object(id: nat)

  type Namespace = Dict<string, Value>
  type State = FlaggedSpec.Flagged<string, Value>
  type NsOp = FlaggedSpec.Op<string, Value>

  /** The key `exec` adds to a namespace lacking it. */
  const Builtins: string := "__builtins__"

  /** The fragment: source text, or the statements of an `ast.Module`. */
  datatype Fragment = Source(text: string) | Ast(body: seq<Stmt>)

  /**
   * An exception from parsing, compiling or running the fragment, with its
   * traceback records. `Interrupt` is a `BaseException` that is not an
   * `Exception` (`SystemExit`, `KeyboardInterrupt`, `GeneratorExit`), which
   * the evaluators' `except Exception` clause does not catch.
   */
  datatype PyException =
    | SyntaxError(lineno: Option<int>, filename: string, tb: seq<Frame>)
    | RuntimeError(kind: string, tb: seq<Frame>)
    | Interrupt(kind: string, tb: seq<Frame>)

  /** `ast.parse(text)`: the module body, or the exception it raises. */
  datatype Parse = Parsed(body: seq<Stmt>) | ParseFailed(error: PyException)

  /** How execution of the compiled fragment ended. */
  datatype Ending = Completed(lastValue: Value) | Raised(error: PyException)

  /**
   * `exec` of the compiled fragment: the calls its statements make on the
   * namespace, other than the store of a final assignment, and how it ended;
   * `lastValue` is the value of the final statement's expression.
   */
  datatype Execution = Execution(ops: seq<NsOp>, ending: Ending)

  /** What the host services do for this fragment. */
  datatype Host = Host(
    parse: Parse,                     // `ast.parse`, for a source fragment
    compileError: Option<PyException>, // what `compile` raises on a parsed body, if anything
    execution: Execution,
    builtins: Value,                  // the module `exec` injects as `__builtins__`
    hasAddNote: bool)                 // exceptions have `add_note` (Python 3.11 on)

  /** The two ways the variants pick the line to show. */
  datatype Variant =
    | Deepest      // neval/_neval.py and runcode/_runcode.py: the deepest record in the synthetic file
    | SecondFrame  // runcode/runcode.py: the record after the evaluator's own frame

  /** What the call does in the end. */
  datatype Outcome =
    | Returned(value: Value)
    | Threw(error: PyException, note: Option<string>)  // the fragment's exception, re-raised
    | HandlerFailed(failure: PyError)                  // the `except` block itself raised

  /**
   * `FlaggedDict(nspace, __flags__=nspace)` then `update(readonly)`: every
   * caller key flagged, the read-only entries merged over them unflagged.
   */
  function SetUp(caller: Namespace, readonly: Namespace): (s: State)
    ensures s.contents.entries == caller.entries + readonly.entries
    ensures s.flags.entries.Keys == caller.entries.Keys
    ensures FlaggedSpec.Tracked(s)
  {
    KeysListed(caller);
    FlaggedSpec.Update(FlaggedSpec.Init(caller, caller.order), readonly, Empty())
  }

  /** `exec` stores `__builtins__` directly in the dict when it is missing, bypassing the flags. */
  function Inject(s: State, builtins: Value): (r: State)
    ensures Builtins in r.contents.entries
    ensures r.flags == s.flags
    ensures forall k :: k != Builtins ==>
      (k in r.contents.entries <==> k in s.contents.entries)
      && (k in s.contents.entries ==> r.contents.entries[k] == s.contents.entries[k])
    ensures FlaggedSpec.Tracked(s) ==> FlaggedSpec.Tracked(r)
    ensures Builtins in s.contents.entries ==> r == s
  {
    if Builtins in s.contents.entries then s
    else FlaggedSpec.Update(s, Set(Empty(), Builtins, builtins), Empty())
  }

  /** The module body before the rewrite: the parsed or given one; None when parsing failed. */
  function Body(fragment: Fragment, host: Host): Option<seq<Stmt>> {
    match fragment
    case Source(_) => if host.parse.Parsed? then Some(host.parse.body) else None
    case Ast(body) => Some(body)
  }

  /** The statements compiled: the body after the capture rewrite. */
  function Rewritten(fragment: Fragment, host: Host, slot: string): (r: Option<seq<Stmt>>)
    ensures r.Some? <==> Body(fragment, host).Some?
    ensures r.Some? ==> r.value == CaptureLast(Body(fragment, host).value, slot)
  {
    match Body(fragment, host)
    case None => None
    case Some(body) => Some(CaptureLast(body, slot))
  }

  /** Parsing raised something other than a SyntaxError: it escapes before the `try`. */
  predicate FailsBeforeTry(fragment: Fragment, host: Host) {
    fragment.Source? && host.parse.ParseFailed? && !host.parse.error.SyntaxError?
  }

  /** What `compile` raises: the parse error again for unparsable text, else the host's verdict. */
  function CompileFailure(fragment: Fragment, host: Host, slot: string): Option<PyException> {
    if Rewritten(fragment, host, slot).None? then Some(host.parse.error) else host.compileError
  }

  /** Every call the executed statements make on the namespace, the final assignment's store included. */
  function Executed(body: seq<Stmt>, execution: Execution): seq<NsOp> {
    if execution.ending.Completed? && body != [] && body[|body| - 1].Assign? then
      execution.ops + [FlaggedSpec.SetItemOp(body[|body| - 1].target, execution.ending.lastValue)]
    else execution.ops
  }

  /** The execution namespace when the `finally` block starts. */
  function FinalState(fragment: Fragment, caller: Namespace, readonly: Namespace, slot: string, host: Host): (s: State)
    ensures FlaggedSpec.Tracked(s)
  {
    var s0 := SetUp(caller, readonly);
    if CompileFailure(fragment, host, slot).Some? then s0
    else
      var body := Rewritten(fragment, host, slot).value;
      FlaggedSpec.Run(Inject(s0, host.builtins), Executed(body, host.execution))
  }

  /** The exception the `except` block handles, if any. */
  function Failure(fragment: Fragment, host: Host, slot: string): Option<PyException> {
    if CompileFailure(fragment, host, slot).Some? then CompileFailure(fragment, host, slot)
    else if host.execution.ending.Raised? then Some(host.execution.ending.error)
    else None
  }

  /**
   * `nspace.clear()` then `for key in flags: nspace[key] = contents[key]`:
   * exactly the flagged keys, in the order of the flags, with their values.
   */
  function Refill(flags: Dict<string, ()>, contents: Namespace): (r: Namespace)
    requires forall k :: k in flags.entries ==> k in contents.entries
    ensures r.order == flags.order
    ensures r.entries.Keys == flags.entries.Keys
    ensures forall k :: k in r.entries ==> r.entries[k] == contents.entries[k]
  {
    Rebuild(flags, contents.entries)
  }

  /**
   * The `finally` block: pop the capture slot (its value, or None, is the
   * result), pop `__builtins__` if the caller did not have it, clear the
   * caller's mapping and copy back every key still flagged.
   */
  function WriteBack(s: State, slot: string, removeBuiltins: bool): (r: (Namespace, Value))
    requires FlaggedSpec.Tracked(s)
  {
    var (s1, value) := FlaggedSpec.Pop(s, slot, Some(NoneVal));
    var s2 := if removeBuiltins then FlaggedSpec.Pop(s1, Builtins, Some(NoneVal)).0 else s1;
    (Refill(s2.flags, s2.contents), value.value)
  }

  /**
   * The caller's mapping ends up holding exactly the keys flagged at the
   * start of the `finally` block, minus the capture slot and an injected
   * `__builtins__`, with their final values; the result is what the slot
   * held, or None.
   */
  lemma WriteBackIsFlaggedKeys(s: State, slot: string, removeBuiltins: bool)
    requires FlaggedSpec.Tracked(s)
    ensures var (namespace, value) := WriteBack(s, slot, removeBuiltins);
      && namespace.entries.Keys == s.flags.entries.Keys - {slot} - (if removeBuiltins then {Builtins} else {})
      && (forall k :: k in namespace.entries ==> k in s.contents.entries && namespace.entries[k] == s.contents.entries[k])
      && value == if slot in s.contents.entries then s.contents.entries[slot] else NoneVal
  {
    var (s1, value) := FlaggedSpec.Pop(s, slot, Some(NoneVal));
    var s2 := if removeBuiltins then FlaggedSpec.Pop(s1, Builtins, Some(NoneVal)).0 else s1;
    assert s2.flags.entries.Keys == s.flags.entries.Keys - {slot} - (if removeBuiltins then {Builtins} else {});
  }

  /** The line to show for the `Deepest` variant: the SyntaxError's line, else the deepest record in `filename`. */
  function DeepestLine(e: PyException, filename: string): (r: Option<int>)
    ensures e.SyntaxError? && e.lineno.Some? ==> r == e.lineno
    ensures !(e.SyntaxError? && e.lineno.Some?) ==>
      (r.Some? <==> exists i :: 0 <= i < |e.tb| && e.tb[i].filename == filename)
    ensures !(e.SyntaxError? && e.lineno.Some?) && r.Some? ==>
      exists i :: 0 <= i < |e.tb| && e.tb[i].filename == filename && r.value == e.tb[i].lineno
        && forall j :: i < j < |e.tb| ==> e.tb[j].filename != filename
  {
    if e.SyntaxError? && e.lineno.Some? then e.lineno
    else
      match LastMatching(e.tb, filename)
      case None => None
      case Some(i) => Some(e.tb[i].lineno)
  }

  /** The line to show for the `SecondFrame` variant; AttributeError when there is no second record. */
  function SecondFrameLine(e: PyException): (r: Result<Option<int>>)
    ensures e.SyntaxError? ==> r == Ok(e.lineno)
    ensures !e.SyntaxError? ==> (r.Ok? <==> |e.tb| >= 2) && (r.Ok? ==> r.value == Some(e.tb[1].lineno))
  {
    if e.SyntaxError? then Ok(e.lineno)
    else
      match Diagnostics.SecondFrameLine(e.tb)
      case Ok(n) => Ok(Some(n))
      case Err(err) => Err(err)
  }

  /** A SyntaxError is re-raised carrying the synthetic filename. */
  function Retagged(e: PyException, filename: string): PyException {
    if e.SyntaxError? then e.(filename := filename) else e
  }

  /**
   * The `except` block of neval/_neval.py and runcode/_runcode.py: for
   * source text (on Python versions with `add_note`) the exception gets the
   * display of its line as a note, when a line was found; an IndexError from
   * the display replaces the exception.
   */
  function HandleDeepest(fragment: Fragment, e: PyException, filename: string, hasAddNote: bool): (r: Outcome)
    ensures !r.Returned?
    ensures r.Threw? ==> r.error == Retagged(e, filename)
    ensures r.HandlerFailed? ==> r.failure == IndexError
    ensures (r.Threw? && r.note.Some?) <==>
      (fragment.Source? && hasAddNote && DeepestLine(e, filename).Some?
       && FormatWithHeader(fragment.text, DeepestLine(e, filename).value, filename).Ok?)
    ensures r.Threw? && r.note.Some? ==>
      r.note.value == FormatWithHeader(fragment.text, DeepestLine(e, filename).value, filename).value
    ensures !(fragment.Source? && hasAddNote) ==> r == Threw(Retagged(e, filename), None)
  {
    if fragment.Source? && hasAddNote then
      match DeepestLine(e, filename)
      case None => Threw(Retagged(e, filename), None)
      case Some(n) =>
        match FormatWithHeader(fragment.text, n, filename)
        case Ok(note) => Threw(Retagged(e, filename), Some(note))
        case Err(err) => HandlerFailed(err)
    else Threw(Retagged(e, filename), None)
  }

  /**
   * The `except` block of runcode/runcode.py: the line is looked up first,
   * for every fragment, so a missing second record raises AttributeError; a
   * SyntaxError without a line raises TypeError in `int(lineno)`.
   */
  function HandleSecondFrame(fragment: Fragment, e: PyException, hasAddNote: bool, filename: string): (r: Outcome)
    ensures !r.Returned?
    ensures r.Threw? ==> r.error == Retagged(e, filename)
    ensures e.RuntimeError? && |e.tb| < 2 ==> r == HandlerFailed(AttributeError)
    ensures r.HandlerFailed? ==> r.failure in {AttributeError, TypeError, IndexError}
    ensures fragment.Source? && hasAddNote && SecondFrameLine(e).Ok? && SecondFrameLine(e).value.Some? ==>
      var display := FormatNoHeader(fragment.text, SecondFrameLine(e).value.value);
      && (display.Ok? ==> r == Threw(Retagged(e, filename), Some(display.value)))
      && (display.Err? ==> r == HandlerFailed(IndexError))
    ensures r.Threw? && r.note.Some? ==>
      && fragment.Source? && hasAddNote
      && SecondFrameLine(e).Ok? && SecondFrameLine(e).value.Some?
      && FormatNoHeader(fragment.text, SecondFrameLine(e).value.value) == Ok(r.note.value)
    ensures fragment.Source? && hasAddNote && SecondFrameLine(e) == Ok(None) ==> r == HandlerFailed(TypeError)
    ensures !(fragment.Source? && hasAddNote) && SecondFrameLine(e).Ok? ==> r == Threw(Retagged(e, filename), None)
  {
    match SecondFrameLine(e)
    case Err(err) => HandlerFailed(err)
    case Ok(line) =>
      if fragment.Source? && hasAddNote then
        match line
        // `int(None)`
        case None => HandlerFailed(TypeError)
        case Some(n) =>
          match FormatNoHeader(fragment.text, n)
          case Ok(note) => Threw(Retagged(e, filename), Some(note))
          case Err(err) => HandlerFailed(err)
      else Threw(Retagged(e, filename), None)
  }

  /**
   * `except Exception`: an `Interrupt` passes through unchanged, without a
   * line lookup or a note; any other exception goes to the variant's block.
   * Either way the call does not return normally.
   */
  function Handle(variant: Variant, fragment: Fragment, e: PyException, filename: string, hasAddNote: bool): (r: Outcome)
    ensures !r.Returned?
    ensures e.Interrupt? ==> r == Threw(e, None)
  {
    if e.Interrupt? then Threw(e, None)
    else
      match variant
      case Deepest => HandleDeepest(fragment, e, filename, hasAddNote)
      case SecondFrame => HandleSecondFrame(fragment, e, hasAddNote, filename)
  }

  /** The caller's namespace and the outcome of one call. */
  datatype Evaluated = Evaluated(namespace: Namespace, outcome: Outcome)

  function Evaluation(
    variant: Variant, fragment: Fragment, caller: Namespace, readonly: Namespace,
    slot: string, filename: string, host: Host): Evaluated
  {
    if FailsBeforeTry(fragment, host) then Evaluated(caller, Threw(host.parse.error, None))
    else
      var s := FinalState(fragment, caller, readonly, slot, host);
      var (namespace, value) := WriteBack(s, slot, Builtins !in caller.entries);
      var failure := Failure(fragment, host, slot);
      Evaluated(namespace, if failure.None? then Returned(value)
        else Handle(variant, fragment, failure.value, filename, host.hasAddNote))
  }

  /**
   * One call, in terms of the execution namespace at the `finally` block:
   * the caller's mapping holds the keys still flagged there, minus the
   * capture slot and an injected `__builtins__`, with their values there,
   * in the order of the flags.
   */
  lemma EvaluationNamespace(
    variant: Variant, fragment: Fragment, caller: Namespace, readonly: Namespace,
    slot: string, filename: string, host: Host)
    requires !FailsBeforeTry(fragment, host)
    ensures Evaluation(variant, fragment, caller, readonly, slot, filename, host).namespace.entries.Keys
      == FinalState(fragment, caller, readonly, slot, host).flags.entries.Keys - {slot}
         - (if Builtins !in caller.entries then {Builtins} else {})
    ensures forall k :: k in Evaluation(variant, fragment, caller, readonly, slot, filename, host).namespace.entries ==>
      Evaluation(variant, fragment, caller, readonly, slot, filename, host).namespace.entries[k]
      == FinalState(fragment, caller, readonly, slot, host).contents.entries[k]
    ensures Evaluation(variant, fragment, caller, readonly, slot, filename, host).namespace.order
      == var order := RemoveKey(FinalState(fragment, caller, readonly, slot, host).flags.order, slot);
         if Builtins !in caller.entries then RemoveKey(order, Builtins) else order
  {
    WriteBackIsFlaggedKeys(FinalState(fragment, caller, readonly, slot, host), slot, Builtins !in caller.entries);
  }

  /**
   * One call's result: it returns exactly when nothing failed, and then
   * returns what the capture slot held at the `finally` block, or None.
   */
  lemma EvaluationOutcome(
    variant: Variant, fragment: Fragment, caller: Namespace, readonly: Namespace,
    slot: string, filename: string, host: Host)
    requires !FailsBeforeTry(fragment, host)
    ensures Evaluation(variant, fragment, caller, readonly, slot, filename, host).outcome.Returned?
      <==> Failure(fragment, host, slot).None?
    ensures Evaluation(variant, fragment, caller, readonly, slot, filename, host).outcome.Returned? ==>
      Evaluation(variant, fragment, caller, readonly, slot, filename, host).outcome.value
      == if slot in FinalState(fragment, caller, readonly, slot, host).contents.entries
         then FinalState(fragment, caller, readonly, slot, host).contents.entries[slot] else NoneVal
  {
    WriteBackIsFlaggedKeys(FinalState(fragment, caller, readonly, slot, host), slot, Builtins !in caller.entries);
  }
}
