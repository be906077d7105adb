# neval / runcode evaluation core, modelled in Dafny

`neval(code, namespace, namespace_readonly)` runs a Python fragment against the
caller's mutable namespace and a read-only namespace, and returns the value of
the fragment's last expression. `runcode` is an earlier version of the same
function, shipped in two variants. This project models the parts of these
functions that can be reasoned about, and proves what they promise:

- **FlaggedDict** (`neval/flagged_dict.py`). A dict with a side dict `flags`
  that records which keys were written through `__setitem__`, `setdefault` or
  keyword `update`. Removing a key also removes its flag.
  - `FlaggedSpec` gives its value semantics: one function per method, plus
    `Run`, which folds a sequence of calls.
  - `FlaggedDicts.FlaggedDict` is the mutable class. Each method is proved to
    move its state as the matching function says.
  - The invariant proved is that `flags` ⊆ keys.
- **ReserveDict** (`runcode/reserve_dict.py`). A two-tier mapping made of a
  mutable tier `d` and a fallback tier `reserve`, with the chain views over
  both tiers. `ReserveDicts.ReserveDict` holds `d` as a shared `PyDict` object,
  the way `fromdicts` aliases it, and `reserve` as a value. Every method is
  proved against the combined mapping `Merged()`, and is proved to keep the
  two tiers disjoint.
- **Result-capture rewrite** (`add_asignment_to_last_statement`). If the last
  top-level statement of an `ast.Module` is a bare expression, it is replaced
  in place by an assignment to a generated name, with the same position
  attributes.
- **Diagnostic display** (`format_code_for_error_line_display`), with a header
  (`neval/util.py`) and without one (`runcode/runcode.py`). Also the
  failing-frame search `deepest_traceback`, and the `tb_next` lookup of
  `runcode/runcode.py`.
- **The evaluator** (`neval/_neval.py`, `runcode/_runcode.py`,
  `runcode/runcode.py`). It does the following:
  - copies the caller's mapping into a FlaggedDict, with every key flagged;
  - merges the read-only mapping in without flags;
  - parses and rewrites the fragment;
  - runs it;
  - annotates a failure with its source line;
  - in `finally`, pops the capture slot and any injected `__builtins__`;
  - clears the caller's mapping in place and refills it with exactly the
    flagged keys.

  `parse`, `compile` and `exec` are not modelled as code. Instead a `Host`
  value says:
  - what parsing gives;
  - whether compiling fails;
  - which calls the executed statements make on the namespace dict;
  - how execution ends: the value of the last statement, or an exception with
    its traceback.

  `EvaluationSpec.Evaluation` is the reference definition of one call.
  `Evaluator.Evaluate` is the step-by-step method, proved to leave the caller's
  mapping, and to return, what `Evaluation` says. `EvaluationProperties` proves
  what the functions promise about `Evaluation` over all hosts.

The three evaluator variants share one model. Its parameter `Variant` has two
values:
- `Deepest`: the failing line comes from `deepest_traceback`. This is
  `neval/_neval.py` and `runcode/_runcode.py`.
- `SecondFrame`: the failing line comes from `e.__traceback__.tb_next`, and the
  display has no header. This is `runcode/runcode.py`.

`runcode/runcode.py` imports a sibling `runcode/flagged_dict.py`, and
`runcode/_runcode.py` imports that and a sibling `runcode/util.py`. Neither
file is part of this model; the `neval/` files of the same names stand in for
them. `runcode/runcode.py` has its own copies of `gen_sym`,
`add_asignment_to_last_statement` and `format_code_for_error_line_display`.

A key present in both namespaces starts with the read-only value, because
`update` overwrites it. It stays flagged, so that value is written back into
the caller's mapping even when the fragment never assigns it
(`EvaluationProperties.UntouchedCallerKeyWrittenBack`).

Only `Exception`s are caught. A `BaseException` that is not one, such as
`SystemExit` or `KeyboardInterrupt`, propagates unchanged, with no note, while
the `finally` write-back still runs (`EvaluationProperties.InterruptPassesThrough`).

A fragment given as an `ast.Module` is rewritten in place. A second evaluation
of the same tree therefore finds an assignment at the end, captures nothing,
and returns None. This follows from `Capture.CaptureLastIdempotent` and from
the tree postcondition of `Evaluator.Evaluate`. That assignment to the first
call's slot runs through `__setitem__` and is flagged, and only the new slot
is popped. The first call's slot name and the value are therefore written
into the caller's mapping (`EvaluationProperties.ReEvaluationWritesBackOldSlot`).

## Model

| member | source | states |
|---|---|---|
| Dicts.PopItemIsLifo | neval/flagged_dict.py:24-25 | `dict.popitem` fails with KeyError exactly on an empty dict; otherwise it removes and returns the most recently inserted key and its value, leaving the rest of the order intact |
| Dicts.FromKeys | runcode/reserve_dict.py:72-73 | `dict.fromkeys(keys, v)` holds exactly the listed keys, each mapped to `v`, and keys listed once keep their listed order |
| Dicts.Update | runcode/reserve_dict.py:119-122 | `dict.update(other)` gives every key of either dict, with `other`'s value winning |
| Dicts.PyDict.Clear | neval/_neval.py:122 | the caller's mapping is emptied in place |
| Dicts.PyDict.SetItem | neval/_neval.py:124-125 | `nspace[key] = value` stores the value, appending a new key to the order |
| Dicts.SetAllAppends | neval/_neval.py:122-125 | refilling an emptied dict key by key lists the keys in exactly the order they were stored |
| Dicts.Rebuild | neval/_neval.py:122-125 | the refilled mapping has the order and keys of the flags, and each value from the execution namespace |
| FlaggedSpec.Init | neval/flagged_dict.py:7-9 | construction keeps the given contents and flags exactly the `__flags__` keys; if those keys are present, flags ⊆ keys |
| FlaggedSpec.Clear | neval/flagged_dict.py:11-13 | `clear` empties the contents and the flags |
| FlaggedSpec.Pop | neval/flagged_dict.py:18-22 | `pop` removes the key from the contents and the flags. It returns the value, or the default when the key is absent, or KeyError when no default is given. With flags ⊆ keys, an absent key changes nothing, and flags ⊆ keys is kept |
| FlaggedSpec.PopItem | neval/flagged_dict.py:24-28 | `popitem` fails (KeyError, nothing changed) exactly on an empty dict; otherwise it removes the last-inserted key from the contents and the flags and returns it with its value |
| FlaggedSpec.SetDefault | neval/flagged_dict.py:30-34 | a present key: the value is returned and nothing changes; an absent key: `d` is inserted, returned and the key is flagged |
| FlaggedSpec.Update | neval/flagged_dict.py:36-39 | positional entries then keyword entries overwrite the contents; only the keyword keys become flagged |
| FlaggedSpec.DelItem | neval/flagged_dict.py:41-44 | `del` removes the key from the contents and the flags, and raises KeyError exactly when it was absent |
| FlaggedSpec.SetItem | neval/flagged_dict.py:49-51 | `__setitem__` stores the value and flags the key; every other key keeps its value and flag |
| FlaggedSpec.Run | neval/flagged_dict.py:7-51 | any sequence of the dict's mutators keeps flags ⊆ keys |
| FlaggedSpec.RunAppend | neval/flagged_dict.py:7-51 | running two call sequences one after the other is running their concatenation |
| FlaggedSpec.UnflaggedStaysUnflagged | neval/flagged_dict.py:30-39 | a key that is not flagged stays unflagged through any calls that are not `__setitem__`, `setdefault` or keyword `update` of that key |
| FlaggedSpec.UntouchedKeyUnchanged | neval/flagged_dict.py:7-51 | calls that name neither the key nor the whole dict leave its presence, value and flag unchanged |
| FlaggedSpec.DeleteThenWriteIsChange | neval/flagged_dict.py:41-51 | deleting a key and then writing it leaves it present with the new value and flagged, whatever came before |
| FlaggedDicts.FlaggedDict.constructor | neval/flagged_dict.py:7-9 | the new object's state is `FlaggedSpec.Init` of the arguments |
| FlaggedDicts.FlaggedDict.Clear | neval/flagged_dict.py:11-13 | the new state is `FlaggedSpec.Clear` of the old one |
| FlaggedDicts.FlaggedDict.Copy | neval/flagged_dict.py:15-16 | the copy is a fresh object with equal contents and an equal flag dict |
| FlaggedDicts.SameKeysSameOrder | neval/flagged_dict.py:16 | rebuilding the flags from their own key list gives back the same flag dict |
| FlaggedDicts.FlaggedDict.Pop | neval/flagged_dict.py:18-22 | state and result are `FlaggedSpec.Pop` of the old state |
| FlaggedDicts.FlaggedDict.PopItem | neval/flagged_dict.py:24-28 | state and result are `FlaggedSpec.PopItem` of the old state |
| FlaggedDicts.FlaggedDict.SetDefault | neval/flagged_dict.py:30-34 | state and result are `FlaggedSpec.SetDefault` of the old state |
| FlaggedDicts.FlaggedDict.Update | neval/flagged_dict.py:36-39 | the loop over the keyword keys reaches the state `FlaggedSpec.Update` describes |
| FlaggedDicts.FlaggedDict.DelItem | neval/flagged_dict.py:41-44 | state and result are `FlaggedSpec.DelItem` of the old state |
| FlaggedDicts.FlaggedDict.SetItem | neval/flagged_dict.py:49-51 | the new state is `FlaggedSpec.SetItem` of the old one |
| ReserveDicts.ChainLen | runcode/reserve_dict.py:30-31 | the length of a chain view is the number of keys its iteration yields |
| ReserveDicts.ChainHasKeyIffIterated | runcode/reserve_dict.py:27-34 | a key is in a chain keys view exactly when its iteration yields it |
| ReserveDicts.ViewHasKey | runcode/reserve_dict.py:90-91 | `key in rd.keys()` holds exactly when the key is in the combined mapping |
| ReserveDicts.ReserveDict.FromDicts | runcode/reserve_dict.py:62-69 | `d` is the given object itself and `reserve` loses every key of `d`, so the tiers are disjoint. The combined mapping is the reserve overlaid by `d` |
| ReserveDicts.ReserveDict.FromKeys | runcode/reserve_dict.py:71-73 | `d` is a fresh `dict.fromkeys` and the reserve is empty |
| ReserveDicts.ReserveDict.Clear | runcode/reserve_dict.py:75-77 | both tiers are emptied, `d` in place |
| ReserveDicts.ReserveDict.Copy | runcode/reserve_dict.py:79-82 | the copy is fresh, with a fresh copy of `d`. Its reserve is this one's without the keys of `d`, which is the same reserve when the tiers are disjoint. The copy's tiers are disjoint and its combined mapping is this one's, even when a write through the shared `d` left a key in both tiers |
| ReserveDicts.ReserveDict.Get | runcode/reserve_dict.py:84-85 | `get` returns the combined mapping's value, or the default when the key is absent |
| ReserveDicts.ReserveDict.View | runcode/reserve_dict.py:87-94 | the views chain the reserve then `d`; their iteration and length are the dict's own |
| ReserveDicts.ReserveDict.Pop | runcode/reserve_dict.py:96-103 | `pop` removes from `d` when the key is there, otherwise pops `reserve` with the default. It fails exactly for a missing key without a default. With disjoint tiers the key leaves the combined mapping and disjointness is kept |
| ReserveDicts.ReserveDict.PopItem | runcode/reserve_dict.py:105-109 | `popitem` pops `d` when it is non-empty, else `reserve`, failing exactly when both are empty; disjointness is kept |
| ReserveDicts.ReserveDict.SetDefault | runcode/reserve_dict.py:111-115 | the corrected `setdefault` returns the combined mapping's value afterwards and writes only to `d`; disjointness is kept (see Findings) |
| ReserveDicts.ReserveDict.Update | runcode/reserve_dict.py:117-124 | each argument is written into `d` and its keys dropped from `reserve`; disjointness is kept and the combined mapping is the old one updated by every argument in turn |
| ReserveDicts.ReserveDict.DropKeys | runcode/reserve_dict.py:123-124 | `reserve.pop(key, None)` for each key drops exactly those keys |
| ReserveDicts.UpdateTiersMerged | runcode/reserve_dict.py:117-124 | for disjoint tiers, the two-tier update is the one-tier update of the combined mapping, and keeps the tiers disjoint |
| ReserveDicts.ReserveDict.Contains | runcode/reserve_dict.py:126-127 | `in` holds exactly for keys of the combined mapping |
| ReserveDicts.ReserveDict.DelItem | runcode/reserve_dict.py:129-133 | `del` removes from `d` when the key is there, else from `reserve`, and raises KeyError exactly when neither holds it. With disjoint tiers the key is then absent from the whole mapping |
| ReserveDicts.ReserveDict.Equals | runcode/reserve_dict.py:135-140 | `==` holds exactly when the other mapping equals the reserve overlaid by `d` |
| ReserveDicts.UpdatesGiveOverlay | runcode/reserve_dict.py:136-138 | updating an empty dict with `reserve` then `d` gives the combined mapping |
| ReserveDicts.ReserveDict.GetItem | runcode/reserve_dict.py:142-146 | `[]` returns the combined mapping's value, and raises KeyError exactly for a missing key |
| ReserveDicts.ReserveDict.Iter | runcode/reserve_dict.py:148-149 | iteration yields each key of the combined mapping, and with disjoint tiers none twice |
| ReserveDicts.ReserveDict.Len | runcode/reserve_dict.py:151-152 | `len` is the number of keys iteration yields, which with disjoint tiers is the number of distinct keys |
| ReserveDicts.DistinctCard | runcode/reserve_dict.py:151-152 | a duplicate-free key list is as long as its set of keys |
| ReserveDicts.ReserveDict.Reversed | runcode/reserve_dict.py:163-164 | `reversed` yields `d` reversed then `reserve` reversed, which is iteration order reversed |
| ReserveDicts.ReverseAppend | runcode/reserve_dict.py:163-164 | reversing a concatenation reverses the parts and swaps them |
| ReserveDicts.ReserveDict.SetItem | runcode/reserve_dict.py:166-168 | the key leaves `reserve` and is stored in `d`; the combined mapping is the old one with the key set, and disjointness is kept |
| ReserveDicts.WriteToD | runcode/reserve_dict.py:166-168 | dropping a key from the reserve and writing it to `d` writes it to the combined mapping, and keeps the tiers disjoint |
| ReserveDicts.SetDefaultAsWritten | runcode/reserve_dict.py:111-115 | the method as written returns None and changes nothing for a key in `reserve`; otherwise it acts as `d.setdefault` |
| ReserveDicts.SetDefaultAsWrittenHidesReserveValue | runcode/reserve_dict.py:111-115 | with reserve `{1: 2}` and `d` empty, `setdefault(1, 3)` as written returns None although the mapping holds 2 for key 1 |
| ReserveDicts.SetDefaultIntendedIsLookupOrInsert | runcode/reserve_dict.py:111-115 | the corrected `setdefault` returns the mapping's value for the key afterwards, and changes the mapping only by inserting the default for an absent key |
| Capture.CaptureLast | neval/util.py:12-23 | the rewritten body has the same length and the same statements before the last one. A last expression statement becomes an assignment to the name, with the same value and positions. Any other body is unchanged |
| Capture.OnlyTopLevelExprChanges | neval/util.py:14 | the only statement that can change is the last top-level one, and only if it is an expression statement |
| Capture.CaptureLastIdempotent | neval/util.py:14-23 | a second rewrite, with any name, changes nothing |
| Capture.SetAttr | neval/util.py:20-21 | `setattr` of one position attribute sets it and leaves the other three |
| Capture.AddAssignmentToLastStatement | neval/util.py:12-23 | the loop over the four attributes and the in-place store leave the module body as `CaptureLast` says; the copy at runcode/runcode.py:25-36 is identical |
| Diagnostics.SplitLines | neval/util.py:30 | no line of the split contains a line break |
| Diagnostics.JoinSplitLines | neval/util.py:30 | joining the lines with `\n` gives the text back, up to one final line break |
| Diagnostics.SplitJoinLines | neval/util.py:33 | splitting lines joined with `\n` gives them back when none contains a break and the last is not empty |
| Diagnostics.NatToStringLength | neval/util.py:28 | a number below `10^k` has at most `k` digits |
| Diagnostics.PadLeft | neval/util.py:31 | `{n:7d}` right-aligns the digits in a field of 7, filled with spaces on the left, or wider when the digits need more |
| Diagnostics.Repeat | neval/util.py:32 | `"-" * n` has `n` dashes, none when `n` is negative |
| Diagnostics.PyIndex | neval/util.py:32 | the list index `lineno - 1` is valid exactly from `-n` to `n - 1`, a negative index counting from the end |
| Diagnostics.Annotate | neval/util.py:27-32 | the display is an IndexError exactly when the line number is out of Python's index range. Otherwise it has one line per source line: the failing line carries the dash-arrow marker and every other line is its gutter number and its text |
| Diagnostics.AnnotatedLinesAreLines | neval/util.py:31-32 | every displayed line is non-empty and holds no line break |
| Diagnostics.MarkerAlignsWithGutter | neval/util.py:31-32 | for line numbers up to 99999 the marker prefix and the gutter are both 7 characters, each followed by a space and the text |
| Diagnostics.BaseNameChars | neval/util.py:33 | `Path(filename).name` holds only characters of the file name |
| Diagnostics.BaseName | neval/util.py:33 | `Path(filename).name` holds no `/`, and a name without `/` is its own base name |
| Diagnostics.BaseNameIsLastComponent | neval/util.py:33 | the base name is the last component of the path once its trailing slashes are removed |
| Diagnostics.TrimSlashes | neval/util.py:33 | removing the trailing slashes leaves a prefix of the path that does not end in `/`, and only slashes were removed |
| Diagnostics.LastComponent | neval/util.py:33 | the last component is a suffix of the path with no `/`, preceded by a `/` unless it is the whole path |
| Diagnostics.FormatWithHeader | neval/util.py:26-33 | the display with a header fails, with IndexError, exactly when the line number is out of range |
| Diagnostics.DisplayHasHeaderAndOneLinePerSourceLine | neval/util.py:30-33 | the display is the header `Error in <basename>:` followed by exactly the annotated source lines |
| Diagnostics.FormatNoHeader | runcode/runcode.py:39-48 | the display without a header fails, with IndexError, exactly when the line number is out of range |
| Diagnostics.DisplayHasOneLinePerSourceLine | runcode/runcode.py:43-48 | the headerless display is exactly the annotated source lines, one per source line |
| Diagnostics.LastMatching | neval/util.py:36-44 | the result is the last record whose file name matches, or none exactly when no record matches |
| Diagnostics.DeepestTraceback | neval/util.py:36-44 | the `while` walk over the chain, head record included, returns `LastMatching` |
| Diagnostics.SecondFrameLine | runcode/runcode.py:110 | `tb_next.tb_lineno` is the second record's line, and an AttributeError exactly when the chain has fewer than two records |
| Diagnostics.StripDashes | neval/util.py:8 | removing the dashes leaves no dash, keeps every other character of the text, never lengthens it, and leaves a dash-free text as it is |
| Diagnostics.GenSymInjective | neval/util.py:7-9 | two generated names are equal only if their uuids have the same hex digits |
| Diagnostics.GenSymReturnIsNotBuiltins | neval/util.py:7-9 | the capture slot's name is never `__builtins__` |
| EvaluationSpec.SetUp | neval/_neval.py:58-59 | the execution dict holds the caller's entries updated by the read-only ones, with exactly the caller's keys flagged |
| EvaluationSpec.Inject | neval/_neval.py:83 | `exec` stores `__builtins__` when it is missing, without a flag; every other key is untouched, and nothing changes when it is present |
| EvaluationSpec.Rewritten | neval/_neval.py:74-79 | the compiled statements are the parsed or given statements after the capture rewrite; unparsable text has none |
| EvaluationSpec.FinalState | neval/_neval.py:82-83 | the namespace that `finally` finds keeps flags ⊆ keys |
| EvaluationSpec.Refill | neval/_neval.py:122-125 | the caller's mapping is refilled with exactly the flagged keys, in the order of the flags, each with its value from the execution dict |
| EvaluationSpec.WriteBackIsFlaggedKeys | neval/_neval.py:117-125 | the written-back keys are the flagged ones minus the slot, and minus `__builtins__` when the caller lacked it. Their values come from the execution dict. The returned value is the slot's value, or None |
| EvaluationSpec.DeepestLine | neval/_neval.py:87-100 | the error line is a SyntaxError's own line, otherwise the line of the last traceback record in the synthetic file, if any |
| EvaluationSpec.SecondFrameLine | runcode/runcode.py:106-110 | the error line is a SyntaxError's own line, otherwise the second traceback record's, and an AttributeError when there is none |
| EvaluationSpec.HandleDeepest | neval/_neval.py:86-114 | the exception is re-raised, a SyntaxError carrying the synthetic file name. A note is added exactly for source text on a Python with `add_note`, when a line was found and the display succeeds. An IndexError from the display replaces the exception. The handler at runcode/_runcode.py:80-111 is the same |
| EvaluationSpec.HandleSecondFrame | runcode/runcode.py:104-120 | the exception is re-raised. For source text with a line, the display becomes the note when it renders, and an IndexError from the display replaces the exception; a note is added in no other case. A missing `tb_next` raises AttributeError, and a missing SyntaxError line raises TypeError |
| EvaluationSpec.Handle | neval/_neval.py:86-114 | `except Exception` passes a `BaseException` that is not an `Exception` through unchanged, with no note; a failure never turns into a returned value |
| EvaluationSpec.EvaluationNamespace | neval/_neval.py:116-125 | the caller's mapping ends as exactly the flagged keys of the final execution dict, minus the slot and any injected `__builtins__`, with their final values, in flag order; the `finally` blocks of runcode/_runcode.py:113-122 and runcode/runcode.py:122-131 are identical |
| EvaluationSpec.EvaluationOutcome | neval/_neval.py:114-129 | the call returns exactly when nothing failed, and then returns the slot's final value, or None |
| EvaluationProperties.FinalStateIsRun | neval/_neval.py:82-83 | the final execution dict is the set-up dict, with `__builtins__` injected, after the executed calls in order |
| EvaluationProperties.Compiled | neval/_neval.py:82-83 | when the body parses and compiles, the only failure is the one execution raises |
| EvaluationProperties.WriteSurvives | neval/flagged_dict.py:49-51 | a store survives, flagged and with its value, any later calls that do not touch its key |
| EvaluationProperties.ReadonlyKeyStaysUnflagged | neval/_neval.py:58-59 | a key not in the caller's mapping is not flagged at the end unless an executed call flags it |
| EvaluationProperties.UntouchedCallerKeyKept | neval/_neval.py:58-59 | a caller key no call touches ends flagged, with the read-only value when the read-only mapping has the key, else the caller's |
| EvaluationProperties.CaptureStored | neval/_neval.py:79-83 | after a completed run of a body ending in an expression, the slot holds the expression's value |
| EvaluationProperties.SlotStaysEmpty | neval/_neval.py:62-83 | without a trailing expression and with a fresh slot name, the slot is never stored |
| EvaluationProperties.StoredKeyKept | neval/_neval.py:82-83 | a store made before execution raises is still in the execution dict, flagged, at `finally` |
| EvaluationProperties.NothingRunsOnCompileFailure | neval/_neval.py:74-83 | when compiling fails, the execution dict is the set-up one: the caller's flags and the merged entries |
| EvaluationProperties.ReadonlyOnlyKeyNotWrittenBack | runcode/_runcode.py:51-53 | a key only in the read-only mapping, never flagged by the fragment, is not in the caller's mapping afterwards |
| EvaluationProperties.SlotAndBuiltinsNotWrittenBack | neval/_neval.py:117-125 | the slot never reaches the caller's mapping, nor does `__builtins__` unless the caller had it |
| EvaluationProperties.UntouchedCallerKeyWrittenBack | neval/_neval.py:58-125 | a caller key the fragment never touches is written back, with the read-only value when both namespaces hold it |
| EvaluationProperties.ReturnsCapturedValue | runcode/runcode.py:122-135 | a fragment ending in an expression that runs to completion returns that expression's value, as tests/test_runcode.py:16-31 expect of `"1+1"` and a trailing top-level `i` |
| EvaluationProperties.UncapturedReturnsNone | tests/test_runcode.py:33-36 | a fragment ending in a loop or an assignment returns None |
| EvaluationProperties.MutationsCommittedOnError | neval/_neval.py:114-125 | a store made before the fragment raises is written back to the caller, and the call does not return |
| EvaluationProperties.InterruptPassesThrough | neval/_neval.py:82-125 | `SystemExit` or `KeyboardInterrupt` from the fragment is re-raised as it is, without a line lookup or a note |
| EvaluationProperties.FinalAssignmentStored | neval/_neval.py:82-83 | a fragment ending in an assignment that completes leaves the assigned value, flagged, under its target |
| EvaluationProperties.ReEvaluationWritesBackOldSlot | neval/_neval.py:72-129 | evaluating an already rewritten tree again writes the first call's slot and its value into the caller's mapping, and returns None when nothing else writes the new slot |
| EvaluationProperties.CompileFailureRestoresCaller | neval/_neval.py:74-125 | when compiling fails, the caller's mapping keeps its keys in order, with the read-only value for shared keys, and the call does not return |
| EvaluationProperties.TwoAssignmentsWrittenBack | tests/test_runcode.py:51-57 | `a=1;b=2` with an empty namespace leaves exactly `{a: 1, b: 2}` in it, whatever the read-only mapping holds |
| EvaluationProperties.TwoAssignmentsReturnNone | tests/test_runcode.py:51-57 | `a=1;b=2` returns None |
| Evaluator.Apply | neval/_neval.py:83 | each call the executed code makes goes through the FlaggedDict's own method and moves the state by `FlaggedSpec.Step` |
| Evaluator.SetUpNamespace | neval/_neval.py:58-59 | the fresh FlaggedDict holds `SetUp` of the two mappings |
| Evaluator.Execute | neval/_neval.py:83 | the loop over the executed calls, after injecting `__builtins__`, reaches `FlaggedSpec.Run` of them |
| Evaluator.HandleFailure | neval/_neval.py:86-114 | the `except` block gives the outcome `Handle` describes, for both variants; runcode/runcode.py:104-120 is the `SecondFrame` one |
| Evaluator.CopyBack | neval/_neval.py:117-125 | the pops, the clear and the refill leave the caller's mapping and return the value that `WriteBack` gives |
| Evaluator.StoreFlagged | neval/_neval.py:122-125 | the clear and the loop over the flags leave the caller's mapping as `Refill` |
| Evaluator.Prepare | neval/_neval.py:74-79 | parsing and the in-place rewrite give the `Rewritten` statements, and a given tree ends rewritten |
| Evaluator.CompileAndRun | neval/_neval.py:82-83 | compile and exec fail as `Failure` says and leave the namespace as `FinalState` |
| Evaluator.Evaluate | neval/_neval.py:52-129 | the whole call leaves the caller's mapping and returns what `Evaluation` says; only the caller's mapping and a given tree change. runcode/_runcode.py:46-126 is the same call with the `Deepest` variant, runcode/runcode.py:74-135 with `SecondFrame` |
| Evaluator.TryBlock | neval/_neval.py:82-125 | the `try`/`except`/`finally` after set-up produces `Evaluation` once parsing did not fail outright |

## Left out

- `ast.parse`, `compile` and `exec` are host services. A `Host` value gives their results: the parsed statements or the exception, a compile error, the calls made on the namespace dict, and how execution ended. Nothing checks that these results are consistent with real Python.
- `exec` writes `__builtins__` at the C level, bypassing the dict's own methods. `Inject` therefore stores it without a flag. Statements that write the namespace through `STORE_GLOBAL`, which bypasses the subclass's `__setitem__`, are not modelled apart from the calls the host lists.
- `gen_sym` takes the uuid as a parameter rather than drawing one at random. Likewise, the synthetic file name is a parameter and the SHA-1 derivation is not modelled.
- A `del` of a global inside a function of the fragment (`DELETE_GLOBAL`) removes the key from the dict directly, bypassing `__delitem__`, so its flag stays. The `finally` block has already cleared the caller's mapping when `ns_exec[key]` raises KeyError for that key (neval/_neval.py:122-125, runcode/_runcode.py:119-122, runcode/runcode.py:128-131). The caller is then left with only the keys flagged before it, and the KeyError replaces the result or the fragment's exception. The model's executed calls are all FlaggedDict methods, which keep flags ⊆ keys, so `Evaluator.CopyBack` and `EvaluationSpec.WriteBack` require that invariant and this case is not modelled.
- Temp-file writing, the glob and unlink of stale files, the file-name caches and their regexes, and `linecache.cache.pop` are filesystem and process-global I/O, and they do not change the caller's mapping. The unlink and the write run inside the `except` block (neval/_neval.py:107-112, runcode/_runcode.py:101-109). A failure there, such as an OSError from `write_text` or a FileNotFoundError from `unlink` on a file another process already removed, would be raised in place of the fragment's exception. That failure is not modelled.
- `runcode/monkeypath_linecache.py` and the call to `monkeypatch_linecache`: they patch the process-global `linecache` module.
- `get_namespace_mapping`: its `None` case is the empty dict passed in. Its `__dict__` case, which reflects on a Python object, is not modelled.
- The `hasattr(e, "add_note")` Python-version check is a boolean parameter.
- Diagnostics.SplitLines: splits only on `\n`. Python's `splitlines` also splits on `\r`, `\v`, `\f`, `\u2028` and other separators.
- Diagnostics.Annotate: `int(lineno)` of a non-integer line number is not modelled, because line numbers are integers.
- Diagnostics.BaseName: does not treat a `.` component as `Path(...).name` does: `"a/b/."` gives `"."` where Python gives `"b"`, and `"."` gives `"."` where Python gives `""`.
- The `ReserveDict` constructor `__init__` is not modelled. Line 60 iterates `reserve` rather than `reserve.items()`, so it unpacks each key into two items: a reserve like `{"ab": 1}` silently becomes `{"a": "b"}`, and a key that does not unpack into exactly two items raises. The model constructs through `fromdicts`.
- `__repr__`, `__str__`, `__sizeof__` and `__ne__` of `ReserveDict` are not modelled, and neither is the unused string-literal copy of the class after line 178.
- ReserveDicts.ChainHasItem, ReserveDicts.ChainHasValue: only membership in the items and values views is modelled. Their iteration and length are not modelled, although both are the same chain as for keys.
- ReserveDicts.ReserveDict.Update, FlaggedDicts.FlaggedDict.Update: take dicts. Python's `update` also accepts an iterable of pairs, which is not modelled.
- ReserveDicts.ReserveDict.FromDicts: takes the reserve as a dict value. The source reads it once, through `items()`, and never keeps it, so aliasing of the reserve is not modelled.
- `reg_semicol` in `runcode/runcode.py` is never used, so a trailing `;` does not suppress capture. It is not modelled.
- The source builds the FlaggedDict before parsing. `Evaluator.Evaluate` builds it after parsing, because building it changes nothing visible and a non-syntax parse failure leaves the function before the `try` block.
- Only `ast.Module` trees are modelled as given code. Other `ast.AST` nodes are not modelled.
- Executed statements are given as calls on the namespace dict; expressions are opaque text. The model says nothing about what the statements compute.
- `runcode/flagged_dict.py` and `runcode/util.py` are not part of this model. The `neval/` files stand in for them.

## Findings

| source | as written | input that shows it | evidently intended | confidence | as-written member | corrected member |
|---|---|---|---|---|---|---|
| runcode/reserve_dict.py:111-115 | `setdefault` looks the key up in `reserve`, and when it is found returns nothing, so the call yields None | reserve `{1: 2}`, `d` empty, `setdefault(1, 3)` returns None although `rd[1] == 2` | return the value the mapping holds for the key, and insert the default into `d` only when the key is absent from both tiers | not executed | ReserveDicts.SetDefaultAsWrittenHidesReserveValue | ReserveDicts.SetDefaultIntendedIsLookupOrInsert |
