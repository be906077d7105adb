/**
 * Error diagnostics: `format_code_for_error_line_display` (neval/util.py,
 * with a header line; runcode/runcode.py, without one), the traceback walk
 * `deepest_traceback` (neval/util.py), and the generated capture name
 * `gen_sym`.
 */
module Diagnostics {
  import opened Dicts

  /** `sep.join(parts)`. */
  function Join(parts: seq<string>, sep: string): string
    decreases |parts|
  {
    if parts == [] then ""
    else if |parts| == 1 then parts[0]
    else parts[0] + sep + Join(parts[1..], sep)
  }

  /** Index of the first line break of `s`, or `|s|` when there is none. */
  function LineEnd(s: string): (i: nat)
    ensures i <= |s|
    ensures forall j :: 0 <= j < i ==> s[j] != '\n'
    ensures i < |s| ==> s[i] == '\n'
  {
    if s == [] || s[0] == '\n' then 0 else 1 + LineEnd(s[1..])
  }

  /**
   * `s.splitlines()` for text whose only line break is `\n`: the pieces
   * between breaks, where a final break does not start an empty line.
   */
  function SplitLines(s: string): (lines: seq<string>)
    ensures forall i :: 0 <= i < |lines| ==> '\n' !in lines[i]
    decreases |s|
  {
    if s == [] then []
    else
      var i := LineEnd(s);
      if i == |s| then [s] else [s[..i]] + SplitLines(s[i + 1..])
  }

  predicate EndsInNewline(s: string) {
    s != [] && s[|s| - 1] == '\n'
  }

  /** Joining the lines with `\n` gives the text back, up to a final line break. */
  lemma {:induction false} JoinSplitLines(s: string)
    ensures Join(SplitLines(s), "\n") + Trailer(s) == s
    decreases |s|
  {
    if s != [] && LineEnd(s) < |s| {
      var i := LineEnd(s);
      JoinSplitLines(s[i + 1..]);
      SplitAtBreak(s, i);
      JoinSplitLinesStep(s[..i], s[i + 1..]);
    }
  }

  function Trailer(s: string): string {
    if EndsInNewline(s) then "\n" else ""
  }

  /** The inductive step of `JoinSplitLines`: the first line, its break, and the rest. */
  lemma JoinSplitLinesStep(line: string, tail: string)
    requires '\n' !in line
    requires Join(SplitLines(tail), "\n") + Trailer(tail) == tail
    ensures var s := line + "\n" + tail; Join(SplitLines(s), "\n") + Trailer(s) == s
  {
    var s := line + "\n" + tail;
    LineEndAfter(line, tail);
    assert s[..|line|] == line && s[|line| + 1..] == tail;
    var rest := SplitLines(tail);
    assert SplitLines(s) == [line] + rest;
    if tail == [] {
      assert Join(SplitLines(s), "\n") == line;
    } else {
      assert Trailer(s) == Trailer(tail);
      JoinCons(line, rest, "\n");
      Reassemble(line, Join(rest, "\n"), Trailer(tail), tail);
    }
  }

  lemma SplitAtBreak(s: string, i: nat)
    requires i < |s| && s[i] == '\n'
    ensures s == s[..i] + "\n" + s[i + 1..]
  {
    assert s[i..] == [s[i]] + s[i + 1..];
    assert s == s[..i] + s[i..];
  }

  lemma Reassemble(line: string, joined: string, trailer: string, tail: string)
    requires joined + trailer == tail
    ensures (line + "\n" + joined) + trailer == line + "\n" + tail
  {
  }

  lemma JoinCons(first: string, rest: seq<string>, sep: string)
    requires rest != []
    ensures Join([first] + rest, sep) == first + sep + Join(rest, sep)
  {
    assert ([first] + rest)[1..] == rest;
  }

  /**
   * Splitting lines joined with `\n` gives them back, when no line holds a
   * break and the last one is not empty (an empty last line leaves no trace).
   */
  lemma {:induction false} SplitJoinLines(lines: seq<string>)
    requires forall i :: 0 <= i < |lines| ==> '\n' !in lines[i]
    requires lines != [] ==> lines[|lines| - 1] != ""
    ensures SplitLines(Join(lines, "\n")) == lines
    decreases |lines|
  {
    if |lines| == 1 {
      LineEndNone(lines[0]);
    } else if |lines| > 1 {
      var first, rest := lines[0], lines[1..];
      assert lines == [first] + rest;
      SplitJoinLines(rest);
      var tail := Join(rest, "\n");
      JoinCons(first, rest, "\n");
      var s := first + "\n" + tail;
      JoinNonEmpty(rest);
      LineEndAfter(first, tail);
      assert s[..|first|] == first && s[|first| + 1..] == tail;
      assert SplitLines(s) == [first] + SplitLines(tail);
    }
  }

  lemma LineEndNone(s: string)
    requires '\n' !in s && s != []
    ensures LineEnd(s) == |s|
    ensures SplitLines(s) == [s]
  {
  }

  lemma LineEndAfter(first: string, tail: string)
    requires '\n' !in first
    ensures LineEnd(first + "\n" + tail) == |first|
  {
    var s := first + "\n" + tail;
    assert s[|first|] == '\n';
    assert forall j :: 0 <= j < |first| ==> s[j] == first[j];
    LineEndAt(s, |first|);
  }

  lemma LineEndAt(s: string, i: nat)
    requires i < |s| && s[i] == '\n' && forall j :: 0 <= j < i ==> s[j] != '\n'
    ensures LineEnd(s) == i
  {
  }

  lemma {:induction false} JoinNonEmpty(lines: seq<string>)
    requires lines != [] && lines[|lines| - 1] != ""
    ensures Join(lines, "\n") != ""
    decreases |lines|
  {
    if |lines| > 1 {
      assert Join(lines, "\n") == lines[0] + "\n" + Join(lines[1..], "\n");
    }
  }

  /** `str(n)` for a natural number: decimal digits, no leading zero. */
  function NatToString(n: nat): (s: string)
    ensures s != []
    ensures forall i :: 0 <= i < |s| ==> '0' <= s[i] <= '9'
    decreases n
  {
    var digit := ['0' + (n % 10) as char];
    if n < 10 then digit else NatToString(n / 10) + digit
  }

  /** `str(i)`. */
  function IntToString(i: int): (s: string)
    ensures '\n' !in s
  {
    if i < 0 then "-" + NatToString(-i) else NatToString(i)
  }

  function Pow10(k: nat): nat {
    if k == 0 then 1 else 10 * Pow10(k - 1)
  }

  /** A number below `10^k` has at most `k` digits. */
  lemma {:induction false} NatToStringLength(n: nat, k: nat)
    requires 1 <= k && n < Pow10(k)
    ensures |NatToString(n)| <= k
    decreases k
  {
    if n >= 10 {
      NatToStringLength(n / 10, k - 1);
    }
  }

  /** `c * n`: `n` copies of `c`, none when `n` is not positive. */
  function Repeat(c: char, n: int): (s: string)
    ensures |s| == if n < 0 then 0 else n
    ensures forall i :: 0 <= i < |s| ==> s[i] == c
    decreases n
  {
    if n <= 0 then [] else [c] + Repeat(c, n - 1)
  }

  /** `f"{n:7d}"`: `n` right-aligned in a field of `width` characters, wider numbers unpadded. */
  function PadLeft(s: string, width: nat): (r: string)
    ensures |r| == if |s| < width then width else |s|
    ensures r[|r| - |s|..] == s
    ensures forall i :: 0 <= i < |r| - |s| ==> r[i] == ' '
  {
    Repeat(' ', width - |s|) + s
  }

  /** One gutter line: `f"{i+1:7d} {line}"`. */
  function GutterLine(number: int, line: string): string {
    PadLeft(IntToString(number), 7) + " " + line
  }

  /** The failing line: `"-" * (5 - len(str(lineno))) + "> " + str(lineno) + " " + line`. */
  function MarkerLine(lineno: int, line: string): string {
    var digits := IntToString(lineno);
    Repeat('-', 5 - |digits|) + "> " + digits + " " + line
  }

  /** Python's `xs[index]` on a list of length `n`: a negative index counts from the end. */
  function PyIndex(n: nat, index: int): (r: Option<nat>)
    ensures r.Some? <==> -(n as int) <= index < n
    ensures r.Some? ==> r.value < n && (r.value == index || r.value == index + n)
  {
    if 0 <= index < n then Some(index)
    else if -(n as int) <= index < 0 then Some(index + n)
    else None
  }

  /**
   * `lines_annotated` after the marker is written: one gutter line per source
   * line, with the line at `lineno - 1` (a Python index) replaced by the
   * marker; IndexError when that index is out of range.
   */
  function Annotate(code: string, lineno: int): (r: Result<seq<string>>)
    ensures r.Ok? <==> 1 - |SplitLines(code)| <= lineno <= |SplitLines(code)|
    ensures r.Err? ==> r.error == IndexError
    ensures r.Ok? ==> |r.value| == |SplitLines(code)|
    ensures r.Ok? ==> forall i :: 0 <= i < |r.value| && i != PyIndex(|r.value|, lineno - 1).value ==>
      r.value[i] == GutterLine(i + 1, SplitLines(code)[i])
    ensures r.Ok? ==> var j := PyIndex(|r.value|, lineno - 1).value;
      r.value[j] == MarkerLine(lineno, SplitLines(code)[j])
  {
    var lines := SplitLines(code);
    match PyIndex(|lines|, lineno - 1)
    case None => Err(IndexError)
    case Some(j) =>
      var gutter := seq(|lines|, i requires 0 <= i < |lines| => GutterLine(i + 1, lines[i]));
      Ok(gutter[j := MarkerLine(lineno, lines[j])])
  }

  /**
   * `Path(filename).name`: the last path component, trailing slashes
   * ignored.
   */
  function BaseName(filename: string): (r: string)
    ensures '/' !in r
    ensures '/' !in filename ==> r == filename
    decreases |filename|
  {
    if filename == [] then []
    else if filename[|filename| - 1] == '/' then BaseName(filename[..|filename| - 1])
    else LastComponent(filename)
  }

  /** The base name is the last component of the path once its trailing slashes are gone. */
  lemma {:induction false} BaseNameIsLastComponent(filename: string)
    ensures BaseName(filename) == LastComponent(TrimSlashes(filename))
    decreases |filename|
  {
    if filename != [] && filename[|filename| - 1] == '/' {
      BaseNameIsLastComponent(filename[..|filename| - 1]);
    }
  }

  /** The path without its trailing slashes. */
  function TrimSlashes(path: string): (r: string)
    ensures |r| <= |path| && path[..|r|] == r
    ensures r == [] || r[|r| - 1] != '/'
    ensures forall i :: |r| <= i < |path| ==> path[i] == '/'
    decreases |path|
  {
    if path == [] || path[|path| - 1] != '/' then path
    else TrimSlashes(path[..|path| - 1])
  }

  /** The text after the last `/` of the path, or all of it when it has none. */
  function LastComponent(path: string): (r: string)
    ensures '/' !in r
    ensures forall c :: c in r ==> c in path
    ensures |r| <= |path| && path[|path| - |r|..] == r
    ensures |r| < |path| ==> path[|path| - |r| - 1] == '/'
    ensures '/' !in path ==> r == path
    decreases |path|
  {
    if path == [] || path[|path| - 1] == '/' then []
    else
      var init := path[..|path| - 1];
      var r := LastComponent(init) + [path[|path| - 1]];
      assert init[|init| - (|r| - 1)..] + [path[|path| - 1]] == path[|path| - |r|..];
      r
  }

  /** `format_code_for_error_line_display(code, lineno, filename)` of neval/util.py. */
  function FormatWithHeader(code: string, lineno: int, filename: string): (r: Result<string>)
    ensures r.Ok? <==> Annotate(code, lineno).Ok?
    ensures r.Err? ==> r.error == IndexError
  {
    match Annotate(code, lineno)
    case Err(e) => Err(e)
    case Ok(annotated) => Ok(Join(["Error in " + BaseName(filename) + ":"] + annotated, "\n"))
  }

  /** `format_code_for_error_line_display(code, lineno)` of runcode/runcode.py. */
  function FormatNoHeader(code: string, lineno: int): (r: Result<string>)
    ensures r.Ok? <==> Annotate(code, lineno).Ok?
    ensures r.Err? ==> r.error == IndexError
  {
    match Annotate(code, lineno)
    case Err(e) => Err(e)
    case Ok(annotated) => Ok(Join(annotated, "\n"))
  }

  /** Every annotated line is a single non-empty line. */
  lemma AnnotatedLinesAreLines(code: string, lineno: int)
    requires Annotate(code, lineno).Ok?
    ensures forall i :: 0 <= i < |Annotate(code, lineno).value| ==>
      '\n' !in Annotate(code, lineno).value[i] && Annotate(code, lineno).value[i] != ""
  {
    var lines := SplitLines(code);
    var annotated := Annotate(code, lineno).value;
    var j := PyIndex(|annotated|, lineno - 1).value;
    forall i | 0 <= i < |annotated|
      ensures '\n' !in annotated[i] && annotated[i] != ""
    {
      if i == j {
        MarkerLineIsLine(lineno, lines[i]);
      } else {
        GutterLineIsLine(i + 1, lines[i]);
      }
    }
  }

  lemma GutterLineIsLine(number: int, line: string)
    requires '\n' !in line
    ensures '\n' !in GutterLine(number, line) && GutterLine(number, line) != ""
  {
    var pad := PadLeft(IntToString(number), 7);
    assert pad == Repeat(' ', 7 - |IntToString(number)|) + IntToString(number);
    assert '\n' !in Repeat(' ', 7 - |IntToString(number)|);
    assert GutterLine(number, line) == pad + " " + line;
  }

  lemma MarkerLineIsLine(lineno: int, line: string)
    requires '\n' !in line
    ensures '\n' !in MarkerLine(lineno, line) && MarkerLine(lineno, line) != ""
  {
    var digits := IntToString(lineno);
    var dashes := Repeat('-', 5 - |digits|);
    assert '\n' !in dashes;
    assert MarkerLine(lineno, line) == dashes + "> " + digits + " " + line;
  }

  /**
   * The display shows the header `Error in <basename>:` and then exactly one
   * line per line of the source.
   */
  lemma DisplayHasHeaderAndOneLinePerSourceLine(code: string, lineno: int, filename: string)
    requires FormatWithHeader(code, lineno, filename).Ok?
    requires '\n' !in filename
    ensures var shown := SplitLines(FormatWithHeader(code, lineno, filename).value);
      && |shown| == |SplitLines(code)| + 1
      && shown[0] == "Error in " + BaseName(filename) + ":"
      && shown[1..] == Annotate(code, lineno).value
  {
    var annotated := Annotate(code, lineno).value;
    var header := "Error in " + BaseName(filename) + ":";
    AnnotatedLinesAreLines(code, lineno);
    assert '\n' !in header by {
      forall c | c in BaseName(filename) ensures c != '\n' {
        BaseNameChars(filename, c);
      }
    }
    SplitJoinLines([header] + annotated);
  }

  /** Without the header: exactly one display line per source line. */
  lemma DisplayHasOneLinePerSourceLine(code: string, lineno: int)
    requires FormatNoHeader(code, lineno).Ok?
    ensures SplitLines(FormatNoHeader(code, lineno).value) == Annotate(code, lineno).value
    ensures |SplitLines(FormatNoHeader(code, lineno).value)| == |SplitLines(code)|
  {
    AnnotatedLinesAreLines(code, lineno);
    SplitJoinLines(Annotate(code, lineno).value);
  }

  lemma {:induction false} BaseNameChars(filename: string, c: char)
    requires c in BaseName(filename)
    ensures c in filename
    decreases |filename|
  {
    if filename != [] && filename[|filename| - 1] == '/' {
      BaseNameChars(filename[..|filename| - 1], c);
    }
  }

  /**
   * Gutter and marker line up: for a line number of at most five digits the
   * marker prefix is seven characters, like the gutter, so the source text
   * starts in column 8 on every line.
   */
  lemma MarkerAlignsWithGutter(lineno: int, number: int, line: string)
    requires 1 <= lineno <= 99999 && 1 <= number <= 9999999
    ensures MarkerLine(lineno, line)[..7] == Repeat('-', 5 - |IntToString(lineno)|) + "> " + IntToString(lineno)
    ensures MarkerLine(lineno, line)[7..] == " " + line
    ensures GutterLine(number, line)[..7] == PadLeft(IntToString(number), 7)
    ensures GutterLine(number, line)[7..] == " " + line
  {
    NatToStringLength(lineno, 5);
    NatToStringLength(number, 7);
    var digits := IntToString(lineno);
    var prefix := Repeat('-', 5 - |digits|) + "> " + digits;
    assert |prefix| == 7;
    assert MarkerLine(lineno, line) == prefix + (" " + line);
    var gutter := PadLeft(IntToString(number), 7);
    assert |gutter| == 7;
    assert GutterLine(number, line) == gutter + (" " + line);
  }

  /** A traceback record: the file of its frame and the line it was at. */
  datatype Frame = Frame(filename: string, lineno: int)

  /** Index of the last record of `chain` in file `filename`. */
  function LastMatching(chain: seq<Frame>, filename: string): (r: Option<nat>)
    ensures r.Some? ==> r.value < |chain| && chain[r.value].filename == filename
    ensures r.Some? ==> forall j :: r.value < j < |chain| ==> chain[j].filename != filename
    ensures r.None? <==> forall j :: 0 <= j < |chain| ==> chain[j].filename != filename
    decreases |chain|
  {
    if chain == [] then None
    else if chain[|chain| - 1].filename == filename then Some(|chain| - 1)
    else LastMatching(chain[..|chain| - 1], filename)
  }

  /**
   * `deepest_traceback(traceback, filename)`: follows `tb_next` from a
   * sentinel in front of the head record, remembering the last record in
   * `filename`; the index of that record, or None.
   */
  method DeepestTraceback(chain: seq<Frame>, filename: string) returns (found: Option<nat>)
    ensures found == LastMatching(chain, filename)
  {
    // `pointer` is the sentinel at -1, then each record in turn
    var pointer := -1;
    found := None;
    while pointer + 1 < |chain|
      invariant -1 <= pointer < |chain|
      invariant found == LastMatching(chain[..pointer + 1], filename)
    {
      pointer := pointer + 1;
      assert chain[..pointer + 1][..pointer] == chain[..pointer];
      if chain[pointer].filename == filename {
        found := Some(pointer);
      }
    }
    assert chain[..pointer + 1] == chain;
  }

  /**
   * runcode/runcode.py's `e.__traceback__.tb_next.tb_lineno`: the second
   * record's line; AttributeError when the chain has no second record.
   */
  function SecondFrameLine(chain: seq<Frame>): (r: Result<int>)
    ensures r.Ok? <==> |chain| >= 2
    ensures r.Ok? ==> r.value == chain[1].lineno
    ensures r.Err? ==> r.error == AttributeError
  {
    if |chain| < 2 then Err(AttributeError) else Ok(chain[1].lineno)
  }

  /** `str(uuid)` without its dashes. */
  function StripDashes(s: string): (r: string)
    ensures '-' !in r
    ensures |r| <= |s|
    ensures forall c :: c != '-' ==> (c in r <==> c in s)
    ensures '-' !in s ==> r == s
  {
    if s == [] then []
    else (if s[0] == '-' then [] else [s[0]]) + StripDashes(s[1..])
  }

  /** `gen_sym(varname)`: `__<varname>_<uuid hex>__`, the uuid text given. */
  function GenSym(varname: string, uuid: string): string {
    "__" + varname + "_" + StripDashes(uuid) + "__"
  }

  /** Distinct uuids give distinct names: the name determines the uuid's hex digits. */
  lemma GenSymInjective(varname: string, uuid: string, uuid': string)
    requires GenSym(varname, uuid) == GenSym(varname, uuid')
    ensures StripDashes(uuid) == StripDashes(uuid')
  {
    var a, b := GenSym(varname, uuid), GenSym(varname, uuid');
    var n := |varname| + 3;
    assert a[n..|a| - 2] == StripDashes(uuid);
    assert b[n..|b| - 2] == StripDashes(uuid');
  }

  /** A capture name never collides with `__builtins__`. */
  lemma GenSymReturnIsNotBuiltins(uuid: string)
    ensures GenSym("return", uuid) != "__builtins__"
  {
    assert GenSym("return", uuid)[2] == 'r';
  }
}
