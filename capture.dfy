/**
 * The result-capture rewrite, `add_asignment_to_last_statement`, in
 * neval/util.py and its copy in runcode/runcode.py: a module body whose last
 * top-level statement is a bare expression gets that statement replaced, in
 * place, by an assignment of the same expression to a generated name.
 */
module Capture {

  /** The four position attributes of a node: `lineno`, `col_offset`, `end_lineno`, `end_col_offset`. */
  datatype Pos = Pos(lineno: int, colOffset: int, endLineno: int, endColOffset: int)

  /** An expression node; the rewrite moves it and never looks inside, so only its text is kept. */
  datatype Expr = Expr(text: string)

  /**
   * Statements: an expression statement (`ast.Expr`), an assignment to a
   * single name (`ast.Assign`), and every other statement (a loop, an import,
   * a function definition, ...) with the statements nested in it.
   */
  datatype Stmt =
    | ExprStmt(value: Expr, pos: Pos)
    | Assign(target: string, value: Expr, pos: Pos)
    | Other(kind: string, body: seq<Stmt>, pos: Pos)

  /** The condition the rewrite tests: a non-empty body whose last statement is an `ast.Expr`. */
  predicate EndsInExpr(body: seq<Stmt>) {
    body != [] && body[|body| - 1].ExprStmt?
  }

  /** The body after the rewrite. */
  function CaptureLast(body: seq<Stmt>, varname: string): (r: seq<Stmt>)
    ensures |r| == |body|
    ensures forall i :: 0 <= i < |body| - 1 ==> r[i] == body[i]
    ensures EndsInExpr(body) ==>
      && r[|r| - 1].Assign?
      && r[|r| - 1].target == varname
      && r[|r| - 1].value == body[|body| - 1].value
      && r[|r| - 1].pos == body[|body| - 1].pos
    ensures !EndsInExpr(body) ==> r == body
  {
    if EndsInExpr(body) then
      var last := body[|body| - 1];
      body[|body| - 1 := Assign(varname, last.value, last.pos)]
    else body
  }

  /**
   * Only the last top-level statement can change, and only an expression
   * statement: statements nested in a loop or a definition never do.
   */
  lemma OnlyTopLevelExprChanges(body: seq<Stmt>, varname: string, i: int)
    requires 0 <= i < |body|
    requires CaptureLast(body, varname)[i] != body[i]
    ensures i == |body| - 1 && body[i].ExprStmt?
  {
  }

  /**
   * The rewrite is idempotent: after it the body ends in an assignment, so a
   * second rewrite, with any name, changes nothing.
   */
  lemma CaptureLastIdempotent(body: seq<Stmt>, varname: string, other: string)
    ensures CaptureLast(CaptureLast(body, varname), other) == CaptureLast(body, varname)
  {
  }

  /** An `ast.Module`: its `body` list is replaced element-wise, in place. */
  class Module {
    var body: seq<Stmt>

    constructor (body: seq<Stmt>)
      ensures this.body == body
    {
      this.body := body;
    }
  }

  /** The `i`-th of the four position attributes, in the order the rewrite copies them. */
  function Attr(p: Pos, i: int): int
    requires 0 <= i < 4
  {
    if i == 0 then p.lineno
    else if i == 1 then p.colOffset
    else if i == 2 then p.endLineno
    else p.endColOffset
  }

  /** `setattr(p, attr, value)` for the `i`-th position attribute. */
  function SetAttr(p: Pos, i: int, value: int): (r: Pos)
    requires 0 <= i < 4
    ensures Attr(r, i) == value
    ensures forall j :: 0 <= j < 4 && j != i ==> Attr(r, j) == Attr(p, j)
  {
    if i == 0 then p.(lineno := value)
    else if i == 1 then p.(colOffset := value)
    else if i == 2 then p.(endLineno := value)
    else p.(endColOffset := value)
  }

  /**
   * `add_asignment_to_last_statement(code, varname)`: parses `varname=None`
   * for a fresh assignment node, moves the last expression into it, copies
   * the four position attributes one by one, and stores it as the last
   * statement of `code.body`.
   */
  method AddAssignmentToLastStatement(code: Module, varname: string)
    modifies code
    ensures code.body == CaptureLast(old(code.body), varname)
  {
    if code.body != [] && code.body[|code.body| - 1].ExprStmt? {
      var last := code.body[|code.body| - 1];
      // the value and position of the node `ast.parse(f"{varname}=None")` gives:
      // one line, and `=None` is five characters
      var value, pos := Expr("None"), Pos(1, 0, 1, |varname| + 5);
      value := last.value;
      for i := 0 to 4
        invariant forall j :: 0 <= j < i ==> Attr(pos, j) == Attr(last.pos, j)
      {
        pos := SetAttr(pos, i, Attr(last.pos, i));
      }
      assert pos == last.pos by {
        assert Attr(pos, 0) == Attr(last.pos, 0) && Attr(pos, 1) == Attr(last.pos, 1);
        assert Attr(pos, 2) == Attr(last.pos, 2) && Attr(pos, 3) == Attr(last.pos, 3);
      }
      var assign := Assign(varname, value, pos);
      code.body := code.body[|code.body| - 1 := assign];
    }
  }
}
