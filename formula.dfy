/**
 * The formula adapter: cell values, formula errors, numeric coercion of a referenced
 * cell's value (`ValueVisitor`), the reference callback handed to the expression tree,
 * and the adjacent de-duplication of the referenced-cell list.
 *
 * The expression parser and tree are outside this model: a parsed tree is its list of
 * referenced cells and its canonical expression text, and executing it is a function
 * `Executor` supplied by the sheet. Numbers are `real`; whether a string parses wholly as
 * a number is a function `NumberParser`, also supplied from outside.
 */
module Formulas {
  import opened Wrappers
  import opened Structures

  datatype Category = Ref | Value | Div0

  datatype FormulaError = FormulaError(category: Category)

  /** CellInterface::Value: a string, a number or a formula error. */
  datatype Value = Str(text: string) | Num(number: real) | Err(error: FormulaError)

  /** What executing an expression tree yields: a number, or the FormulaError it throws. */
  datatype FormulaResult = Number(number: real) | Error(error: FormulaError)

  /** A parsed expression tree, reduced to what the core sees of it. */
  datatype FormulaAst = FormulaAst(cells: seq<Position>, expression: string)

  /** Trees whose referenced positions are all valid (see README, "Left out"). */
  type ValidAst = a: FormulaAst | forall i :: 0 <= i < |a.cells| ==> IsValid(a.cells[i])
    witness FormulaAst([], "")

  /** The Formula class: its tree and its de-duplicated referenced cells. */
  datatype Formula = Formula(ast: FormulaAst, referencedCells: seq<Position>)

  datatype FormulaException = FormulaException(message: string)

  /** `iss >> num && iss.eof()`: Some(x) exactly when the whole string reads as the number x. */
  type NumberParser = string -> Option<real>

  /** FormulaAST::Execute, given the per-reference callback. */
  type Executor = (FormulaAst, Position -> FormulaResult) -> FormulaResult

  /** An executor that consults the callback only at the cells the tree lists, as
      FormulaAST::Execute does through its cell nodes. */
  ghost predicate ReadsOnlyTreeCells(execute: Executor)
  {
    forall ast: FormulaAst, cb1: Position -> FormulaResult, cb2: Position -> FormulaResult
      {:trigger execute(ast, cb1), execute(ast, cb2)} ::
      (forall q :: q in ast.cells ==> cb1(q) == cb2(q)) ==> execute(ast, cb1) == execute(ast, cb2)
  }

  /** ParseFormulaAST: None when the text does not parse. */
  type Parser = string -> Option<ValidAst>

  /** operator<<(ostream, FormulaError): the category is not consulted. */
  function RenderError(fe: FormulaError): string
  {
    "#DIV/0!"
  }

  lemma RenderIgnoresCategory(a: FormulaError, b: FormulaError)
    ensures RenderError(a) == RenderError(b) == "#DIV/0!"
  {
  }

  /** ValueVisitor: the number a formula reads from a referenced cell's value. */
  function Coerce(v: Value, parseNumber: NumberParser): FormulaResult
  {
    match v
    case Num(x) => Number(x)
    case Err(e) => Error(e)
    case Str(s) =>
      if |s| == 0 then Number(0.0)
      else if parseNumber(s).Some? then Number(parseNumber(s).value)
      else Error(FormulaError(Category.Value))
  }

  /** The coercion rule, case by case. */
  lemma CoerceRule(v: Value, parseNumber: NumberParser)
    ensures v.Num? ==> Coerce(v, parseNumber) == Number(v.number)
    ensures v.Err? ==> Coerce(v, parseNumber) == Error(v.error)
    ensures v == Str("") ==> Coerce(v, parseNumber) == Number(0.0)
    ensures v.Str? && v.text != "" ==>
      (Coerce(v, parseNumber).Number? <==> parseNumber(v.text).Some?)
    ensures v.Str? && v.text != "" && parseNumber(v.text).None? ==>
      Coerce(v, parseNumber) == Error(FormulaError(Category.Value))
  {
  }

  /** FormulaImpl::GetValue: the cell value of an evaluation result. */
  function ToValue(r: FormulaResult): Value
  {
    match r
    case Number(x) => Num(x)
    case Error(e) => Err(e)
  }

  /** A formula reading another formula's value sees exactly that formula's result:
      numbers pass through and errors propagate unchanged. */
  lemma CoerceFormulaValue(r: FormulaResult, parseNumber: NumberParser)
    ensures Coerce(ToValue(r), parseNumber) == r
  {
  }

  /** What a lookup contributes to a formula: 0 for no cell, the coerced value otherwise. */
  function ReadNumber(cell: Option<Value>, parseNumber: NumberParser): FormulaResult
  {
    match cell
    case Some(v) => Coerce(v, parseNumber)
    case None => Number(0.0)
  }

  /** The value_getter lambda of Formula::Evaluate. `getCell` is the sheet's lookup,
      None where no cell is stored. */
  function ReferenceCallback(getCell: Position -> Option<Value>, parseNumber: NumberParser,
                             pos: Position): FormulaResult
  {
    if !IsValid(pos) then Error(FormulaError(Ref)) else ReadNumber(getCell(pos), parseNumber)
  }

  lemma ReferenceCallbackRule(getCell: Position -> Option<Value>, parseNumber: NumberParser,
                              pos: Position)
    ensures !IsValid(pos) ==> ReferenceCallback(getCell, parseNumber, pos) == Error(FormulaError(Ref))
    ensures IsValid(pos) && getCell(pos).None? ==>
      ReferenceCallback(getCell, parseNumber, pos) == Number(0.0)
    ensures IsValid(pos) && getCell(pos).Some? ==>
      ReferenceCallback(getCell, parseNumber, pos) == Coerce(getCell(pos).value, parseNumber)
  {
  }

  /** Formula::Evaluate: run the tree with the reference callback. A FormulaError thrown
      inside becomes the result, so nothing escapes: the result type has no third case. */
  function Evaluate(f: Formula, execute: Executor, getCell: Position -> Option<Value>,
                    parseNumber: NumberParser): FormulaResult
  {
    execute(f.ast, pos => ReferenceCallback(getCell, parseNumber, pos))
  }

  /**
   * With an executor that reads only the tree's cells, the sheet matters to Evaluate only at
   * the tree's valid references, and there only through the number each one coerces to:
   * an invalid reference is a Ref error without any lookup, and a missing cell reads like
   * any cell that coerces to 0.
   */
  lemma EvaluateLocal(f: Formula, execute: Executor, getCell1: Position -> Option<Value>,
                      getCell2: Position -> Option<Value>, parseNumber: NumberParser)
    requires ReadsOnlyTreeCells(execute)
    requires forall q :: q in f.ast.cells && IsValid(q) ==>
      ReadNumber(getCell1(q), parseNumber) == ReadNumber(getCell2(q), parseNumber)
    ensures Evaluate(f, execute, getCell1, parseNumber) == Evaluate(f, execute, getCell2, parseNumber)
  {
    var cb1 := pos => ReferenceCallback(getCell1, parseNumber, pos);
    var cb2 := pos => ReferenceCallback(getCell2, parseNumber, pos);
    forall q | q in f.ast.cells ensures cb1(q) == cb2(q) {
      if IsValid(q) {
        assert ReadNumber(getCell1(q), parseNumber) == ReadNumber(getCell2(q), parseNumber);
      }
    }
    assert execute(f.ast, cb1) == execute(f.ast, cb2);
  }

  predicate NoAdjacentDuplicates(s: seq<Position>)
  {
    forall i :: 0 <= i < |s| - 1 ==> s[i] != s[i + 1]
  }

  /** std::list::unique: removes each element equal to the one before it. */
  function Unique(s: seq<Position>): (r: seq<Position>)
    ensures |r| <= |s|
    ensures |s| > 0 ==> |r| > 0 && r[0] == s[0]
    ensures NoAdjacentDuplicates(r)
    ensures forall x :: x in r <==> x in s
    decreases |s|
  {
    if |s| <= 1 then s
    else if s[0] == s[1] then Unique(s[1..])
    else [s[0]] + Unique(s[1..])
  }

  /** A list without adjacent duplicates is left as it is. */
  lemma {:induction false} UniqueKeepsDistinctNeighbours(s: seq<Position>)
    requires NoAdjacentDuplicates(s)
    ensures Unique(s) == s
    decreases |s|
  {
    if |s| > 1 {
      UniqueKeepsDistinctNeighbours(s[1..]);
    }
  }

  /**
   * std::list::unique as the elements arrive one by one: an element equal to the last one
   * kept is dropped, any other is appended. Together with Unique([]) == [] this fixes the
   * result, its order included.
   */
  lemma {:induction false} UniqueSnoc(s: seq<Position>, x: Position)
    ensures Unique([]) == []
    ensures Unique(s + [x]) == if s != [] && s[|s| - 1] == x then Unique(s) else Unique(s) + [x]
    decreases |s|
  {
    if |s| >= 2 {
      assert (s + [x])[1..] == s[1..] + [x];
      UniqueSnoc(s[1..], x);
      assert s[1..][|s[1..]| - 1] == s[|s| - 1];
      if s[0] != s[1] {
        assert [s[0]] + (Unique(s[1..]) + [x]) == [s[0]] + Unique(s[1..]) + [x];
      }
    } else if |s| == 1 {
      assert s + [x] == [s[0], x];
      assert [x][1..] == [];
    }
  }

  lemma UniqueIdempotent(s: seq<Position>)
    ensures Unique(Unique(s)) == Unique(s)
  {
    UniqueKeepsDistinctNeighbours(Unique(s));
  }

  /** ParseFormula with the Formula constructor: any parse failure becomes a FormulaException. */
  function ParseFormula(parse: Parser, expression: string): (r: Result<Formula, FormulaException>)
    ensures r.Failure? <==> parse(expression).None?
    ensures r.Success? ==> r.value.ast == parse(expression).value
    ensures r.Success? ==> r.value.referencedCells == Unique(r.value.ast.cells)
    ensures r.Success? ==> NoAdjacentDuplicates(r.value.referencedCells)
    ensures r.Success? ==> forall x :: x in r.value.referencedCells <==> x in r.value.ast.cells
    ensures r.Success? ==> forall x :: x in r.value.referencedCells ==> IsValid(x)
  {
    match parse(expression)
    case None => Failure(FormulaException("Parsing error"))
    case Some(ast) => Success(Formula(ast, Unique(ast.cells)))
  }

  /** The getters of a parsed formula: the tree's canonical text, and the tree's cells with
      adjacent duplicates removed. */
  lemma ParsedFormulaGetters(parse: Parser, expression: string)
    requires parse(expression).Some?
    ensures ParseFormula(parse, expression).Success?
    ensures GetExpression(ParseFormula(parse, expression).value) == parse(expression).value.expression
    ensures GetReferencedCells(ParseFormula(parse, expression).value) == Unique(parse(expression).value.cells)
  {
  }

  function GetExpression(f: Formula): string
  {
    f.ast.expression
  }

  function GetReferencedCells(f: Formula): seq<Position>
  {
    f.referencedCells
  }
}
