/**
 * The sheet: an ordered store of cells keyed by position, and the cell operations that
 * change it in place. Cell methods take the position of the cell they run on; the
 * pointers the source keeps between neighbouring cells are positions in the store.
 */
module Sheets {
  import opened Wrappers
  import opened Structures
  import opened Formulas
  import opened Graphs
  import opened Cells

  /** Some reference of the candidate content leads back to p. */
  ghost predicate CreatesCycle(m: Store, p: Position, refs: seq<Position>)
  {
    exists i :: 0 <= i < |refs| && Reaches(RefGraph(m), refs[i], p)
  }

  /** m2 is m1 with the cache of p and of every cell that reads p, directly or not, cleared. */
  ghost predicate Invalidated(m1: Store, m2: Store, p: Position)
  {
    SameShape(m1, m2) &&
    forall q :: Live(m1, q) ==>
      m2[q].value.cache == if q == p || ReachesProperly(RefGraph(m1), q, p) then None
                           else m1[q].value.cache
  }

  /** The whole effect of Cell::Set(text) on the cell at p. */
  ghost predicate SetEffect(parse: Parser, m: Store, m2: Store, p: Position, text: string,
                            r: Outcome<SheetError>)
  {
    Live(m, p) &&
    match Candidate(parse, text)
    case Failure(e) => r == Fail(e) && m2 == m
    case Success(impl) =>
      if CreatesCycle(m, p, ContentRefs(impl)) then r == Fail(CircularDependency) && m2 == m
      else r == Pass && Invalidated(Relink(m, p, impl), m2, p)
  }

  class Sheet {
    /** Sheet::data_ */
    var data: Store
    /** The formula parser, the expression evaluator and the whole-string number parser. */
    const parse: Parser
    const execute: Executor
    const parseNumber: NumberParser

    ghost predicate Valid()
      reads this
    {
      GraphValid(data)
    }

    constructor (parse: Parser, execute: Executor, parseNumber: NumberParser)
      ensures Valid() && data == map[]
      ensures this.parse == parse && this.execute == execute && this.parseNumber == parseNumber
    {
      data := map[];
      EmptyStoreValid();
      this.parse := parse;
      this.execute := execute;
      this.parseNumber := parseNumber;
    }

    // -------------------------------------------------------------------------
    // Sheet

    /** Sheet::SetCell: an absent or cleared slot first gets a new Empty cell, which stays
        there when Cell::Set then fails. */
    method SetCell(pos: Position, text: string) returns (r: Outcome<SheetError>)
      requires Valid()
      modifies this
      decreases if Live(data, pos) then 0 else 1
      ensures Valid()
      ensures !IsValid(pos) ==> r == Fail(InvalidPosition) && data == old(data)
      ensures IsValid(pos) && Live(old(data), pos) ==> SetEffect(parse, old(data), data, pos, text, r)
      ensures IsValid(pos) && !Live(old(data), pos) ==>
        SetEffect(parse, old(data)[pos := Some(NewCell())], data, pos, text, r)
    {
      if !IsValid(pos) {
        return Fail(InvalidPosition);
      }
      if Live(data, pos) {
        r := CellSet(pos, text);
      } else {
        AddedCellKeepsValid(data, pos);
        data := data[pos := Some(NewCell())];
        r := SetCell(pos, text);
      }
    }

    /** Sheet::GetCell: the cell at pos, or None for a slot with no live cell. */
    method GetCell(pos: Position) returns (r: Result<Option<Cell>, SheetError>)
      ensures !IsValid(pos) ==> r == Failure(InvalidPosition)
      ensures IsValid(pos) ==> r.Success? && (r.value.Some? <==> Live(data, pos))
      ensures IsValid(pos) && Live(data, pos) ==> r.value.value == data[pos].value
    {
      if !IsValid(pos) {
        return Failure(InvalidPosition);
      }
      if pos in data {
        return Success(data[pos]);
      }
      return Success(None);
    }

    /** Sheet::ClearCell: resets the slot of a live cell; touches no other slot. */
    method ClearCell(pos: Position) returns (r: Outcome<SheetError>)
      requires KeysValid(data)
      modifies this
      ensures KeysValid(data)
      ensures !IsValid(pos) ==> r == Fail(InvalidPosition) && data == old(data)
      ensures IsValid(pos) ==> r == Pass && !Live(data, pos)
      ensures IsValid(pos) ==> data == if Live(old(data), pos) then old(data)[pos := None] else old(data)
      ensures (old(Valid()) && Live(old(data), pos) && old(data)[pos].value.dependents == {} &&
               ContentRefs(old(data)[pos].value.impl) == []) ==> Valid()
    {
      var cell := GetCell(pos);
      if cell.Failure? {
        return Fail(cell.error);
      }
      if cell.value.Some? {
        if Valid() && data[pos].value.dependents == {} && ContentRefs(data[pos].value.impl) == [] {
          RemovedCellKeepsValid(data, pos);
        }
        data := data[pos := None];
      }
      return Pass;
    }

    /** Sheet::GetPrintableSize: running maxima of row + 1 and col + 1 over the live cells. */
    method GetPrintableSize() returns (size: Size)
      requires KeysValid(data)
      ensures IsPrintableSize(data, size)
      ensures size == Size(0, 0) <==> LiveSet(data) == {}
      ensures size.rows <= MAX_ROWS && size.cols <= MAX_COLS
    {
      var rows, cols := 0, 0;
      var keys := data.Keys;
      while keys != {}
        invariant keys <= data.Keys
        invariant 0 <= rows <= MAX_ROWS && 0 <= cols <= MAX_COLS
        invariant forall q :: q in data.Keys - keys && Live(data, q) ==> q.row < rows && q.col < cols
        invariant rows > 0 ==> exists q :: q in data.Keys - keys && Live(data, q) && q.row == rows - 1
        invariant cols > 0 ==> exists q :: q in data.Keys - keys && Live(data, q) && q.col == cols - 1
        invariant rows == 0 <==> cols == 0
        decreases keys
      {
        var pos :| pos in keys;
        if data[pos].Some? {
          rows := if pos.row + 1 > rows then pos.row + 1 else rows;
          cols := if pos.col + 1 > cols then pos.col + 1 else cols;
        }
        keys := keys - {pos};
      }
      size := Size(rows, cols);
      if size == Size(0, 0) && LiveSet(data) != {} {
        var q :| q in LiveSet(data);
        assert Live(data, q);
      }
    }

    /** Sheet::Print: the grid of rows by columns of the printable size, one line per row. */
    method Print(printer: Cell -> string) returns (out: string)
      requires KeysValid(data)
      ensures exists s :: IsPrintableSize(data, s) && out == GridText(data, printer, s.rows, s.cols)
      ensures forall s :: IsPrintableSize(data, s) ==> out == GridText(data, printer, s.rows, s.cols)
    {
      var size := GetPrintableSize();
      out := "";
      var row := 0;
      while row < size.rows
        invariant 0 <= row <= size.rows
        invariant out == GridText(data, printer, row, size.cols)
      {
        var col := 0;
        while col < size.cols
          invariant 0 <= col <= size.cols
          invariant out == GridText(data, printer, row, size.cols) + RowText(data, printer, row, col)
        {
          if col != 0 {
            out := out + "\t";
          }
          var cell := GetCell(Position(row, col));
          if cell.Success? && cell.value.Some? {
            out := out + printer(cell.value.value);
          }
          col := col + 1;
        }
        out := out + "\n";
        row := row + 1;
      }
      forall s | IsPrintableSize(data, s) ensures s == size {
        PrintableSizeUnique(data, s, size);
      }
      assert IsPrintableSize(data, size);
    }

    /** Sheet::PrintTexts: each live cell's text at its slot. */
    method PrintTexts() returns (out: string)
      requires KeysValid(data)
      ensures exists s :: IsPrintableSize(data, s) && out == GridText(data, CellText, s.rows, s.cols)
      ensures forall s :: IsPrintableSize(data, s) ==> out == GridText(data, CellText, s.rows, s.cols)
    {
      out := Print(CellText);
    }

    // -------------------------------------------------------------------------
    // Cell

    /** Cell::Set on the cell at p. */
    method CellSet(p: Position, text: string) returns (r: Outcome<SheetError>)
      requires Valid() && Live(data, p)
      modifies this
      ensures Valid()
      ensures SetEffect(parse, old(data), data, p, text, r)
    {
      var isFormula := |text| > 0 && text[0] == FORMULA_SIGN && |text| > 1;
      var tmp: Content;
      if text == "" {
        tmp := EmptyImpl;
      } else if isFormula {
        var f := ParseFormula(parse, text[1..]);
        if f.Failure? {
          return Fail(FormulaParse);
        }
        tmp := FormulaImpl(f.value);
      } else {
        tmp := TextImpl(text);
      }
      assert Candidate(parse, text) == Success(tmp);
      ghost var m0 := data;
      if isFormula {
        var cyclic := HasCircularDependencies(p, ContentRefs(tmp));
        if cyclic {
          return Fail(CircularDependency);
        }
      }
      assert !CreatesCycle(m0, p, ContentRefs(tmp));
      Commit(p, tmp);
      return Pass;
    }

    /** The second half of Cell::Set, once the checks have passed: swap in the content,
        move the references over and clear the caches that may now be stale. */
    method Commit(p: Position, tmp: Content)
      requires Valid() && Live(data, p)
      requires forall x :: x in ContentRefs(tmp) ==> IsValid(x)
      requires !CreatesCycle(data, p, ContentRefs(tmp))
      modifies this
      ensures Valid()
      ensures Invalidated(Relink(old(data), p, tmp), data, p)
    {
      ghost var m0 := data;
      forall x | x in ContentRefs(tmp) ensures !Reaches(RefGraph(m0), x, p) {
        var i :| 0 <= i < |ContentRefs(tmp)| && ContentRefs(tmp)[i] == x;
      }
      RelinkPreservesValid(m0, p, tmp);
      MoveReferences(p, tmp);
      ghost var m1 := data;
      RelinkAt(m0, p, tmp, p);
      InvalidateCache(p);
      ghost var m2 := data;
      SameShapeUncache(m1, m1, p);
      SameShapeKeepsGraph(m1, m2);
      InvalidateDependentCellsCache(p, [p]);
      SameShapeKeepsGraph(m2, data);
      InvalidatedAfterClearing(m1, m2, data, p);
    }

    /** ClearReferences, `impl_ = std::move(tmp)`, AddReferences. */
    method MoveReferences(p: Position, tmp: Content)
      requires Live(data, p)
      modifies this
      ensures Live(old(data), p) && data == Relink(old(data), p, tmp)
    {
      ClearReferences(p);
      data := Install(data, p, tmp);
      AddReferences(p);
    }

    /** Cell::Clear on the cell at p: the content becomes Empty; references and dependents
        are left as they were. */
    method CellClear(p: Position)
      requires Live(data, p)
      modifies this
      ensures data == old(data)[p := Some(old(data)[p].value.(impl := EmptyImpl, cache := None))]
      ensures old(Valid()) && ContentRefs(old(data)[p].value.impl) == [] ==> Valid()
    {
      data := data[p := Some(data[p].value.(impl := EmptyImpl))];
      InvalidateCache(p);
      if old(Valid()) && ContentRefs(old(data)[p].value.impl) == [] {
        ClearedContentKeepsValid(old(data), p);
      }
    }

    /** Cell::GetValue on the cell at p: the cache if present, otherwise the value computed
        and stored; a second read with nothing changed in between gives the same value. */
    method CellGetValue(p: Position) returns (v: Value)
      requires Live(data, p)
      modifies this
      ensures v == CellValue(old(data), execute, parseNumber, p, {p})
      ensures data == old(data)[p := Some(old(data)[p].value.(cache := Some(v)))]
      ensures old(data)[p].value.cache.Some? ==> v == old(data)[p].value.cache.value && data == old(data)
      ensures SameShape(old(data), data) && data[p].value.cache == Some(v)
    {
      if data[p].value.cache.None? {
        var computed := CellValue(data, execute, parseNumber, p, {p});
        data := data[p := Some(data[p].value.(cache := Some(computed)))];
      }
      v := data[p].value.cache.value;
    }

    method CellGetText(p: Position) returns (s: string)
      requires Live(data, p)
      ensures s == ContentText(data[p].value.impl)
    {
      s := ContentText(data[p].value.impl);
    }

    method CellGetReferencedCells(p: Position) returns (refs: seq<Position>)
      requires Live(data, p)
      ensures refs == ContentRefs(data[p].value.impl)
    {
      refs := ContentRefs(data[p].value.impl);
    }

    /** True exactly when the cell's own content refers to some cell. */
    method CellIsReferenced(p: Position) returns (b: bool)
      requires Live(data, p)
      ensures b <==> |ContentRefs(data[p].value.impl)| > 0
      ensures b ==> data[p].value.impl.FormulaImpl?
    {
      var refs := CellGetReferencedCells(p);
      b := refs != [];
    }

    // -------------------------------------------------------------------------
    // Cell::ClearReferences, Cell::AddReferences, Cell::InvalidateCache

    method ClearReferences(p: Position)
      requires Live(data, p)
      modifies this
      ensures data == Unlink(old(data), p, ContentRefs(old(data)[p].value.impl))
    {
      var refs := ContentRefs(data[p].value.impl);
      ghost var m0 := data;
      var i := 0;
      while i < |refs|
        invariant 0 <= i <= |refs|
        invariant data == Unlink(m0, p, refs[..i])
      {
        var pos := refs[i];
        assert refs[..i + 1] == refs[..i] + [pos];
        UnlinkSnoc(m0, p, refs[..i], pos);
        if Live(data, pos) {
          data := data[pos := Some(data[pos].value.(dependents := data[pos].value.dependents - {p}))];
        }
        i := i + 1;
      }
      assert refs[..|refs|] == refs;
    }

    method AddReferences(p: Position)
      requires Live(data, p)
      modifies this
      ensures data == Link(old(data), p, ContentRefs(old(data)[p].value.impl))
    {
      var refs := ContentRefs(data[p].value.impl);
      ghost var m0 := data;
      var i := 0;
      while i < |refs|
        invariant 0 <= i <= |refs|
        invariant data == Link(m0, p, refs[..i])
      {
        var pos := refs[i];
        assert refs[..i + 1] == refs[..i] + [pos];
        LinkSnoc(m0, p, refs[..i], pos);
        if !Live(data, pos) {
          // sheet_.SetCell(pos, "") on an absent position stores a new Empty cell.
          data := data[pos := Some(NewCell())];
        }
        data := data[pos := Some(data[pos].value.(dependents := data[pos].value.dependents + {p}))];
        i := i + 1;
      }
      assert refs[..|refs|] == refs;
    }

    method InvalidateCache(q: Position)
      requires Live(data, q)
      modifies this
      ensures data == old(data)[q := Some(old(data)[q].value.(cache := None))]
    {
      data := data[q := Some(data[q].value.(cache := None))];
    }
  
    /**
     * Cell::InvalidateDependentCellsCache on the cell at c: clears the cache of every cell
     * that reads c, directly or not. `chain` is the route of dependents by which the
     * recursion reached c from the cell where it started; on an acyclic graph it never
     * repeats, which bounds the recursion.
     */
    method InvalidateDependentCellsCache(c: Position, ghost chain: seq<Position>)
      requires GraphValid(data) && Live(data, c)
      requires IsPath(RefGraph(data), chain) && chain[0] == c
      requires forall i :: 0 <= i < |chain| ==> chain[i] in LiveSet(data)
      modifies this
      decreases LiveSet(data) - Elems(chain)
      ensures SameShape(old(data), data)
      ensures forall q :: Live(old(data), q) ==>
        data[q].value.cache == if ReachesProperly(RefGraph(old(data)), q, c) then None
                               else old(data)[q].value.cache
    {
      ghost var m0 := data;
      ghost var g := RefGraph(m0);
      var visited: set<Position> := {};
      var todo := data[c].value.dependents;
      ghost var deps := todo;
      ClearedNothing(m0, g);
      while todo != {}
        invariant todo + visited == deps && todo !! visited
        invariant ClearedUpTo(m0, data, g, visited)
        decreases todo
      {
        var d :| d in todo;
        MoveOne(todo, visited, deps, d);
        todo := todo - {d};
        if d !in visited {
          ghost var before := data;
          DependentIsLive(m0, before, c, d);
          visited := visited + {d};
          InvalidateCache(d);
          ghost var m1 := data;
          DescendReady(m0, before, m1, c, d, chain);
          InvalidateDependentCellsCache(d, [d] + chain);
          ClearedStep(m0, before, m1, data, g, visited - {d}, d);
        }
      }
      ClearedReaders(m0, data, c);
    }

    // -------------------------------------------------------------------------
    // Cell::HasCircularDependencies

    /**
     * The `traverse` closure: a depth-first search from the cell at c over the references
     * of the cells in the store, looking for p. `visiting` holds p and the cells of the
     * current search path, `visited` every cell entered so far; the cells visited and no
     * longer visiting are finished, and none of them reaches p.
     */
    method Traverse(p: Position, c: Position, visited: set<Position>, visiting: set<Position>)
      returns (found: bool, visited': set<Position>, visiting': set<Position>)
      requires Valid() && Live(data, p) && Live(data, c)
      requires p in visiting && p !in visited
      requires visiting - {p} <= visited && visited <= LiveSet(data)
      requires c in visited ==> c !in visiting
      requires Closed(RefGraph(data), visited - visiting)
      requires forall x :: x in visiting && x != p ==> Reaches(RefGraph(data), x, c)
      decreases LiveSet(data) - visited
      ensures found ==> Reaches(RefGraph(data), c, p)
      ensures !found ==> visiting' == visiting && c in visited'
      ensures !found ==> visited <= visited' <= LiveSet(data) && p !in visited'
      ensures !found ==> Closed(RefGraph(data), visited' - visiting')
    {
      ghost var g := RefGraph(data);
      visited', visiting' := visited, visiting;
      if c !in visited' {
        if c in visiting' {
          ReachesSelf(g, c);
          return true, visited', visiting';
        }
        visited' := visited' + {c};
        visiting' := visiting' + {c};
        assert visited' - visiting' == visited - visiting;
        var refs := ContentRefs(data[c].value.impl);
        RefGraphSucc(data, c);
        var i := 0;
        while i < |refs|
          invariant 0 <= i <= |refs|
          invariant visiting' == visiting + {c}
          invariant visited + {c} <= visited' <= LiveSet(data) && p !in visited'
          invariant Closed(g, visited' - visiting')
          invariant forall j :: 0 <= j < i ==> refs[j] in visited' - visiting'
        {
          var pos := refs[i];
          ghost var before := visited';
          RefIsLive(data, c, pos);
          if pos in visiting' {
            OnlyPOnStack(g, p, c, pos, visiting);
            ReachesSelf(g, c);
            ReachesStep(g, c, c, p);
            return true, visited', visiting';
          }
          if pos !in visited' {
            StackReachesNext(g, p, c, pos, visiting);
            var f;
            f, visited', visiting' := Traverse(p, pos, visited', visiting');
            if f {
              ReachesPrepend(g, c, pos, p);
              return true, visited', visiting';
            }
          }
          FinishedStep(refs, i, before, visited', visiting');
          i := i + 1;
        }
        FinishedClosed(g, c, refs, visited', visiting);
      } else {
        assert visiting' - {c} == visiting';
      }
      visiting' := visiting' - {c};
      return false, visited', visiting';
    }

    /** The corrected check: a depth-first search from every reference, sharing `visited`. */
    method HasCircularDependencies(p: Position, refs: seq<Position>) returns (found: bool)
      requires Valid() && Live(data, p)
      ensures found <==> CreatesCycle(data, p, refs)
    {
      ghost var g := RefGraph(data);
      var visiting: set<Position> := {p};
      var visited: set<Position> := {};
      var i := 0;
      while i < |refs|
        invariant 0 <= i <= |refs|
        invariant visiting == {p} && p !in visited && visited <= LiveSet(data)
        invariant Closed(g, visited - visiting)
        invariant forall j :: 0 <= j < i ==> !Reaches(g, refs[j], p)
      {
        var pos := refs[i];
        if Live(data, pos) {
          var f;
          f, visited, visiting := Traverse(p, pos, visited, visiting);
          if f {
            return true;
          }
          ClosedBlocks(g, visited - visiting, pos, p);
        } else {
          AbsentReachesOnlyItself(g, pos, p);
        }
        i := i + 1;
      }
      return false;
    }

    /** The check as written: the body of the loop over the candidate's references ends in
        `return false`, so it runs once, and only a cycle through the first reference is found. */
    method HasCircularDependenciesAsWritten(p: Position, refs: seq<Position>) returns (found: bool)
      requires Valid() && Live(data, p)
      ensures found <==> |refs| > 0 && Reaches(RefGraph(data), refs[0], p)
    {
      ghost var g := RefGraph(data);
      var visiting: set<Position> := {p};
      var visited: set<Position> := {};
      if 0 < |refs| {
        var pos := refs[0];
        if Live(data, pos) {
          var f;
          f, visited, visiting := Traverse(p, pos, visited, visiting);
          if f {
            return true;
          }
          ClosedBlocks(g, visited - visiting, pos, p);
        } else {
          AbsentReachesOnlyItself(g, pos, p);
        }
        return false;
      }
      return false;
    }
  }

  /** m is m0 with the cache cleared of exactly those cells that reach a member of s. */
  ghost predicate ClearedUpTo(m0: Store, m: Store, g: Graph, s: set<Position>)
  {
    SameShape(m0, m) &&
    forall q :: Live(m0, q) ==>
      m[q].value.cache == if exists d :: d in s && Reaches(g, q, d) then None
                          else m0[q].value.cache
  }

  lemma ClearedNothing(m0: Store, g: Graph)
    ensures ClearedUpTo(m0, m0, g, {})
  {
  }

  /** One round of the loop: clearing d and then every reader of d. */
  lemma ClearedStep(m0: Store, mb: Store, m1: Store, m2: Store, g: Graph, s: set<Position>,
                    d: Position)
    requires ClearedUpTo(m0, mb, g, s) && Live(mb, d)
    requires m1 == mb[d := Some(mb[d].value.(cache := None))]
    requires SameShape(m1, m2)
    requires forall q :: Live(m1, q) ==>
      m2[q].value.cache == if ReachesProperly(g, q, d) then None else m1[q].value.cache
    ensures ClearedUpTo(m0, m2, g, s + {d})
  {
    SameShapeUpdate(m0, mb, m1, m2);
    forall q | Live(m0, q)
      ensures m2[q].value.cache ==
        if exists e :: e in s + {d} && Reaches(g, q, e) then None else m0[q].value.cache
    {
      assert Live(mb, q) && Live(m1, q);
      ReachesCases(g, q, d);
      if q == d {
        assert Reaches(g, q, d);
      } else if !ReachesProperly(g, q, d) {
        assert m2[q].value.cache == mb[q].value.cache;
        assert (exists e :: e in s + {d} && Reaches(g, q, e)) ==
               (exists e :: e in s && Reaches(g, q, e));
      }
    }
  }

  lemma SameShapeUncache(m0: Store, mb: Store, d: Position)
    requires SameShape(m0, mb) && Live(mb, d)
    ensures SameShape(m0, mb[d := Some(mb[d].value.(cache := None))])
  {
  }

  lemma SameShapeUpdate(m0: Store, mb: Store, m1: Store, m2: Store)
    requires SameShape(m0, mb) && SameShape(m1, m2)
    requires exists d :: Live(mb, d) && m1 == mb[d := Some(mb[d].value.(cache := None))]
    ensures SameShape(m0, m2)
  {
  }

  /** Taking d from the dependents still to do into the visited ones. */
  lemma MoveOne(todo: set<Position>, visited: set<Position>, deps: set<Position>, d: Position)
    requires todo + visited == deps && todo !! visited && d in todo
    ensures (todo - {d}) + (visited + {d}) == deps && (todo - {d}) !! (visited + {d})
    ensures d !in visited && (visited + {d}) - {d} == visited
  {
  }

  /** A dependent of c is a live cell that refers to c. */
  lemma DependentIsLive(m0: Store, mb: Store, c: Position, d: Position)
    requires GraphValid(m0) && Live(m0, c) && d in m0[c].value.dependents && SameShape(m0, mb)
    ensures Live(m0, d) && Live(mb, d) && c in Succ(RefGraph(m0), d)
  {
    DependentsAreReaders(m0, c, d);
  }

  /** After clearing the dependent d, the search may descend to d: the store keeps its
      invariant and graph, the chain grows by d, and fewer live cells remain off the chain. */
  lemma DescendReady(m0: Store, mb: Store, m1: Store, c: Position, d: Position, chain: seq<Position>)
    requires GraphValid(m0) && SameShape(m0, mb) && Live(m0, d) && Live(mb, d)
    requires m1 == mb[d := Some(mb[d].value.(cache := None))]
    requires IsPath(RefGraph(m0), chain) && chain[0] == c && c in Succ(RefGraph(m0), d)
    requires forall i :: 0 <= i < |chain| ==> chain[i] in LiveSet(m0)
    ensures GraphValid(m1) && Live(m1, d) && RefGraph(m1) == RefGraph(m0) && SameShape(m0, m1)
    ensures IsPath(RefGraph(m1), [d] + chain)
    ensures forall i :: 0 <= i < |[d] + chain| ==> ([d] + chain)[i] in LiveSet(m1)
    ensures LiveSet(m1) - Elems([d] + chain) < LiveSet(m0) - Elems(chain)
  {
    SameShapeUncache(m0, mb, d);
    SameShapeKeepsGraph(m0, m1);
    ChainExtends(RefGraph(m0), c, d, chain);
    assert d in LiveSet(m0);
    forall i | 0 <= i < |[d] + chain| ensures ([d] + chain)[i] in LiveSet(m1) {
      if i > 0 {
        assert ([d] + chain)[i] == chain[i - 1];
      }
    }
  }

  /** After the loop: the cells that reach a dependent of c are those that reach c properly. */
  lemma ClearedReaders(m0: Store, m: Store, c: Position)
    requires GraphValid(m0) && Live(m0, c)
    requires ClearedUpTo(m0, m, RefGraph(m0), m0[c].value.dependents)
    ensures SameShape(m0, m)
    ensures forall q :: Live(m0, q) ==>
      m[q].value.cache == if ReachesProperly(RefGraph(m0), q, c) then None else m0[q].value.cache
  {
    var g := RefGraph(m0);
    forall q | Live(m0, q)
      ensures (exists d :: d in m0[c].value.dependents && Reaches(g, q, d)) <==> ReachesProperly(g, q, c)
    {
      if ReachesProperly(g, q, c) {
        var d := LastEdge(g, q, c);
        DependentsAreReaders(m0, c, d);
      }
      if exists d :: d in m0[c].value.dependents && Reaches(g, q, d) {
        var d :| d in m0[c].value.dependents && Reaches(g, q, d);
        DependentsAreReaders(m0, c, d);
        ReachesStep(g, q, d, c);
      }
    }
  }

  /** Clearing p's cache and then those of its readers is Invalidated. */
  lemma InvalidatedAfterClearing(m1: Store, m2: Store, m3: Store, p: Position)
    requires Live(m1, p) && m2 == m1[p := Some(m1[p].value.(cache := None))]
    requires SameShape(m1, m2) && RefGraph(m1) == RefGraph(m2)
    requires SameShape(m2, m3)
    requires forall q :: Live(m2, q) ==>
      m3[q].value.cache == if ReachesProperly(RefGraph(m2), q, p) then None else m2[q].value.cache
    ensures Invalidated(m1, m3, p)
  {
    SameShapeUpdate(m1, m1, m2, m3);
    forall q | Live(m1, q)
      ensures m3[q].value.cache ==
        if q == p || ReachesProperly(RefGraph(m1), q, p) then None else m1[q].value.cache
    {
      assert Live(m2, q);
    }
  }

  /** What PrintTexts prints for a cell. */
  function CellText(c: Cell): string
  {
    ContentText(c.impl)
  }

  // ---------------------------------------------------------------------------
  // Printing

  /** The size printed: every live cell lies inside it, and its last row and last column
      each hold a live cell. */
  ghost predicate IsPrintableSize(m: Store, s: Size)
  {
    && s.rows >= 0 && s.cols >= 0
    && (forall q :: Live(m, q) ==> q.row < s.rows && q.col < s.cols)
    && (s.rows > 0 ==> exists q :: Live(m, q) && q.row == s.rows - 1)
    && (s.cols > 0 ==> exists q :: Live(m, q) && q.col == s.cols - 1)
  }

  lemma PrintableSizeUnique(m: Store, s1: Size, s2: Size)
    requires IsPrintableSize(m, s1) && IsPrintableSize(m, s2)
    ensures s1 == s2
  {
  }

  /** The field printed at (row, col): the printer's output for a live cell, else nothing. */
  function Field(m: Store, printer: Cell -> string, row: int, col: int): string
  {
    if Live(m, Position(row, col)) then printer(m[Position(row, col)].value) else ""
  }

  /** The first n fields of a row, a tab before each but the first. */
  function RowText(m: Store, printer: Cell -> string, row: int, n: nat): string
  {
    if n == 0 then ""
    else RowText(m, printer, row, n - 1) + (if n - 1 != 0 then "\t" else "") + Field(m, printer, row, n - 1)
  }

  /** The first rows rows, each followed by a newline. */
  function GridText(m: Store, printer: Cell -> string, rows: nat, cols: nat): string
  {
    if rows == 0 then ""
    else GridText(m, printer, rows - 1, cols) + RowText(m, printer, rows - 1, cols) + "\n"
  }

  /** How many times ch occurs in s. */
  function Count(s: string, ch: char): nat
  {
    CountBelow(s, ch, |s|)
  }

  /** How many times ch occurs among the first i characters of s. */
  function CountBelow(s: string, ch: char, i: nat): nat
    requires i <= |s|
  {
    if i == 0 then 0 else CountBelow(s, ch, i - 1) + (if s[i - 1] == ch then 1 else 0)
  }

  lemma CountConcat(a: string, b: string, ch: char)
    ensures Count(a + b, ch) == Count(a, ch) + Count(b, ch)
  {
    CountPrefix(a, b, ch, |a|);
    CountSuffix(a, b, ch, |b|);
  }

  /** Below the length of a, a + b counts as a does. */
  lemma {:induction false} CountPrefix(a: string, b: string, ch: char, i: nat)
    requires i <= |a|
    ensures CountBelow(a + b, ch, i) == CountBelow(a, ch, i)
  {
    if i > 0 {
      CountPrefix(a, b, ch, i - 1);
      assert (a + b)[i - 1] == a[i - 1];
    }
  }

  /** Past the length of a, a + b counts a and then the first j characters of b. */
  lemma {:induction false} CountSuffix(a: string, b: string, ch: char, j: nat)
    requires j <= |b|
    requires CountBelow(a + b, ch, |a|) == CountBelow(a, ch, |a|)
    ensures CountBelow(a + b, ch, |a| + j) == CountBelow(a, ch, |a|) + CountBelow(b, ch, j)
  {
    if j > 0 {
      CountSuffix(a, b, ch, j - 1);
      assert (a + b)[|a| + j - 1] == b[j - 1];
    }
  }

  lemma CountOne(c: char, ch: char)
    ensures Count([c], ch) == if c == ch then 1 else 0
  {
    assert CountBelow([c], ch, 0) == 0;
  }

  lemma {:induction false} CountAbsent(s: string, ch: char)
    requires ch !in s
    ensures Count(s, ch) == 0
  {
    CountAbsentBelow(s, ch, |s|);
  }

  lemma {:induction false} CountAbsentBelow(s: string, ch: char, i: nat)
    requires ch !in s && i <= |s|
    ensures CountBelow(s, ch, i) == 0
  {
    if i > 0 {
      CountAbsentBelow(s, ch, i - 1);
    }
  }

  /** No field holds ch. */
  ghost predicate FieldsFree(m: Store, printer: Cell -> string, ch: char)
  {
    forall q :: Live(m, q) ==> ch !in printer(m[q].value)
  }

  lemma {:induction false} RowCount(m: Store, printer: Cell -> string, row: int, n: nat, ch: char)
    requires FieldsFree(m, printer, ch)
    ensures Count(RowText(m, printer, row, n), ch) == if ch == '\t' then TabsPerRow(n) else 0
  {
    if n > 0 {
      RowCount(m, printer, row, n - 1, ch);
      var sep: string := if n - 1 != 0 then "\t" else "";
      CountConcat(RowText(m, printer, row, n - 1), sep, ch);
      CountConcat(RowText(m, printer, row, n - 1) + sep, Field(m, printer, row, n - 1), ch);
      CountAbsent(Field(m, printer, row, n - 1), ch);
      assert Count(sep, ch) == if ch == '\t' && n - 1 != 0 then 1 else 0 by {
        if n - 1 != 0 {
          CountOne('\t', ch);
        }
      }
    }
  }

  /** Print writes one newline per row, including the last, when no field holds a newline. */
  lemma GridNewlines(m: Store, printer: Cell -> string, rows: nat, cols: nat)
    requires FieldsFree(m, printer, '\n')
    ensures Count(GridText(m, printer, rows, cols), '\n') == rows
  {
    forall row: int | 0 <= row < rows ensures RowHolds(m, printer, row, cols, '\n', 0) {
      RowCount(m, printer, row, cols, '\n');
    }
    GridSum(m, printer, rows, cols, '\n', 0);
    SumIsProduct(rows, 1);
  }

  /** Print writes cols - 1 tabs per row when no field holds a tab. */
  lemma GridTabs(m: Store, printer: Cell -> string, rows: nat, cols: nat)
    requires FieldsFree(m, printer, '\t')
    ensures Count(GridText(m, printer, rows, cols), '\t') == rows * TabsPerRow(cols)
  {
    forall row: int | 0 <= row < rows ensures RowHolds(m, printer, row, cols, '\t', TabsPerRow(cols)) {
      RowCount(m, printer, row, cols, '\t');
    }
    GridSum(m, printer, rows, cols, '\t', TabsPerRow(cols));
    SumIsProduct(rows, TabsPerRow(cols));
  }

  /** The row holds ch exactly k times. */
  ghost predicate RowHolds(m: Store, printer: Cell -> string, row: int, cols: nat, ch: char, k: nat)
  {
    Count(RowText(m, printer, row, cols), ch) == k
  }

  /** Rows that each hold ch k times add up, with one more per row when ch is the newline. */
  lemma {:induction false} GridSum(m: Store, printer: Cell -> string, rows: nat, cols: nat, ch: char, k: nat)
    requires forall row: int :: 0 <= row < rows ==> RowHolds(m, printer, row, cols, ch, k)
    ensures Count(GridText(m, printer, rows, cols), ch) == Repeat(rows, if ch == '\n' then k + 1 else k)
  {
    if rows > 0 {
      GridSum(m, printer, rows - 1, cols, ch, k);
      assert RowHolds(m, printer, rows - 1, cols, ch, k);
      GridCount(m, printer, rows, cols, ch);
    }
  }

  /** k added up r times. */
  function Repeat(r: nat, k: nat): nat
  {
    if r == 0 then 0 else Repeat(r - 1, k) + k
  }

  lemma {:induction false} SumIsProduct(r: nat, k: nat)
    ensures Repeat(r, k) == r * k
  {
    if r > 0 {
      SumIsProduct(r - 1, k);
      assert (r - 1) * k + k == r * k;
    }
  }

  /** The count over the grid: the rows before the last, the last row and its newline. */
  lemma GridCount(m: Store, printer: Cell -> string, rows: nat, cols: nat, ch: char)
    requires rows > 0
    ensures Count(GridText(m, printer, rows, cols), ch)
         == Count(GridText(m, printer, rows - 1, cols), ch) + Count(RowText(m, printer, rows - 1, cols), ch)
            + if ch == '\n' then 1 else 0
  {
    CountLine(GridText(m, printer, rows - 1, cols), RowText(m, printer, rows - 1, cols), ch);
  }

  /** The count over a row appended with its newline. */
  lemma CountLine(before: string, line: string, ch: char)
    ensures Count(before + line + "\n", ch) == Count(before, ch) + Count(line, ch) + if ch == '\n' then 1 else 0
  {
    CountConcat(before, line, ch);
    CountConcat(before + line, "\n", ch);
    CountOne('\n', ch);
  }

  /** The tabs in one printed row: one between each two columns. */
  function TabsPerRow(cols: nat): nat
  {
    if cols > 0 then cols - 1 else 0
  }

  /** A new Empty cell at a slot no live cell refers to keeps the store's invariant. */
  lemma AddedCellKeepsValid(m: Store, pos: Position)
    requires GraphValid(m) && !Live(m, pos) && IsValid(pos)
    ensures GraphValid(m[pos := Some(NewCell())])
  {
    var m2 := m[pos := Some(NewCell())];
    forall q ensures Succ(RefGraph(m2), q) <= Succ(RefGraph(m), q) {
      RefGraphSucc(m, q);
      RefGraphSucc(m2, q);
    }
    SubgraphAcyclic(RefGraph(m), RefGraph(m2));
    AddedCellLinked(m, pos);
  }

  lemma AddedCellLinked(m: Store, pos: Position)
    requires RefsLinked(m) && DependentsLinked(m) && !Live(m, pos)
    ensures RefsLinked(m[pos := Some(NewCell())]) && DependentsLinked(m[pos := Some(NewCell())])
  {
    var m2 := m[pos := Some(NewCell())];
    forall q, r | Live(m2, q) && r in ContentRefs(m2[q].value.impl)
      ensures Live(m2, r) && q in m2[r].value.dependents
    {
      assert q != pos;
      assert Live(m, q) && r in ContentRefs(m[q].value.impl);
      assert Live(m, r) && q in m[r].value.dependents;
    }
    forall q, d | Live(m2, q) && d in m2[q].value.dependents
      ensures Live(m2, d) && q in ContentRefs(m2[d].value.impl)
    {
      assert q != pos;
      assert Live(m, q) && d in m[q].value.dependents;
      assert Live(m, d) && q in ContentRefs(m[d].value.impl);
    }
  }

  /** Resetting the slot of a cell that neither refers to nor is read by any cell keeps the
      store's invariant. */
  lemma RemovedCellKeepsValid(m: Store, pos: Position)
    requires GraphValid(m) && Live(m, pos)
    requires m[pos].value.dependents == {} && ContentRefs(m[pos].value.impl) == []
    ensures GraphValid(m[pos := None])
  {
    var m2 := m[pos := None];
    forall q ensures Succ(RefGraph(m2), q) <= Succ(RefGraph(m), q) {
      RefGraphSucc(m, q);
      RefGraphSucc(m2, q);
    }
    SubgraphAcyclic(RefGraph(m), RefGraph(m2));
    forall q, r | Live(m2, q) && r in ContentRefs(m2[q].value.impl)
      ensures Live(m2, r) && q in m2[r].value.dependents
    {
      assert Live(m, q) && r in ContentRefs(m[q].value.impl);
      assert Live(m, r) && q in m[r].value.dependents;
    }
    forall q, d | Live(m2, q) && d in m2[q].value.dependents
      ensures Live(m2, d) && q in ContentRefs(m2[d].value.impl)
    {
      assert Live(m, q) && d in m[q].value.dependents;
      assert Live(m, d) && q in ContentRefs(m[d].value.impl);
    }
  }

  /** Clearing a cell with no references of its own keeps the store's invariant. */
  lemma ClearedContentKeepsValid(m: Store, p: Position)
    requires GraphValid(m) && Live(m, p) && ContentRefs(m[p].value.impl) == []
    ensures GraphValid(m[p := Some(m[p].value.(impl := EmptyImpl, cache := None))])
  {
    var m2 := m[p := Some(m[p].value.(impl := EmptyImpl, cache := None))];
    forall q ensures Succ(RefGraph(m2), q) <= Succ(RefGraph(m), q) {
      RefGraphSucc(m, q);
      RefGraphSucc(m2, q);
    }
    SubgraphAcyclic(RefGraph(m), RefGraph(m2));
    forall q, r | Live(m2, q) && r in ContentRefs(m2[q].value.impl)
      ensures Live(m2, r) && q in m2[r].value.dependents
    {
      assert Live(m, q) && r in ContentRefs(m[q].value.impl);
    }
    forall q, d | Live(m2, q) && d in m2[q].value.dependents
      ensures Live(m2, d) && q in ContentRefs(m2[d].value.impl)
    {
      assert Live(m, q) && d in m[q].value.dependents;
    }
  }

  /** A cell a live cell refers to is live. */
  lemma RefIsLive(m: Store, c: Position, pos: Position)
    requires GraphValid(m) && Live(m, c) && pos in ContentRefs(m[c].value.impl)
    ensures Live(m, pos)
  {
  }

  /** One more reference of c is finished, and none of the earlier ones is lost. */
  lemma FinishedStep(refs: seq<Position>, i: nat, before: set<Position>, after: set<Position>,
                     visiting: set<Position>)
    requires i < |refs| && before <= after && refs[i] in after && refs[i] !in visiting
    requires forall j :: 0 <= j < i ==> refs[j] in before - visiting
    ensures forall j :: 0 <= j < i + 1 ==> refs[j] in after - visiting
  {
  }

  /** Every cell on the search path, c included, reaches the next reference of c. */
  lemma StackReachesNext(g: Graph, p: Position, c: Position, pos: Position, visiting: set<Position>)
    requires forall x :: x in visiting && x != p ==> Reaches(g, x, c)
    requires pos in Succ(g, c)
    ensures forall x :: x in visiting + {c} && x != p ==> Reaches(g, x, pos)
  {
    forall x | x in visiting + {c} && x != p ensures Reaches(g, x, pos) {
      if x == c {
        ReachesSelf(g, c);
      }
      ReachesStep(g, x, c, pos);
    }
  }

  /** Once all its references are finished, c is finished too. */
  lemma FinishedClosed(g: Graph, c: Position, refs: seq<Position>, visited: set<Position>,
                       visiting: set<Position>)
    requires Succ(g, c) == Elems(refs) && c !in visiting && c in visited
    requires Closed(g, visited - (visiting + {c}))
    requires forall j :: 0 <= j < |refs| ==> refs[j] in visited - (visiting + {c})
    ensures Closed(g, visited - ((visiting + {c}) - {c}))
  {
    var finished := visited - (visiting + {c});
    assert visited - ((visiting + {c}) - {c}) == finished + {c};
    forall x, y | x in finished + {c} && y in Succ(g, x) ensures y in finished + {c} {
      if x == c {
        var j :| 0 <= j < |refs| && refs[j] == y;
      }
    }
  }

  /** In the search, the only cell on the stack that c can refer to is p itself. */
  lemma OnlyPOnStack(g: Graph, p: Position, c: Position, pos: Position, visiting: set<Position>)
    requires Acyclic(g) && pos in Succ(g, c) && pos in visiting + {c}
    requires forall x :: x in visiting && x != p ==> Reaches(g, x, c)
    ensures pos == p
  {
    if pos != p {
      if pos == c {
        ReachesSelf(g, c);
      }
      AcyclicNoBackEdge(g, pos, c);
    }
  }

  /** A reader d of c extends the route to c without repeating a cell, on an acyclic graph. */
  lemma ChainExtends(g: Graph, c: Position, d: Position, chain: seq<Position>)
    requires Acyclic(g) && IsPath(g, chain) && chain[0] == c && c in Succ(g, d)
    ensures IsPath(g, [d] + chain)
    ensures d !in Elems(chain) && Elems([d] + chain) == Elems(chain) + {d}
  {
    var t := [d] + chain;
    forall i | 0 <= i < |t| - 1 ensures t[i + 1] in Succ(g, t[i]) {
      if i > 0 {
        assert t[i] == chain[i - 1] && t[i + 1] == chain[i];
      }
    }
    if d in Elems(chain) {
      var j :| 0 <= j < |chain| && chain[j] == d;
      assert IsPath(g, chain[..j + 1]);
      AcyclicNoBackEdge(g, c, d);
    }
  }

  // ---------------------------------------------------------------------------
  // The cycle check that looks at the first reference only

  const A1 := Position(0, 0)
  const A2 := Position(1, 0)
  const B2 := Position(1, 1)

  /** B2 holds =A2; A2 is Empty with B2 as its dependent. */
  function ExampleStore(): Store
  {
    map[A2 := Some(Cell(EmptyImpl, {B2}, None)),
        B2 := Some(Cell(FormulaImpl(Formula(FormulaAst([A2], "A2"), [A2])), {}, None))]
  }

  /**
   * Setting A2 to =A1+B2 over ExampleStore, with a parser that reads A1+B2 as a tree over A1
   * and B2 in that order: the as-written check starts from A1 only, finds no cell there and
   * reports no cycle, although B2 leads back to A2 and committing would close the cycle
   * A2 -> B2 -> A2. The corrected check reports it.
   */
  lemma AsWrittenCycleCheckMissesCycle(parse: Parser)
    requires parse("A1+B2") == Some(FormulaAst([A1, B2], "A1+B2"))
    ensures GraphValid(ExampleStore()) && Live(ExampleStore(), A2)
    ensures Candidate(parse, "=A1+B2").Success?
    ensures ContentRefs(Candidate(parse, "=A1+B2").value) == [A1, B2]
    ensures !Reaches(RefGraph(ExampleStore()), A1, A2)
    ensures CreatesCycle(ExampleStore(), A2, [A1, B2])
    ensures !Acyclic(RefGraph(Relink(ExampleStore(), A2, Candidate(parse, "=A1+B2").value)))
  {
    ExampleStoreValid();
    ExampleCandidate(parse);
    ExampleReaches();
    RelinkWouldCycle(ExampleStore(), A2, Candidate(parse, "=A1+B2").value, B2);
  }

  /** A2 alone, Empty. */
  function LoneStore(): Store
  {
    map[A2 := Some(NewCell())]
  }

  /**
   * Setting A2 to =A1+A2 over LoneStore, with A1 absent: the self-reference is not the first
   * reference, so the as-written check reports no cycle, and committing would make A2 refer
   * to itself. The corrected check reports it.
   */
  lemma AsWrittenCycleCheckMissesSelfReference(parse: Parser)
    requires parse("A1+A2") == Some(FormulaAst([A1, A2], "A1+A2"))
    ensures GraphValid(LoneStore()) && Live(LoneStore(), A2)
    ensures Candidate(parse, "=A1+A2").Success?
    ensures ContentRefs(Candidate(parse, "=A1+A2").value) == [A1, A2]
    ensures !Reaches(RefGraph(LoneStore()), A1, A2)
    ensures CreatesCycle(LoneStore(), A2, [A1, A2])
    ensures !Acyclic(RefGraph(Relink(LoneStore(), A2, Candidate(parse, "=A1+A2").value)))
  {
    var m := LoneStore();
    var empty: Store := map[];
    EmptyStoreValid();
    AddedCellKeepsValid(empty, A2);
    assert m == empty[A2 := Some(NewCell())];
    assert Unique([A1, A2]) == [A1, A2];
    assert A1 !in RefGraph(m);
    AbsentReachesOnlyItself(RefGraph(m), A1, A2);
    ReachesSelf(RefGraph(m), A2);
    RelinkWouldCycle(m, A2, Candidate(parse, "=A1+A2").value, A2);
  }

  /** The text =A1+B2 becomes a formula over A1 and B2, in that order. */
  lemma ExampleCandidate(parse: Parser)
    requires parse("A1+B2") == Some(FormulaAst([A1, B2], "A1+B2"))
    ensures Candidate(parse, "=A1+B2").Success?
    ensures ContentRefs(Candidate(parse, "=A1+B2").value) == [A1, B2]
  {
    assert Unique([A1, B2]) == [A1, B2];
  }

  /** In ExampleStore, A1 (no cell) reaches nothing but itself, while B2 reaches A2. */
  lemma ExampleReaches()
    ensures !Reaches(RefGraph(ExampleStore()), A1, A2)
    ensures Reaches(RefGraph(ExampleStore()), B2, A2)
  {
    var m := ExampleStore();
    var g := RefGraph(m);
    assert A1 !in g;
    AbsentReachesOnlyItself(g, A1, A2);
    RefGraphSucc(m, B2);
    assert IsPath(g, [B2, A2]);
  }

  lemma ExampleStoreValid()
    ensures GraphValid(ExampleStore())
  {
    ExampleStoreLinked();
    ExampleStoreAcyclic();
  }

  lemma ExampleStoreLinked()
    ensures KeysValid(ExampleStore()) && RefsLinked(ExampleStore()) && DependentsLinked(ExampleStore())
  {
    var m := ExampleStore();
    assert m.Keys == {A2, B2};
    assert ContentRefs(m[A2].value.impl) == [] && ContentRefs(m[B2].value.impl) == [A2];
    forall q, r | Live(m, q) && r in ContentRefs(m[q].value.impl)
      ensures Live(m, r) && q in m[r].value.dependents
    {
      assert q == B2 && r == A2;
    }
    forall q, d | Live(m, q) && d in m[q].value.dependents
      ensures Live(m, d) && q in ContentRefs(m[d].value.impl)
    {
      assert q == A2 && d == B2;
    }
  }

  lemma ExampleStoreAcyclic()
    ensures Acyclic(RefGraph(ExampleStore()))
  {
    var m := ExampleStore();
    var g := RefGraph(m);
    var empty: Graph := map[];
    NoEdgesAcyclic(empty);
    forall q | q != B2 ensures Succ(g, q) == Succ(empty, q) {
      RefGraphSucc(m, q);
    }
    RefGraphSucc(m, B2);
    AbsentReachesOnlyItself(empty, A2, B2);
    AcyclicAfterRedirect(empty, g, B2);
  }
}
