/**
 * Cells and the sheet's store of them. A cell holds one of three contents (Empty, Text,
 * Formula), the set of positions of the cells that read it (`dependents`) and an optional
 * cached value. The store maps a position to the cell there, or to None once ClearCell has
 * reset the slot; a cell's identity is its position.
 *
 * This module holds the pure side of the dependency protocol: what Cell::Set does to the
 * store (unlink the old references, install the content, link the new references), the
 * invariant that the protocol keeps, and the value a cell reads as.
 */
module Cells {
  import opened Wrappers
  import opened Structures
  import opened Formulas
  import opened Graphs

  const FORMULA_SIGN: char := '='
  const ESCAPE_SIGN: char := '\''

  /** The closed set of cell contents: EmptyImpl, TextImpl and FormulaImpl. */
  datatype Content = EmptyImpl | TextImpl(text: string) | FormulaImpl(formula: Formula)

  /** Cell's state: impl_, dependent_cells_ (by position) and the mutable cache_. */
  datatype Cell = Cell(impl: Content, dependents: set<Position>, cache: Option<Value>)

  /** The exceptions of the sheet's mutating calls. */
  datatype SheetError = InvalidPosition | FormulaParse | CircularDependency

  /** Cell::Cell: a new cell is Empty, read by nobody, with nothing cached. */
  function NewCell(): (c: Cell)
    ensures c.impl == EmptyImpl && c.dependents == {} && c.cache == None
  {
    Cell(EmptyImpl, {}, None)
  }

  // ---------------------------------------------------------------------------
  // The three *Impl getters

  function ContentText(c: Content): string
  {
    match c
    case EmptyImpl => ""
    case TextImpl(t) => t
    case FormulaImpl(f) => [FORMULA_SIGN] + GetExpression(f)
  }

  function ContentRefs(c: Content): seq<Position>
  {
    match c
    case FormulaImpl(f) => GetReferencedCells(f)
    case _ => []
  }

  function ContentValue(c: Content, execute: Executor, getCell: Position -> Option<Value>,
                        parseNumber: NumberParser): Value
  {
    match c
    case EmptyImpl => Str("")
    case TextImpl(t) => Str(if |t| > 0 && t[0] == ESCAPE_SIGN then t[1..] else t)
    case FormulaImpl(f) => ToValue(Evaluate(f, execute, getCell, parseNumber))
  }

  /** The text and value views of each content. */
  lemma ContentViews(c: Content, execute: Executor, getCell: Position -> Option<Value>,
                     parseNumber: NumberParser)
    ensures c.EmptyImpl? ==>
      ContentText(c) == "" && ContentValue(c, execute, getCell, parseNumber) == Str("")
    ensures c.TextImpl? ==> ContentText(c) == c.text
    ensures c.TextImpl? && |c.text| > 0 && c.text[0] == ESCAPE_SIGN ==>
      ContentValue(c, execute, getCell, parseNumber) == Str(c.text[1..])
    ensures c.TextImpl? && !(|c.text| > 0 && c.text[0] == ESCAPE_SIGN) ==>
      ContentValue(c, execute, getCell, parseNumber) == Str(c.text)
    ensures c.FormulaImpl? ==> ContentText(c) == "=" + c.formula.ast.expression
    ensures c.FormulaImpl? ==> !ContentValue(c, execute, getCell, parseNumber).Str?
    ensures !c.FormulaImpl? ==> ContentRefs(c) == []
  {
  }

  // ---------------------------------------------------------------------------
  // Classifying the text given to Cell::Set

  datatype Kind = EmptyKind | TextKind(text: string) | FormulaKind(expression: string)

  function Classify(text: string): (k: Kind)
    ensures k == EmptyKind <==> text == ""
    ensures k.FormulaKind? <==> |text| > 1 && text[0] == FORMULA_SIGN
    ensures k.FormulaKind? ==> k.expression == text[1..]
    ensures k.TextKind? ==> k.text == text
  {
    var isFormula := |text| > 0 && text[0] == FORMULA_SIGN && |text| > 1;
    if text == "" then EmptyKind
    else if isFormula then FormulaKind(text[1..])
    else TextKind(text)
  }

  lemma LoneFormulaSignIsText()
    ensures Classify("=") == TextKind("=")
    ensures Classify("'=1+1") == TextKind("'=1+1")
  {
  }

  /** The content Cell::Set builds into `tmp`, or the parse failure it raises. */
  function Candidate(parse: Parser, text: string): (r: Result<Content, SheetError>)
    ensures r.Failure? ==> r.error == FormulaParse
    ensures r.Failure? <==> Classify(text).FormulaKind? && parse(text[1..]).None?
    ensures r.Success? ==> forall x :: x in ContentRefs(r.value) ==> IsValid(x)
    ensures r.Success? && Classify(text).FormulaKind? ==>
      r.value.FormulaImpl? && r.value.formula.ast == parse(text[1..]).value
    ensures Classify(text) == EmptyKind ==> r == Success(EmptyImpl)
    ensures Classify(text).TextKind? ==> r == Success(TextImpl(text))
  {
    match Classify(text)
    case EmptyKind => Success(EmptyImpl)
    case TextKind(t) => Success(TextImpl(t))
    case FormulaKind(e) =>
      match ParseFormula(parse, e)
      case Success(f) => Success(FormulaImpl(f))
      case Failure(_) => Failure(FormulaParse)
  }

  // ---------------------------------------------------------------------------
  // The store and its graphs

  /** Sheet::data_: a slot per position ever stored; None once ClearCell reset it. */
  type Store = map<Position, Option<Cell>>

  /** A live cell: GetCell returns it rather than null. */
  predicate Live(m: Store, q: Position)
  {
    q in m && m[q].Some?
  }

  function LiveSet(m: Store): set<Position>
  {
    set q | q in m && m[q].Some?
  }

  function Elems(s: seq<Position>): set<Position>
  {
    set x | x in s
  }

  /** Who reads whom: a live cell to the positions its content refers to. */
  function RefGraph(m: Store): Graph
  {
    map q | q in m && m[q].Some? :: Elems(ContentRefs(m[q].value.impl))
  }

  lemma RefGraphSucc(m: Store, q: Position)
    ensures Succ(RefGraph(m), q) == if Live(m, q) then Elems(ContentRefs(m[q].value.impl)) else {}
  {
  }

  predicate KeysValid(m: Store)
  {
    forall q :: q in m ==> IsValid(q)
  }

  /** Every reference of a live cell leads to a live cell that lists it as a dependent. */
  ghost predicate RefsLinked(m: Store)
  {
    forall q, r :: Live(m, q) && r in ContentRefs(m[q].value.impl) ==>
      Live(m, r) && q in m[r].value.dependents
  }

  /** Every dependent of a live cell is a live cell that refers to it. */
  ghost predicate DependentsLinked(m: Store)
  {
    forall q, d :: Live(m, q) && d in m[q].value.dependents ==>
      Live(m, d) && q in ContentRefs(m[d].value.impl)
  }

  /** The invariant the dependency protocol keeps: valid keys, reference/dependent
      symmetry between live cells, and no reference cycle. */
  ghost predicate GraphValid(m: Store)
  {
    KeysValid(m) && RefsLinked(m) && DependentsLinked(m) && Acyclic(RefGraph(m))
  }

  /** Under the symmetry, the dependents of c are exactly the live cells with c among
      their references. */
  lemma DependentsAreReaders(m: Store, c: Position, d: Position)
    requires GraphValid(m) && Live(m, c)
    ensures d in m[c].value.dependents <==> c in Succ(RefGraph(m), d)
  {
    RefGraphSucc(m, d);
  }

  /** Two stores with the same cells apart from their caches. */
  ghost predicate SameShape(m1: Store, m2: Store)
  {
    && m1.Keys == m2.Keys
    && (forall q :: q in m1 ==> (m1[q].Some? <==> m2[q].Some?))
    && (forall q :: Live(m1, q) ==>
          m1[q].value.impl == m2[q].value.impl && m1[q].value.dependents == m2[q].value.dependents)
  }

  lemma SameShapeKeepsGraph(m1: Store, m2: Store)
    requires SameShape(m1, m2)
    ensures RefGraph(m1) == RefGraph(m2)
    ensures LiveSet(m1) == LiveSet(m2)
    ensures GraphValid(m1) ==> GraphValid(m2)
  {
    forall q | q in RefGraph(m1) ensures q in RefGraph(m2) && RefGraph(m1)[q] == RefGraph(m2)[q] {
      assert Live(m1, q);
    }
    assert RefGraph(m1) == RefGraph(m2);
    if GraphValid(m1) {
      SameShapeKeepsRefs(m1, m2);
      SameShapeKeepsDependents(m1, m2);
    }
  }

  lemma SameShapeKeepsRefs(m1: Store, m2: Store)
    requires SameShape(m1, m2) && RefsLinked(m1)
    ensures RefsLinked(m2)
  {
    forall q, r | Live(m2, q) && r in ContentRefs(m2[q].value.impl)
      ensures Live(m2, r) && q in m2[r].value.dependents
    {
      assert Live(m1, q) && r in ContentRefs(m1[q].value.impl);
      assert Live(m1, r) && q in m1[r].value.dependents;
    }
  }

  lemma SameShapeKeepsDependents(m1: Store, m2: Store)
    requires SameShape(m1, m2) && DependentsLinked(m1)
    ensures DependentsLinked(m2)
  {
    forall q, d | Live(m2, q) && d in m2[q].value.dependents
      ensures Live(m2, d) && q in ContentRefs(m2[d].value.impl)
    {
      assert Live(m1, q) && d in m1[q].value.dependents;
      assert Live(m1, d) && q in ContentRefs(m1[d].value.impl);
    }
  }

  lemma EmptyStoreValid()
    ensures GraphValid(map[])
  {
    NoEdgesAcyclic(RefGraph(map[]));
  }

  // ---------------------------------------------------------------------------
  // What Cell::Set does to the store

  /** The cell AddReferences finds at q, or the fresh Empty cell SetCell(q, "") stores there. */
  function Base(m: Store, q: Position): Cell
  {
    if Live(m, q) then m[q].value else NewCell()
  }

  /** ClearReferences: p leaves the dependents of each live cell it refers to. */
  function Unlink(m: Store, p: Position, refs: seq<Position>): Store
  {
    map q | q in m :: if q in refs && m[q].Some? then
      Some(m[q].value.(dependents := m[q].value.dependents - {p})) else m[q]
  }

  /** Unlink, one reference at a time. */
  lemma UnlinkSnoc(m: Store, p: Position, refs: seq<Position>, x: Position)
    ensures Unlink(m, p, refs + [x]) ==
      var d := Unlink(m, p, refs);
      if Live(d, x) then d[x := Some(d[x].value.(dependents := d[x].value.dependents - {p}))] else d
  {
    var d := Unlink(m, p, refs);
    var e := if Live(d, x) then d[x := Some(d[x].value.(dependents := d[x].value.dependents - {p}))] else d;
    forall q | q in m ensures Unlink(m, p, refs + [x])[q] == e[q] {
      assert q in refs + [x] <==> q in refs || q == x;
      if q != x {
        assert e[q] == d[q];
      } else if m[q].Some? {
        var c := m[q].value;
        assert d[q].value.dependents - {p} == c.dependents - {p};
        assert e[q] == Some(c.(dependents := c.dependents - {p}));
      }
    }
    assert Unlink(m, p, refs + [x]) == e;
  }

  /** impl_ = std::move(tmp) */
  function Install(m: Store, p: Position, impl: Content): Store
    requires Live(m, p)
  {
    m[p := Some(m[p].value.(impl := impl))]
  }

  /** AddReferences: p joins the dependents of each cell it refers to, created if absent. */
  function Link(m: Store, p: Position, refs: seq<Position>): Store
  {
    map q | q in m.Keys + Elems(refs) :: if q in refs then
      Some(Base(m, q).(dependents := Base(m, q).dependents + {p})) else m[q]
  }

  /** Link, one reference at a time. */
  lemma LinkSnoc(m: Store, p: Position, refs: seq<Position>, x: Position)
    ensures Link(m, p, refs + [x]) ==
      var d := Link(m, p, refs);
      var c := if Live(d, x) then d[x].value else NewCell();
      d[x := Some(c.(dependents := c.dependents + {p}))]
  {
    var d := Link(m, p, refs);
    var c := if Live(d, x) then d[x].value else NewCell();
    var e := d[x := Some(c.(dependents := c.dependents + {p}))];
    assert Elems(refs + [x]) == Elems(refs) + {x};
    forall q | q in e ensures q in Link(m, p, refs + [x]) && Link(m, p, refs + [x])[q] == e[q] {
      assert q in refs + [x] <==> q in refs || q == x;
    }
    assert Link(m, p, refs + [x]) == e;
  }

  /** The store after a successful Cell::Set at p, before any cache is cleared. */
  function Relink(m: Store, p: Position, impl: Content): Store
    requires Live(m, p)
  {
    Link(Install(Unlink(m, p, ContentRefs(m[p].value.impl)), p, impl), p, ContentRefs(impl))
  }

  /** Relink, cell by cell. */
  lemma RelinkAt(m: Store, p: Position, impl: Content, q: Position)
    requires Live(m, p)
    ensures q in Relink(m, p, impl) <==> q in m || q in ContentRefs(impl)
    ensures Live(Relink(m, p, impl), q) <==> Live(m, q) || q in ContentRefs(impl)
    ensures Live(Relink(m, p, impl), q) ==>
      Relink(m, p, impl)[q].value.impl == if q == p then impl else Base(m, q).impl
    ensures Live(Relink(m, p, impl), q) ==>
      Relink(m, p, impl)[q].value.dependents ==
        Base(m, q).dependents - (if q in ContentRefs(m[p].value.impl) then {p} else {})
                              + (if q in ContentRefs(impl) then {p} else {})
    ensures Live(Relink(m, p, impl), q) ==> Relink(m, p, impl)[q].value.cache == Base(m, q).cache
    ensures q in m && !Live(Relink(m, p, impl), q) ==> Relink(m, p, impl)[q] == m[q]
  {
  }

  /** Relinking p changes p's references to the new ones and nobody else's. */
  lemma RelinkRefGraph(m: Store, p: Position, impl: Content, q: Position)
    requires Live(m, p)
    ensures Succ(RefGraph(Relink(m, p, impl)), q) ==
      if q == p then Elems(ContentRefs(impl)) else Succ(RefGraph(m), q)
  {
    RelinkAt(m, p, impl, q);
    RefGraphSucc(m, q);
    RefGraphSucc(Relink(m, p, impl), q);
  }

  lemma RelinkKeysValid(m: Store, p: Position, impl: Content)
    requires KeysValid(m) && Live(m, p)
    requires forall x :: x in ContentRefs(impl) ==> IsValid(x)
    ensures KeysValid(Relink(m, p, impl))
  {
    forall q | q in Relink(m, p, impl) ensures IsValid(q) {
      RelinkAt(m, p, impl, q);
    }
  }

  lemma RelinkRefsLinked(m: Store, p: Position, impl: Content)
    requires RefsLinked(m) && Live(m, p)
    ensures RefsLinked(Relink(m, p, impl))
  {
    var m2 := Relink(m, p, impl);
    forall q, r | Live(m2, q) && r in ContentRefs(m2[q].value.impl)
      ensures Live(m2, r) && q in m2[r].value.dependents
    {
      RelinkAt(m, p, impl, q);
      RelinkAt(m, p, impl, r);
      if q != p {
        assert Live(m, q);
        assert Live(m, r) && q in m[r].value.dependents;
      }
    }
  }

  lemma RelinkDependentsLinked(m: Store, p: Position, impl: Content)
    requires DependentsLinked(m) && Live(m, p)
    ensures DependentsLinked(Relink(m, p, impl))
  {
    var m2 := Relink(m, p, impl);
    forall q, d | Live(m2, q) && d in m2[q].value.dependents
      ensures Live(m2, d) && q in ContentRefs(m2[d].value.impl)
    {
      RelinkAt(m, p, impl, q);
      RelinkAt(m, p, impl, d);
      if d != p {
        assert Live(m, q) && d in m[q].value.dependents;
        assert Live(m, d) && q in ContentRefs(m[d].value.impl);
      }
    }
  }

  /** Cell::Set keeps the store's invariant when no new reference leads back to p. */
  lemma RelinkPreservesValid(m: Store, p: Position, impl: Content)
    requires GraphValid(m) && Live(m, p)
    requires forall x :: x in ContentRefs(impl) ==> IsValid(x)
    requires forall x :: x in ContentRefs(impl) ==> !Reaches(RefGraph(m), x, p)
    ensures GraphValid(Relink(m, p, impl))
  {
    RelinkKeysValid(m, p, impl);
    RelinkRefsLinked(m, p, impl);
    RelinkDependentsLinked(m, p, impl);
    var g, g2 := RefGraph(m), RefGraph(Relink(m, p, impl));
    forall q | q != p ensures Succ(g2, q) == Succ(g, q) {
      RelinkRefGraph(m, p, impl, q);
    }
    RelinkRefGraph(m, p, impl, p);
    AcyclicAfterRedirect(g, g2, p);
  }

  /** ... and relinking would close a cycle when one does: the reason Cell::Set rejects it. */
  lemma RelinkWouldCycle(m: Store, p: Position, impl: Content, x: Position)
    requires Live(m, p)
    requires x in ContentRefs(impl) && Reaches(RefGraph(m), x, p)
    ensures !Acyclic(RefGraph(Relink(m, p, impl)))
  {
    var g, g2 := RefGraph(m), RefGraph(Relink(m, p, impl));
    forall q | q != p ensures Succ(g2, q) == Succ(g, q) {
      RelinkRefGraph(m, p, impl, q);
    }
    RelinkRefGraph(m, p, impl, p);
    CycleAfterBadRedirect(g, g2, p, x);
  }

  /** The new references of p all list p as a dependent; an old reference that is not a new
      one no longer does; every other slot keeps its cell. */
  lemma RelinkDependents(m: Store, p: Position, impl: Content)
    requires Live(m, p)
    ensures forall x :: x in ContentRefs(impl) ==>
      Live(Relink(m, p, impl), x) && p in Relink(m, p, impl)[x].value.dependents
    ensures forall x :: x in ContentRefs(m[p].value.impl) && x !in ContentRefs(impl) && Live(m, x) ==>
      p !in Relink(m, p, impl)[x].value.dependents
    ensures forall q :: q in m && q != p && q !in ContentRefs(m[p].value.impl) && q !in ContentRefs(impl) ==>
      q in Relink(m, p, impl) && Relink(m, p, impl)[q] == m[q]
  {
    forall x | x in ContentRefs(impl)
      ensures Live(Relink(m, p, impl), x) && p in Relink(m, p, impl)[x].value.dependents
    {
      RelinkAt(m, p, impl, x);
    }
    forall x | x in ContentRefs(m[p].value.impl) && x !in ContentRefs(impl) && Live(m, x)
      ensures p !in Relink(m, p, impl)[x].value.dependents
    {
      RelinkAt(m, p, impl, x);
    }
  }

  // ---------------------------------------------------------------------------
  // The value a cell reads as

  /**
   * Cell::GetValue over the store m: the cache when present, otherwise the content's value,
   * where a formula looks referenced cells up through the sheet. `onStack` holds the cells
   * whose evaluation is in progress; on an acyclic reference graph a formula never looks one
   * of them up, and such a lookup (which the source would recurse into forever) reads as
   * no cell here.
   */
  function CellValue(m: Store, execute: Executor, parseNumber: NumberParser, p: Position,
                     onStack: set<Position>): (v: Value)
    requires Live(m, p)
    ensures m[p].value.cache.Some? ==> v == m[p].value.cache.value
    ensures m[p].value.cache.None? && m[p].value.impl.FormulaImpl? ==> v.Num? || v.Err?
    ensures m[p].value.cache.None? && !m[p].value.impl.FormulaImpl? ==> v.Str?
    decreases LiveSet(m) - onStack
  {
    match m[p].value.cache
    case Some(v) => v
    case None =>
      ContentValue(m[p].value.impl, execute,
        q => if Live(m, q) && q !in onStack
             then Some(CellValue(m, execute, parseNumber, q, onStack + {q})) else None,
        parseNumber)
  }

  /** The cells whose contents the value of a cell in R may read: every position in the tree
      of a live formula in R is in R again. */
  ghost predicate ReadClosed(m: Store, r: set<Position>)
  {
    forall q, x ::
      q in r && Live(m, q) && m[q].value.impl.FormulaImpl? && x in m[q].value.impl.formula.ast.cells
      ==> x in r
  }

  /** Two stores that agree on the slots in R. */
  ghost predicate AgreeOn(m1: Store, m2: Store, r: set<Position>)
  {
    forall q :: q in r ==> (Live(m1, q) <==> Live(m2, q)) && (Live(m1, q) ==> m1[q] == m2[q])
  }

  /**
   * A cell's value depends only on the cells it reads, directly or through other formulas:
   * two stores that agree on a read-closed set holding p give p the same value. This is what
   * lets cache invalidation leave the cells outside the readers of a changed cell alone.
   */
  lemma {:induction false} CellValueLocal(m1: Store, m2: Store, execute: Executor,
                                          parseNumber: NumberParser, p: Position,
                                          onStack: set<Position>, r: set<Position>)
    requires ReadsOnlyTreeCells(execute)
    requires Live(m1, p) && p in r && ReadClosed(m1, r) && AgreeOn(m1, m2, r)
    ensures Live(m2, p)
    ensures CellValue(m1, execute, parseNumber, p, onStack) == CellValue(m2, execute, parseNumber, p, onStack)
    decreases LiveSet(m1) - onStack
  {
    if m1[p].value.cache.None? && m1[p].value.impl.FormulaImpl? {
      var f := m1[p].value.impl.formula;
      var get1 := q => if Live(m1, q) && q !in onStack
                       then Some(CellValue(m1, execute, parseNumber, q, onStack + {q})) else None;
      var get2 := q => if Live(m2, q) && q !in onStack
                       then Some(CellValue(m2, execute, parseNumber, q, onStack + {q})) else None;
      forall q | q in f.ast.cells
        ensures ReferenceCallback(get1, parseNumber, q) == ReferenceCallback(get2, parseNumber, q)
      {
        assert q in r;
        if Live(m1, q) && q !in onStack {
          assert q in LiveSet(m1);
          CellValueLocal(m1, m2, execute, parseNumber, q, onStack + {q}, r);
        }
      }
      var cb1 := pos => ReferenceCallback(get1, parseNumber, pos);
      var cb2 := pos => ReferenceCallback(get2, parseNumber, pos);
      assert execute(f.ast, cb1) == execute(f.ast, cb2);
      assert CellValue(m1, execute, parseNumber, p, onStack) == ToValue(execute(f.ast, cb1));
      assert CellValue(m2, execute, parseNumber, p, onStack) == ToValue(execute(f.ast, cb2));
    }
  }

  /** GetValue returns the cache if present, and the content's value otherwise. */
  lemma CellValueUsesCache(m: Store, execute: Executor, parseNumber: NumberParser, p: Position,
                           onStack: set<Position>)
    requires Live(m, p)
    ensures m[p].value.cache.Some? ==>
      CellValue(m, execute, parseNumber, p, onStack) == m[p].value.cache.value
    ensures m[p].value.cache == None && !m[p].value.impl.FormulaImpl? ==>
      CellValue(m, execute, parseNumber, p, onStack) ==
        ContentValue(m[p].value.impl, execute, q => None, parseNumber)
  {
  }
}
