# Spreadsheet cell graph, modelled in Dafny

This project models the core of a small C++ spreadsheet engine:

- **positions**: `Position`, its order, its validity bounds and its "A1" text form;
- **the formula adapter**: how a formula reads a referenced cell's value, how errors propagate, and how the reference list is built from the parsed tree;
- **the cell**: three content variants (Empty, Text, Formula), the set of dependent cells, and a lazily filled value cache;
- **the sheet**: an ordered store of cells keyed by position, plus printing.

The centre of the model is `Cell::Set`. It classifies the text and parses a formula. It then rejects the change when a new reference leads back to the cell. Only after that does it move the cell's references, install the new content and clear the caches that may now be stale.

Files:

- `wrappers.dfy`: `Option`, `Result` and `Outcome`.
- `structures.dfy`, module `Structures` (`structures.cpp`):
  - `ToString` and `FromString` are loops, each proved equal to a pure codec (`Encode`, `Decode`);
  - the round trip and the rejection cases are lemmas about that codec.
- `formula.dfy`, module `Formulas` (`formula.cpp`): reading values into numbers, the reference callback, adjacent de-duplication and `ParseFormula`. Three parts are function-valued parameters:
  - the expression parser;
  - the tree evaluator;
  - the whole-string number parse.
- `graph.dfy`, module `Graphs`: paths, reachability and acyclicity over a map from a position to a set of positions, with the lemmas the cycle check and the invalidation need.
- `cell.dfy`, module `Cells` (`cell.h`, the pure part of `cell.cpp`):
  - content, cell, the store (`map<Position, Option<Cell>>`; `None` is a slot that `ClearCell` reset);
  - the store invariant `GraphValid`, which holds when:
    - every reference of a live cell leads to a live cell that lists it as a dependent, and the other way round;
    - the reference graph has no cycle;
    - every key is a valid position;
  - `Relink`, the effect of a successful `Set` on the store, with the lemmas that it keeps `GraphValid`;
  - `CellValue`, the value `GetValue` returns.
- `sheet.dfy`, module `Sheets` (`sheet.h`, `sheet.cpp` and the state-changing part of `cell.cpp`):
  - `class Sheet` holds the store in a field `data`; each `Cell::…` method is a method of the sheet that takes the position of the cell it runs on;
  - `Set` is specified by `SetEffect`: the whole new store on success, and the unchanged store on a parse or cycle failure;
  - printing is specified by `GridText`.

A cell's identity is its position: the pointers that the source keeps in `dependent_cells_` and uses as `visited`/`visiting` keys are positions here.

## Model

| member | source | states |
|---|---|---|
| Structures.Equals | spreadsheet/structures.cpp:14-16 | equality is structural on row and column |
| Structures.LessIsStrictTotalOrder | spreadsheet/structures.cpp:18-20 | `Less`, the `std::tie` order (row first, then column), is irreflexive, asymmetric, transitive and total on distinct positions |
| Structures.NoneIsInvalid | spreadsheet/structures.cpp:22-24 | `IsValid` is the bounds test 0 <= col < MAX_COLS and 0 <= row < MAX_ROWS, and the NONE sentinel (-1, -1) of line 11 fails it |
| Structures.SizeEquals | spreadsheet/structures.cpp:83-85 | equality of sizes is structural |
| Structures.ToString | spreadsheet/structures.cpp:26-40 | the loop builds exactly `Encode(p)`: "" for an invalid position, otherwise the bijective base-26 column letters then the decimal row + 1 |
| Structures.FromString | spreadsheet/structures.cpp:42-81 | the two loops with their early returns compute exactly `Decode(s)` |
| Structures.AlphaPrefix | spreadsheet/structures.cpp:52 | the first loop's scan stops at the first non-letter: every character before it is a letter |
| Structures.ColumnLettersDecode | spreadsheet/structures.cpp:31-37 | the column letters are upper case and fold back to col + 1; columns up to 18278 need at most three letters |
| Structures.DecimalDecode | spreadsheet/structures.cpp:39 | the row digits are digits and fold back to row + 1, with at most five of them below 100000 |
| Structures.DecodeEncode | spreadsheet/structures.cpp:26-81 | round trip: FromString(ToString(p)) == p for every valid p |
| Structures.LowercaseRejected | spreadsheet/structures.cpp:52-55 | any lower-case letter anywhere makes FromString return NONE |
| Structures.LetteredDecodeIsValidOrNone | spreadsheet/structures.cpp:52-80 | input with a letter at any index decodes to NONE or to a valid position; a letter after the leading run fails the digit test |
| Structures.DigitsOnlyDecode | spreadsheet/structures.cpp:60-80 | a digits-only input with row 1..MAX_ROWS decodes to column -1, neither NONE nor valid |
| Structures.DecodeShape | spreadsheet/structures.cpp:42-81 | every result is NONE or has 0 <= row < MAX_ROWS and -1 <= col < MAX_COLS |
| Formulas.RenderIgnoresCategory | spreadsheet/formula.cpp:11-13 | every FormulaError renders as "#DIV/0!", whatever its category |
| Formulas.CoerceRule | spreadsheet/formula.cpp:15-36 | a number passes through; an error propagates; "" reads as 0; other text is a number exactly when the whole-string parse succeeds, and a Value error otherwise |
| Formulas.CoerceFormulaValue | spreadsheet/formula.cpp:21-23 | reading a formula cell's value gives back its result unchanged: numbers pass and errors propagate |
| Formulas.ReferenceCallbackRule | spreadsheet/formula.cpp:50-59 | an invalid position gives a Ref error; a valid position with no cell gives 0; otherwise the cell's value is coerced |
| Formulas.EvaluateLocal | spreadsheet/formula.cpp:48-64 | `Evaluate` runs the tree with the reference callback. With an executor that reads only the tree's cells, the sheet matters only at the tree's valid references, and there only through the number each one reads as. An invalid reference is a Ref error with no lookup, and a missing cell reads as 0 |
| Formulas.Unique | spreadsheet/formula.cpp:42-46 | `unique()` keeps the first element and the same members, and leaves no two equal neighbours |
| Formulas.UniqueSnoc | spreadsheet/formula.cpp:44 | `unique()` of the empty list is empty, and appending an element adds it exactly when it differs from the last one kept; this fixes the result, order included |
| Formulas.UniqueKeepsDistinctNeighbours | spreadsheet/formula.cpp:44 | a list with no equal neighbours is left unchanged |
| Formulas.UniqueIdempotent | spreadsheet/formula.cpp:44 | de-duplicating twice equals de-duplicating once |
| Formulas.ParsedFormulaGetters | spreadsheet/formula.cpp:66-74 | for a parsed formula, `GetExpression` is the tree's canonical text and `GetReferencedCells` is `Unique` of the tree's cells |
| Formulas.ParseFormula | spreadsheet/formula.cpp:82-88 | fails exactly when the tree does not parse; on success keeps the tree, and its references are exactly the de-duplicated list of the tree's cells (`Unique`), so they are valid and have no equal neighbours |
| Cells.NewCell | spreadsheet/cell.cpp:15 | a new cell is Empty, with no dependents and no cache |
| Cells.ContentViews | spreadsheet/cell.cpp:138-183 | Empty has text "" and value ""; Text keeps its raw text, and its value has one leading ' stripped; Formula text is "=" + expression, and its value is never a string; only Formula refers to cells |
| Cells.Classify | spreadsheet/cell.cpp:21-28 | "" is Empty; "=" followed by at least one character is a formula of the rest; everything else is Text |
| Cells.LoneFormulaSignIsText | spreadsheet/cell.cpp:21 | a lone "=" and escaped text are Text |
| Cells.Candidate | spreadsheet/cell.cpp:20-28 | building `tmp` fails exactly for a formula that does not parse, with a parse error; a formula candidate holds the parsed tree; empty text gives `EmptyImpl` and other text `TextImpl` of the whole text; every reference is valid |
| Cells.DependentsAreReaders | spreadsheet/cell.h:75 | under the invariant, the dependents of c are exactly the live cells that refer to c |
| Cells.RelinkAt | spreadsheet/cell.cpp:103-121 | slot by slot after Set: a new reference is created Empty if absent; p leaves the dependents of its old references and joins those of its new ones; caches are kept |
| Cells.RelinkDependents | spreadsheet/cell.cpp:103-121 | every new reference lists p as a dependent; no old-only reference does; every other slot is unchanged |
| Cells.RelinkPreservesValid | spreadsheet/cell.cpp:32-34 | when no new reference reaches p, the relinked store keeps the symmetry, valid keys and acyclicity |
| Cells.RelinkWouldCycle | spreadsheet/cell.cpp:29-31 | when a new reference reaches p, relinking would create a reference cycle: the reason for the rejection |
| Cells.CellValue | spreadsheet/cell.cpp:44-49 | `GetValue` returns the cache when present. An uncached formula cell reads as a number or a formula error, never as text, because `Evaluate` catches the error it throws. An uncached empty or text cell reads as text |
| Cells.CellValueUsesCache | spreadsheet/cell.cpp:44-49 | GetValue returns the cache when present; with no cache, an empty or text cell yields its content's value, which reads no other cell |
| Cells.CellValueLocal | spreadsheet/formula.cpp:48-60 | with an executor that reads only the tree's cells, a cell's value depends only on the slots it reads: two stores that agree on a read-closed set holding the cell give it the same value |
| Cells.EmptyStoreValid | spreadsheet/sheet.h:29 | the empty store satisfies the invariant |
| Sheets.Sheet.constructor | spreadsheet/sheet.h:29 | a new sheet has an empty store that satisfies the invariant |
| Sheets.Sheet.SetCell | spreadsheet/sheet.cpp:13-24 | an invalid position fails and changes nothing; a live cell gets Cell::Set; an absent slot first gets a new Empty cell, which then stays even if Set fails; the invariant is kept |
| Sheets.Sheet.GetCell | spreadsheet/sheet.cpp:26-35 | invalid position: InvalidPosition; otherwise the cell when live, and None for an absent or reset slot |
| Sheets.Sheet.ClearCell | spreadsheet/sheet.cpp:37-41 | invalid position: fails and changes nothing; otherwise the slot is reset when live and nothing else changes; keys stay valid; resetting an isolated cell keeps the invariant |
| Sheets.RemovedCellKeepsValid | spreadsheet/sheet.cpp:37-41 | resetting a cell that has no references and no dependents keeps the invariant |
| Sheets.AddedCellKeepsValid | spreadsheet/sheet.cpp:21 | a new Empty cell at a slot with no live cell keeps the invariant |
| Sheets.Sheet.GetPrintableSize | spreadsheet/sheet.cpp:43-55 | every live cell lies inside the size, and the last row and the last column each hold a live cell; (0, 0) exactly when no cell is live; cleared slots are skipped |
| Sheets.PrintableSizeUnique | spreadsheet/sheet.cpp:43-55 | the size characterised above is unique (it is the maximum) |
| Sheets.Sheet.Print | spreadsheet/sheet.h:35-49 | a printable size exists, and the output is `GridText` of it: rows 0..rows-1 and columns 0..cols-1 in row-major order; a tab before every column but the first; a newline after every row; an empty field for a slot with no live cell |
| Sheets.GridNewlines | spreadsheet/sheet.h:47 | with no newline in any field, the output has exactly `rows` newlines |
| Sheets.GridTabs | spreadsheet/sheet.h:40-42 | with no tab in any field, the output has rows * TabsPerRow(cols) tabs: cols - 1 per row, none when cols is 0 |
| Sheets.Sheet.PrintTexts | spreadsheet/sheet.cpp:63-65 | Print with each live cell's GetText at its slot |
| Sheets.Sheet.CellSet | spreadsheet/cell.cpp:19-37 | SetEffect: a parse failure or a new reference that reaches p fails and changes nothing; otherwise the store is `Relink` with the caches of p and of every cell that transitively reads p cleared, and no other change; the invariant is kept |
| Sheets.Sheet.Commit | spreadsheet/cell.cpp:32-36 | after the checks: the store becomes the relinked store with exactly the stale caches cleared, and stays valid |
| Sheets.Sheet.MoveReferences | spreadsheet/cell.cpp:32-34 | ClearReferences, install, AddReferences together give `Relink` |
| Sheets.Sheet.ClearReferences | spreadsheet/cell.cpp:103-110 | the loop removes p from the dependents of each live referenced cell and changes nothing else |
| Sheets.Sheet.AddReferences | spreadsheet/cell.cpp:112-121 | the loop adds p to the dependents of each reference, creating an Empty cell where none is live; nothing else changes |
| Sheets.Sheet.InvalidateCache | spreadsheet/cell.cpp:123-125 | only this cell's cache is emptied |
| Sheets.Sheet.InvalidateDependentCellsCache | spreadsheet/cell.cpp:127-136 | clears the cache of exactly the cells that reach c in one or more reference steps; content and dependents are unchanged; the recursion terminates because the graph is acyclic |
| Sheets.Sheet.CellClear | spreadsheet/cell.cpp:39-42 | content becomes Empty and the cache is emptied; references and dependents are left as they were; when the old content had no references the invariant is kept |
| Sheets.ClearedContentKeepsValid | spreadsheet/cell.cpp:39-42 | emptying a cell with no references keeps the invariant |
| Sheets.Sheet.CellGetValue | spreadsheet/cell.cpp:44-49 | returns the cache when present and changes nothing; otherwise computes the value, stores it in the cache and returns it, so a second read gives the same value; content and dependents are unchanged |
| Sheets.Sheet.CellGetText | spreadsheet/cell.cpp:51-53 | the content's text (see Cells.ContentViews) |
| Sheets.Sheet.CellGetReferencedCells | spreadsheet/cell.cpp:55-57 | the content's reference list |
| Sheets.Sheet.CellIsReferenced | spreadsheet/cell.cpp:59-61 | true exactly when the cell's own reference list is non-empty, which only a formula can have |
| Sheets.Sheet.Traverse | spreadsheet/cell.cpp:68-89 | the DFS closure: true only when c reaches p; when false, c is visited, the visiting set is restored, and the finished cells are closed under references and exclude p |
| Sheets.Sheet.HasCircularDependencies | spreadsheet/cell.cpp:63-101 | true exactly when some candidate reference reaches p, a self-reference included (corrected seed loop, see Findings) |
| Sheets.Sheet.HasCircularDependenciesAsWritten | spreadsheet/cell.cpp:91-98 | true exactly when the first candidate reference reaches p |
| Sheets.AsWrittenCycleCheckMissesCycle | spreadsheet/cell.cpp:91-98 | a concrete store where the first reference reaches nothing, but the second closes a cycle that the as-written check lets through |
| Sheets.AsWrittenCycleCheckMissesSelfReference | spreadsheet/cell.cpp:91-98 | with A2 alone and Empty, `=A1+A2` passes the as-written check because the self-reference is second, and committing it makes A2 refer to itself |

## Left out

- The expression parser, the tree evaluator and `GetExpression`'s printing are function-valued parameters of the sheet (`parse`, `execute`). `FormulaAST.h` is not part of this model. `ParseFormula` catches an exception of any kind from the parser; here that is the parser returning None.
- Cells.CellValueLocal: assumes the executor consults the callback only at the positions the tree lists (`ReadsOnlyTreeCells`). The tree evaluator is a parameter, so the model cannot derive this from its code.
- Floating point: numbers are `real`. The `istringstream` whole-string parse is the parameter `parseNumber`. `PrintValues` (stream rendering of doubles) is not modelled.
- Stream I/O (`std::ostream`): `Print` returns the text as a string. The `CreateSheet` factory, `unique_ptr` ownership, destructors and `dynamic_cast` are not modelled.
- `MAX_ROWS` and `MAX_COLS` come from `common.h`, which is not part of this model. Both are taken as 16384.
- Structures.FromString: the row accumulates in mathematical integers. The source's `int` can overflow with up to 16 digits, and that overflow is not modelled.
- `std::isalpha` and `std::isupper` are modelled for ASCII.
- Sheets.Sheet.CellGetValue: fills only this cell's cache. In the source, evaluating a formula also fills the caches of the cells it reads, because it calls their `GetValue`. The model does not capture that side effect.
- Cells.CellValue: no lemma says that a cache, once filled, equals the value recomputed from content. The model proves which caches invalidation clears (exactly the transitive readers), not that the kept ones are still up to date.
- Invalid positions in a formula's reference list: the parser returns trees whose positions are all valid (`ValidAst`). In the source, an invalid reference makes `sheet_.GetCell` throw `InvalidPositionException` (sheet.cpp:31-32). Two paths are not modelled. When it is the first reference, the cycle check's lookup (cell.cpp:92) throws before anything has changed. Otherwise the lookup in `AddReferences` (cell.cpp:114) throws after a partial commit: the content is swapped, the old links are cleared, the earlier references are linked, and no cache is invalidated.
- Sheets.Sheet.SetCell and Sheets.Sheet.CellSet require the store invariant. After `ClearCell` of a cell that other cells refer to, or that refers to others, the source keeps dangling pointers, and a later search may dereference null. The model requires the invariant instead of giving that state a meaning. `ClearCell` is proved to keep the invariant only for an isolated cell.
- Sheets.Sheet.ClearCell resets the slot, as the code does: it neither removes the slot nor severs the cell's references or dependents.
- Sheets.Sheet.AddReferences: `sheet_.SetCell(pos, "")` on an absent position is written as storing `NewCell()`. That is the whole effect of that call: Set("") on a new cell has no references, no dependents and no cache.
- Cells.CellValue: a lookup of a cell whose evaluation is already in progress reads as "no cell". Such a lookup needs a cycle, given an executor that reads only the tree's cells (`ReadsOnlyTreeCells`), which `CellValue` does not assume. The model's corrected `CellSet` keeps the graph acyclic; the source's `Set` does not (see Findings). In the source such a lookup would recurse without end.
- The store's order: `std::map` iterates keys in `operator<` order. No modelled result depends on that order: `GetPrintableSize` takes maxima and `Print` indexes by row and column. The store is therefore an unordered `map`, and the order itself is proved in Structures.LessIsStrictTotalOrder.
- `InvalidateDependentCellsCache` revisits a cell once per path through a diamond of dependents. The `visited` set is local to each call, as in the source. The model keeps it so, and states no bound on the work.

## Findings

| source | as written | input that shows it | evidently intended | confidence | as-written member | corrected member |
|---|---|---|---|---|---|---|
| spreadsheet/cell.cpp:91-98 | the seed loop over the candidate's references ends its body with `return false`, so only the first reference is searched | B2 holds `=A2` and A2 is Empty; set A2 to `=A1+B2`, whose tree lists A1 then B2, with A1 absent. The search from A1 finds no cell and the check says false, yet B2 leads back to A2. Committing creates the cycle A2 -> B2 -> A2, and the next cache invalidation on it would recurse without end. Sharper: with A2 alone and A1 absent, `Set(A2, "=A1+A2")` passes too, so a self-reference is let through whenever it is not the first reference | search from every candidate reference, sharing `visited`, and report false only after all of them | not executed; follows from the control flow | Sheets.Sheet.HasCircularDependenciesAsWritten, Sheets.AsWrittenCycleCheckMissesCycle, Sheets.AsWrittenCycleCheckMissesSelfReference | Sheets.Sheet.HasCircularDependencies |

`Cell::Set` in the model (Sheets.Sheet.CellSet) uses the corrected check. That is what makes the invariant `GraphValid` hold across every successful `Set`.
