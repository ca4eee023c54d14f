# Sheet dependency graph and cache engine

A Dafny model of the `Sheet` class of a C++ spreadsheet. The sheet stores cells
keyed by position. Each cell keeps its text, the positions its formula
references, an optional cached value and the set of positions that depend on
it. The sheet also keeps two boxes:

- the bounding box (`sheet_size_`), which covers every position that ever
  received a cell;
- the printable box (`print_size_`), which printing walks.

The model covers these operations:

- the edit-commit protocol `SetCell`: validate the position, grow the bounding
  box, write the text, scan the references, search for a cycle, register
  dependents, invalidate caches downstream, then widen the printable box;
- the cycle search `CheckCycledCells`, a stack-and-closure depth-first search
  over references;
- the invalidation sweep `PrepareClearCache`, the same kind of search over
  dependents;
- lookup `GetCell`, where empty cells count as absent;
- `ClearCell` and the printable-area rescan `UpdatePrintableArea`;
- the TEXT mode of `PrintData` (`PrintTexts`);
- the `hasher` that turns positions into map keys.

The state is a value: `Sheet(sheetSize, printSize, cells: map<Position, Cell>)`.
`SetCell` and `ClearCell` map a sheet to an `Edit`, which holds the resulting
sheet together with the exception thrown, if any. A thrown exception does not
undo the changes made before it, so an `Edit` can carry both.

The two depth-first traversals are specified by reachability in a graph given
as an adjacency map (module `Graph`). The cycle search runs on `RefGraph`,
which follows references. The sweep runs on `DepGraph`, which follows
dependents. `SetCellSpec` states the whole edit in those terms, and the method
`SetCell` is proved equal to it. The lemmas in `EditFacts` then state what an
edit guarantees.

Modules:

- `Common`: positions, sizes, errors, `Option` and `Result`.
- `Cells`: the cell record as the sheet sees it.
- `Graph`: paths and reachability.
- `Traversal`: the two searches.
- `Spreadsheet`: the sheet and its operations.
- `EditFacts`: properties of `SetCell`.
- `Printing`: the text printer and how its output reads back.
- `Hasher`: the position hash.

The cell's own implementation (cell.h, cell.cpp) and the position type's
implementation (common.h) are not part of this model. What the sheet needs
from them is assumed:

- `IsEmpty` means empty text and no references.
- `Set(text)` stores the text, takes the references from the compute engine,
  drops the cache and keeps the dependents.
- `Clear` drops text, references and cache and keeps the dependents.
- `Position::IsValid` means `0 <= row < 16384 && 0 <= col < 16384`.
- `Position::NONE` is (-1, -1).

The compute engine is a parameter, `refsOf: string -> seq<Position>`.

Notes on the code:

- The reference scan also puts a placeholder over an empty cell, replacing its
  record together with its dependents (sheet.cpp:59-64).
- After every commit and every placeholder the printable box is set to the
  bounding box (sheet.cpp:66, 86). The clear rescan looks only inside the old
  printable box (sheet.cpp:199-200).
- A rewrite with unchanged text grows the bounding box first (sheet.cpp:32).
  Under the sheet invariant `Valid` this changes nothing, as
  `EditFacts.SameTextIsNoOp` shows.

## Model

| member | source | states |
|---|---|---|
| Spreadsheet.NewSheet | design/sheet.h:49-51 | a new sheet satisfies the sheet invariant, its printable size is (0, 0), and GetCell of every valid position returns absent |
| Spreadsheet.GetCell | spreadsheet/sheet.cpp:146-180 | throws InvalidPosition exactly for an invalid position; otherwise returns a cell exactly when the position is stored with a non-empty cell, and then it is the stored cell |
| Spreadsheet.CorrectSheetSizeToNewPos | spreadsheet/sheet.cpp:16-25 | the grown box covers pos and contains the old box; each side is either unchanged or ends at pos; a box already covering pos is unchanged |
| Spreadsheet.ScanRefs | spreadsheet/sheet.cpp:52-70 | the scan reports all present exactly when every reference is valid and holds a non-empty cell; an invalid or missing reference is reported only when every earlier reference was present; a missing one is valid, lacks a non-empty cell, and is among the references |
| Spreadsheet.AddDependents | spreadsheet/sheet.cpp:75-81 | the same positions are stored; each referenced non-empty cell gains pos as a dependent; every other cell is unchanged |
| Spreadsheet.SetCell | spreadsheet/sheet.cpp:27-87 | the stack-based edit protocol produces exactly the reference edit SetCellSpec, in which the cycle search is reachability over references and the sweep is reachability over dependents |
| Spreadsheet.UpdatePrintableArea | spreadsheet/sheet.cpp:195-217 | the result covers every non-empty cell inside the old printable box; its last row and its last column are each attained by such a cell, so it is (0, 0) when none is left; it is no larger than the old box |
| Spreadsheet.ClearCell | spreadsheet/sheet.cpp:182-193 | an invalid position throws with the sheet unchanged; a missing or empty cell leaves the sheet unchanged; otherwise only that cell is cleared (its dependents keep their caches), the bounding box is unchanged, the printable box is the tight box of what remains inside the old one and no larger; the sheet invariant is kept |
| Traversal.Unvisited | spreadsheet/sheet.cpp:97-106 | the positions pushed for a cell are exactly its valid references that are not yet in the closure |
| Traversal.CheckCycledCells | spreadsheet/sheet.cpp:89-123 | the search finds a cycle exactly when init is reachable through references from one of the positions init references |
| Traversal.UnvisitedDependents | spreadsheet/sheet.cpp:138-142 | the positions pushed for a cell are exactly its dependents that are not yet in the closure |
| Traversal.PrepareClearCache | spreadsheet/sheet.cpp:125-144 | the stored positions are unchanged; every cell reachable from start through dependents, start included, has its cache dropped; every other cell is unchanged |
| Traversal.ClearedFromKeepsGraph | spreadsheet/sheet.cpp:136 | the sweep changes only caches: same positions, same texts, references and dependents, hence the same dependents graph |
| Traversal.ClearedFromCaches | spreadsheet/sheet.cpp:131-143 | after the sweep, a cell reachable from start through dependents has no cache and every other cell keeps its cached value |
| EditFacts.InvalidPositionUntouched | spreadsheet/sheet.cpp:28-29 | SetCell on an invalid position throws InvalidPosition and leaves the sheet unchanged; no valid position throws InvalidPosition |
| EditFacts.SameTextIsNoOp | spreadsheet/sheet.cpp:32-39 | on a sheet satisfying the invariant, writing the text a non-empty cell already holds changes nothing: no cell, cache, dependents or size |
| EditFacts.MissingRefIsElsewhere | spreadsheet/sheet.cpp:59-64 | the placeholder is never made at the edited position itself |
| EditFacts.SetCellKeepsValid | spreadsheet/sheet.cpp:27-87 | every edit keeps the invariant: stored positions are valid and inside the bounding box, and the printable box lies inside the bounding box, which lies inside the grid |
| EditFacts.NewTextStays | spreadsheet/sheet.cpp:41-45 | on every path past validation, including a thrown CircularDependency, the edited position ends up holding the new text in a non-empty cell |
| EditFacts.SetCellIdempotent | spreadsheet/sheet.cpp:36-39 | repeating an edit changes nothing the second time |
| EditFacts.SelfReferenceIsCycle | spreadsheet/sheet.cpp:109-118 | a stored cell that references its own position lies on a cycle |
| EditFacts.CycleThrowsWithoutRollback | spreadsheet/sheet.cpp:41-72 | CircularDependency is thrown exactly when the text is new, every reference is present and the cell is reachable from its own references; the new text then stays, the bounding box has grown, and every other cell and the printable box are unchanged |
| EditFacts.SelfReferenceRejected | spreadsheet/sheet.cpp:72-118 | a new self-referencing text whose references are all present is rejected with CircularDependency |
| EditFacts.InvalidRefEndsSilently | spreadsheet/sheet.cpp:52-56 | an invalid reference met before any missing one ends the edit with no exception, the new text written and the printable box unchanged |
| EditFacts.PlaceholderShortCircuit | spreadsheet/sheet.cpp:59-68 | a missing reference gets a fresh empty cell, the bounding box grows over it, and the printable box becomes the bounding box; no other cell changes, so there are no new dependents and no cache is cleared |
| EditFacts.PlaceholderHidesSelfReference | spreadsheet/sheet.cpp:59-72 | A1 := "=A1+B1" on a new sheet is accepted with no exception although A1 lies on a cycle, because the placeholder for B1 returns before the cycle search |
| EditFacts.CommitCells | spreadsheet/sheet.cpp:72-86 | a committed edit yields the written cells, linked and then swept, with the printable box equal to the bounding box; every reference of the text is present |
| EditFacts.CommitLinksDependents | spreadsheet/sheet.cpp:75-86 | after a commit, every referenced cell lists the edited position among its dependents, the stored positions are the old ones plus pos, and the printable box is the bounding box |
| EditFacts.CommitKeepsOtherCells | spreadsheet/sheet.cpp:75-81 | after a commit, every other cell keeps its text and references, and its dependents are the old ones plus pos exactly when it is referenced: nothing is pruned |
| EditFacts.CommitInvalidatesDownstream | spreadsheet/sheet.cpp:84 | after a commit, every cell reachable from the edited one through dependents has no cached value, and every other cell keeps its cached value |
| EditFacts.DependentsOfNonEmptyKept | spreadsheet/sheet.cpp:75-81 | no edit removes a dependents entry of a non-empty cell |
| EditFacts.EmptyCellReplaced | spreadsheet/sheet.cpp:43-46 | writing to a position that holds an empty cell replaces the record, so the dependents that cell had recorded are lost |
| EditFacts.CycleRejectionExample | spreadsheet/sheet.cpp:89-123 | with A1 = "=B1" and B1 = "1", writing "=A1" to B1 throws CircularDependency; B1 keeps the new text and A1 is untouched |
| EditFacts.PrintableSizeExample | spreadsheet/sheet.cpp:16-86 | writing to (0, 0) and then (3, 2) on a new sheet gives a printable size of 4 rows by 3 columns |
| Printing.Grid | spreadsheet/sheet.cpp:226-236 | the printed grid has one row per printable row and one field per printable column; each field is the text of the non-empty cell there, otherwise empty |
| Printing.PrintRow | spreadsheet/sheet.cpp:227-240 | one printed row is its fields joined by single tabs, with no trailing tab |
| Printing.PrintTexts | spreadsheet/sheet.cpp:223-244 | for a printable box inside the grid, where no lookup throws, the output is the printable grid rendered line by line, each line newline-terminated |
| Printing.JoinTabsRoundTrip | spreadsheet/sheet.cpp:227-240 | splitting a printed row at tabs gives back its fields when no field holds a tab |
| Printing.PrintRoundTrip | spreadsheet/sheet.cpp:223-244 | when no field holds a tab or newline and every row has a column, reading the output back gives the grid: one line per row, one field per column |
| Printing.PrintTextsReadsBack | spreadsheet/sheet.cpp:223-244 | the printed sheet reads back as exactly rows lines of cols fields, each the text of the non-empty cell at that position or empty |
| Printing.PrintExample | spreadsheet/sheet.cpp:223-244 | a 2 by 2 sheet holding 1, 2, 3, 4 prints as "1\t2\n3\t4\n" |
| Hasher.Hash | design/sheet.h:11-14 | for a row below 2^14, the key decodes back to the position: the quotient by 2^14 is the column and the remainder is the row |
| Hasher.HashInjective | design/sheet.h:10-14 | positions with non-negative coordinates and rows below 2^14 never share a key |
| Hasher.ValidPositionsHashApart | design/sheet.h:10-14 | distinct valid positions have distinct keys |
| Hasher.RowsPastSpanCollide | design/sheet.h:13 | rows at or past 2^14 collide with the next column: (16384, 0) and (0, 1) share a key |

## Left out

- Cell internals: `Cell::Set`, `IsEmpty`, `Clear`, `ClearCache`, `GetReferencedCells`, `Position::IsValid`, `Position::NONE` and the grid limits come from cell.h, cell.cpp and common.h, which are not part of this model. They are modelled by the assumptions stated above.
- Formula evaluation, `PrintValues` and `GetValue` belong to the compute engine and format doubles. The engine is reduced to `refsOf`, and the VALUES mode of `PrintData` is not modelled.
- Pointers, `reinterpret_cast`, `unique_ptr` and the `unordered_map` mechanics are not modelled. Cells are identified by position and dependents are sets of positions. A dependents entry therefore always means the cell now stored at that position, and a pointer left dangling by a replaced record is read that way.
- Spreadsheet.SetCell: requires `DefinedEdit`. Writing, at a position with no non-empty cell, a text that leaves the new cell empty makes the source dereference a null pointer (sheet.cpp:48-52), so that input is excluded.
- Traversal.CheckCycledCells: when the search reaches a valid position with no non-empty cell, the source pushes a null pointer and later expands it (sheet.cpp:102-104, 121). The model treats such a position as a leaf with no references instead.
- Order of traversal: iteration order of `unordered_set` over dependents is not modelled. The sweep's result does not depend on it.
- Hasher.Hash: requires non-negative coordinates. It does not model the `int` overflow of the shift for columns of 2^17 and more, or shifts of negative values. No valid position reaches either case.
- Printing.PrintTexts: returns the text instead of writing to a `std::ostream`.
- The `CreateSheet` factory and the destructor are not modelled.
- `GetPrintableSize` and `IsPosOutOfSheet` are modelled only as helpers (`Spreadsheet.GetPrintableSize`, `Spreadsheet.IsPosOutOfSheet`), with no contract of their own.
- "At most one cell per position" (design/sheet.h:51) holds by construction, because cells are stored in a `map`.
