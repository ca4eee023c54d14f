/** The sheet: cells keyed by position, the bounding box of every stored
    cell and the printable box, with the edit-commit protocol, lookup,
    clearing and the printable-area rescan. */
module Spreadsheet {
  import opened Common
  import opened Cells
  import opened Graph
  import opened Traversal

  /** sheetSize: the box holding every position that ever received a cell;
      printSize: the box that printing covers. */
  datatype Sheet = Sheet(sheetSize: Size, printSize: Size, cells: CellMap)

  /** What every sheet reachable from a new one satisfies: stored positions
      are valid and inside the bounding box, and the printable box lies
      inside the bounding box, which lies inside the grid. */
  ghost predicate Valid(s: Sheet) {
    && (forall p :: p in s.cells ==> p.IsValid() && p.row < s.sheetSize.rows && p.col < s.sheetSize.cols)
    && 0 <= s.printSize.rows <= s.sheetSize.rows <= MAX_ROWS
    && 0 <= s.printSize.cols <= s.sheetSize.cols <= MAX_COLS
  }

  /** Every position of the printable box is a valid position. */
  predicate PrintBoxInGrid(s: Sheet) {
    s.printSize.rows <= MAX_ROWS && s.printSize.cols <= MAX_COLS
  }

  /** A freshly constructed sheet. */
  function NewSheet(): (s: Sheet)
    ensures Valid(s)
    ensures GetPrintableSize(s) == Size(0, 0)
    ensures forall p: Position :: p.IsValid() ==> GetCell(s, p) == Ok(None)
  {
    Sheet(Size(0, 0), Size(0, 0), map[])
  }

  function GetPrintableSize(s: Sheet): Size {
    s.printSize
  }

  function IsPosOutOfSheet(s: Sheet, pos: Position): bool {
    pos !in s.cells
  }

  /** Lookup: an invalid position throws; a position with no cell or with an
      empty cell has none; otherwise the stored cell. */
  function GetCell(s: Sheet, pos: Position): (r: Result<Option<Cell>>)
    ensures r.Err? <==> !pos.IsValid()
    ensures r.Err? ==> r.error == InvalidPosition
    ensures r.Ok? ==> (r.value.Some? <==> pos in s.cells && !IsEmpty(s.cells[pos]))
    ensures r.Ok? && r.value.Some? ==> r.value.value == s.cells[pos]
  {
    if !pos.IsValid() then Err(InvalidPosition)
    else if IsPosOutOfSheet(s, pos) then Ok(None)
    else Ok(NonEmptyAt(s.cells, pos))
  }

  /** Grows a box just enough to cover pos: the result covers pos, contains
      the old box, and each side is either unchanged or ends at pos. */
  function CorrectSheetSizeToNewPos(size: Size, pos: Position): (r: Size)
    ensures pos.row < r.rows && pos.col < r.cols
    ensures size.rows <= r.rows && size.cols <= r.cols
    ensures r.rows == size.rows || r.rows == pos.row + 1
    ensures r.cols == size.cols || r.cols == pos.col + 1
    ensures pos.row < size.rows && pos.col < size.cols ==> r == size
  {
    Size(if pos.row >= size.rows then pos.row + 1 else size.rows,
         if pos.col >= size.cols then pos.col + 1 else size.cols)
  }

  /** A referenced position that lets the edit go on: valid, holding a
      non-empty cell. */
  predicate Present(cells: CellMap, p: Position) {
    p.IsValid() && NonEmptyAt(cells, p).Some?
  }

  /** How the scan over an edited cell's references ends: all present, at an
      invalid position, or at a valid position without a non-empty cell. */
  datatype Scan = AllPresent | InvalidRef | MissingRef(at: Position)

  /** The scan, in the engine's order, over the references of the edited cell. */
  function ScanRefs(cells: CellMap, refs: seq<Position>): (r: Scan)
    ensures r == AllPresent <==> forall i :: 0 <= i < |refs| ==> Present(cells, refs[i])
    ensures r.InvalidRef? ==> exists i :: 0 <= i < |refs| && !refs[i].IsValid()
                                        && forall j :: 0 <= j < i ==> Present(cells, refs[j])
    ensures r.MissingRef? ==> r.at.IsValid() && NonEmptyAt(cells, r.at).None?
                              && exists i :: 0 <= i < |refs| && refs[i] == r.at
                                             && forall j :: 0 <= j < i ==> Present(cells, refs[j])
    decreases |refs|
  {
    if refs == [] then AllPresent
    else if !refs[0].IsValid() then InvalidRef
    else if NonEmptyAt(cells, refs[0]).None? then MissingRef(refs[0])
    else
      var r := ScanRefs(cells, refs[1..]);
      assert forall i :: 1 <= i < |refs| ==> refs[i] == refs[1..][i - 1];
      r
  }

  /** Registers pos as a dependent of every referenced non-empty cell. */
  function AddDependents(cells: CellMap, refs: seq<Position>, pos: Position): (r: CellMap)
    ensures r.Keys == cells.Keys
    ensures forall p :: p in cells ==>
              r[p] == if p in refs && !IsEmpty(cells[p]) then AddDependingCell(cells[p], pos) else cells[p]
    decreases |refs|
  {
    if refs == [] then cells
    else
      var next := if NonEmptyAt(cells, refs[0]).Some? then cells[refs[0] := AddDependingCell(cells[refs[0]], pos)] else cells;
      var r := AddDependents(next, refs[1..], pos);
      assert forall p :: p in refs <==> p == refs[0] || p in refs[1..];
      r
  }

  /** The outcome of SetCell: the sheet afterwards, and the exception thrown,
      if any. A throw does not undo what the edit had already changed. */
  datatype Edit = Edit(sheet: Sheet, thrown: Option<Error>)

  /** The record the new text is written into: the stored non-empty cell, or
      a new one in place of a missing or empty cell. */
  function EditedCell(s: Sheet, pos: Position, text: string, refsOf: RefsOf): Cell {
    match NonEmptyAt(s.cells, pos)
    case Some(c) => SetText(c, text, refsOf)
    case None => SetText(FreshCell, text, refsOf)
  }

  /** The edit writes the text a stored non-empty cell already holds. */
  predicate SameText(s: Sheet, pos: Position, text: string) {
    NonEmptyAt(s.cells, pos).Some? && s.cells[pos].text == text
  }

  /** The cells once the new text is written, before any reference is examined. */
  function Written(s: Sheet, pos: Position, text: string, refsOf: RefsOf): CellMap {
    s.cells[pos := EditedCell(s, pos, text, refsOf)]
  }

  /** Excludes the one edit SetCell in sheet.cpp cannot carry out: writing, at a
      position with no non-empty cell, a text that leaves the new cell empty
      (the cell is then looked up again, found absent, and dereferenced). */
  predicate DefinedEdit(s: Sheet, pos: Position, text: string, refsOf: RefsOf) {
    pos.IsValid() && NonEmptyAt(s.cells, pos).None? ==> !IsEmpty(SetText(FreshCell, text, refsOf))
  }

  /** The edit protocol, with the cycle search stated as reachability of pos
      from its own references and the invalidation sweep as the set of cells
      reachable from pos through dependents. */
  ghost function SetCellSpec(s: Sheet, pos: Position, text: string, refsOf: RefsOf): Edit {
    if !pos.IsValid() then Edit(s, Some(InvalidPosition))
    else
      var size := CorrectSheetSizeToNewPos(s.sheetSize, pos);
      if SameText(s, pos, text) then Edit(s.(sheetSize := size), None)
      else
        var cell := EditedCell(s, pos, text, refsOf);
        var cells := Written(s, pos, text, refsOf);
        match ScanRefs(cells, cell.refs)
        case InvalidRef => Edit(Sheet(size, s.printSize, cells), None)
        case MissingRef(q) =>
          var grown := CorrectSheetSizeToNewPos(size, q);
          Edit(Sheet(grown, grown, cells[q := FreshCell]), None)
        case AllPresent =>
          if CycleThrough(cells, pos) then Edit(Sheet(size, s.printSize, cells), Some(CircularDependency))
          else Edit(Sheet(size, size, ClearedFrom(AddDependents(cells, cell.refs, pos), pos)), None)
  }

  /** The edit-commit protocol: validate, grow the bounding box, write the
      text (a no-op when it is unchanged), scan the references, search for a
      cycle, register the dependents, sweep the caches, widen the printable
      box. */
  method SetCell(s: Sheet, pos: Position, text: string, refsOf: RefsOf) returns (r: Edit)
    requires DefinedEdit(s, pos, text, refsOf)
    ensures r == SetCellSpec(s, pos, text, refsOf)
  {
    if !pos.IsValid() {
      return Edit(s, Some(InvalidPosition));
    }
    var size := CorrectSheetSizeToNewPos(s.sheetSize, pos);
    var existing := NonEmptyAt(s.cells, pos);
    if existing.Some? && existing.value.text == text {
      return Edit(s.(sheetSize := size), None);
    }
    var cell := EditedCell(s, pos, text, refsOf);
    var cells := s.cells[pos := cell];
    match ScanRefs(cells, cell.refs)
    case InvalidRef =>
      return Edit(Sheet(size, s.printSize, cells), None);
    case MissingRef(q) =>
      var grown := CorrectSheetSizeToNewPos(size, q);
      return Edit(Sheet(grown, grown, cells[q := FreshCell]), None);
    case AllPresent =>
      var cycle := CheckCycledCells(cells, pos);
      if cycle {
        return Edit(Sheet(size, s.printSize, cells), Some(CircularDependency));
      }
      cells := AddDependents(cells, cell.refs, pos);
      cells := PrepareClearCache(cells, pos);
      return Edit(Sheet(size, size, cells), None);
  }

  /** A non-empty cell inside the box: what the printable area must cover. */
  ghost predicate Printable(cells: CellMap, box: Size, p: Position) {
    p in cells && !IsEmpty(cells[p]) && 0 <= p.row < box.rows && 0 <= p.col < box.cols
  }

  /** r is the tight printable area for the non-empty cells inside box: it
      covers each of them, rows and columns are maximised independently,
      and a side is zero exactly when nothing is there to cover. */
  ghost predicate TightBox(cells: CellMap, box: Size, r: Size) {
    && 0 <= r.rows && 0 <= r.cols
    && (forall p :: Printable(cells, box, p) ==> p.row < r.rows && p.col < r.cols)
    && (r.rows == 0 || exists p :: Printable(cells, box, p) && p.row == r.rows - 1)
    && (r.cols == 0 || exists p :: Printable(cells, box, p) && p.col == r.cols - 1)
  }

  /** Rescans the printable box row by row and returns the tight box of the
      non-empty cells found there. */
  method UpdatePrintableArea(s: Sheet) returns (r: Size)
    requires PrintBoxInGrid(s)
    ensures TightBox(s.cells, s.printSize, r)
    ensures r.rows <= s.printSize.rows || r.rows == 0
    ensures r.cols <= s.printSize.cols || r.cols == 0
  {
    var box := s.printSize;
    var lastRow := NONE.row;
    var lastCol := NONE.col;
    ghost var rowWitness := NONE;
    ghost var colWitness := NONE;
    var row := 0;
    while row < box.rows
      invariant 0 <= row && (row <= box.rows || row == 0)
      invariant -1 <= lastRow < row && -1 <= lastCol && (lastCol < box.cols || lastCol == -1)
      invariant forall p :: Printable(s.cells, box, p) && p.row < row ==> p.row <= lastRow && p.col <= lastCol
      invariant lastRow == -1 || (Printable(s.cells, box, rowWitness) && rowWitness.row == lastRow)
      invariant lastCol == -1 || (Printable(s.cells, box, colWitness) && colWitness.col == lastCol)
    {
      var col := 0;
      while col < box.cols
        invariant 0 <= col && (col <= box.cols || col == 0)
        invariant -1 <= lastRow <= row && -1 <= lastCol && (lastCol < box.cols || lastCol == -1)
        invariant forall p :: Printable(s.cells, box, p) && (p.row < row || (p.row == row && p.col < col)) ==>
                    p.row <= lastRow && p.col <= lastCol
        invariant lastRow == -1 || (Printable(s.cells, box, rowWitness) && rowWitness.row == lastRow)
        invariant lastCol == -1 || (Printable(s.cells, box, colWitness) && colWitness.col == lastCol)
      {
        var got := GetCell(s, Position(row, col));
        assert got.Ok?;
        if got.value.Some? && !IsEmpty(got.value.value) {
          if row > lastRow {
            lastRow := row;
            rowWitness := Position(row, col);
          }
          if col > lastCol {
            lastCol := col;
            colWitness := Position(row, col);
          }
        }
        col := col + 1;
      }
      row := row + 1;
    }
    r := Size(lastRow + 1, lastCol + 1);
  }

  /** Clears the cell at pos and rescans the printable area. An invalid
      position throws; a missing or empty cell is left alone. The dependents
      of the cleared cell keep their cached values. */
  method ClearCell(s: Sheet, pos: Position) returns (r: Edit)
    requires PrintBoxInGrid(s)
    ensures !pos.IsValid() ==> r == Edit(s, Some(InvalidPosition))
    ensures pos.IsValid() ==> r.thrown == None
    ensures pos.IsValid() && NonEmptyAt(s.cells, pos).None? ==> r.sheet == s
    ensures pos.IsValid() && NonEmptyAt(s.cells, pos).Some? ==>
              && r.sheet.cells == s.cells[pos := Clear(s.cells[pos])]
              && r.sheet.sheetSize == s.sheetSize
              && TightBox(r.sheet.cells, s.printSize, r.sheet.printSize)
              && (r.sheet.printSize.rows <= s.printSize.rows || r.sheet.printSize.rows == 0)
              && (r.sheet.printSize.cols <= s.printSize.cols || r.sheet.printSize.cols == 0)
    ensures Valid(s) ==> Valid(r.sheet)
  {
    var got := GetCell(s, pos);
    match got
    case Err(e) =>
      return Edit(s, Some(e));
    case Ok(None) =>
      return Edit(s, None);
    case Ok(Some(c)) =>
      var cleared := s.(cells := s.cells[pos := Clear(c)]);
      var size := UpdatePrintableArea(cleared);
      return Edit(cleared.(printSize := size), None);
  }
}
