/** What the edit-commit protocol guarantees, stated over SetCellSpec, to
    which the SetCell method is proved equal. */
module EditFacts {
  import opened Common
  import opened Cells
  import opened Graph
  import opened Traversal
  import opened Spreadsheet

  /** The edit runs to the end: valid position, new text, every reference
      present, no cycle. */
  ghost predicate Commits(s: Sheet, pos: Position, text: string, refsOf: RefsOf) {
    && pos.IsValid()
    && !SameText(s, pos, text)
    && ScanRefs(Written(s, pos, text, refsOf), EditedCell(s, pos, text, refsOf).refs) == AllPresent
    && !CycleThrough(Written(s, pos, text, refsOf), pos)
  }

  /** An invalid position throws InvalidPosition before anything changes,
      and only an invalid position does. */
  lemma InvalidPositionUntouched(s: Sheet, pos: Position, text: string, refsOf: RefsOf)
    ensures !pos.IsValid() ==> SetCellSpec(s, pos, text, refsOf) == Edit(s, Some(InvalidPosition))
    ensures SetCellSpec(s, pos, text, refsOf).thrown == Some(InvalidPosition) ==> !pos.IsValid()
  {
  }

  /** Every stored cell lies inside the bounding box, so writing the text a
      non-empty cell already holds changes nothing at all. */
  lemma SameTextIsNoOp(s: Sheet, pos: Position, text: string, refsOf: RefsOf)
    requires Valid(s) && pos.IsValid() && SameText(s, pos, text)
    ensures SetCellSpec(s, pos, text, refsOf) == Edit(s, None)
  {
    assert pos in s.cells;
    assert CorrectSheetSizeToNewPos(s.sheetSize, pos) == s.sheetSize;
  }

  /** A referencing text makes its own cell non-empty, so no placeholder is
      ever made at the edited position. */
  lemma MissingRefIsElsewhere(s: Sheet, pos: Position, text: string, refsOf: RefsOf)
    requires ScanRefs(Written(s, pos, text, refsOf), EditedCell(s, pos, text, refsOf).refs).MissingRef?
    ensures ScanRefs(Written(s, pos, text, refsOf), EditedCell(s, pos, text, refsOf).refs).at != pos
  {
    var cell := EditedCell(s, pos, text, refsOf);
    assert |cell.refs| > 0;
  }

  /** SetCell keeps the sheet invariant. */
  lemma SetCellKeepsValid(s: Sheet, pos: Position, text: string, refsOf: RefsOf)
    requires Valid(s)
    ensures Valid(SetCellSpec(s, pos, text, refsOf).sheet)
  {
    if pos.IsValid() && !SameText(s, pos, text) {
      var cells := Written(s, pos, text, refsOf);
      var cell := EditedCell(s, pos, text, refsOf);
      match ScanRefs(cells, cell.refs)
      case InvalidRef =>
      case MissingRef(q) =>
      case AllPresent =>
        if !CycleThrough(cells, pos) {
          var linked := AddDependents(cells, cell.refs, pos);
          assert ClearedFrom(linked, pos).Keys == cells.Keys;
        }
    }
  }

  /** Whatever happens after the text is written, including a thrown
      CircularDependency, the edited position ends up holding the new text. */
  lemma NewTextStays(s: Sheet, pos: Position, text: string, refsOf: RefsOf)
    requires pos.IsValid() && !IsEmpty(SetText(FreshCell, text, refsOf))
    ensures var cells := SetCellSpec(s, pos, text, refsOf).sheet.cells;
            NonEmptyAt(cells, pos).Some? && cells[pos].text == text
  {
    if !SameText(s, pos, text) {
      var cells := Written(s, pos, text, refsOf);
      var cell := EditedCell(s, pos, text, refsOf);
      match ScanRefs(cells, cell.refs)
      case InvalidRef =>
      case MissingRef(q) =>
        MissingRefIsElsewhere(s, pos, text, refsOf);
      case AllPresent =>
        if !CycleThrough(cells, pos) {
          var linked := AddDependents(cells, cell.refs, pos);
          assert linked[pos].text == text && linked[pos].refs == cell.refs;
        }
    }
  }

  /** Writing the same text twice: the second write changes nothing. */
  lemma SetCellIdempotent(s: Sheet, pos: Position, text: string, refsOf: RefsOf)
    requires Valid(s) && pos.IsValid() && !IsEmpty(SetText(FreshCell, text, refsOf))
    ensures var once := SetCellSpec(s, pos, text, refsOf).sheet;
            SetCellSpec(once, pos, text, refsOf) == Edit(once, None)
  {
    var once := SetCellSpec(s, pos, text, refsOf).sheet;
    SetCellKeepsValid(s, pos, text, refsOf);
    NewTextStays(s, pos, text, refsOf);
    SameTextIsNoOp(once, pos, text, refsOf);
  }

  /** A cell that references its own position lies on a cycle: the
      one-step case of the search. */
  lemma SelfReferenceIsCycle(cells: CellMap, pos: Position)
    requires pos.IsValid() && pos in cells && pos in cells[pos].refs
    ensures CycleThrough(cells, pos)
  {
    var g := RefGraph(cells);
    assert pos in Succ(g, pos);
    ReachesSelf(g, pos);
  }

  /** CircularDependency is thrown exactly when every reference is present
      and the edited cell is reachable from its own references. The throw
      rolls nothing back: the new text stays, the bounding box has grown,
      and no other cell, no dependents set, no cache and not the printable
      box has changed. */
  lemma CycleThrowsWithoutRollback(s: Sheet, pos: Position, text: string, refsOf: RefsOf)
    ensures var e := SetCellSpec(s, pos, text, refsOf);
            e.thrown == Some(CircularDependency) <==>
              && pos.IsValid() && !SameText(s, pos, text)
              && ScanRefs(Written(s, pos, text, refsOf), EditedCell(s, pos, text, refsOf).refs) == AllPresent
              && CycleThrough(Written(s, pos, text, refsOf), pos)
    ensures var e := SetCellSpec(s, pos, text, refsOf);
            e.thrown == Some(CircularDependency) ==>
              && e.sheet.cells == s.cells[pos := EditedCell(s, pos, text, refsOf)]
              && e.sheet.cells[pos].text == text
              && (forall p :: p in s.cells && p != pos ==> e.sheet.cells[p] == s.cells[p])
              && e.sheet.printSize == s.printSize
              && e.sheet.sheetSize == CorrectSheetSizeToNewPos(s.sheetSize, pos)
  {
  }

  /** A self-referencing text whose other references are all present is
      rejected. */
  lemma SelfReferenceRejected(s: Sheet, pos: Position, text: string, refsOf: RefsOf)
    requires pos.IsValid() && !SameText(s, pos, text) && pos in refsOf(text)
    requires ScanRefs(Written(s, pos, text, refsOf), EditedCell(s, pos, text, refsOf).refs) == AllPresent
    ensures SetCellSpec(s, pos, text, refsOf).thrown == Some(CircularDependency)
  {
    SelfReferenceIsCycle(Written(s, pos, text, refsOf), pos);
  }

  /** An invalid referenced position, met before any missing one, ends the
      edit silently: the new text stays, nothing is thrown, and the
      printable box is not widened. */
  lemma InvalidRefEndsSilently(s: Sheet, pos: Position, text: string, refsOf: RefsOf)
    requires pos.IsValid() && !SameText(s, pos, text)
    requires ScanRefs(Written(s, pos, text, refsOf), EditedCell(s, pos, text, refsOf).refs) == InvalidRef
    ensures var e := SetCellSpec(s, pos, text, refsOf);
            && e.thrown == None
            && e.sheet.cells == Written(s, pos, text, refsOf)
            && e.sheet.printSize == s.printSize
            && e.sheet.sheetSize == CorrectSheetSizeToNewPos(s.sheetSize, pos)
  {
  }

  /** A referenced position with no non-empty cell, met before any invalid
      one, gets a fresh empty cell (replacing an empty one, dependents and
      all); the bounding box grows over it, the printable box becomes the
      bounding box, and the edit stops there: no cycle search, no new
      dependents, no cache dropped other than the edited cell's own. */
  lemma PlaceholderShortCircuit(s: Sheet, pos: Position, text: string, refsOf: RefsOf, q: Position)
    requires pos.IsValid() && !SameText(s, pos, text)
    requires ScanRefs(Written(s, pos, text, refsOf), EditedCell(s, pos, text, refsOf).refs) == MissingRef(q)
    ensures var e := SetCellSpec(s, pos, text, refsOf);
            && e.thrown == None
            && q != pos && q.IsValid() && NonEmptyAt(s.cells, q).None?
            && q in refsOf(text)
            && e.sheet.cells == Written(s, pos, text, refsOf)[q := FreshCell]
            && (forall p :: p in s.cells && p != pos && p != q ==> e.sheet.cells[p] == s.cells[p])
            && q.row < e.sheet.sheetSize.rows && q.col < e.sheet.sheetSize.cols
            && e.sheet.printSize == e.sheet.sheetSize
  {
    MissingRefIsElsewhere(s, pos, text, refsOf);
  }

  /** Concrete case: A1 references itself and the missing B1. The scan
      reaches B1 first, makes a placeholder there and returns, so the
      self-reference is accepted although it is a cycle. */
  lemma PlaceholderHidesSelfReference()
    ensures var a1 := Position(0, 0);
            var b1 := Position(0, 1);
            var refsOf: RefsOf := t => if t == "=A1+B1" then [a1, b1] else [];
            var e := SetCellSpec(NewSheet(), a1, "=A1+B1", refsOf);
            && CycleThrough(Written(NewSheet(), a1, "=A1+B1", refsOf), a1)
            && e.thrown == None
            && e.sheet.cells[b1] == FreshCell
            && e.sheet.printSize == Size(1, 2)
  {
    var a1 := Position(0, 0);
    var b1 := Position(0, 1);
    var refsOf: RefsOf := t => if t == "=A1+B1" then [a1, b1] else [];
    var cells := Written(NewSheet(), a1, "=A1+B1", refsOf);
    assert cells[a1].refs == [a1, b1];
    SelfReferenceIsCycle(cells, a1);
    assert ScanRefs(cells, [a1, b1]) == MissingRef(b1) by {
      assert ScanRefs(cells, [a1, b1]) == ScanRefs(cells, [b1]) by {
        assert [a1, b1][1..] == [b1];
      }
    }
  }

  /** On a successful commit the cells are the written ones, linked to
      their referenced cells, then swept. */
  lemma CommitCells(s: Sheet, pos: Position, text: string, refsOf: RefsOf)
    requires Commits(s, pos, text, refsOf)
    ensures var e := SetCellSpec(s, pos, text, refsOf);
            var linked := AddDependents(Written(s, pos, text, refsOf), refsOf(text), pos);
            && e == Edit(Sheet(e.sheet.sheetSize, e.sheet.sheetSize, ClearedFrom(linked, pos)), None)
            && (forall p :: p in refsOf(text) ==> Present(Written(s, pos, text, refsOf), p))
  {
    var cells := Written(s, pos, text, refsOf);
    var cell := EditedCell(s, pos, text, refsOf);
    assert cell.refs == refsOf(text);
    forall p | p in refsOf(text)
      ensures Present(cells, p)
    {
      var i :| 0 <= i < |cell.refs| && cell.refs[i] == p;
      assert Present(cells, cell.refs[i]);
    }
  }

  /** A successful commit registers the edited cell as a dependent of each
      referenced cell, and the printable box becomes the bounding box. */
  lemma CommitLinksDependents(s: Sheet, pos: Position, text: string, refsOf: RefsOf)
    requires Commits(s, pos, text, refsOf)
    ensures var e := SetCellSpec(s, pos, text, refsOf);
            && e.thrown == None
            && e.sheet.printSize == e.sheet.sheetSize
            && e.sheet.cells.Keys == s.cells.Keys + {pos}
            && (forall r :: r in refsOf(text) ==> r in e.sheet.cells && pos in e.sheet.cells[r].dependents)
  {
    var cells := Written(s, pos, text, refsOf);
    var linked := AddDependents(cells, refsOf(text), pos);
    CommitCells(s, pos, text, refsOf);
    ClearedFromKeepsGraph(linked, pos);
    var after := ClearedFrom(linked, pos);
    forall r | r in refsOf(text)
      ensures r in after && pos in after[r].dependents
    {
      assert Present(cells, r);
      assert pos in linked[r].dependents;
    }
  }

  /** Apart from those new entries, a successful commit leaves every other
      cell's dependents, text and references as they were: stale
      dependents are never pruned. */
  lemma CommitKeepsOtherCells(s: Sheet, pos: Position, text: string, refsOf: RefsOf)
    requires Commits(s, pos, text, refsOf)
    ensures var after := SetCellSpec(s, pos, text, refsOf).sheet.cells;
            forall p :: p in s.cells && p != pos ==>
              && p in after
              && after[p].dependents == s.cells[p].dependents + (if p in refsOf(text) then {pos} else {})
              && after[p].text == s.cells[p].text
              && after[p].refs == s.cells[p].refs
  {
    var cells := Written(s, pos, text, refsOf);
    var linked := AddDependents(cells, refsOf(text), pos);
    forall p | p in s.cells && p != pos
      ensures linked[p].dependents == s.cells[p].dependents + (if p in refsOf(text) then {pos} else {})
      ensures linked[p].text == s.cells[p].text && linked[p].refs == s.cells[p].refs
    {
      CommitCells(s, pos, text, refsOf);
      assert cells[p] == s.cells[p];
      if p in refsOf(text) {
        assert Present(cells, p);
      }
    }
    CommitCells(s, pos, text, refsOf);
    ClearedFromKeepsGraph(linked, pos);
  }

  /** A successful commit drops the cache of the edited cell and of every
      cell reachable from it through dependents; every other cell keeps its
      cached value. */
  lemma CommitInvalidatesDownstream(s: Sheet, pos: Position, text: string, refsOf: RefsOf)
    requires Commits(s, pos, text, refsOf)
    ensures var after := SetCellSpec(s, pos, text, refsOf).sheet.cells;
            && (forall p :: p in after && Reaches(DepGraph(after), pos, p) ==> after[p].cache == None)
            && (forall p :: p in s.cells && p != pos && !Reaches(DepGraph(after), pos, p) ==>
                  after[p].cache == s.cells[p].cache)
  {
    var cells := Written(s, pos, text, refsOf);
    var linked := AddDependents(cells, refsOf(text), pos);
    CommitCells(s, pos, text, refsOf);
    ClearedFromCaches(linked, pos);
    forall p | p in s.cells && p != pos
      ensures linked[p].cache == s.cells[p].cache
    {
      assert cells[p] == s.cells[p];
    }
  }

  /** No dependents entry of a non-empty cell is ever removed by an edit. */
  lemma DependentsOfNonEmptyKept(s: Sheet, pos: Position, text: string, refsOf: RefsOf, p: Position)
    requires NonEmptyAt(s.cells, p).Some?
    ensures var after := SetCellSpec(s, pos, text, refsOf).sheet.cells;
            p in after && s.cells[p].dependents <= after[p].dependents
  {
    if pos.IsValid() && !SameText(s, pos, text) {
      var cells := Written(s, pos, text, refsOf);
      var cell := EditedCell(s, pos, text, refsOf);
      assert s.cells[p].dependents <= cells[p].dependents;
      match ScanRefs(cells, cell.refs)
      case InvalidRef =>
      case MissingRef(q) =>
      case AllPresent =>
        if !CycleThrough(cells, pos) {
          var linked := AddDependents(cells, cell.refs, pos);
          assert cells[p].dependents <= linked[p].dependents;
        }
    }
  }

  /** Writing to a position that holds an empty cell replaces the record:
      the dependents the old cell had recorded are gone. */
  lemma EmptyCellReplaced(s: Sheet, pos: Position, text: string, refsOf: RefsOf)
    requires pos.IsValid() && pos in s.cells && IsEmpty(s.cells[pos])
    requires DefinedEdit(s, pos, text, refsOf)
    ensures var after := SetCellSpec(s, pos, text, refsOf).sheet.cells;
            pos in after && after[pos].dependents == {}
  {
    var cells := Written(s, pos, text, refsOf);
    var cell := EditedCell(s, pos, text, refsOf);
    match ScanRefs(cells, cell.refs)
    case InvalidRef =>
    case MissingRef(q) =>
      MissingRefIsElsewhere(s, pos, text, refsOf);
    case AllPresent =>
      if !CycleThrough(cells, pos) {
        if pos in cell.refs {
          SelfReferenceIsCycle(cells, pos);
        }
        var linked := AddDependents(cells, cell.refs, pos);
        assert linked[pos].dependents == {};
      }
  }

  /** The rejected edit of a two-cell cycle: with A1 holding "=B1" and B1
      holding "1", writing "=A1" to B1 throws CircularDependency, and
      afterwards B1 holds the new text while A1 is untouched. */
  lemma CycleRejectionExample()
    ensures var a1 := Position(0, 0);
            var b1 := Position(0, 1);
            var refsOf: RefsOf := t => if t == "=B1" then [b1] else if t == "=A1" then [a1] else [];
            var s := Sheet(Size(1, 2), Size(1, 2),
                           map[a1 := Cell("=B1", [b1], None, {}), b1 := Cell("1", [], None, {a1})]);
            var e := SetCellSpec(s, b1, "=A1", refsOf);
            && e.thrown == Some(CircularDependency)
            && e.sheet.cells[b1].text == "=A1"
            && e.sheet.cells[a1] == s.cells[a1]
            && e.sheet.cells[b1].dependents == {a1}
  {
    var a1 := Position(0, 0);
    var b1 := Position(0, 1);
    var refsOf: RefsOf := t => if t == "=B1" then [b1] else if t == "=A1" then [a1] else [];
    var s := Sheet(Size(1, 2), Size(1, 2),
                   map[a1 := Cell("=B1", [b1], None, {}), b1 := Cell("1", [], None, {a1})]);
    var cells := Written(s, b1, "=A1", refsOf);
    assert cells[b1].refs == [a1];
    assert ScanRefs(cells, [a1]) == AllPresent by {
      assert Present(cells, a1);
    }
    var g := RefGraph(cells);
    assert a1 in Succ(g, b1);
    assert b1 in Succ(g, a1);
    ReachesSelf(g, a1);
    ReachesStep(g, a1, a1, b1);
  }

  /** Writing only to (0, 0) and (3, 2) gives a printable size of 4 rows by
      3 columns. */
  lemma PrintableSizeExample()
    ensures var refsOf: RefsOf := t => [];
            var first := SetCellSpec(NewSheet(), Position(0, 0), "1", refsOf).sheet;
            var second := SetCellSpec(first, Position(3, 2), "2", refsOf).sheet;
            GetPrintableSize(second) == Size(4, 3)
  {
    var refsOf: RefsOf := t => [];
    var first := SetCellSpec(NewSheet(), Position(0, 0), "1", refsOf).sheet;
    assert !CycleThrough(Written(NewSheet(), Position(0, 0), "1", refsOf), Position(0, 0)) by {
      assert Succ(RefGraph(Written(NewSheet(), Position(0, 0), "1", refsOf)), Position(0, 0)) == {};
    }
    assert first.printSize == Size(1, 1);
    assert !CycleThrough(Written(first, Position(3, 2), "2", refsOf), Position(3, 2)) by {
      assert Succ(RefGraph(Written(first, Position(3, 2), "2", refsOf)), Position(3, 2)) == {};
    }
  }
}
