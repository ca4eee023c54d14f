/** The cell record as the sheet sees it. The cell's own implementation is
    not part of this model: only what the sheet reads and writes is kept,
    and the compute engine is reduced to the function that lists the
    positions a text references. */
module Cells {
  import opened Common

  /** A computed value; the sheet only ever stores or drops it. */
  datatype Value = Str(s: string) | Number(n: real) | EvalError

  /** The compute engine's answer to "which positions does this text read?". */
  type RefsOf = string -> seq<Position>

  /** text: the raw input; refs: the positions the text references, in the
      engine's order; cache: the memoised value, None when it must be
      recomputed; dependents: positions of the cells that read this one. */
  datatype Cell = Cell(text: string, refs: seq<Position>, cache: Option<Value>, dependents: set<Position>)

  /** The sheet's storage: at most one cell per position. */
  type CellMap = map<Position, Cell>

  /** A newly constructed cell. */
  const FreshCell: Cell := Cell("", [], None, {})

  /** No text and no references. */
  predicate IsEmpty(c: Cell) {
    c.text == "" && |c.refs| == 0
  }

  /** The cell's Set: new text, the references the engine finds in it, no
      cached value; the dependents are left as they were. */
  function SetText(c: Cell, text: string, refsOf: RefsOf): Cell {
    c.(text := text, refs := refsOf(text), cache := None)
  }

  /** The cell's Clear: text, references and cache are dropped, the
      dependents stay. */
  function Clear(c: Cell): Cell {
    c.(text := "", refs := [], cache := None)
  }

  function ClearCache(c: Cell): Cell {
    c.(cache := None)
  }

  function AddDependingCell(c: Cell, p: Position): Cell {
    c.(dependents := c.dependents + {p})
  }

  /** The cell stored at p, unless there is none or it is empty: the sheet
      treats an empty cell exactly like a missing one. */
  function NonEmptyAt(cells: CellMap, p: Position): Option<Cell> {
    if p in cells && !IsEmpty(cells[p]) then Some(cells[p]) else None
  }
}
