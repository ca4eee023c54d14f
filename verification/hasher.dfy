/** The hash the sheet's map uses for positions: the column shifted left
    past ROW_NUM_AS_POW_TWO bits of row, plus the row. */
module Hasher {
  import opened Common

  const ROW_NUM_AS_POW_TWO: nat := 14

  function Pow2(n: nat): (r: nat)
    ensures r > 0
  {
    if n == 0 then 1 else 2 * Pow2(n - 1)
  }

  /** The number of rows one column's block of keys spans. */
  const ROW_SPAN: nat := Pow2(ROW_NUM_AS_POW_TWO)

  /** One column's block of keys spans exactly the rows of the grid. */
  lemma RowSpanIsMaxRows()
    ensures ROW_SPAN == MAX_ROWS
  {
  }

  /** (col << ROW_NUM_AS_POW_TWO) + row, for non-negative coordinates. While
      the row fits below ROW_SPAN, the key decodes back into the position:
      the quotient by ROW_SPAN is the column and the remainder the row. */
  function Hash(p: Position): (h: nat)
    requires 0 <= p.row && 0 <= p.col
    ensures p.row < ROW_SPAN ==> h / ROW_SPAN == p.col && h % ROW_SPAN == p.row
  {
    p.col * ROW_SPAN + p.row
  }

  /** Positions whose rows fit below ROW_SPAN get distinct keys. */
  lemma HashInjective(p: Position, q: Position)
    requires 0 <= p.row < ROW_SPAN && 0 <= p.col
    requires 0 <= q.row < ROW_SPAN && 0 <= q.col
    requires Hash(p) == Hash(q)
    ensures p == q
  {
  }

  /** Every valid position's row fits, so valid positions never collide. */
  lemma ValidPositionsHashApart(p: Position, q: Position)
    requires p.IsValid() && q.IsValid() && p != q
    ensures Hash(p) != Hash(q)
  {
    RowSpanIsMaxRows();
    if Hash(p) == Hash(q) {
      HashInjective(p, q);
    }
  }

  /** Past ROW_SPAN rows, keys collide: row ROW_SPAN of column 0 hashes like
      row 0 of column 1. */
  lemma RowsPastSpanCollide()
    ensures Hash(Position(ROW_SPAN, 0)) == Hash(Position(0, 1))
  {
  }
}
