/**
 * Cell values of a worksheet, reduced to what the auto-fill transform can
 * observe: whether a cell is empty, which string it holds, and its Python
 * truthiness.
 */
module Cells {

  /** A cell's value as openpyxl reports it: `None`, a string, or any other
      scalar (number, boolean, date), abstracted to an integer whose zero
      stands for the falsy scalars `0`, `0.0` and `False`. */
  datatype Cell = Blank | Str(s: string) | Scalar(n: int)

  /** Python truthiness of a cell value: `None`, `""` and zero are falsy. */
  predicate Truthy(c: Cell)
  {
    match c
    case Blank => false
    case Str(s) => s != ""
    case Scalar(n) => n != 0
  }

  /** The value at 0-based column `j` of a row. openpyxl hands out an empty
      cell for every position that was never written, so a position past the
      stored cells reads as `None`. */
  function CellAt(row: seq<Cell>, j: nat): Cell
  {
    if j < |row| then row[j] else Blank
  }

  /** A row as openpyxl's `iter_rows` yields it once the sheet is `width`
      columns wide: the stored cells followed by empty ones. */
  function Pad(row: seq<Cell>, width: nat): (p: seq<Cell>)
    ensures |p| == if |row| < width then width else |row|
    ensures forall j :: 0 <= j < |p| ==> p[j] == CellAt(row, j)
  {
    if |row| < width then row + seq(width - |row|, _ => Blank) else row
  }
}
