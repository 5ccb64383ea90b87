/**
 * A spreadsheet cell value as openpyxl hands it to the import scripts: None, or a
 * value whose `str()` is `shown`. `falsy` records Python truthiness, which the scripts
 * test with `if value`: it holds for '', 0, 0.0 and False.
 */
module Cells {
  datatype Cell = Empty | Value(shown: string, falsy: bool)

  /** A string cell. */
  function TextCell(s: string): Cell
  {
    Value(s, s == [])
  }
}
