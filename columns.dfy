/**
  The column table: each `column()` call appends a column under the next
  index (1, 2, 3, ...) with its configuration, and rows are read field by
  field, an absent field reading as the empty string.
 */
module Columns {
  import opened Wrappers
  import opened Cells

  /** A result row: field name to value. */
  type Row = map<string, string>

  /** `$row[$field]`, with an unset field read as "" (PHP's null). */
  function Value(row: Row, field: string): string
  {
    if field in row then row[field] else ""
  }

  /** The options of a column's configuration that the engine reads. */
  datatype ColumnOptions = ColumnOptions(
    sortable: Option<bool>,
    searchable: Option<bool>,
    searchColumn: Option<string>,
    searchColumns: Option<seq<string>>,
    compareFn: Option<(string, string) -> int>,
    name: Option<string>,
    cell: CellSpec)

  /** A stored column: its field, its header, its default direction and its options. */
  datatype Column = Column(column: string, header: string, sort: int, opts: ColumnOptions)

  /** `isset($config['sortable']) && $config['sortable'] == false` does not hold. */
  predicate Sortable(c: Column)
  {
    c.opts.sortable != Some(false)
  }

  /** Column i of the table, counting from 1. */
  predicate SortableAt(columns: seq<Column>, i: int)
  {
    1 <= i <= |columns| && Sortable(columns[i - 1])
  }

  /** `isset($config['searchable']) && $config['searchable'] == false` does not hold. */
  predicate Searchable(c: Column)
  {
    c.opts.searchable != Some(false)
  }

  /** The text a row shows in a column's cell before formatting. */
  function CellData(c: Column, row: Row): string
  {
    Value(row, c.opts.name.GetOr(c.column))
  }
}
