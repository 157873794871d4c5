# sortable_table: the sort and search state engine

A Dafny model of the state engine inside the `sortable_table` class of the
ionmvc sortable-table package (`libraries/library.sortable_table.php`),
with proofs of what that engine does. The table keeps all of its sort and
search state in the URL: a sort token such as `2-1--3-2` (column 2
ascending, then column 3 descending) and a base64 search term. On each
render the engine does four things:

- it decodes the token;
- it works out each sortable column's current direction and the token for
  the column's header link;
- it orders the data source;
- it filters the data source by the search term.

The data source is either a query builder or an in-memory result array,
never both.

The model is split by concern:

- `wrappers.dfy` (module `Wrappers`): Option and Result.
- `errors.dfy` (module `Errors`): one error constructor per exception message the engine raises.
- `php_strings.dfy` (module `PhpStrings`): the PHP primitives the engine uses (see below).
- `assoc.dfy` (module `Assoc`): the insertion-ordered PHP array. `m[k] = v` overwrites a key in place or appends a new key, `unset` removes it, and `array_values` and renumbering from 0 are defined here as well.
- `sort_codec.dfy` (module `SortCodec`): `format()` and the decode loop of `do_sort()`, with the round trip.
- `columns.dfy` (module `Columns`): the stored column, the row, and the `sortable`/`searchable` tests.
- `sort_resolver.dfy` (module `SortResolver`): effective and next directions, header-link states, `$this->sort` entries, the `order_by` calls.
- `usort.dfy` (module `Usort`): `usort`, modelled as a stable insertion sort followed by renumbering.
- `comparator.dfy` (module `Comparator`): `compare()`.
- `search.dfy` (module `Search`): search-field collection and the row filter.
- `query.dfy` (module `QueryBuilder`): the query builder as a log of the calls issued to it.
- `table.dfy` (module `Table`): the object itself (see below).
- `cells.dfy` (module `Cells`): the cell-type switch and the `{key}` URI placeholders of `build()`.

The PHP primitives in `PhpStrings` are:

- integer-to-string conversion;
- array-key normalisation;
- PHP 8 loose comparison of numeric strings;
- `explode` and `implode`;
- `explode` with limit 2;
- `strpos`, `substr` and `str_replace`.

What `Table` holds:

- the instance counter with the URI-id suffix rule of the constructor;
- `config()`, `column()` and `columns()`;
- the query/results mutual exclusion;
- `do_sort()`, `do_search()` and the sort-then-search order of `build()`.

The model follows the code in these places, where a reader of the table's
documentation might expect otherwise:

- **Decoding does not check `sortable`.** It keeps any existing column
  index (library.sortable_table.php:185). The code text read from the URL
  is stored as found. The round trip therefore returns the map with its
  codes as the texts "1"/"2" (`SortCodec.AsText`).
- **`usort` never reorders rows.** It calls `compare` with its default
  index 0. Columns are numbered from 1, so every pair compares equal. Row
  mode renumbers the rows and keeps their order
  (`Comparator.RowSortKeepsOrder`).
- **The column at index `count($this->sort)` never breaks a tie.** The
  comparator's recursion stops at index `count($this->sort) - 1`.
  `$this->sort` holds one entry per sortable column, so that column is the
  last sort entry only when every column is sortable.
- **`filtered` ignores the term.** It is set whenever at least one search
  field exists, including for an empty term. The empty term matches every
  row.
- **Antisymmetry is conditional.** It holds only when `strnatcasecmp` and
  the `compare_function`s are antisymmetric (`Comparator.CompareAntisymmetric`).

Outside code is not modelled; it enters as parameters:

- `strtotime`, `strnatcasecmp` (`Comparator.Env`);
- `compare_function`s and cell callbacks (function-valued column options);
- `uri::base64_decode`;
- `date()` and `func::fill` (`Cells.CellEnv`);
- the row count of a cloned query (`QueryBuilder.Query.countRows`);
- the request's URI segments (a map from URI id to value);
- `config::get` (the configuration handed to `Table.SortableTable.Create`).

## Model

| member | source | states |
|---|---|---|
| `SortCodec.Format` | libraries/library.sortable_table.php:144-150 | `format()`: each entry written as key, `type_sep`, code, the pieces joined by `sort_sep`. |
| `SortCodec.Decode` | libraries/library.sortable_table.php:181-189 | The decoder. An absent segment gives the empty map. An empty `sort_sep`, or an empty `type_sep` once a piece survives `array_filter`, fails as `explode` does. Otherwise the surviving pieces are decoded in order. |
| `SortCodec.KeepPieces` | libraries/library.sortable_table.php:183 | `array_filter`: drops the pieces "" and "0" and keeps the rest in order. |
| `SortCodec.DecodePieces` | libraries/library.sortable_table.php:183-188 | Each accepted piece writes its column's code into the map with PHP's overwrite-or-append. |
| `SortCodec.DecodePiece` | libraries/library.sortable_table.php:184-186 | One piece is split at the first `type_sep`. It is kept when the left part normalises to an existing column key and the right part is loosely 1 or 2. |
| `SortCodec.DecodeSort` | libraries/library.sortable_table.php:181-189 | The decode loop computes the decoder's result piece by piece. It fails only on an empty `sort_sep` or `type_sep`; garbage never raises. |
| `SortCodec.DecodePieceKept` | libraries/library.sortable_table.php:184-186 | A kept piece names an existing column 1..n with a code loosely equal to 1 or 2. The piece is exactly `<col><type_sep><code>`, and the code is stored as the text found. |
| `SortCodec.DecodePieceAccepts` | libraries/library.sortable_table.php:184-186 | Conversely, for a `type_sep` that does not start with a digit, every `<col><type_sep><code>` piece with an existing column and an accepted code is kept. |
| `SortCodec.FirstTypeSepOnly` | libraries/library.sortable_table.php:184 | The split is at the first `type_sep` only, so `1-1-2` is dropped rather than read as column 1. |
| `SortCodec.DecodedState` | libraries/library.sortable_table.php:183-187 | The decoded map has distinct keys, only existing columns and only accepted codes. It holds a column exactly when some piece was kept for it. |
| `SortCodec.DecodedLastWins` | libraries/library.sortable_table.php:186 | A later piece for the same column overwrites the value of an earlier one. |
| `SortCodec.DecodedOrder` | libraries/library.sortable_table.php:183-188 | A column named by several kept pieces stands where its first kept piece put it. The decoded columns are the kept pieces' columns in piece order, each at its first occurrence, and no other column appears. That order sets the `order_by` priority and the order header links keep. |
| `SortCodec.RoundTrip` | libraries/library.sortable_table.php:144-150 | Take an ordered map of distinct existing columns with codes 1/2, and separators that contain no digit and where `sort_sep` does not occur in `type_sep`. Decoding `format(m)` gives `m` back in the same order. |
| `SortCodec.DefaultSeparatorsOk` | config/config.php:10-11 | The default separators `--` and `-` meet the round trip's condition. |
| `SortCodec.DecodeFormatted` | libraries/library.sortable_table.php:144-150 | Decoding the pieces `format` writes, one by one, rebuilds the map. Each written piece decodes to its own entry, appended in order. |
| `SortCodec.PieceNoEarly` | libraries/library.sortable_table.php:149 | No occurrence of `sort_sep` starts inside a written piece. |
| `SortCodec.PieceDecodes` | libraries/library.sortable_table.php:144-150 | Each piece `format` writes for a well-formed map decodes to that entry, with its code as text. |
| `SortResolver.EffectiveCode` | libraries/library.sortable_table.php:195-198 | `$type`: the decoded code of the column, else its configured `sort`. |
| `SortResolver.NextCode` | libraries/library.sortable_table.php:199 | The code a header link asks for next, by loose comparison with asc and desc. |
| `SortResolver.LinkState` | libraries/library.sortable_table.php:194-202 | The map a header link carries: the decoded map with the clicked column set to its next code, or unset when that is none. |
| `SortResolver.SortEntries` | libraries/library.sortable_table.php:190-204 | `$this->sort`: for each sortable column, keyed by its index, the link token and the effective code. |
| `SortResolver.OrderOps` | libraries/library.sortable_table.php:208-212 | The `order_by` calls of query mode: one per decoded entry whose code is not identical to sort_none, in decoded order. |
| `SortResolver.EffectiveCodeSource` | libraries/library.sortable_table.php:195-198 | The effective direction is the decoded code when the column was decoded, and otherwise the configured `sort` (sort_none by default). |
| `SortResolver.NextCodeCycles` | libraries/library.sortable_table.php:199 | Next direction: asc becomes desc, desc becomes none, anything else becomes asc. Three clicks return to the start. The next code is written as 1/2 exactly when it is not none. |
| `SortResolver.LinkStateGet` | libraries/library.sortable_table.php:194-202 | In a header link only the clicked column differs. It holds the next direction, or is absent when that is none. Every other column reads as decoded, so no defaults are added. |
| `SortResolver.LinkStateKeepsOthers` | libraries/library.sortable_table.php:194-202 | Removing the clicked column from the link gives the decoded map with that column removed. A decoded column keeps its position; a new one is appended. |
| `SortResolver.LinkWellFormed` | libraries/library.sortable_table.php:194-202 | The link state of a well-formed map is well formed. |
| `SortResolver.LinkTokenRoundTrip` | libraries/library.sortable_table.php:203 | The token stored in a column's sort entry decodes to that column's link state. |
| `SortResolver.ClickCycle` | libraries/library.sortable_table.php:190-203 | Following a sort_none column's link three times gives maps with that column appended as asc, then turned to desc in place, then removed. |
| `SortResolver.FirstClick` | libraries/library.sortable_table.php:195-203 | The first link of an unsorted column that is not in the map decodes to the map with the column appended as asc. |
| `SortResolver.SecondClick` | libraries/library.sortable_table.php:195-203 | A column read back as asc at the end of the map links to the same map with desc in its place. |
| `SortResolver.ThirdClick` | libraries/library.sortable_table.php:199-203 | A column read back as desc at the end of the map links to the map without it. |
| `SortResolver.SortEntriesExtend` | libraries/library.sortable_table.php:190-204 | Each column adds an entry under its own index exactly when it is sortable. |
| `SortResolver.OrderOpsPerEntry` | libraries/library.sortable_table.php:208-212 | Query mode issues one `order_by` per decoded entry, in decoded order, on that entry's column. The direction is `asc` exactly for asc. Defaults of other columns add nothing. |
| `SortResolver.OrderOpsShape` | libraries/library.sortable_table.php:208-212 | A decoded code is never the integer sort_none, so every decoded entry yields exactly one call, in order. |
| `SortResolver.OrderDirectionMatchesLink` | libraries/library.sortable_table.php:199-210 | The query is ordered the way the header shows: `order_by` gets `asc` exactly for an ascending code. For a decoded code, that is exactly when the column's header link turns it to desc, and `desc` is exactly when the link drops it. |
| `Comparator.Base` | libraries/library.sortable_table.php:156-173 | The unsigned comparison on one column: the column's `compare_function` if set; else timestamp order when both values parse; else `strnatcasecmp`. |
| `Comparator.TypeSign` | libraries/library.sortable_table.php:159 | -1 when the column's sort entry is loosely desc, +1 otherwise. |
| `Comparator.KeyResult` | libraries/library.sortable_table.php:159-173 | The signed comparison on column i: the sign times the unsigned comparison. |
| `Comparator.Compare` | libraries/library.sortable_table.php:152-178 | `compare($a, $b, $i)`: 0 with no sort entries or no column i. Otherwise column i's signed result, falling through to column i+1 on a tie while i is below `count($this->sort) - 1`. |
| `Comparator.CompareFromUsort` | libraries/library.sortable_table.php:152-155 | `compare` with its default index 0 finds no column 0 and returns 0 for every pair. |
| `Comparator.RowSortKeepsOrder` | libraries/library.sortable_table.php:216 | So row mode's `usort` keeps the rows in their order, renumbered from 0. |
| `Comparator.CompareTieBreak` | libraries/library.sortable_table.php:174-176 | When columns i..k-1 all tie, compare at i is compare at k, for k up to index `count($this->sort) - 1`. A column whose result is not 0 decides, and later columns are never consulted. |
| `Comparator.LastColumnNeverBreaksTies` | libraries/library.sortable_table.php:174-177 | The recursion stops at `count($this->sort) - 1`. With all columns tying up to there, the result is 0 whatever later columns say. |
| `Comparator.BaseAntisymmetric` | libraries/library.sortable_table.php:160-172 | The unsigned per-column comparison (custom function, timestamps, or natural compare) changes sign when the rows are swapped. |
| `Comparator.CompareAntisymmetric` | libraries/library.sortable_table.php:152-178 | With antisymmetric `strnatcasecmp` and compare functions, swapping the rows flips the sign of `compare`. |
| `Comparator.CompareReflexive` | libraries/library.sortable_table.php:152-178 | With reflexive parts, a row compares equal to itself. |
| `Usort.StableSort` | libraries/library.sortable_table.php:216 | A stable insertion sort by the comparator. |
| `Usort.UsortEntries` | libraries/library.sortable_table.php:216 | `usort`: the values drop their keys, are sorted, and are renumbered from 0. |
| `Usort.SortPermutes` | libraries/library.sortable_table.php:216 | Sorting rearranges the rows and nothing else (same multiset). |
| `Usort.InsertPermutes` | libraries/library.sortable_table.php:216 | One insertion adds exactly the inserted row. |
| `Usort.InsertSorted` | libraries/library.sortable_table.php:216 | Inserting into an ordered list keeps it ordered, for an antisymmetric comparator. |
| `Usort.SortSorted` | libraries/library.sortable_table.php:216 | With an antisymmetric comparator each row is ordered no later than the next. |
| `Usort.SortAllEqual` | libraries/library.sortable_table.php:216 | A comparator that finds all rows equal leaves the order unchanged. |
| `Usort.InsertAtEnd` | libraries/library.sortable_table.php:216 | A row equal to all others is inserted at the end. |
| `Search.ArrayMerge` | libraries/library.sortable_table.php:231 | `array_merge` of the integer-keyed field array with a list: all values in order, renumbered from 0. |
| `Search.AddFields` | libraries/library.sortable_table.php:226-234 | One step of the field loop: a non-searchable column adds nothing, `search-columns` are merged, else the `search-column` or `column` is written under the column's index. |
| `Search.SearchFields` | libraries/library.sortable_table.php:225-235 | The field loop over the column table, columns numbered from 1. |
| `Search.RowMatches` | libraries/library.sortable_table.php:256-262 | A row matches when `strpos` finds the term in the row's value for some field. |
| `Search.FilterRows` | libraries/library.sortable_table.php:255-266 | The rows left after every non-matching row is unset, keys untouched. |
| `Search.FilterKeepsMatches` | libraries/library.sortable_table.php:255-266 | A row is kept, with its key, exactly when the term is a substring of at least one search field. Case matters. |
| `Search.FilterAppend` | libraries/library.sortable_table.php:255-266 | Filtering keeps the relative order of rows; it distributes over concatenation. |
| `Search.EmptyTermKeepsAll` | libraries/library.sortable_table.php:258 | The empty term is found in every field, so every row is kept. |
| `Search.PlainSearchFields` | libraries/library.sortable_table.php:226-235 | Without `search-columns`, the fields are keyed by column index: one per searchable column, its `search-column` or else its `column`. |
| `Search.PlainStep` | libraries/library.sortable_table.php:226-235 | One more plain column adds its field under its own index when it is searchable, and nothing otherwise. |
| `Search.ArrayMergeShape` | libraries/library.sortable_table.php:230-233 | After `array_merge` with a `search-columns` list, the fields are keyed 0, 1, 2, ... in order: the old values, then the list. |
| `Search.MergeThenPlain` | libraries/library.sortable_table.php:230-234 | After such a merge, a later plain searchable column i overwrites the field at position i when i is below the merged length, and is appended otherwise. |
| `Search.SearchFieldsFrom` | libraries/library.sortable_table.php:225-235 | For any column table, `search-columns` or not, the fields never repeat a key. Every field searched is one some searchable column gives: one of its `search-columns`, else its `search-column` or `column`. |
| `Search.SearchColumnsOverwritten` | libraries/library.sortable_table.php:230-234 | `array_merge` renumbers: after `search-columns` x, y, z, the next plain column is written under index 2 and overwrites z. |
| `QueryBuilder.Query.OrderBy` | libraries/library.sortable_table.php:210 | `order_by` appends one call to the log. |
| `QueryBuilder.Query.AndWhereGroupLike` | libraries/library.sortable_table.php:248-252 | `and_where_group` of `or_where_like`s appends one group with the fields and term. |
| `QueryBuilder.Query.CountOnClone` | libraries/library.sortable_table.php:206-207 | Counting on a clone reports the count of the query as built so far. |
| `Table.ResolveSettings` | libraries/library.sortable_table.php:48-60 | The constructor's settings for the instance numbered `count`: the profile merged with the config. Fails for an unknown profile or a missing URI id; otherwise both ids get the suffix. |
| `Table.ResolveSettingsSpec` | libraries/library.sortable_table.php:48-60 | Stated in terms of the profile and the config. Construction fails with the profile's name exactly when the profile is unknown. It fails on the URI ids exactly when a required key is set in neither; the error lists exactly those keys, once each, `sort_uri_id` first. On success every key set in either is set, a config key wins over the profile's, and both ids end in the instance suffix. |
| `Table.MergeKeys` | libraries/library.sortable_table.php:54 | `array_merge` of profile and config sets exactly the keys either one sets. |
| `Table.MissingKeysListed` | libraries/library.sortable_table.php:55-57 | `array_diff` reports no key exactly when both required keys are set. It lists exactly the unset required keys, in order. |
| `Table.InstanceSettings` | libraries/library.sortable_table.php:45-60 | The n-th instance fails exactly when the first would, with the same error. Otherwise its settings are the first instance's with n appended to both URI ids. |
| `Table.ResolvedIdsDistinct` | libraries/library.sortable_table.php:45-60 | Two instances made from the same profile and config never share a sort URI id or a search URI id. |
| `Table.UriIdsDistinct` | libraries/library.sortable_table.php:59-60 | Two instances with different counts never share a URI id built on the same base id. |
| `Table.UriIdCollision` | libraries/library.sortable_table.php:59-60 | The suffix does not keep different base ids apart: a first instance with `sort_uri_id` "sort2" and a second with "sort" both use "sort2". |
| `Table.DefaultInstances` | config/config.php:5-12 | With the default profile the first table uses `sort`/`search` and the second `sort2`/`search2`. |
| `Table.DefaultColumnUnsorted` | libraries/library.sortable_table.php:195-203 | A column added without a `sort` gets sort_none (lines 69-71) and so starts unsorted. Until the token names it, its effective direction is none, and its header link appends it to the map as ascending. |
| `Table.Registry.constructor` | libraries/library.sortable_table.php:25-26 | No instance has been counted yet. |
| `Table.Registry.Register` | libraries/library.sortable_table.php:44-47 | The configuration is loaded at the first construction only. Every construction increments the counter. |
| `Table.SortableTable.constructor` | libraries/library.sortable_table.php:28-41 | A new table has no columns, no data source, no sort entries, no term and is not filtered. |
| `Table.SortableTable.Create` | libraries/library.sortable_table.php:43-61 | The counter is incremented even when construction then fails. The result fails exactly when the settings do not resolve; otherwise it is a new table with those settings. |
| `Table.SortableTable.Configure` | libraries/library.sortable_table.php:63-65 | `config()` merges the given settings over the current ones. |
| `Table.SortableTable.AddColumn` | libraries/library.sortable_table.php:67-75 | `column()` appends the column and returns its index, counting from 1. |
| `Table.SortableTable.AddColumns` | libraries/library.sortable_table.php:77-87 | `columns()` appends one column per entry, in order. |
| `Table.SortableTable.SetQuery` | libraries/library.sortable_table.php:115-121 | `query()` fails when a result array is set and leaves the query alone. Otherwise it sets the query. Query and results are never both set. |
| `Table.SortableTable.SetResults` | libraries/library.sortable_table.php:123-129 | `results()` fails when a query is set. Otherwise it sets the rows. |
| `Table.SortableTable.WriteSortEntries` | libraries/library.sortable_table.php:190-204 | The column loop writes the sort entry of every sortable column, and nothing else. |
| `Table.CollectSearchFields` | libraries/library.sortable_table.php:225-235 | The field loop computes the search fields of the column table. |
| `Table.FindAlias` | libraries/library.sortable_table.php:241-246 | The alias guard reports an alias exactly when some search field is an alias of the query. |
| `Table.RowHit` | libraries/library.sortable_table.php:256-262 | The inner loop finds a hit exactly when the term is a substring of some field of the row. |
| `Table.FilterResults` | libraries/library.sortable_table.php:255-266 | The row loop keeps exactly the matching rows, with their keys, in order. |
| `Table.IssueOrderBy` | libraries/library.sortable_table.php:208-212 | The `order_by` loop appends exactly the decoded entries' calls to the query, in order. |
| `Table.SortableTable.DoSort` | libraries/library.sortable_table.php:180-217 | A decode error changes nothing. Otherwise the sort entries are written. With neither source set it fails. In query mode the total is the count before any ordering or search, then the `order_by` calls are issued. In row mode the total is the row count, then the rows are `usort`ed. |
| `Table.SortableTable.DoSearch` | libraries/library.sortable_table.php:219-267 | A missing segment clears the term and changes nothing else. With no search fields nothing is filtered. Otherwise `filtered` is set. Query mode fails on an alias field, or else adds one OR-group of LIKEs. Row mode keeps exactly the matching rows, in order. |
| `Table.SortableTable.Build` | libraries/library.sortable_table.php:269-273 | A decode error fails and leaves the sort entries, the total, the rows and the query log unchanged; otherwise the sort entries are those of the decoded token. When it fails: on a decode error, with no data source, and in query mode exactly when search is on and a search field is an alias. Once the token decodes, a row-mode build succeeds. With search off, the term and `filtered` are not touched; with search on, they are set as `do_search()` sets them. Sort runs before search. In row mode the total is the row count before filtering, and the rows shown are the given rows, in order, renumbered, then filtered. In query mode the count precedes the `order_by` calls, which precede the search group. |
| `Cells.FormatCell` | libraries/library.sortable_table.php:456-501 | The cell switch of `build()`: the text a cell shows for its data, or the exception it raises. |
| `Cells.FormatCellFails` | libraries/library.sortable_table.php:456-501 | The cell switch fails exactly for: a template column without a template, a max-length column without a length, boolean data other than 0/1, a function column without a callable, or an unknown type. Each failure carries its own message. |
| `Cells.MaxLengthCell` | libraries/library.sortable_table.php:482-487 | A max-length cell is a prefix of the data plus the 7-byte suffix. For length ≥ 3 the prefix has at most length-3 bytes. Below 3 the negative `substr` count drops bytes from the end. |
| `Cells.BooleanCell` | libraries/library.sortable_table.php:488-493 | A boolean cell shows the false text (default N) for 0 and the true text (default Y) for 1. |
| `Cells.AllowedEmptyCell` | libraries/library.sortable_table.php:458-462 | An allowed-empty cell is never empty. Empty data shows as N/A, other data is shown unchanged, and formatting the shown text again gives the same cell. |
| `Cells.Substituted` | libraries/library.sortable_table.php:527-529 | The action URI after `str_replace("{key}", value, ...)` for each row entry, in the row's order. |
| `Cells.SubstitutePlaceholders` | libraries/library.sortable_table.php:527-529 | The placeholder loop replaces `{key}` by the row's value for each row entry, in order. |
| `Cells.SubstituteNoBrace` | libraries/library.sortable_table.php:527-529 | A URI without a brace is left unchanged. |
| `Cells.SubstituteOne` | libraries/library.sortable_table.php:528 | A single `{key}` placeholder is replaced by the key's value. |
| `Assoc.PutGet` | libraries/library.sortable_table.php:186 | After `m[k] = v`, `m[k]` is v and every other key reads as before. |
| `Assoc.PutExisting` | libraries/library.sortable_table.php:186 | Overwriting an existing key keeps every entry where it stands. |
| `Assoc.PutNew` | libraries/library.sortable_table.php:186 | Writing a new key appends it. |
| `Assoc.PutKeys` | libraries/library.sortable_table.php:186 | Writing adds at most the written key and keeps keys distinct. |
| `Assoc.RemoveGet` | libraries/library.sortable_table.php:201 | After `unset(m[k])`, k is absent and every other key reads as before. |
| `Assoc.RemoveKeys` | libraries/library.sortable_table.php:201 | `unset` keeps the other keys, and keeps them distinct. |
| `Assoc.RemoveAfterPut` | libraries/library.sortable_table.php:199-201 | Writing a key and then unsetting it is the same as unsetting it. |
| `PhpStrings.JoinExplode` | libraries/library.sortable_table.php:183 | Imploding the pieces of an `explode` restores the string. |
| `PhpStrings.ExplodeJoin` | libraries/library.sortable_table.php:149 | Exploding the implode of separator-free pieces gives the pieces back. |
| `PhpStrings.SplitFirstAt` | libraries/library.sortable_table.php:184 | `explode` with limit 2 splits at the first occurrence. |
| `PhpStrings.SplitFirstJoins` | libraries/library.sortable_table.php:184 | When the separator is found, the piece is the two halves around it. |
| `PhpStrings.CanonicalIntIsDecimalText` | libraries/library.sortable_table.php:185 | A string is the integer key i exactly when it is i's decimal text. |
| `PhpStrings.ReplaceAbsent` | libraries/library.sortable_table.php:528 | `str_replace` with a needle that does not occur changes nothing. |

## Left out

- HTML assembly, forms, redirects, asset loading and `uri::create` (library.sortable_table.php:274-565) are markup and request plumbing. Email cells are kept only as the string they build.
- Pagination (`paginate()`, library::pagination) is a foreign library.
- The sha1 table id, `insert()`, `action()`/`actions()` and `result_action()` feed only markup. The placeholder loop of action URIs is modelled; the closure form of an action URI is not.
- The behaviour of `strtotime`, `strnatcasecmp`, `uri::base64_decode`, `date()`, `func::fill`, compare functions and cell callbacks is not modelled; these are parameters. Cell callbacks are modelled as receiving the cell data only, not `$config` and `$row` by reference.
- The query builder's execution, counting and LIKE semantics are not modelled, nor the query's execution after search; the builder is a log of the calls the engine issues.
- `config::get` is not modelled. The loaded configuration is a parameter, and `config/config.php` supplies the default profile (`Table.DefaultConfig`).
- `package.sortable_table.php` holds only package metadata and is not part of this model.
- Settings are limited to the keys the engine reads (`sort_uri_id`, `search_uri_id`, `sort_sep`, `type_sep`, `search`). A key set to null counts as missing, whereas `array_keys` would list it.
- Numeric strings are PHP 8 integer forms: whitespace, optional sign, digits. Float and exponent forms such as "1.0" are not numeric here. PHP's own `in_array` would also accept "1.0" as asc.
- Integer keys and timestamps are unbounded; PHP_INT_MAX overflow is not modelled.
- An uninitialised `$this->sort` (no sortable column) is modelled as an empty map. `count(null)` is 0 in PHP 7; PHP 8 raises a TypeError there.
- A missing row field reads as the empty string, as PHP's null does in `strpos` and string comparisons; the deprecation notices are not modelled.
- `search-columns` is taken to be a list. String keys in it would survive `array_merge` unrenumbered.
- `column()` is modelled without `$config` overriding the `column` and `header` keys it is merged over.
- `Usort.SortSorted`: ordering is stated only between neighbours, and only for an antisymmetric comparator. Whether PHP's `usort` is stable is not modelled. The insertion sort used is stable, and PHP 8's sort is stable too.
- `Comparator.CompareAntisymmetric`: holds only under the stated assumptions on the outside comparators, which the source does not guarantee.
- URI ids are proved distinct only for instances sharing a base id (`Table.UriIdsDistinct`, `Table.ResolvedIdsDistinct`). Instances whose configs give different bases can collide (`Table.UriIdCollision`), and the model does not prevent it, as the source does not.
- A `function` column without a callable fails as PHP 8's TypeError (`Errors.CallbackMissing`). PHP 7's warning and null cell are not modelled.
- Non-array arguments to `columns()`/`actions()` cannot occur in the typed model, so those exceptions are not modelled.
