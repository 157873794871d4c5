/**
  The search half of the engine: the searchable fields `do_search()`
  collects from the column table, and the row filter of materialised mode.
 */
module Search {
  import opened Wrappers
  import opened PhpStrings
  import opened Assoc
  import opened Columns

  /** The integer-keyed PHP array `$columns` of search fields, in insertion order. */
  type FieldMap = seq<(int, string)>

  /** `array_merge($f, $vals)` on integer keys: every value, in order, renumbered from 0. */
  function ArrayMerge(f: FieldMap, vals: seq<string>): FieldMap
  {
    Reindex(Values(f) + vals)
  }

  /** One step of the field loop for column i. */
  function AddFields(f: FieldMap, i: int, c: Column): FieldMap
  {
    if !Searchable(c) then f
    else if c.opts.searchColumns.Some? then ArrayMerge(f, c.opts.searchColumns.value)
    else Put(f, i, c.opts.searchColumn.GetOr(c.column))
  }

  /** The fields collected over the column table, columns being numbered from 1. */
  function SearchFields(columns: seq<Column>): FieldMap
    decreases |columns|
  {
    if columns == [] then []
    else AddFields(SearchFields(columns[..|columns| - 1]), |columns|, columns[|columns| - 1])
  }

  /** `strpos($row[$field], $term) !== false` for some field. */
  predicate RowMatches(row: Row, fields: seq<string>, term: string)
  {
    exists k :: 0 <= k < |fields| && Contains(Value(row, fields[k]), term)
  }

  /** The rows left after every non-matching row is unset, keys untouched. */
  function FilterRows<K>(entries: seq<(K, Row)>, fields: seq<string>, term: string): seq<(K, Row)>
    decreases |entries|
  {
    if entries == [] then []
    else
      var n := |entries| - 1;
      FilterRows(entries[..n], fields, term) + (if RowMatches(entries[n].1, fields, term) then [entries[n]] else [])
  }

  // ---------------------------------------------------------------------
  // Properties

  /** A row, with its key, is kept exactly when the term occurs in at least one field. */
  lemma {:induction false} FilterKeepsMatches<K>(entries: seq<(K, Row)>, fields: seq<string>, term: string)
    ensures forall e :: e in FilterRows(entries, fields, term) <==> e in entries && RowMatches(e.1, fields, term)
    decreases |entries|
  {
    if entries != [] {
      var n := |entries| - 1;
      FilterKeepsMatches(entries[..n], fields, term);
      assert entries == entries[..n] + [entries[n]];
    }
  }

  lemma FilterSnoc<K>(e: seq<(K, Row)>, x: (K, Row), fields: seq<string>, term: string)
    ensures FilterRows(e + [x], fields, term) ==
      FilterRows(e, fields, term) + if RowMatches(x.1, fields, term) then [x] else []
  {
    assert (e + [x])[..|e|] == e;
  }

  /** Filtering keeps the relative order: it distributes over concatenation. */
  lemma {:induction false} FilterAppend<K>(a: seq<(K, Row)>, b: seq<(K, Row)>, fields: seq<string>, term: string)
    ensures FilterRows(a + b, fields, term) == FilterRows(a, fields, term) + FilterRows(b, fields, term)
    decreases |b|
  {
    if b == [] {
      assert a + b == a;
    } else {
      var n := |b| - 1;
      var init := b[..n];
      FilterAppend(a, init, fields, term);
      var x := b[n];
      assert b == init + [x];
      assert a + b == (a + init) + [x];
      FilterSnoc(a + init, x, fields, term);
      FilterSnoc(init, x, fields, term);
      var t := if RowMatches(x.1, fields, term) then [x] else [];
      var fa, fi := FilterRows(a, fields, term), FilterRows(init, fields, term);
      assert FilterRows(a + b, fields, term) == (fa + fi) + t;
      assert FilterRows(b, fields, term) == fi + t;
      assert (fa + fi) + t == fa + (fi + t);
    }
  }

  /** The empty term is found in every field (PHP 8 `strpos`), so every row is kept when there is a field. */
  lemma {:induction false} EmptyTermKeepsAll<K>(entries: seq<(K, Row)>, fields: seq<string>)
    requires |fields| > 0
    ensures FilterRows(entries, fields, "") == entries
    decreases |entries|
  {
    if entries != [] {
      var n := |entries| - 1;
      EmptyTermKeepsAll(entries[..n], fields);
      assert OccursAt("", Value(entries[n].1, fields[0]), 0);
      assert RowMatches(entries[n].1, fields, "");
      assert entries[..n] + [entries[n]] == entries;
    }
  }

  predicate NoSearchColumns(columns: seq<Column>)
  {
    forall j :: 0 <= j < |columns| ==> columns[j].opts.searchColumns.None?
  }

  /** The field a plain column i contributes: its `search-column`, else its `column`, when searchable. */
  function PlainField(columns: seq<Column>, i: int): Option<string>
  {
    if 1 <= i <= |columns| && Searchable(columns[i - 1])
    then Some(columns[i - 1].opts.searchColumn.GetOr(columns[i - 1].column))
    else None
  }

  ghost predicate PlainShape(f: FieldMap, columns: seq<Column>)
  {
    DistinctKeys(f) &&
    (forall j :: 0 <= j < |f| ==> 1 <= f[j].0 <= |columns|) &&
    (forall i :: Get(f, i) == PlainField(columns, i))
  }

  /** One more plain column keeps the field map in its plain shape. */
  lemma PlainStep(acc: FieldMap, init: seq<Column>, c: Column)
    requires PlainShape(acc, init) && c.opts.searchColumns.None?
    ensures PlainShape(AddFields(acc, |init| + 1, c), init + [c])
  {
    var n := |init| + 1;
    var cs := init + [c];
    var f := AddFields(acc, n, c);
    forall i | 1 <= i < n
      ensures PlainField(cs, i) == PlainField(init, i)
    {
      assert cs[i - 1] == init[i - 1];
    }
    assert cs[n - 1] == c;
    if Searchable(c) {
      var v := c.opts.searchColumn.GetOr(c.column);
      GetFound(acc, n);
      PutNew(acc, n, v);
      PutKeys(acc, n, v);
      forall i
        ensures Get(f, i) == PlainField(cs, i)
      {
        PutGet(acc, n, v, i);
      }
      forall j | 0 <= j < |f|
        ensures 1 <= f[j].0 <= n
      {
        if j < |acc| {
          assert f[j] == acc[j];
        }
      }
    } else {
      forall i
        ensures Get(f, i) == PlainField(cs, i)
      {
        GetFound(acc, i);
      }
    }
  }

  lemma {:induction false} PlainShapeHolds(columns: seq<Column>)
    requires NoSearchColumns(columns)
    ensures PlainShape(SearchFields(columns), columns)
    decreases |columns|
  {
    if columns != [] {
      var n := |columns| - 1;
      var init := columns[..n];
      assert NoSearchColumns(init) by {
        assert forall j :: 0 <= j < n ==> init[j] == columns[j];
      }
      PlainShapeHolds(init);
      var c := columns[n];
      var acc := SearchFields(init);
      PlainStep(acc, init, c);
      assert init + [c] == columns;
      assert SearchFields(columns) == AddFields(acc, n + 1, c);
    }
  }

  /**
    Without `search-columns`, the fields are keyed by column index: one
    per searchable column, its `search-column` or else its `column`, in
    column order.
   */
  lemma PlainSearchFields(columns: seq<Column>)
    requires NoSearchColumns(columns)
    ensures var f := SearchFields(columns);
      DistinctKeys(f) &&
      (forall j :: 0 <= j < |f| ==> 1 <= f[j].0 <= |columns|) &&
      (forall i :: Get(f, i) ==
        if 1 <= i <= |columns| && Searchable(columns[i - 1])
        then Some(columns[i - 1].opts.searchColumn.GetOr(columns[i - 1].column))
        else None)
  {
    PlainShapeHolds(columns);
    var f := SearchFields(columns);
    forall i
      ensures Get(f, i) ==
        if 1 <= i <= |columns| && Searchable(columns[i - 1])
        then Some(columns[i - 1].opts.searchColumn.GetOr(columns[i - 1].column))
        else None
    {
      assert Get(f, i) == PlainField(columns, i);
    }
  }

  /**
    `array_merge` with a list renumbers everything: the result is keyed
    0, 1, 2, ... in order and holds the old values followed by the list.
   */
  lemma ArrayMergeShape(f: FieldMap, vals: seq<string>)
    ensures var m := ArrayMerge(f, vals);
      |m| == |f| + |vals| && DistinctKeys(m) && Values(m) == Values(f) + vals &&
      forall j :: 0 <= j < |m| ==> m[j].0 == j
  {
    var m := ArrayMerge(f, vals);
    assert Values(m) == Values(f) + vals;
  }

  /** In an array keyed `base`, `base + 1`, ..., writing one of its keys replaces that entry in place. */
  lemma {:induction false} PutConsecutive(m: FieldMap, base: int, i: int, v: string)
    requires forall j :: 0 <= j < |m| ==> m[j].0 == base + j
    requires base <= i < base + |m|
    ensures Put(m, i, v) == m[i - base := (i, v)]
    decreases |m|
  {
    if m[0].0 != i {
      PutConsecutive(m[1..], base + 1, i, v);
      assert [m[0]] + m[1..][i - base - 1 := (i, v)] == m[i - base := (i, v)];
    }
  }

  /**
    After `array_merge`, a plain searchable column i below the merged
    length overwrites the field at position i; from that length on it is
    appended.
   */
  lemma MergeThenPlain(acc: FieldMap, vals: seq<string>, i: int, c: Column)
    requires Searchable(c) && c.opts.searchColumns.None? && 0 <= i
    ensures var m := ArrayMerge(acc, vals);
      var v := c.opts.searchColumn.GetOr(c.column);
      (i < |m| ==> AddFields(m, i, c) == m[i := (i, v)]) &&
      (i >= |m| ==> AddFields(m, i, c) == m + [(i, v)])
  {
    var m := ArrayMerge(acc, vals);
    var v := c.opts.searchColumn.GetOr(c.column);
    ArrayMergeShape(acc, vals);
    if i < |m| {
      PutConsecutive(m, 0, i, v);
    } else {
      assert !HasKey(m, i);
      PutNew(m, i, v);
    }
  }

  /** v is a field column c gives the search: one of its `search-columns`, else its `search-column` or `column`. */
  predicate Contributes(c: Column, v: string)
  {
    Searchable(c) &&
    if c.opts.searchColumns.Some? then v in c.opts.searchColumns.value else v == c.opts.searchColumn.GetOr(c.column)
  }

  lemma ValuesOfPut(m: FieldMap, k: int, v: string, w: string)
    requires w in Values(Put(m, k, v))
    ensures w == v || w in Values(m)
  {
    var p := Put(m, k, v);
    var j :| 0 <= j < |p| && Values(p)[j] == w;
    PutEntries(m, k, v);
    assert p[j] in p;
    if p[j] != (k, v) {
      var q :| 0 <= q < |m| && m[q] == p[j];
      assert Values(m)[q] == w;
    }
  }

  /**
    With or without `search-columns`, the collected fields never repeat a
    key, and every field searched is one that some searchable column gives.
   */
  lemma {:induction false} SearchFieldsFrom(columns: seq<Column>)
    ensures DistinctKeys(SearchFields(columns))
    ensures forall v :: v in Values(SearchFields(columns)) ==> exists k :: 0 <= k < |columns| && Contributes(columns[k], v)
    decreases |columns|
  {
    if columns != [] {
      var n := |columns| - 1;
      var init, c := columns[..n], columns[n];
      SearchFieldsFrom(init);
      var acc := SearchFields(init);
      var f := SearchFields(columns);
      assert f == AddFields(acc, n + 1, c);
      if Searchable(c) && c.opts.searchColumns.Some? {
        ArrayMergeShape(acc, c.opts.searchColumns.value);
      } else if Searchable(c) {
        PutKeys(acc, n + 1, c.opts.searchColumn.GetOr(c.column));
      }
      forall v | v in Values(f)
        ensures exists k :: 0 <= k < |columns| && Contributes(columns[k], v)
      {
        if !Searchable(c) {
          assert v in Values(acc);
        } else if c.opts.searchColumns.Some? {
          if v !in Values(acc) {
            assert Contributes(columns[n], v);
          }
        } else {
          ValuesOfPut(acc, n + 1, c.opts.searchColumn.GetOr(c.column), v);
          if v !in Values(acc) {
            assert Contributes(columns[n], v);
          }
        }
        if v in Values(acc) {
          var k :| 0 <= k < n && Contributes(init[k], v);
          assert columns[k] == init[k];
        }
      }
    }
  }

  /**
    `array_merge` renumbers: after a column with search-columns x, y, z,
    a plain second column's field is written under key 2 and overwrites z.
   */
  lemma SearchColumnsOverwritten(first: Column, second: Column)
    requires Searchable(first) && first.opts.searchColumns == Some(["x", "y", "z"])
    requires Searchable(second) && second.opts.searchColumns.None? && second.opts.searchColumn == Some("p")
    ensures SearchFields([first, second]) == [(0, "x"), (1, "y"), (2, "p")]
  {
    var cols := [first, second];
    assert cols[..1] == [first];
    assert [first][..0] == [];
    var merged := SearchFields([first]);
    assert SearchFields([]) == [];
    var none: FieldMap := [];
    assert Values(none) == [];
    assert [] + ["x", "y", "z"] == ["x", "y", "z"];
    assert merged == Reindex(["x", "y", "z"]);
    assert merged == [(0, "x"), (1, "y"), (2, "z")];
    assert merged[1..] == [(1, "y"), (2, "z")] && merged[1..][1..] == [(2, "z")];
    assert Put([(2, "z")], 2, "p") == [(2, "p")];
    assert Put(merged[1..], 2, "p") == [(1, "y"), (2, "p")];
    assert Put(merged, 2, "p") == [(0, "x"), (1, "y"), (2, "p")];
  }
}
