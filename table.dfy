/**
  The `sortable_table` object: its settings and per-instance URI ids, its
  column table, its data source (a query or a result array, never both)
  and the two steps `build()` starts with, `do_sort()` then `do_search()`.
 */
module Table {
  import opened Wrappers
  import opened Assoc
  import opened PhpStrings
  import opened Errors
  import opened SortCodec
  import opened Columns
  import opened SortResolver
  import opened Comparator
  import opened Usort
  import opened Search
  import opened QueryBuilder

  /** The keys of the settings array the engine reads; an unset key is None. */
  datatype Settings = Settings(
    sortUriId: Option<string>,
    searchUriId: Option<string>,
    sortSep: Option<string>,
    typeSep: Option<string>,
    search: Option<bool>)

  function Override<T>(base: Option<T>, over: Option<T>): Option<T>
  {
    if over.Some? then over else base
  }

  /** `array_merge($base, $over)` on string keys: a key set in `$over` wins. */
  function Merge(base: Settings, over: Settings): Settings
  {
    Settings(
      Override(base.sortUriId, over.sortUriId),
      Override(base.searchUriId, over.searchUriId),
      Override(base.sortSep, over.sortSep),
      Override(base.typeSep, over.typeSep),
      Override(base.search, over.search))
  }

  /** The package configuration: the default profile's name and the profiles. */
  datatype GlobalConfig = GlobalConfig(defaultProfile: string, profiles: map<string, Settings>)

  const DefaultSettings: Settings :=
    Settings(Some("sort"), Some("search"), Some(DefaultSortSep), Some(DefaultTypeSep), Some(false))

  const DefaultConfig: GlobalConfig := GlobalConfig("default", map["default" := DefaultSettings])

  /** The suffix of the n-th instance's URI ids: none for the first, n after that. */
  function UriSuffix(count: nat): string
  {
    if count == 1 then "" else IntToString(count)
  }

  /** `array_diff(['sort_uri_id', 'search_uri_id'], array_keys($data))`. */
  function MissingKeys(d: Settings): seq<string>
  {
    (if d.sortUriId.None? then ["sort_uri_id"] else []) + (if d.searchUriId.None? then ["search_uri_id"] else [])
  }

  /** The settings the constructor computes for the instance numbered `count`. */
  function ResolveSettings(g: GlobalConfig, profile: Option<string>, overrides: Settings, count: nat): Result<Settings, TableError>
  {
    var p := profile.GetOr(g.defaultProfile);
    if p !in g.profiles then Failure(UnknownProfile(p))
    else
      var d := Merge(g.profiles[p], overrides);
      if MissingKeys(d) != [] then Failure(MissingConfig(MissingKeys(d)))
      else Success(d.(sortUriId := Some(d.sortUriId.value + UriSuffix(count)),
                      searchUriId := Some(d.searchUriId.value + UriSuffix(count))))
  }

  /** `uri::segment($id)`: the request's value for a URI id, if any. */
  function Segment(segments: map<string, string>, id: string): Option<string>
  {
    if id in segments then Some(segments[id]) else None
  }

  /** The keys a settings array sets. */
  function KeysSet(s: Settings): set<string>
  {
    (if s.sortUriId.Some? then {"sort_uri_id"} else {}) + (if s.searchUriId.Some? then {"search_uri_id"} else {}) +
    (if s.sortSep.Some? then {"sort_sep"} else {}) + (if s.typeSep.Some? then {"type_sep"} else {}) +
    (if s.search.Some? then {"search"} else {})
  }

  /** The keys the constructor insists on, in the order it reports them. */
  const RequiredKeys: seq<string> := ["sort_uri_id", "search_uri_id"]

  /**
    The constructor fails for an unknown profile. It fails for a missing
    URI id, and then lists, once each and in order, exactly the required
    keys that neither the profile nor the config sets. Otherwise the
    result sets every key either of them sets; a key of the config wins
    over the profile's, and both ids get the instance's suffix.
   */
  lemma ResolveSettingsSpec(g: GlobalConfig, profile: Option<string>, overrides: Settings, count: nat)
    ensures var p := profile.GetOr(g.defaultProfile);
      var r := ResolveSettings(g, profile, overrides, count);
      (r == Failure(UnknownProfile(p)) <==> p !in g.profiles) &&
      (p in g.profiles ==>
        var base := g.profiles[p];
        (r.Failure? <==> exists k :: k in RequiredKeys && k !in KeysSet(base) && k !in KeysSet(overrides)) &&
        (r.Failure? ==>
           r.error.MissingConfig? &&
           (forall k :: k in r.error.keys <==> k in RequiredKeys && k !in KeysSet(base) && k !in KeysSet(overrides)) &&
           (forall a, b :: 0 <= a < b < |r.error.keys| ==> r.error.keys[a] == "sort_uri_id" && r.error.keys[b] == "search_uri_id")) &&
        (r.Success? ==>
           KeysSet(r.value) == KeysSet(base) + KeysSet(overrides) &&
           r.value.sortUriId.value == (if overrides.sortUriId.Some? then overrides.sortUriId else base.sortUriId).value + UriSuffix(count) &&
           r.value.searchUriId.value == (if overrides.searchUriId.Some? then overrides.searchUriId else base.searchUriId).value + UriSuffix(count) &&
           r.value.sortSep == (if overrides.sortSep.Some? then overrides.sortSep else base.sortSep) &&
           r.value.typeSep == (if overrides.typeSep.Some? then overrides.typeSep else base.typeSep) &&
           r.value.search == (if overrides.search.Some? then overrides.search else base.search)))
  {
    var p := profile.GetOr(g.defaultProfile);
    if p in g.profiles {
      var base := g.profiles[p];
      var d := Merge(base, overrides);
      MergeKeys(base, overrides);
      MissingKeysListed(d);
      var r := ResolveSettings(g, profile, overrides, count);
      if r.Success? {
        SuffixKeepsKeys(d, count);
      }
    }
  }

  /** `array_merge` sets every key either side sets. */
  lemma MergeKeys(base: Settings, over: Settings)
    ensures KeysSet(Merge(base, over)) == KeysSet(base) + KeysSet(over)
  {
  }

  /** `array_diff` lists exactly the required keys not set, once each, in order. */
  lemma MissingKeysListed(d: Settings)
    ensures MissingKeys(d) == [] <==> forall k :: k in RequiredKeys ==> k in KeysSet(d)
    ensures forall k :: k in MissingKeys(d) <==> k in RequiredKeys && k !in KeysSet(d)
    ensures forall a, b :: 0 <= a < b < |MissingKeys(d)| ==>
      MissingKeys(d)[a] == "sort_uri_id" && MissingKeys(d)[b] == "search_uri_id"
  {
    assert "sort_uri_id" != "search_uri_id";
    assert "sort_uri_id" in KeysSet(d) <==> d.sortUriId.Some?;
    assert "search_uri_id" in KeysSet(d) <==> d.searchUriId.Some?;
  }

  /** Appending the suffix to set ids keeps the set keys. */
  lemma SuffixKeepsKeys(d: Settings, count: nat)
    requires d.sortUriId.Some? && d.searchUriId.Some?
    ensures KeysSet(d.(sortUriId := Some(d.sortUriId.value + UriSuffix(count)),
                       searchUriId := Some(d.searchUriId.value + UriSuffix(count)))) == KeysSet(d)
  {
  }

  /**
    The n-th instance fails exactly when the first would, with the same
    error; otherwise its settings are the first instance's with the
    suffix n appended to both URI ids.
   */
  lemma InstanceSettings(g: GlobalConfig, profile: Option<string>, overrides: Settings, count: nat)
    requires 1 <= count
    ensures var first := ResolveSettings(g, profile, overrides, 1);
      var r := ResolveSettings(g, profile, overrides, count);
      (r.Failure? <==> first.Failure?) && (r.Failure? ==> r.error == first.error) &&
      (r.Success? ==> r.value == first.value.(sortUriId := Some(first.value.sortUriId.value + UriSuffix(count)),
                                              searchUriId := Some(first.value.searchUriId.value + UriSuffix(count))))
  {
    var first := ResolveSettings(g, profile, overrides, 1);
    if first.Success? {
      var d := Merge(g.profiles[profile.GetOr(g.defaultProfile)], overrides);
      assert UriSuffix(1) == "";
      assert d.sortUriId.value + "" == d.sortUriId.value && d.searchUriId.value + "" == d.searchUriId.value;
      assert first.value == d.(sortUriId := Some(d.sortUriId.value), searchUriId := Some(d.searchUriId.value));
    }
  }

  /** Two instances never share a URI id built on the same base id. */
  lemma UriIdsDistinct(base: string, c1: nat, c2: nat)
    requires 1 <= c1 && 1 <= c2 && c1 != c2
    ensures base + UriSuffix(c1) != base + UriSuffix(c2)
  {
    if base + UriSuffix(c1) == base + UriSuffix(c2) {
      assert UriSuffix(c1) == (base + UriSuffix(c1))[|base|..];
      assert UriSuffix(c2) == (base + UriSuffix(c2))[|base|..];
      NatToStringInjective(c1, c2);
    }
  }

  /**
    Different base ids are not kept apart: a first instance configured
    with "sort2" and a second with "sort" both use the id "sort2".
   */
  lemma UriIdCollision()
    ensures "sort2" + UriSuffix(1) == "sort" + UriSuffix(2)
  {
    assert UriSuffix(1) == "" && UriSuffix(2) == "2";
  }

  /**
    Two instances made from the same profile and config never share a
    sort URI id or a search URI id.
   */
  lemma ResolvedIdsDistinct(g: GlobalConfig, profile: Option<string>, overrides: Settings, c1: nat, c2: nat)
    requires 1 <= c1 && 1 <= c2 && c1 != c2
    requires ResolveSettings(g, profile, overrides, c1).Success?
    ensures var r1, r2 := ResolveSettings(g, profile, overrides, c1), ResolveSettings(g, profile, overrides, c2);
      r2.Success? && r1.value.sortUriId != r2.value.sortUriId && r1.value.searchUriId != r2.value.searchUriId
  {
    var first := ResolveSettings(g, profile, overrides, 1);
    InstanceSettings(g, profile, overrides, c1);
    InstanceSettings(g, profile, overrides, c2);
    UriIdsDistinct(first.value.sortUriId.value, c1, c2);
    UriIdsDistinct(first.value.searchUriId.value, c1, c2);
  }

  /** The default profile gives the ids "sort" and "search" to the first table and "sort2", "search2" to the second. */
  lemma DefaultInstances()
    ensures ResolveSettings(DefaultConfig, None, Settings(None, None, None, None, None), 1) == Success(DefaultSettings)
    ensures ResolveSettings(DefaultConfig, None, Settings(None, None, None, None, None), 2) ==
      Success(DefaultSettings.(sortUriId := Some("sort2"), searchUriId := Some("search2")))
  {
    assert UriSuffix(1) == "" && UriSuffix(2) == "2";
    assert "sort" + "" == "sort" && "search" + "" == "search";
    assert "sort" + "2" == "sort2" && "search" + "2" == "search2";
  }

  /** The class's static state: the number of instances made so far and the loaded configuration. */
  class Registry {
    var count: nat
    var config: GlobalConfig

    constructor ()
      ensures count == 0
    {
      count := 0;
      config := GlobalConfig("", map[]);
    }

    /** The configuration is loaded by the first construction only; every construction counts. */
    method Register(load: GlobalConfig)
      modifies this
      ensures count == old(count) + 1
      ensures config == if old(count) == 0 then load else old(config)
    {
      if count == 0 {
        config := load;
      }
      count := count + 1;
    }
  }

  /** The arguments of one `column()` call. */
  datatype ColumnSpec = ColumnSpec(column: string, header: string, sort: Option<int>, opts: ColumnOptions)

  /** The stored column: its `sort` defaults to sort_none. */
  function MakeColumn(s: ColumnSpec): (c: Column)
    ensures c.sort == if s.sort.Some? then s.sort.value else SortNone
  {
    Column(s.column, s.header, s.sort.GetOr(SortNone), s.opts)
  }

  /**
    A column added without a `sort` starts unsorted: until the token names
    it, its effective direction is none and its header link appends it as
    ascending.
   */
  lemma DefaultColumnUnsorted(spec: ColumnSpec, decoded: SortState, i: int)
    requires spec.sort.None? && !HasKey(decoded, i)
    ensures var c := MakeColumn(spec);
      EffectiveCode(decoded, i, c) == IntCode(SortNone) &&
      LinkState(decoded, i, EffectiveCode(decoded, i, c)) == decoded + [(i, IntCode(SortAsc))]
  {
    GetFound(decoded, i);
    PutNew(decoded, i, IntCode(SortAsc));
  }

  function MakeColumns(specs: seq<ColumnSpec>): (cs: seq<Column>)
    ensures |cs| == |specs|
  {
    seq(|specs|, j requires 0 <= j < |specs| => MakeColumn(specs[j]))
  }

  /** Whether `do_search()` filters: a search segment and at least one search field. */
  predicate Searching(columns: seq<Column>, segments: map<string, string>, searchUriId: string)
  {
    Segment(segments, searchUriId).Some? && |SearchFields(columns)| > 0
  }

  lemma UnionUpdate<K, V>(a: map<K, V>, b: map<K, V>, k: K, v: V)
    ensures (a + b)[k := v] == a + b[k := v]
  {
  }

  /** The field-collecting loop of `do_search()`, column by column. */
  method CollectSearchFields(columns: seq<Column>) returns (found: FieldMap)
    ensures found == SearchFields(columns)
  {
    found := [];
    var j := 0;
    while j < |columns|
      invariant 0 <= j <= |columns|
      invariant found == SearchFields(columns[..j])
    {
      assert columns[..j + 1][..j] == columns[..j];
      found := AddFields(found, j + 1, columns[j]);
      j := j + 1;
    }
    assert columns[..|columns|] == columns;
  }

  /** The alias guard of query mode: is any search field an alias of the query? */
  method FindAlias(query: Query, fields: seq<string>) returns (found: bool)
    ensures found <==> exists k :: 0 <= k < |fields| && query.IsFieldAlias(fields[k])
  {
    var k := 0;
    while k < |fields|
      invariant 0 <= k <= |fields|
      invariant forall m :: 0 <= m < k ==> !query.IsFieldAlias(fields[m])
    {
      if query.IsFieldAlias(fields[k]) {
        return true;
      }
      k := k + 1;
    }
    return false;
  }

  /** The inner loop of the row filter: does one of the fields contain the term? */
  method RowHit(row: Row, fields: seq<string>, term: string) returns (hit: bool)
    ensures hit <==> RowMatches(row, fields, term)
  {
    hit := false;
    var m := 0;
    while m < |fields| && !hit
      invariant 0 <= m <= |fields|
      invariant hit <==> exists q :: 0 <= q < m && Contains(Value(row, fields[q]), term)
    {
      hit := Contains(Value(row, fields[m]), term);
      m := m + 1;
    }
  }

  /** The row filter of row mode: every row without a hit is unset. */
  method FilterResults(rows: seq<(int, Row)>, fields: seq<string>, term: string) returns (kept: seq<(int, Row)>)
    ensures kept == FilterRows(rows, fields, term)
  {
    kept := [];
    var k := 0;
    while k < |rows|
      invariant 0 <= k <= |rows|
      invariant kept == FilterRows(rows[..k], fields, term)
    {
      var hit := RowHit(rows[k].1, fields, term);
      assert rows[..k + 1][..k] == rows[..k];
      if hit {
        kept := kept + [rows[k]];
      }
      k := k + 1;
    }
    assert rows[..|rows|] == rows;
  }

  /** The `order_by` loop of query mode. */
  method IssueOrderBy(query: Query, decoded: SortState, columns: seq<Column>)
    modifies query
    ensures query.log == old(query.log) + OrderOps(decoded, columns)
  {
    var k := 0;
    while k < |decoded|
      invariant 0 <= k <= |decoded|
      invariant query.log == old(query.log) + OrderOps(decoded[..k], columns)
    {
      OrderOpsStep(decoded, k, columns);
      var (i, t) := decoded[k];
      if t != IntCode(SortNone) {
        query.OrderBy(ColumnField(columns, i), OrderDirection(t));
      }
      k := k + 1;
    }
    assert decoded[..|decoded|] == decoded;
  }

  class SortableTable {
    var data: Settings
    var totalResults: Option<nat>
    var columns: seq<Column>
    var query: Query?
    var results: Option<seq<(int, Row)>>
    var sort: map<int, SortEntry>
    var filtered: bool
    var searchTerm: Option<string>

    /** A query and a result array are never both given. */
    predicate Exclusive()
      reads this
    {
      query == null || results.None?
    }

    predicate Empty()
      reads this
    {
      totalResults.None? && columns == [] && query == null && results.None? &&
      sort == map[] && !filtered && searchTerm.None?
    }

    constructor (data: Settings)
      ensures this.data == data && Empty()
    {
      this.data := data;
      totalResults := None;
      columns := [];
      query := null;
      results := None;
      sort := map[];
      filtered := false;
      searchTerm := None;
    }

    /** `new sortable_table($config)`; the instance is counted even when construction fails. */
    static method Create(reg: Registry, load: GlobalConfig, profile: Option<string>, overrides: Settings)
      returns (r: Result<SortableTable, TableError>)
      modifies reg
      ensures reg.count == old(reg.count) + 1
      ensures reg.config == if old(reg.count) == 0 then load else old(reg.config)
      ensures var s := ResolveSettings(reg.config, profile, overrides, reg.count);
        (r.Success? <==> s.Success?) &&
        (r.Failure? ==> r.error == s.error) &&
        (r.Success? ==> fresh(r.value) && r.value.data == s.value && r.value.Empty())
    {
      reg.Register(load);
      var s := ResolveSettings(reg.config, profile, overrides, reg.count);
      if s.Failure? {
        return Failure(s.error);
      }
      var t := new SortableTable(s.value);
      return Success(t);
    }

    /** `config($data)`. */
    method Configure(over: Settings)
      modifies this`data
      ensures data == Merge(old(data), over)
    {
      data := Merge(data, over);
    }

    /** `column()`: the new column gets the next index, counting from 1. */
    method AddColumn(spec: ColumnSpec) returns (i: int)
      modifies this`columns
      ensures columns == old(columns) + [MakeColumn(spec)]
      ensures i == |columns| && columns[i - 1] == MakeColumn(spec)
    {
      columns := columns + [MakeColumn(spec)];
      i := |columns|;
    }

    /** `columns()`: one `column()` call per entry, in order. */
    method AddColumns(specs: seq<ColumnSpec>)
      modifies this`columns
      ensures columns == old(columns) + MakeColumns(specs)
    {
      var j := 0;
      while j < |specs|
        invariant 0 <= j <= |specs|
        invariant columns == old(columns) + MakeColumns(specs[..j])
      {
        var i := AddColumn(specs[j]);
        assert MakeColumns(specs[..j + 1]) == MakeColumns(specs[..j]) + [MakeColumn(specs[j])];
        j := j + 1;
      }
      assert specs[..|specs|] == specs;
    }

    /** `query($query)`: refused once a result array is set. */
    method SetQuery(q: Query) returns (r: Result<(), TableError>)
      modifies this`query
      ensures old(results).Some? ==> r == Failure(ResultsAlreadySet) && query == old(query)
      ensures old(results).None? ==> r == Success(()) && query == q
      ensures old(Exclusive()) ==> Exclusive()
    {
      if results.Some? {
        return Failure(ResultsAlreadySet);
      }
      query := q;
      return Success(());
    }

    /** `results($array)`: refused once a query is set. */
    method SetResults(rows: seq<(int, Row)>) returns (r: Result<(), TableError>)
      modifies this`results
      ensures old(query) != null ==> r == Failure(QueryAlreadySet) && results == old(results)
      ensures old(query) == null ==> r == Success(()) && results == Some(rows)
      ensures old(Exclusive()) ==> Exclusive()
    {
      if query != null {
        return Failure(QueryAlreadySet);
      }
      results := Some(rows);
      return Success(());
    }

    function SortSep(): string reads this { data.sortSep.GetOr("") }
    function TypeSep(): string reads this { data.typeSep.GetOr("") }
    function SortUriId(): string reads this { data.sortUriId.GetOr("") }
    function SearchUriId(): string reads this { data.searchUriId.GetOr("") }

    /** The decoded sort map for a request. */
    function Decoded(segments: map<string, string>): Result<SortState, TableError>
      reads this
    {
      Decode(Segment(segments, SortUriId()), SortSep(), TypeSep(), |columns|)
    }

    /** The loop of `do_sort()` over the column table. */
    method WriteSortEntries(decoded: SortState)
      modifies this`sort
      ensures sort == old(sort) + SortEntries(columns, decoded, SortUriId(), SortSep(), TypeSep())
    {
      var cols, id, ss, ts := columns, SortUriId(), SortSep(), TypeSep();
      var acc := sort;
      var j := 0;
      while j < |cols|
        invariant 0 <= j <= |cols|
        invariant acc == old(sort) + SortEntries(cols[..j], decoded, id, ss, ts)
      {
        SortEntriesExtend(cols[..j], cols[j], decoded, id, ss, ts);
        assert cols[..j + 1] == cols[..j] + [cols[j]];
        if Sortable(cols[j]) {
          var e := EntryFor(decoded, j + 1, cols[j], id, ss, ts);
          UnionUpdate(old(sort), SortEntries(cols[..j], decoded, id, ss, ts), j + 1, e);
          acc := acc[j + 1 := e];
        }
        j := j + 1;
      }
      assert cols[..|cols|] == cols;
      sort := acc;
    }

    /**
      `do_sort()`: decode the token, write one sort entry per sortable
      column, then either take the total from a count on a clone of the
      query and issue the decoded `order_by` calls, or take the total from
      the result array and `usort` it.
     */
    method DoSort(segments: map<string, string>, env: Env) returns (r: Result<(), TableError>)
      modifies this`sort, this`totalResults, this`results, query
      ensures Decoded(segments).Failure? ==>
        r == Failure(Decoded(segments).error) && sort == old(sort) && totalResults == old(totalResults) &&
        results == old(results) && (query != null ==> query.log == old(query.log))
      ensures Decoded(segments).Success? ==>
        sort == old(sort) + SortEntries(columns, Decoded(segments).value, SortUriId(), SortSep(), TypeSep())
      ensures Decoded(segments).Success? && old(results).None? && query == null ==>
        r == Failure(NoDataSource) && totalResults == old(totalResults) && results == old(results)
      ensures Decoded(segments).Success? && old(results).None? && query != null ==>
        r.Success? && results == old(results) &&
        totalResults == Some(query.countRows(old(query.log))) &&
        query.log == old(query.log) + OrderOps(Decoded(segments).value, columns)
      ensures Decoded(segments).Success? && old(results).Some? ==>
        r.Success? && totalResults == Some(|old(results).value|) &&
        results == Some(UsortEntries(old(results).value, RowComparator(columns, sort, env))) &&
        (query != null ==> query.log == old(query.log))
    {
      var dec := DecodeSort(Segment(segments, SortUriId()), SortSep(), TypeSep(), |columns|);
      if dec.Failure? {
        return Failure(dec.error);
      }
      WriteSortEntries(dec.value);
      if results.None? {
        if query == null {
          return Failure(NoDataSource);
        }
        var n := query.CountOnClone();
        totalResults := Some(n);
        IssueOrderBy(query, dec.value, columns);
        return Success(());
      }
      totalResults := Some(|results.value|);
      results := Some(UsortEntries(results.value, RowComparator(columns, sort, env)));
      return Success(());
    }

    /**
      `do_search()`: record the term, collect the search fields, and when
      there are any, set `filtered` and either add an OR-group of LIKE
      conditions to the query (refused when a field is an alias) or unset
      every row in which no field contains the term.
     */
    method DoSearch(segments: map<string, string>, base64Decode: string -> string) returns (r: Result<(), TableError>)
      modifies this`searchTerm, this`filtered, this`results, query
      ensures var seg := Segment(segments, SearchUriId());
        var fields := Values(SearchFields(columns));
        (seg.None? ==> r.Success? && searchTerm.None?) &&
        (seg.Some? ==> searchTerm == Some(base64Decode(seg.value))) &&
        (filtered <==> old(filtered) || Searching(columns, segments, SearchUriId())) &&
        (!Searching(columns, segments, SearchUriId()) ==>
          r.Success? && results == old(results) && (query != null ==> query.log == old(query.log))) &&
        (Searching(columns, segments, SearchUriId()) && old(results).None? && query == null ==>
          r == Failure(NoDataSource) && results == old(results)) &&
        (Searching(columns, segments, SearchUriId()) && old(results).None? && query != null ==>
          results == old(results) &&
          (r.Failure? <==> exists k :: 0 <= k < |fields| && query.IsFieldAlias(fields[k])) &&
          (r.Failure? ==> r.error == AliasSearch && query.log == old(query.log)) &&
          (r.Success? ==> query.log == old(query.log) + [WhereGroupLike(fields, base64Decode(seg.value))])) &&
        (Searching(columns, segments, SearchUriId()) && old(results).Some? ==>
          r.Success? && results == Some(FilterRows(old(results).value, fields, base64Decode(seg.value))) &&
          (query != null ==> query.log == old(query.log)))
    {
      var seg := Segment(segments, SearchUriId());
      if seg.None? {
        searchTerm := None;
        return Success(());
      }
      var term := base64Decode(seg.value);
      searchTerm := Some(term);
      var found := CollectSearchFields(columns);
      if |found| == 0 {
        return Success(());
      }
      filtered := true;
      var fields := Values(found);
      if results.None? {
        if query == null {
          return Failure(NoDataSource);
        }
        var alias := FindAlias(query, fields);
        if alias {
          return Failure(AliasSearch);
        }
        query.AndWhereGroupLike(fields, term);
        return Success(());
      }
      var kept := FilterResults(results.value, fields, term);
      results := Some(kept);
      return Success(());
    }

    /**
      The first steps of `build()`: sort, then search when the setting
      `search` is on. The build fails on a decode error, with no data
      source, and, in query mode, exactly when the search meets an alias
      field; a row-mode build succeeds once the token decodes.
     */
    method Build(segments: map<string, string>, env: Env, base64Decode: string -> string) returns (r: Result<(), TableError>)
      modifies this`sort, this`totalResults, this`results, this`searchTerm, this`filtered, query
      ensures var dec := Decoded(segments);
        var searching := data.search == Some(true) && Searching(columns, segments, SearchUriId());
        var fields := Values(SearchFields(columns));
        var seg := Segment(segments, SearchUriId());
        var term := base64Decode(seg.GetOr(""));
        (dec.Failure? ==>
          r == Failure(dec.error) && searchTerm == old(searchTerm) && filtered == old(filtered) &&
          sort == old(sort) && totalResults == old(totalResults) && results == old(results) &&
          (query != null ==> query.log == old(query.log))) &&
        (dec.Success? ==> sort == old(sort) + SortEntries(columns, dec.value, SortUriId(), SortSep(), TypeSep())) &&
        (dec.Success? && old(results).Some? ==> r.Success?) &&
        (dec.Success? && old(results).None? && query == null ==> r == Failure(NoDataSource)) &&
        (dec.Success? && old(results).None? && query != null ==>
          (r.Failure? <==> searching && exists k :: 0 <= k < |fields| && query.IsFieldAlias(fields[k])) &&
          (r.Failure? ==> r.error == AliasSearch)) &&
        (data.search != Some(true) ==> searchTerm == old(searchTerm) && filtered == old(filtered)) &&
        (dec.Success? && data.search == Some(true) && (old(results).Some? || query != null) ==>
          searchTerm == (if seg.Some? then Some(base64Decode(seg.value)) else None) &&
          (filtered <==> old(filtered) || Searching(columns, segments, SearchUriId()))) &&
        (r.Success? && old(results).Some? ==>
          totalResults == Some(|old(results).value|) &&
          results == Some(if searching then FilterRows(Reindex(Values(old(results).value)), fields, term)
                          else Reindex(Values(old(results).value)))) &&
        (r.Success? && old(results).None? ==>
          query != null && totalResults == Some(query.countRows(old(query.log))) &&
          query.log == old(query.log) + OrderOps(dec.value, columns) +
            (if searching then [WhereGroupLike(fields, term)] else []))
    {
      r := DoSort(segments, env);
      if r.Failure? {
        return;
      }
      if old(results).Some? {
        RowSortKeepsOrder(old(results).value, columns, sort, env);
      }
      if data.search == Some(true) {
        r := DoSearch(segments, base64Decode);
      }
    }
  }
}
