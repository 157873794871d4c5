/**
  The second half of `do_sort()`: for each sortable column, its effective
  direction, the direction a click on its header asks for next, and the
  sort token of that link; and the `order_by` calls issued in query mode.
 */
module SortResolver {
  import opened Wrappers
  import opened PhpStrings
  import opened Assoc
  import opened SortCodec
  import opened Columns
  import opened QueryBuilder

  datatype Direction = Unsorted | Ascending | Descending

  /** How the loose comparisons of the source read a code. */
  function DirectionOf(t: Code): Direction
  {
    if CodeIs(t, SortAsc) then Ascending else if CodeIs(t, SortDesc) then Descending else Unsorted
  }

  /** The direction cycle of a header link. */
  function Following(d: Direction): Direction
  {
    match d
    case Ascending => Descending
    case Descending => Unsorted
    case Unsorted => Ascending
  }

  /** `$type`: the decoded code for column i when there is one, else the column's configured `sort`. */
  function EffectiveCode(decoded: SortState, i: int, c: Column): Code
  {
    Get(decoded, i).GetOr(IntCode(c.sort))
  }

  /** `$data[$i]`: asc becomes desc, desc becomes none, anything else becomes asc. */
  function NextCode(t: Code): Code
  {
    if CodeIs(t, SortAsc) then IntCode(SortDesc)
    else if CodeIs(t, SortDesc) then IntCode(SortNone)
    else IntCode(SortAsc)
  }

  /** The sort map a column's header link carries. */
  function LinkState(decoded: SortState, i: int, t: Code): SortState
  {
    var n := NextCode(t);
    if CodeIs(n, SortNone) then Remove(decoded, i) else Put(decoded, i, n)
  }

  /** `$this->sort[$i]`: the link `[sort_uri_id => token]` and the effective code. */
  datatype SortEntry = SortEntry(uriId: string, token: string, typ: Code)

  function EntryFor(decoded: SortState, i: int, c: Column, uriId: string, sortSep: string, typeSep: string): SortEntry
  {
    var t := EffectiveCode(decoded, i, c);
    SortEntry(uriId, Format(LinkState(decoded, i, t), sortSep, typeSep), t)
  }

  /** The entries `do_sort()` writes: one per sortable column, keyed by its index. */
  function SortEntries(columns: seq<Column>, decoded: SortState, uriId: string, sortSep: string, typeSep: string): map<int, SortEntry>
  {
    BySortable(columns, (i: int, col: Column) => EntryFor(decoded, i, col, uriId, sortSep, typeSep))
  }

  /** A value per sortable column, keyed by the column's index. */
  function BySortable<V>(columns: seq<Column>, f: (int, Column) -> V): map<int, V>
  {
    map i | 1 <= i <= |columns| && SortableAt(columns, i) :: f(i, columns[i - 1])
  }

  /** The direction in an `order_by` call: asc for asc, desc for anything else. */
  function OrderDirection(t: Code): string
  {
    if CodeIs(t, SortAsc) then "asc" else "desc"
  }

  /** `$this->columns[$i]['column']` (decoded indices always name a column; see DecodedState). */
  function ColumnField(columns: seq<Column>, i: int): string
  {
    if 1 <= i <= |columns| then columns[i - 1].column else ""
  }

  /**
    The query is ordered the way the column's header shows it: for a
    decoded code, `order_by` is told "asc" exactly when the header link
    turns the column to desc, and "desc" exactly when the link drops it.
   */
  lemma OrderDirectionMatchesLink(t: Code)
    ensures OrderDirection(t) == "asc" <==> DirectionOf(t) == Ascending
    ensures DirectionOf(t) != Unsorted ==>
      (OrderDirection(t) == "asc" <==> NextCode(t) == IntCode(SortDesc)) &&
      (OrderDirection(t) == "desc" <==> NextCode(t) == IntCode(SortNone))
  {
  }

  /** The `order_by` call for one decoded entry: none when its code is identical to sort_none. */
  function OrderOp(e: (int, Code), columns: seq<Column>): seq<QueryOp>
  {
    if e.1 == IntCode(SortNone) then [] else [QueryOp.OrderBy(ColumnField(columns, e.0), OrderDirection(e.1))]
  }

  /** The `order_by` calls of query mode, in decoded order. */
  function OrderOps(decoded: SortState, columns: seq<Column>): seq<QueryOp>
    decreases |decoded|
  {
    if decoded == [] then []
    else
      var n := |decoded| - 1;
      OrderOps(decoded[..n], columns) + OrderOp(decoded[n], columns)
  }

  /** The calls of a prefix one entry longer: those of the prefix, then that entry's. */
  lemma OrderOpsStep(decoded: SortState, k: nat, columns: seq<Column>)
    requires k < |decoded|
    ensures OrderOps(decoded[..k + 1], columns) == OrderOps(decoded[..k], columns) + OrderOp(decoded[k], columns)
  {
    assert decoded[..k + 1][..k] == decoded[..k];
  }

  /** A map keyed by the sortable columns' indices gains the new column's key exactly when it is sortable. */
  lemma ByColumnExtend<V>(columns: seq<Column>, c: Column, f: (int, Column) -> V)
    ensures BySortable(columns + [c], f) ==
      if Sortable(c) then BySortable(columns, f)[|columns| + 1 := f(|columns| + 1, c)] else BySortable(columns, f)
  {
    var cs := columns + [c];
    var a := BySortable(cs, f);
    var b := BySortable(columns, f);
    var want := if Sortable(c) then b[|cs| := f(|cs|, c)] else b;
    forall i
      ensures i in a <==> i in want
      ensures i in a ==> a[i] == want[i]
    {
      if 1 <= i <= |columns| {
        assert cs[i - 1] == columns[i - 1];
      }
    }
    assert a == want;
  }

  /** One more column: its entry is added when it is sortable. */
  lemma SortEntriesExtend(columns: seq<Column>, c: Column, decoded: SortState, uriId: string, sortSep: string, typeSep: string)
    ensures SortEntries(columns + [c], decoded, uriId, sortSep, typeSep) ==
      if Sortable(c) then SortEntries(columns, decoded, uriId, sortSep, typeSep)[|columns| + 1 := EntryFor(decoded, |columns| + 1, c, uriId, sortSep, typeSep)]
      else SortEntries(columns, decoded, uriId, sortSep, typeSep)
  {
    ByColumnExtend(columns, c, (i: int, col: Column) => EntryFor(decoded, i, col, uriId, sortSep, typeSep));
  }

  // ---------------------------------------------------------------------
  // Properties

  /**
    The effective direction is the decoded code when the column was
    decoded, and the configured `sort` otherwise.
   */
  lemma EffectiveCodeSource(decoded: SortState, i: int, c: Column)
    requires DistinctKeys(decoded)
    ensures forall j :: 0 <= j < |decoded| && decoded[j].0 == i ==> EffectiveCode(decoded, i, c) == decoded[j].1
    ensures !HasKey(decoded, i) ==> EffectiveCode(decoded, i, c) == IntCode(c.sort)
  {
    GetFound(decoded, i);
    forall j | 0 <= j < |decoded| && decoded[j].0 == i
      ensures EffectiveCode(decoded, i, c) == decoded[j].1
    {
      GetAt(decoded, j);
    }
  }

  /** Each click moves the direction one step round asc, desc, none. */
  lemma NextCodeCycles(t: Code)
    ensures DirectionOf(NextCode(t)) == Following(DirectionOf(t))
    ensures NextCode(t).IntCode? && CanonicalCode(NextCode(t)) <==> DirectionOf(t) != Descending
    ensures DirectionOf(NextCode(NextCode(NextCode(t)))) == DirectionOf(t)
  {
    assert IntToString(1) == "1" && IntToString(2) == "2";
  }

  /**
    In a link, only the clicked column's entry differs: it holds the next
    direction, or is gone when that is none. Every other column reads as
    in the decoded map, so no other column's default is added.
   */
  lemma LinkStateGet(decoded: SortState, i: int, t: Code, k: int)
    ensures Get(LinkState(decoded, i, t), k) ==
      if k != i then Get(decoded, k)
      else if DirectionOf(t) == Descending then None
      else Some(NextCode(t))
  {
    if CodeIs(NextCode(t), SortNone) {
      RemoveGet(decoded, i, k);
    } else {
      PutGet(decoded, i, NextCode(t), k);
    }
  }

  /**
    The link keeps the other decoded entries in their order: with the
    clicked column's entry taken out, link and decoded map are equal.
    A column already in the map keeps its position; a new one is appended.
   */
  lemma LinkStateKeepsOthers(decoded: SortState, i: int, t: Code)
    ensures Remove(LinkState(decoded, i, t), i) == Remove(decoded, i)
    ensures DirectionOf(t) != Descending && HasKey(decoded, i) ==>
      |LinkState(decoded, i, t)| == |decoded| &&
      forall j :: 0 <= j < |decoded| ==> LinkState(decoded, i, t)[j].0 == decoded[j].0
    ensures DirectionOf(t) != Descending && !HasKey(decoded, i) ==>
      LinkState(decoded, i, t) == decoded + [(i, NextCode(t))]
  {
    if CodeIs(NextCode(t), SortNone) {
      RemoveTwice(decoded, i);
    } else {
      RemoveAfterPut(decoded, i, NextCode(t));
      if HasKey(decoded, i) {
        PutExisting(decoded, i, NextCode(t));
      } else {
        PutNew(decoded, i, NextCode(t));
      }
    }
  }

  /** A link of a well-formed map over existing columns is itself well formed. */
  lemma LinkWellFormed(decoded: SortState, i: int, t: Code, ncols: nat)
    requires WellFormed(decoded, ncols) && 1 <= i <= ncols
    ensures WellFormed(LinkState(decoded, i, t), ncols)
  {
    var link := LinkState(decoded, i, t);
    var n := NextCode(t);
    NextCodeCycles(t);
    if CodeIs(n, SortNone) {
      RemoveKeys(decoded, i);
    } else {
      PutKeys(decoded, i, n);
    }
    forall j | 0 <= j < |link|
      ensures 1 <= link[j].0 <= ncols && CanonicalCode(link[j].1)
    {
      var k := link[j].0;
      assert HasKey(link, k);
      GetAt(link, j);
      LinkStateGet(decoded, i, t, k);
      if k != i {
        GetFound(decoded, k);
        var x :| 0 <= x < |decoded| && decoded[x].0 == k;
        GetAt(decoded, x);
      }
    }
  }

  /**
    Following a header link: the link's token decodes to the link's sort
    map, as text, for separators that satisfy SeparatorsOk.
   */
  lemma LinkTokenRoundTrip(decoded: SortState, i: int, c: Column, uriId: string, sortSep: string, typeSep: string, ncols: nat)
    requires SeparatorsOk(sortSep, typeSep) && WellFormed(decoded, ncols) && 1 <= i <= ncols
    ensures var e := EntryFor(decoded, i, c, uriId, sortSep, typeSep);
      Decode(Some(e.token), sortSep, typeSep, ncols) == Success(AsText(LinkState(decoded, i, e.typ)))
  {
    var t := EffectiveCode(decoded, i, c);
    LinkWellFormed(decoded, i, t, ncols);
    RoundTrip(LinkState(decoded, i, t), sortSep, typeSep, ncols);
  }

  lemma AsTextStable(m: SortState, ncols: nat)
    requires WellFormed(m, ncols)
    ensures WellFormed(AsText(m), ncols) && AsText(AsText(m)) == AsText(m)
    ensures forall k :: HasKey(AsText(m), k) <==> HasKey(m, k)
  {
    var r := AsText(m);
    forall k | HasKey(m, k)
      ensures HasKey(r, k)
    {
      var j :| 0 <= j < |m| && m[j].0 == k;
      assert r[j].0 == k;
    }
    forall k | HasKey(r, k)
      ensures HasKey(m, k)
    {
      var j :| 0 <= j < |r| && r[j].0 == k;
      assert m[j].0 == k;
    }
  }

  lemma LiteralDirections()
    ensures DirectionOf(TextCode("1")) == Ascending && DirectionOf(TextCode("2")) == Descending
    ensures CodeText(IntCode(1)) == "1" && CodeText(IntCode(2)) == "2"
  {
    DecimalTextIsNumeric(1);
    DecimalTextIsNumeric(2);
    assert NatToString(1) == "1" && NatToString(2) == "2";
  }

  /** Appending a new existing column with code 1 or 2 keeps a map well formed. */
  lemma AppendWellFormed(d: SortState, i: int, code: Code, ncols: nat)
    requires WellFormed(d, ncols) && !HasKey(d, i) && 1 <= i <= ncols && CanonicalCode(code)
    ensures WellFormed(d + [(i, code)], ncols)
  {
    var d1 := d + [(i, code)];
    forall a, b | 0 <= a < b < |d1|
      ensures d1[a].0 != d1[b].0
    {
      if b == |d| {
        assert HasKey(d, d1[a].0);
      }
    }
  }

  /** First click on an unsorted column that is not in the map: asc is appended. */
  lemma FirstClick(decoded: SortState, i: int, c: Column, uriId: string, sortSep: string, typeSep: string, ncols: nat)
    requires SeparatorsOk(sortSep, typeSep) && WellFormed(decoded, ncols) && 1 <= i <= ncols
    requires !HasKey(decoded, i) && DirectionOf(IntCode(c.sort)) == Unsorted
    ensures Decode(Some(EntryFor(decoded, i, c, uriId, sortSep, typeSep).token), sortSep, typeSep, ncols)
      == Success(AsText(decoded) + [(i, TextCode("1"))])
  {
    LiteralDirections();
    EffectiveCodeSource(decoded, i, c);
    LinkTokenRoundTrip(decoded, i, c, uriId, sortSep, typeSep, ncols);
    LinkStateKeepsOthers(decoded, i, IntCode(c.sort));
    AsTextAppend(decoded, (i, IntCode(SortAsc)));
  }

  /** Second click, on a column read back as asc at the end of the map: desc replaces it. */
  lemma SecondClick(d0: SortState, i: int, c: Column, uriId: string, sortSep: string, typeSep: string, ncols: nat)
    requires SeparatorsOk(sortSep, typeSep) && WellFormed(d0, ncols) && AsText(d0) == d0 && 1 <= i <= ncols
    requires !HasKey(d0, i)
    ensures Decode(Some(EntryFor(d0 + [(i, TextCode("1"))], i, c, uriId, sortSep, typeSep).token), sortSep, typeSep, ncols)
      == Success(d0 + [(i, TextCode("2"))])
  {
    var d1 := d0 + [(i, TextCode("1"))];
    LiteralDirections();
    AppendWellFormed(d0, i, TextCode("1"), ncols);
    GetAt(d1, |d0|);
    LinkTokenRoundTrip(d1, i, c, uriId, sortSep, typeSep, ncols);
    PutLast(d0, i, TextCode("1"), IntCode(SortDesc));
    AsTextAppend(d0, (i, IntCode(SortDesc)));
  }

  /** Third click, on a column read back as desc at the end of the map: it is removed. */
  lemma ThirdClick(d0: SortState, i: int, c: Column, uriId: string, sortSep: string, typeSep: string, ncols: nat)
    requires SeparatorsOk(sortSep, typeSep) && WellFormed(d0, ncols) && AsText(d0) == d0 && 1 <= i <= ncols
    requires !HasKey(d0, i)
    ensures Decode(Some(EntryFor(d0 + [(i, TextCode("2"))], i, c, uriId, sortSep, typeSep).token), sortSep, typeSep, ncols)
      == Success(d0)
  {
    var d2 := d0 + [(i, TextCode("2"))];
    LiteralDirections();
    AppendWellFormed(d0, i, TextCode("2"), ncols);
    GetAt(d2, |d0|);
    LinkTokenRoundTrip(d2, i, c, uriId, sortSep, typeSep, ncols);
    RemoveLast(d0, i, TextCode("2"));
  }

  /**
    Three clicks on the header of a column that starts unsorted: the first
    link adds the column as asc at the end of the map, the second turns
    it to desc in place, the third removes it, giving the map back.
   */
  lemma ClickCycle(decoded: SortState, i: int, c: Column, uriId: string, sortSep: string, typeSep: string, ncols: nat)
    requires SeparatorsOk(sortSep, typeSep) && WellFormed(decoded, ncols) && 1 <= i <= ncols
    requires !HasKey(decoded, i) && DirectionOf(IntCode(c.sort)) == Unsorted
    ensures var d0 := AsText(decoded);
      var d1 := d0 + [(i, TextCode("1"))];
      var d2 := d0 + [(i, TextCode("2"))];
      Decode(Some(EntryFor(decoded, i, c, uriId, sortSep, typeSep).token), sortSep, typeSep, ncols) == Success(d1) &&
      Decode(Some(EntryFor(d1, i, c, uriId, sortSep, typeSep).token), sortSep, typeSep, ncols) == Success(d2) &&
      Decode(Some(EntryFor(d2, i, c, uriId, sortSep, typeSep).token), sortSep, typeSep, ncols) == Success(d0)
  {
    var d0 := AsText(decoded);
    AsTextStable(decoded, ncols);
    FirstClick(decoded, i, c, uriId, sortSep, typeSep, ncols);
    SecondClick(d0, i, c, uriId, sortSep, typeSep, ncols);
    ThirdClick(d0, i, c, uriId, sortSep, typeSep, ncols);
  }

  /** Codes read from a token are never the integer sort_none, so each yields its call. */
  lemma {:induction false} OrderOpsShape(decoded: SortState, columns: seq<Column>)
    requires forall j :: 0 <= j < |decoded| ==> decoded[j].1.TextCode?
    ensures |OrderOps(decoded, columns)| == |decoded|
    ensures forall j :: 0 <= j < |decoded| ==>
      OrderOps(decoded, columns)[j] == QueryOp.OrderBy(ColumnField(columns, decoded[j].0), OrderDirection(decoded[j].1))
    decreases |decoded|
  {
    if decoded != [] {
      var n := |decoded| - 1;
      var init := decoded[..n];
      var last := decoded[n];
      assert forall j :: 0 <= j < |init| ==> init[j] == decoded[j];
      OrderOpsShape(init, columns);
      var prev := OrderOps(init, columns);
      var x := QueryOp.OrderBy(ColumnField(columns, last.0), OrderDirection(last.1));
      assert last.1.TextCode?;
      assert OrderOp(last, columns) == [x];
      var ops := OrderOps(decoded, columns);
      assert ops == prev + [x];
      forall j | 0 <= j < |decoded|
        ensures ops[j] == QueryOp.OrderBy(ColumnField(columns, decoded[j].0), OrderDirection(decoded[j].1))
      {
        if j < n {
          assert ops[j] == prev[j];
        }
      }
    }
  }

  /**
    In query mode, a decoded map yields exactly one `order_by` per entry,
    in decoded order, on the entry's column; configured defaults of other
    columns yield none.
   */
  lemma OrderOpsPerEntry(decoded: SortState, columns: seq<Column>)
    requires forall j :: 0 <= j < |decoded| ==> 1 <= decoded[j].0 <= |columns| && decoded[j].1.TextCode?
    ensures |OrderOps(decoded, columns)| == |decoded|
    ensures forall j :: 0 <= j < |decoded| ==>
      OrderOps(decoded, columns)[j] == QueryOp.OrderBy(columns[decoded[j].0 - 1].column, OrderDirection(decoded[j].1))
    ensures forall j :: 0 <= j < |decoded| ==>
      (OrderOps(decoded, columns)[j].direction == "asc" <==> DirectionOf(decoded[j].1) == Ascending)
  {
    OrderOpsShape(decoded, columns);
    forall j | 0 <= j < |decoded|
      ensures OrderOps(decoded, columns)[j].direction == "asc" <==> DirectionOf(decoded[j].1) == Ascending
    {
      OrderDirectionMatchesLink(decoded[j].1);
    }
  }
}
