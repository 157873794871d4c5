/**
  `compare()`: the multi-key row comparator `usort` is given in row mode.
  `strtotime`, `strnatcasecmp` and the columns' `compare_function`s are
  outside code and enter as parameters.
 */
module Comparator {
  import opened Wrappers
  import opened Assoc
  import opened SortCodec
  import opened SortResolver
  import opened Columns
  import opened Usort

  /** `strtotime` (None for false) and `strnatcasecmp`. */
  datatype Env = Env(strToTime: string -> Option<int>, natCaseCmp: (string, string) -> int)

  /** `strtotime` succeeded: the test rejects false and -1, and also 0, since `0 == false` holds. */
  predicate DateOk(t: Option<int>)
  {
    t.Some? && t.value != -1 && t.value != 0
  }

  /** The unsigned comparison of two rows on one column. */
  function Base(c: Column, env: Env, a: Row, b: Row): int
  {
    var x := Value(a, c.column);
    var y := Value(b, c.column);
    match c.opts.compareFn
    case Some(f) => f(x, y)
    case None =>
      var tx := env.strToTime(x);
      var ty := env.strToTime(y);
      if DateOk(tx) && DateOk(ty) then Sign(tx.value - ty.value) else env.natCaseCmp(x, y)
  }

  /** `$type`: -1 when column i's entry is desc, +1 otherwise, also when the column has no entry. */
  function TypeSign(sort: map<int, SortEntry>, i: int): int
  {
    if i in sort && CodeIs(sort[i].typ, SortDesc) then -1 else 1
  }

  /** The signed comparison on column i. */
  function KeyResult(columns: seq<Column>, sort: map<int, SortEntry>, env: Env, a: Row, b: Row, i: int): int
    requires 1 <= i <= |columns|
  {
    TypeSign(sort, i) * Base(columns[i - 1], env, a, b)
  }

  /** `compare($a, $b, $i)`. */
  function Compare(columns: seq<Column>, sort: map<int, SortEntry>, env: Env, a: Row, b: Row, i: int): int
    decreases |sort| - i
  {
    if |sort| == 0 || !(1 <= i <= |columns|) then 0
    else
      var r := KeyResult(columns, sort, env, a, b, i);
      if r == 0 && i < |sort| - 1 then Compare(columns, sort, env, a, b, i + 1) else r
  }

  /** The comparator `usort` receives: `compare` with its default start index 0. */
  function RowComparator(columns: seq<Column>, sort: map<int, SortEntry>, env: Env): (Row, Row) -> int
  {
    (x: Row, y: Row) => Compare(columns, sort, env, x, y, 0)
  }

  /**
    Columns are numbered from 1, so the call with the default index finds
    no column 0 and reports every pair of rows as equal.
   */
  lemma CompareFromUsort(columns: seq<Column>, sort: map<int, SortEntry>, env: Env, a: Row, b: Row)
    ensures Compare(columns, sort, env, a, b, 0) == 0
  {
  }

  /**
    Row mode therefore keeps the rows in their given order, only
    renumbering them 0..n-1.
   */
  lemma RowSortKeepsOrder<K>(entries: seq<(K, Row)>, columns: seq<Column>, sort: map<int, SortEntry>, env: Env)
    ensures UsortEntries(entries, RowComparator(columns, sort, env)) == Reindex(Values(entries))
  {
    SortAllEqual(Values(entries), RowComparator(columns, sort, env));
  }

  /**
    An index with a sort entry decides on the first column, from i on,
    whose signed result is not 0: columns i..k-1 all tying, compare at i
    is compare at k, for k no further than index count(sort)-1, and a
    non-zero result at k is the result at i.
   */
  lemma {:induction false} CompareTieBreak(columns: seq<Column>, sort: map<int, SortEntry>, env: Env, a: Row, b: Row, i: int, k: int)
    requires 1 <= i <= k < |sort| && k <= |columns|
    requires forall j :: i <= j < k ==> KeyResult(columns, sort, env, a, b, j) == 0
    ensures Compare(columns, sort, env, a, b, i) == Compare(columns, sort, env, a, b, k)
    ensures KeyResult(columns, sort, env, a, b, k) != 0 ==>
      Compare(columns, sort, env, a, b, i) == KeyResult(columns, sort, env, a, b, k)
    decreases k - i
  {
    if i < k {
      CompareTieBreak(columns, sort, env, a, b, i + 1, k);
    }
  }

  /**
    The recursion stops at index count(sort)-1: when columns i up to that
    index all tie, the result is 0 whatever the columns after it say. With
    every column sortable, the last column never breaks a tie.
   */
  lemma LastColumnNeverBreaksTies(columns: seq<Column>, sort: map<int, SortEntry>, env: Env, a: Row, b: Row, i: int)
    requires 1 <= i < |sort| && |sort| - 1 <= |columns|
    requires forall j :: i <= j < |sort| ==> KeyResult(columns, sort, env, a, b, j) == 0
    ensures Compare(columns, sort, env, a, b, i) == 0
  {
    CompareTieBreak(columns, sort, env, a, b, i, |sort| - 1);
  }

  /** Every column's compare_function, and strnatcasecmp, flip sign when the arguments are swapped. */
  ghost predicate ComparatorsAntisymmetric(columns: seq<Column>, env: Env)
  {
    Antisymmetric(env.natCaseCmp) &&
    forall j :: 0 <= j < |columns| && columns[j].opts.compareFn.Some? ==> Antisymmetric(columns[j].opts.compareFn.value)
  }

  lemma BaseAntisymmetric(columns: seq<Column>, env: Env, a: Row, b: Row, i: int)
    requires ComparatorsAntisymmetric(columns, env) && 1 <= i <= |columns|
    ensures Sign(Base(columns[i - 1], env, a, b)) == -Sign(Base(columns[i - 1], env, b, a))
  {
    var c := columns[i - 1];
    var x := Value(a, c.column);
    var y := Value(b, c.column);
    if c.opts.compareFn.Some? {
      assert Antisymmetric(c.opts.compareFn.value);
      assert Sign(c.opts.compareFn.value(x, y)) == -Sign(c.opts.compareFn.value(y, x));
    } else {
      assert Sign(env.natCaseCmp(x, y)) == -Sign(env.natCaseCmp(y, x));
    }
  }

  /** With antisymmetric parts, swapping the rows flips the sign of the comparison. */
  lemma {:induction false} CompareAntisymmetric(columns: seq<Column>, sort: map<int, SortEntry>, env: Env, a: Row, b: Row, i: int)
    requires ComparatorsAntisymmetric(columns, env)
    ensures Sign(Compare(columns, sort, env, a, b, i)) == -Sign(Compare(columns, sort, env, b, a, i))
    decreases |sort| - i
  {
    if |sort| != 0 && 1 <= i <= |columns| {
      BaseAntisymmetric(columns, env, a, b, i);
      var s := TypeSign(sort, i);
      var ab := Base(columns[i - 1], env, a, b);
      var ba := Base(columns[i - 1], env, b, a);
      assert Sign(s * ab) == s * Sign(ab) && Sign(s * ba) == s * Sign(ba);
      if i < |sort| - 1 {
        CompareAntisymmetric(columns, sort, env, a, b, i + 1);
      }
    }
  }

  /** With reflexive parts, a row compares equal to itself. */
  lemma {:induction false} CompareReflexive(columns: seq<Column>, sort: map<int, SortEntry>, env: Env, a: Row, i: int)
    requires forall x :: env.natCaseCmp(x, x) == 0
    requires forall j, x :: 0 <= j < |columns| && columns[j].opts.compareFn.Some? ==> columns[j].opts.compareFn.value(x, x) == 0
    ensures Compare(columns, sort, env, a, a, i) == 0
    decreases |sort| - i
  {
    if |sort| != 0 && 1 <= i <= |columns| {
      var c := columns[i - 1];
      var x := Value(a, c.column);
      if c.opts.compareFn.Some? {
        assert c.opts.compareFn.value(x, x) == 0;
      } else {
        assert env.natCaseCmp(x, x) == 0;
      }
      if i < |sort| - 1 {
        CompareReflexive(columns, sort, env, a, i + 1);
      }
    }
  }
}
