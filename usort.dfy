/**
  PHP's `usort` as the table uses it: the values are ordered by a
  user comparator (here, a stable insertion sort) and renumbered 0..n-1,
  the old keys being dropped.
 */
module Usort {
  import opened Assoc

  function Sign(x: int): int
  {
    if x > 0 then 1 else if x < 0 then -1 else 0
  }

  /** The comparator's sign flips when its arguments are swapped. */
  ghost predicate Antisymmetric<T(!new)>(cmp: (T, T) -> int)
  {
    forall x, y :: Sign(cmp(x, y)) == -Sign(cmp(y, x))
  }

  /** Each value is ordered no later than the value after it. */
  ghost predicate AdjacentSorted<T>(s: seq<T>, cmp: (T, T) -> int)
  {
    forall j :: 0 < j < |s| ==> cmp(s[j - 1], s[j]) <= 0
  }

  /** Insert x after every value it does not order strictly before. */
  function Insert<T>(x: T, s: seq<T>, cmp: (T, T) -> int): seq<T>
    decreases |s|
  {
    if s == [] then [x]
    else if cmp(x, s[0]) < 0 then [x] + s
    else [s[0]] + Insert(x, s[1..], cmp)
  }

  function StableSort<T>(s: seq<T>, cmp: (T, T) -> int): seq<T>
    decreases |s|
  {
    if s == [] then [] else Insert(s[|s| - 1], StableSort(s[..|s| - 1], cmp), cmp)
  }

  /** `usort($entries, $cmp)`. */
  function UsortEntries<K, T>(entries: seq<(K, T)>, cmp: (T, T) -> int): seq<(int, T)>
  {
    Reindex(StableSort(Values(entries), cmp))
  }

  lemma {:induction false} InsertPermutes<T>(x: T, s: seq<T>, cmp: (T, T) -> int)
    ensures multiset(Insert(x, s, cmp)) == multiset(s) + multiset{x}
    decreases |s|
  {
    if s != [] && cmp(x, s[0]) >= 0 {
      InsertPermutes(x, s[1..], cmp);
      assert s == [s[0]] + s[1..];
    }
  }

  /** Sorting rearranges the values and nothing else. */
  lemma {:induction false} SortPermutes<T>(s: seq<T>, cmp: (T, T) -> int)
    ensures multiset(StableSort(s, cmp)) == multiset(s)
    decreases |s|
  {
    if s != [] {
      SortPermutes(s[..|s| - 1], cmp);
      InsertPermutes(s[|s| - 1], StableSort(s[..|s| - 1], cmp), cmp);
      assert s == s[..|s| - 1] + [s[|s| - 1]];
    }
  }

  lemma TailSorted<T>(s: seq<T>, cmp: (T, T) -> int)
    requires s != [] && AdjacentSorted(s, cmp)
    ensures AdjacentSorted(s[1..], cmp)
  {
    var t := s[1..];
    forall j | 0 < j < |t|
      ensures cmp(t[j - 1], t[j]) <= 0
    {
      assert t[j - 1] == s[j] && t[j] == s[j + 1];
    }
  }

  /** Inserting into an ordered list keeps it ordered; the head is x or the old head. */
  lemma {:induction false} InsertSorted<T(!new)>(x: T, s: seq<T>, cmp: (T, T) -> int)
    requires Antisymmetric(cmp) && AdjacentSorted(s, cmp)
    ensures AdjacentSorted(Insert(x, s, cmp), cmp)
    ensures |Insert(x, s, cmp)| == |s| + 1
    ensures Insert(x, s, cmp)[0] == x || (s != [] && Insert(x, s, cmp)[0] == s[0])
    decreases |s|
  {
    var r := Insert(x, s, cmp);
    if s == [] {
      assert r == [x];
    } else if cmp(x, s[0]) < 0 {
      assert r == [x] + s;
      forall j | 0 < j < |r|
        ensures cmp(r[j - 1], r[j]) <= 0
      {
        if j > 1 {
          assert r[j - 1] == s[j - 2] && r[j] == s[j - 1];
        }
      }
    } else {
      var t := s[1..];
      TailSorted(s, cmp);
      InsertSorted(x, t, cmp);
      var u := Insert(x, t, cmp);
      assert r == [s[0]] + u;
      assert cmp(s[0], x) <= 0 by {
        assert Sign(cmp(s[0], x)) == -Sign(cmp(x, s[0]));
      }
      assert cmp(r[0], r[1]) <= 0 by {
        if u[0] != x {
          assert u[0] == s[1] && cmp(s[0], s[1]) <= 0;
        }
      }
      forall j | 1 < j < |r|
        ensures cmp(r[j - 1], r[j]) <= 0
      {
        assert r[j - 1] == u[j - 2] && r[j] == u[j - 1];
      }
    }
  }

  /** With an antisymmetric comparator, each value is ordered no later than the next. */
  lemma {:induction false} SortSorted<T(!new)>(s: seq<T>, cmp: (T, T) -> int)
    requires Antisymmetric(cmp)
    ensures AdjacentSorted(StableSort(s, cmp), cmp)
    ensures |StableSort(s, cmp)| == |s|
    decreases |s|
  {
    if s != [] {
      SortSorted(s[..|s| - 1], cmp);
      InsertSorted(s[|s| - 1], StableSort(s[..|s| - 1], cmp), cmp);
    }
  }

  /** A comparator that finds every pair equal leaves the order as it was. */
  lemma {:induction false} SortAllEqual<T>(s: seq<T>, cmp: (T, T) -> int)
    requires forall x, y :: cmp(x, y) == 0
    ensures StableSort(s, cmp) == s
    decreases |s|
  {
    if s != [] {
      var init := s[..|s| - 1];
      SortAllEqual(init, cmp);
      InsertAtEnd(s[|s| - 1], init, cmp);
      assert init + [s[|s| - 1]] == s;
    }
  }

  lemma {:induction false} InsertAtEnd<T>(x: T, s: seq<T>, cmp: (T, T) -> int)
    requires forall y :: cmp(x, y) == 0
    ensures Insert(x, s, cmp) == s + [x]
    decreases |s|
  {
    if s != [] {
      InsertAtEnd(x, s[1..], cmp);
      assert s == [s[0]] + s[1..];
    }
  }
}
