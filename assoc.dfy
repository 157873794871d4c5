/**
  An ordered PHP array with scalar keys, as a list of key/value pairs in
  insertion order. Writing an existing key replaces its value where it
  stands; writing a new key appends it; `unset` drops the entry and keeps
  the others in order.
 */
module Assoc {
  import opened Wrappers

  predicate HasKey<K(==,!new), V>(m: seq<(K, V)>, k: K)
  {
    exists j :: 0 <= j < |m| && m[j].0 == k
  }

  /** PHP arrays never hold one key twice. */
  predicate DistinctKeys<K(==,!new), V>(m: seq<(K, V)>)
  {
    forall a, b :: 0 <= a < b < |m| ==> m[a].0 != m[b].0
  }

  /** `m[k]` when `isset(m[k])`, None otherwise. */
  function Get<K(==), V>(m: seq<(K, V)>, k: K): Option<V>
    decreases |m|
  {
    if m == [] then None else if m[0].0 == k then Some(m[0].1) else Get(m[1..], k)
  }

  /** `m[k] = v`. */
  function Put<K(==), V>(m: seq<(K, V)>, k: K, v: V): seq<(K, V)>
    decreases |m|
  {
    if m == [] then [(k, v)]
    else if m[0].0 == k then [(k, v)] + m[1..]
    else [m[0]] + Put(m[1..], k, v)
  }

  /** `unset(m[k])`. */
  function Remove<K(==), V>(m: seq<(K, V)>, k: K): seq<(K, V)>
    decreases |m|
  {
    if m == [] then []
    else if m[0].0 == k then Remove(m[1..], k)
    else [m[0]] + Remove(m[1..], k)
  }

  /** `array_values(m)`: the values in order, keys dropped. */
  function Values<K, T>(entries: seq<(K, T)>): (r: seq<T>)
    ensures |r| == |entries|
  {
    seq(|entries|, j requires 0 <= j < |entries| => entries[j].1)
  }

  /** A list of values as a PHP array keyed 0..n-1, as `usort` and `array_merge` leave it. */
  function Reindex<T>(vs: seq<T>): (r: seq<(int, T)>)
    ensures |r| == |vs|
  {
    seq(|vs|, j requires 0 <= j < |vs| => (j, vs[j]))
  }

  lemma ConsKeys<K(!new), V>(x: (K, V), t: seq<(K, V)>)
    ensures forall k :: HasKey([x] + t, k) <==> x.0 == k || HasKey(t, k)
    ensures DistinctKeys([x] + t) <==> DistinctKeys(t) && !HasKey(t, x.0)
  {
    var m := [x] + t;
    assert m[0] == x;
    forall k | HasKey(t, k)
      ensures HasKey(m, k)
    {
      var j :| 0 <= j < |t| && t[j].0 == k;
      assert m[j + 1].0 == k;
    }
    forall k | HasKey(m, k) && x.0 != k
      ensures HasKey(t, k)
    {
      var j :| 0 <= j < |m| && m[j].0 == k;
      assert t[j - 1].0 == k;
    }
    if DistinctKeys(t) && !HasKey(t, x.0) {
      forall a, b | 0 <= a < b < |m|
        ensures m[a].0 != m[b].0
      {
        if a == 0 {
          assert m[b].0 == t[b - 1].0;
        } else {
          assert m[a] == t[a - 1] && m[b] == t[b - 1];
        }
      }
    }
    if DistinctKeys(m) {
      forall a, b | 0 <= a < b < |t|
        ensures t[a].0 != t[b].0
      {
        assert m[a + 1] == t[a] && m[b + 1] == t[b];
      }
      forall j | 0 <= j < |t|
        ensures t[j].0 != x.0
      {
        assert m[j + 1] == t[j];
      }
    }
  }

  lemma Split<K, V>(m: seq<(K, V)>)
    requires m != []
    ensures m == [m[0]] + m[1..]
  {
  }

  /** A key is found exactly when the array holds it. */
  lemma {:induction false} GetFound<K(!new), V>(m: seq<(K, V)>, k: K)
    ensures Get(m, k).Some? <==> HasKey(m, k)
    decreases |m|
  {
    if m != [] {
      Split(m);
      ConsKeys(m[0], m[1..]);
      GetFound(m[1..], k);
    }
  }

  /** In an array with distinct keys, the value found for an entry's key is that entry's value. */
  lemma {:induction false} GetAt<K(!new), V>(m: seq<(K, V)>, j: nat)
    requires DistinctKeys(m) && j < |m|
    ensures Get(m, m[j].0) == Some(m[j].1)
    decreases |m|
  {
    if j > 0 {
      Split(m);
      ConsKeys(m[0], m[1..]);
      assert m[1..][j - 1] == m[j];
      GetAt(m[1..], j - 1);
    }
  }

  /** After `m[k] = v`, m[k] is v and every other key reads as before. */
  lemma {:induction false} PutGet<K(!new), V>(m: seq<(K, V)>, k: K, v: V, k': K)
    ensures Get(Put(m, k, v), k') == if k' == k then Some(v) else Get(m, k')
    decreases |m|
  {
    if m != [] && m[0].0 != k {
      PutGet(m[1..], k, v, k');
    }
  }

  /** `m[k] = v` adds at most the key k, and keeps keys distinct. */
  lemma {:induction false} PutKeys<K(!new), V>(m: seq<(K, V)>, k: K, v: V)
    ensures forall k' :: HasKey(Put(m, k, v), k') <==> HasKey(m, k') || k' == k
    ensures DistinctKeys(m) ==> DistinctKeys(Put(m, k, v))
    decreases |m|
  {
    if m == [] {
      assert Put(m, k, v)[0].0 == k;
    } else {
      Split(m);
      ConsKeys(m[0], m[1..]);
      if m[0].0 == k {
        ConsKeys((k, v), m[1..]);
      } else {
        PutKeys(m[1..], k, v);
        ConsKeys(m[0], Put(m[1..], k, v));
      }
    }
  }

  /** Every entry after `m[k] = v` is the written one or an entry of m. */
  lemma {:induction false} PutEntries<K(!new), V(!new)>(m: seq<(K, V)>, k: K, v: V)
    ensures forall x :: x in Put(m, k, v) ==> x == (k, v) || x in m
    decreases |m|
  {
    if m != [] && m[0].0 != k {
      PutEntries(m[1..], k, v);
      assert forall x :: x in m[1..] ==> x in m;
    }
  }

  /** Overwriting an existing key keeps every entry where it stands. */
  lemma {:induction false} PutExisting<K(!new), V>(m: seq<(K, V)>, k: K, v: V)
    requires HasKey(m, k)
    ensures |Put(m, k, v)| == |m|
    ensures forall j :: 0 <= j < |m| ==> Put(m, k, v)[j].0 == m[j].0
    decreases |m|
  {
    var r := Put(m, k, v);
    var rest := m[1..];
    if m[0].0 == k {
      assert r == [(k, v)] + rest;
      forall j | 0 < j < |m|
        ensures r[j].0 == m[j].0
      {
        assert r[j] == rest[j - 1] == m[j];
      }
    } else {
      Split(m);
      ConsKeys(m[0], rest);
      PutExisting(rest, k, v);
      var t := Put(rest, k, v);
      assert r == [m[0]] + t;
      forall j | 0 < j < |m|
        ensures r[j].0 == m[j].0
      {
        assert r[j] == t[j - 1];
        assert m[j] == rest[j - 1];
      }
    }
  }

  /** Writing a new key appends it. */
  lemma {:induction false} PutNew<K(!new), V>(m: seq<(K, V)>, k: K, v: V)
    requires !HasKey(m, k)
    ensures Put(m, k, v) == m + [(k, v)]
    decreases |m|
  {
    if m != [] {
      Split(m);
      ConsKeys(m[0], m[1..]);
      PutNew(m[1..], k, v);
    }
  }

  /** After `unset(m[k])`, k is gone and every other key reads as before. */
  lemma {:induction false} RemoveGet<K(!new), V>(m: seq<(K, V)>, k: K, k': K)
    ensures Get(Remove(m, k), k') == if k' == k then None else Get(m, k')
    decreases |m|
  {
    if m != [] {
      RemoveGet(m[1..], k, k');
    }
  }

  /** `unset` keeps the other keys, and keeps them distinct. */
  lemma {:induction false} RemoveKeys<K(!new), V>(m: seq<(K, V)>, k: K)
    ensures forall k' :: HasKey(Remove(m, k), k') <==> HasKey(m, k') && k' != k
    ensures DistinctKeys(m) ==> DistinctKeys(Remove(m, k))
    decreases |m|
  {
    if m != [] {
      Split(m);
      ConsKeys(m[0], m[1..]);
      RemoveKeys(m[1..], k);
      if m[0].0 != k {
        ConsKeys(m[0], Remove(m[1..], k));
      }
    }
  }

  /** Unsetting an absent key changes nothing. */
  lemma {:induction false} RemoveAbsent<K(!new), V>(m: seq<(K, V)>, k: K)
    requires !HasKey(m, k)
    ensures Remove(m, k) == m
    decreases |m|
  {
    if m != [] {
      Split(m);
      ConsKeys(m[0], m[1..]);
      RemoveAbsent(m[1..], k);
    }
  }

  /**
    Writing a key and then unsetting it leaves the same list as unsetting
    it straight away: the other entries keep their values and their order.
   */
  lemma {:induction false} RemoveAfterPut<K, V>(m: seq<(K, V)>, k: K, v: V)
    ensures Remove(Put(m, k, v), k) == Remove(m, k)
    decreases |m|
  {
    if m != [] && m[0].0 != k {
      RemoveAfterPut(m[1..], k, v);
    }
  }

  /** Unsetting twice is unsetting once. */
  lemma RemoveTwice<K(!new), V>(m: seq<(K, V)>, k: K)
    ensures Remove(Remove(m, k), k) == Remove(m, k)
  {
    RemoveKeys(m, k);
    RemoveAbsent(Remove(m, k), k);
  }

  /** Overwriting the last entry, when its key occurs nowhere else, replaces it in place. */
  lemma {:induction false} PutLast<K(!new), V>(m: seq<(K, V)>, k: K, v: V, w: V)
    requires !HasKey(m, k)
    ensures Put(m + [(k, v)], k, w) == m + [(k, w)]
    decreases |m|
  {
    if m != [] {
      Split(m);
      ConsKeys(m[0], m[1..]);
      assert (m + [(k, v)])[1..] == m[1..] + [(k, v)];
      PutLast(m[1..], k, v, w);
    }
  }

  /** Unsetting the last entry, when its key occurs nowhere else, drops exactly that entry. */
  lemma {:induction false} RemoveLast<K(!new), V>(m: seq<(K, V)>, k: K, v: V)
    requires !HasKey(m, k)
    ensures Remove(m + [(k, v)], k) == m
    decreases |m|
  {
    if m != [] {
      Split(m);
      ConsKeys(m[0], m[1..]);
      assert (m + [(k, v)])[1..] == m[1..] + [(k, v)];
      RemoveLast(m[1..], k, v);
    }
  }
}
