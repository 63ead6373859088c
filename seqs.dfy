/**
 * Generic sequence operations that stand for the row-store queries the
 * library application performs: filtering rows by a condition (a list
 * comprehension or a `filter_by`), looking a row up by a key (`query.get`,
 * `filter_by(...).first()`), uniqueness of a column, and the row id a new
 * row receives.
 */
module Seqs {

  datatype Option<+T> = None | Some(value: T)

  /** The elements of `s` that satisfy `p`, in their original order. */
  function Filter<T>(s: seq<T>, p: T -> bool): (r: seq<T>)
    ensures |r| <= |s|
    ensures forall i :: 0 <= i < |r| ==> p(r[i])
  {
    if s == [] then []
    else if p(s[0]) then [s[0]] + Filter(s[1..], p)
    else Filter(s[1..], p)
  }

  /** A filter keeps exactly the elements that satisfy its condition. */
  lemma {:induction false} FilterMembers<T>(s: seq<T>, p: T -> bool, x: T)
    ensures x in Filter(s, p) <==> x in s && p(x)
  {
    if s != [] {
      FilterMembers(s[1..], p, x);
      assert s == [s[0]] + s[1..];
    }
  }

  /** Filtering distributes over concatenation, so the order of rows is kept. */
  lemma {:induction false} FilterAppend<T>(a: seq<T>, b: seq<T>, p: T -> bool)
    ensures Filter(a + b, p) == Filter(a, p) + Filter(b, p)
  {
    if a == [] {
      assert a + b == b;
    } else {
      assert (a + b)[0] == a[0];
      assert (a + b)[1..] == a[1..] + b;
      FilterAppend(a[1..], b, p);
    }
  }

  /** A filter that keeps everything returns its input unchanged. */
  lemma {:induction false} FilterAll<T>(s: seq<T>, p: T -> bool)
    requires forall i :: 0 <= i < |s| ==> p(s[i])
    ensures Filter(s, p) == s
  {
    if s != [] {
      FilterAll(s[1..], p);
    }
  }

  /** A weaker condition keeps at least as many rows. */
  lemma {:induction false} FilterMonotone<T>(s: seq<T>, p: T -> bool, q: T -> bool)
    requires forall i :: 0 <= i < |s| ==> p(s[i]) ==> q(s[i])
    ensures |Filter(s, p)| <= |Filter(s, q)|
  {
    if s != [] {
      FilterMonotone(s[1..], p, q);
    }
  }

  /** The indices of `s` whose element satisfies both `p` and `q`. */
  ghost function IndicesWhere<T>(s: seq<T>, p: T -> bool, q: T -> bool): set<int>
  {
    set i | 0 <= i < |s| && p(s[i]) && q(s[i])
  }

  /** The number of indices of `s` whose element satisfies both `p` and `q`. */
  ghost function CountWhere<T>(s: seq<T>, p: T -> bool, q: T -> bool): nat
  {
    |IndicesWhere(s, p, q)|
  }

  /** Appending one element adds one to the count exactly when it satisfies both conditions. */
  lemma CountWhereAppend<T>(s: seq<T>, x: T, p: T -> bool, q: T -> bool)
    ensures CountWhere(s + [x], p, q) == CountWhere(s, p, q) + (if p(x) && q(x) then 1 else 0)
  {
    var t := s + [x];
    var before, after := IndicesWhere(s, p, q), IndicesWhere(t, p, q);
    var extra: set<int> := if p(x) && q(x) then {|s|} else {};
    forall i ensures i in after <==> i in before + extra {
      if 0 <= i < |s| {
        assert t[i] == s[i];
      }
    }
    assert after == before + extra;
    assert |s| !in before;
  }

  /**
   * Filtering twice keeps exactly the rows that satisfy both conditions:
   * the length of the nested filter is the number of such rows.
   */
  lemma {:induction false} NestedFilterCount<T>(s: seq<T>, p: T -> bool, q: T -> bool)
    ensures |Filter(Filter(s, p), q)| == CountWhere(s, p, q)
  {
    if s == [] {
      assert IndicesWhere(s, p, q) == {};
    } else {
      var n := |s| - 1;
      var init, x := s[..n], s[n];
      assert s == init + [x];
      NestedFilterCount(init, p, q);
      CountWhereAppend(init, x, p, q);
      FilterAppend(init, [x], p);
      FilterAppend(Filter(init, p), Filter([x], p), q);
      assert Filter([x], p) == if p(x) then [x] else [];
      assert |Filter(Filter([x], p), q)| == if p(x) && q(x) then 1 else 0;
    }
  }

  /** Replacing one element changes the length of a filter by that element's contribution only. */
  lemma FilterUpdateLength<T>(s: seq<T>, i: nat, y: T, p: T -> bool)
    requires i < |s|
    ensures |Filter(s[i := y], p)| ==
            |Filter(s, p)| - (if p(s[i]) then 1 else 0) + (if p(y) then 1 else 0)
  {
    var a, b := s[..i], s[i + 1..];
    assert s == a + [s[i]] + b;
    assert s[i := y] == a + [y] + b;
    FilterAppend(a + [s[i]], b, p);
    FilterAppend(a, [s[i]], p);
    FilterAppend(a + [y], b, p);
    FilterAppend(a, [y], p);
  }

  /**
   * The index of the first element of `s` whose key is `k`, or None.
   * This is a lookup by primary key or by a unique column.
   */
  function IndexOfKey<T, K(==)>(s: seq<T>, key: T -> K, k: K): (r: Option<nat>)
    ensures r.Some? ==> r.value < |s| && key(s[r.value]) == k
    ensures r.Some? ==> forall j :: 0 <= j < r.value ==> key(s[j]) != k
    ensures r.None? <==> forall j :: 0 <= j < |s| ==> key(s[j]) != k
  {
    if s == [] then None
    else if key(s[0]) == k then Some(0)
    else match IndexOfKey(s[1..], key, k)
      case None => None
      case Some(j) => Some(j + 1)
  }

  /** Appending a row keeps every earlier lookup and makes the new row findable. */
  lemma IndexOfKeyAppend<T, K>(s: seq<T>, x: T, key: T -> K, k: K)
    ensures IndexOfKey(s + [x], key, k) ==
            if IndexOfKey(s, key, k).Some? then IndexOfKey(s, key, k)
            else if key(x) == k then Some(|s|)
            else None
  {
    var t := s + [x];
    assert forall j :: 0 <= j < |s| ==> t[j] == s[j];
    assert t[|s|] == x;
  }

  /** Appending a row keeps every key that was found findable. */
  lemma LookupsKept<T, K>(s: seq<T>, x: T, key: T -> K)
    ensures forall k :: IndexOfKey(s, key, k).Some? ==> IndexOfKey(s + [x], key, k).Some?
  {
    forall k | IndexOfKey(s, key, k).Some? ensures IndexOfKey(s + [x], key, k).Some? {
      IndexOfKeyAppend(s, x, key, k);
    }
  }

  /** No two elements of `s` share a key: the column is unique. */
  ghost predicate UniqueKeys<T, K>(s: seq<T>, key: T -> K)
  {
    forall i, j :: 0 <= i < j < |s| ==> key(s[i]) != key(s[j])
  }

  /** In a unique column, the lookup of an element's key finds that element. */
  lemma IndexOfUniqueKey<T, K>(s: seq<T>, key: T -> K, i: nat)
    requires UniqueKeys(s, key) && i < |s|
    ensures IndexOfKey(s, key, key(s[i])) == Some(i)
  {
  }

  /** Appending an element whose key is absent keeps the column unique. */
  lemma UniqueKeysAppend<T, K>(s: seq<T>, x: T, key: T -> K)
    requires UniqueKeys(s, key) && IndexOfKey(s, key, key(x)).None?
    ensures UniqueKeys(s + [x], key)
  {
    var t := s + [x];
    forall i, j | 0 <= i < j < |t| ensures key(t[i]) != key(t[j]) {
      if j == |s| {
        assert t[i] == s[i];
      } else {
        assert t[i] == s[i] && t[j] == s[j];
      }
    }
  }

  /** Replacing an element by one with the same key keeps the column unique. */
  lemma UniqueKeysUpdate<T, K>(s: seq<T>, i: nat, y: T, key: T -> K)
    requires UniqueKeys(s, key) && i < |s| && key(y) == key(s[i])
    ensures UniqueKeys(s[i := y], key)
  {
    var t := s[i := y];
    forall a, b | 0 <= a < b < |t| ensures key(t[a]) != key(t[b]) {
      assert key(t[a]) == key(s[a]) && key(t[b]) == key(s[b]);
    }
  }

  /** Deleting an element keeps the column unique. */
  lemma UniqueKeysRemove<T, K>(s: seq<T>, i: nat, key: T -> K)
    requires UniqueKeys(s, key) && i < |s|
    ensures UniqueKeys(s[..i] + s[i + 1..], key)
  {
    var t := s[..i] + s[i + 1..];
    forall a, b | 0 <= a < b < |t| ensures key(t[a]) != key(t[b]) {
      var a', b' := if a < i then a else a + 1, if b < i then b else b + 1;
      assert t[a] == s[a'] && t[b] == s[b'];
    }
  }

  /**
   * The id a new row receives: one more than the largest id in the table,
   * or 1 for an empty table (the rule for an integer primary key).
   */
  function NextKey<T>(s: seq<T>, key: T -> nat): (r: nat)
    ensures r >= 1
    ensures forall i :: 0 <= i < |s| ==> key(s[i]) < r
    ensures s == [] ==> r == 1
  {
    if s == [] then 1
    else
      var rest := NextKey(s[1..], key);
      assert forall i :: 1 <= i < |s| ==> s[i] == s[1..][i - 1];
      if key(s[0]) + 1 >= rest then key(s[0]) + 1 else rest
  }

  /** In a table that has rows, the id a new row receives is one more than some row's id. */
  lemma {:induction false} NextKeyIsMaxPlusOne<T>(s: seq<T>, key: T -> nat)
    requires s != []
    ensures exists i :: 0 <= i < |s| && NextKey(s, key) == key(s[i]) + 1
  {
    if key(s[0]) + 1 < NextKey(s[1..], key) {
      NextKeyIsMaxPlusOne(s[1..], key);
      var j :| 0 <= j < |s[1..]| && NextKey(s[1..], key) == key(s[1..][j]) + 1;
      assert s[j + 1] == s[1..][j];
    }
  }

  /** The id a new row receives is not yet taken. */
  lemma NextKeyIsFresh<T>(s: seq<T>, key: T -> nat)
    ensures IndexOfKey(s, key, NextKey(s, key)).None?
  {
  }
}
