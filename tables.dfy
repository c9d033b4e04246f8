/**
 * The query shapes the data-access layer uses, over a table held as a
 * sequence of rows in storage order: `WHERE` (filter), taking the first
 * row of a result, and `ORDER BY ... DESC`.
 */
module Tables {
  import opened Options

  /** `SELECT * ... WHERE keep(row)`: the matching rows, in storage order. */
  function Filter<T>(s: seq<T>, keep: T -> bool): (r: seq<T>)
    ensures |r| <= |s|
    ensures forall i :: 0 <= i < |r| ==> r[i] in s && keep(r[i])
    ensures forall i :: 0 <= i < |s| && keep(s[i]) ==> s[i] in r
    decreases |s|
  {
    if |s| == 0 then []
    else
      var rest := Filter(s[1..], keep);
      assert s == [s[0]] + s[1..];
      if keep(s[0]) then [s[0]] + rest else rest
  }

  /**
   * The rows a `DELETE ... WHERE p` removes and the rows it keeps (those
   * meeting the opposite condition `q`) together make up the whole table,
   * so the number of affected rows is the difference in size.
   */
  lemma {:induction false} FilterPartition<T>(s: seq<T>, p: T -> bool, q: T -> bool)
    requires forall i :: 0 <= i < |s| ==> q(s[i]) == !p(s[i])
    ensures |Filter(s, p)| + |Filter(s, q)| == |s|
    ensures multiset(Filter(s, p)) + multiset(Filter(s, q)) == multiset(s)
    decreases |s|
  {
    if |s| > 0 {
      FilterPartition(s[1..], p, q);
      assert s == [s[0]] + s[1..];
    }
  }

  /** Two conditions that agree on every row of the table select the same rows. */
  lemma {:induction false} FilterCongruent<T>(s: seq<T>, p: T -> bool, q: T -> bool)
    requires forall i :: 0 <= i < |s| ==> p(s[i]) == q(s[i])
    ensures Filter(s, p) == Filter(s, q)
    decreases |s|
  {
    if |s| > 0 {
      FilterCongruent(s[1..], p, q);
    }
  }

  /** A condition no row meets selects nothing; one every row meets selects everything. */
  lemma {:induction false} FilterAllOrNothing<T>(s: seq<T>, p: T -> bool)
    ensures (forall i :: 0 <= i < |s| ==> !p(s[i])) ==> Filter(s, p) == []
    ensures (forall i :: 0 <= i < |s| ==> p(s[i])) ==> Filter(s, p) == s
    decreases |s|
  {
    if |s| > 0 {
      FilterAllOrNothing(s[1..], p);
      assert s == [s[0]] + s[1..];
    }
  }

  /** `result[0] || null`: the first matching row in storage order, if any. */
  function FindFirst<T>(s: seq<T>, p: T -> bool): (r: Option<T>)
    ensures r.None? <==> forall i :: 0 <= i < |s| ==> !p(s[i])
    ensures r.Some? ==> exists k :: 0 <= k < |s| && s[k] == r.value && p(s[k])
                                    && forall j :: 0 <= j < k ==> !p(s[j])
    decreases |s|
  {
    if |s| == 0 then None
    else if p(s[0]) then Some(s[0])
    else
      var r := FindFirst(s[1..], p);
      assert forall i :: 1 <= i < |s| ==> s[i] == s[1..][i - 1];
      r
  }

  /** Rows ordered by a descending key, as `ORDER BY key DESC` returns them. */
  predicate SortedDesc<T>(s: seq<T>, key: T -> int) {
    forall i, j :: 0 <= i < j < |s| ==> key(s[i]) >= key(s[j])
  }

  /** A row whose key bounds every key of a descending sequence can go in front of it. */
  lemma ConsSorted<T>(y: T, s: seq<T>, key: T -> int)
    requires SortedDesc(s, key)
    requires forall i :: 0 <= i < |s| ==> key(y) >= key(s[i])
    ensures SortedDesc([y] + s, key)
  {
    assert forall i :: 1 <= i < |[y] + s| ==> ([y] + s)[i] == s[i - 1];
  }

  /** The head of a descending sequence bounds every row of its tail with `x` added. */
  lemma HeadBoundsInsertion<T>(s: seq<T>, x: T, rest: seq<T>, key: T -> int)
    requires |s| > 0 && SortedDesc(s, key) && key(s[0]) >= key(x)
    requires multiset(rest) == multiset(s[1..]) + multiset{x}
    ensures forall i :: 0 <= i < |rest| ==> key(s[0]) >= key(rest[i])
  {
    forall i | 0 <= i < |rest| ensures key(s[0]) >= key(rest[i]) {
      assert rest[i] in multiset(rest);
      if rest[i] != x {
        assert rest[i] in multiset(s[1..]);
        var k :| 0 <= k < |s[1..]| && s[1..][k] == rest[i];
        assert s[k + 1] == rest[i];
      }
    }
  }

  /** Places `x` into a descending sequence, after every row whose key is at least `x`'s. */
  function InsertDesc<T>(x: T, s: seq<T>, key: T -> int): (r: seq<T>)
    requires SortedDesc(s, key)
    ensures SortedDesc(r, key)
    ensures multiset(r) == multiset(s) + multiset{x}
    decreases |s|
  {
    if |s| == 0 then [x]
    else if key(s[0]) < key(x) then
      ConsSorted(x, s, key);
      [x] + s
    else
      var rest := InsertDesc(x, s[1..], key);
      HeadBoundsInsertion(s, x, rest, key);
      ConsSorted(s[0], rest, key);
      assert s == [s[0]] + s[1..];
      [s[0]] + rest
  }

  /**
   * `ORDER BY key DESC`: the same rows, newest first. Rows with equal keys
   * come out in some order; this one is as good as any the database picks.
   */
  function SortDesc<T>(s: seq<T>, key: T -> int): (r: seq<T>)
    ensures SortedDesc(r, key)
    ensures multiset(r) == multiset(s)
    decreases |s|
  {
    if |s| == 0 then []
    else
      assert s == [s[0]] + s[1..];
      InsertDesc(s[0], SortDesc(s[1..], key), key)
  }
}
