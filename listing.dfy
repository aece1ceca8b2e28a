/**
 * Orderings that the database applies to query results (`max`, `orderBy`),
 * written as functions over the finite sets and sequences of the model.
 */
module Listing {

  /** The largest element of a non-empty finite set of integers (SQL `MAX`). */
  function Max(s: set<int>): (m: int)
    requires s != {}
    ensures m in s && forall x :: x in s ==> x <= m
  {
    MaxExists(s);
    var m :| m in s && forall x :: x in s ==> x <= m;
    m
  }

  lemma MaxExists(s: set<int>)
    requires s != {}
    ensures exists m :: m in s && forall x :: x in s ==> x <= m
  {
    var m := LargestOf(s);
  }

  lemma {:induction false} LargestOf(s: set<int>) returns (m: int)
    requires s != {}
    ensures m in s && forall x :: x in s ==> x <= m
    decreases |s|
  {
    assert exists z :: z in s by {
      if forall z :: z !in s {
        assert false;
      }
    }
    var y :| y in s;
    var rest := s - {y};
    if rest == {} {
      assert s == {y};
      m := y;
    } else {
      var k := LargestOf(rest);
      m := if k < y then y else k;
      forall x | x in s ensures x <= m {
        if x != y {
          assert x in rest;
        }
      }
    }
  }

  /** The smallest element of a non-empty finite set of naturals. */
  function Min(s: set<nat>): (m: nat)
    requires s != {}
    ensures m in s && forall x :: x in s ==> m <= x
  {
    MinExists(s);
    var m :| m in s && forall x :: x in s ==> m <= x;
    m
  }

  lemma MinExists(s: set<nat>)
    requires s != {}
    ensures exists m :: m in s && forall x :: x in s ==> m <= x
  {
    var m := SmallestOf(s);
  }

  lemma {:induction false} SmallestOf(s: set<nat>) returns (m: nat)
    requires s != {}
    ensures m in s && forall x :: x in s ==> m <= x
    decreases |s|
  {
    var y :| y in s;
    var rest := s - {y};
    if rest == {} {
      assert s == {y};
      m := y;
    } else {
      var k := SmallestOf(rest);
      m := if y < k then y else k;
      forall x | x in s ensures m <= x {
        if x != y {
          assert x in rest;
        }
      }
    }
  }

  /** The ids of a set in increasing order: the order rows come back in before any `orderBy`. */
  function Ascending(s: set<nat>): (r: seq<nat>)
    ensures forall x :: x in s <==> x in r
    ensures forall i, j :: 0 <= i < j < |r| ==> r[i] < r[j]
    decreases |s|
  {
    if s == {} then []
    else
      var m := Min(s);
      var rest := Ascending(s - {m});
      assert forall i :: 0 <= i < |rest| ==> m < rest[i] by {
        forall i | 0 <= i < |rest| ensures m < rest[i] {
          assert rest[i] in s - {m};
        }
      }
      [m] + rest
  }

  /** Two strictly increasing sequences with the same elements are equal. */
  lemma {:induction false} IncreasingUnique(r: seq<nat>, q: seq<nat>)
    requires forall i, j :: 0 <= i < j < |r| ==> r[i] < r[j]
    requires forall i, j :: 0 <= i < j < |q| ==> q[i] < q[j]
    requires forall x :: x in r <==> x in q
    ensures r == q
    decreases |r|
  {
    assert r != [] ==> r[0] in q;
    assert q != [] ==> q[0] in r;
    if r != [] && q != [] {
      assert r[0] == q[0];
      forall x
        ensures x in r[1..] <==> x in q[1..]
      {
        if x in r[1..] {
          var i :| 1 <= i < |r| && r[i] == x;
          assert x in q && x != q[0];
        }
        if x in q[1..] {
          var j :| 1 <= j < |q| && q[j] == x;
          assert x in r && x != r[0];
        }
      }
      IncreasingUnique(r[1..], q[1..]);
      assert r == [r[0]] + r[1..] && q == [q[0]] + q[1..];
    }
  }

  /** The elements of a strictly increasing sequence come back in that order. */
  lemma AscendingOfIncreasing(s: set<nat>, q: seq<nat>)
    requires forall i, j :: 0 <= i < j < |q| ==> q[i] < q[j]
    requires forall x :: x in s <==> x in q
    ensures Ascending(s) == q
  {
    IncreasingUnique(Ascending(s), q);
  }

  /** No element occurs twice in `xs`: a query returns each row once. */
  predicate Distinct<T(==)>(xs: seq<T>) {
    forall i, j :: 0 <= i < j < |xs| ==> xs[i] != xs[j]
  }

  /** A sequence without repeats counts each element at most once. */
  lemma {:induction false} DistinctCounts<T>(xs: seq<T>)
    requires Distinct(xs)
    ensures forall x :: multiset(xs)[x] <= 1
    decreases |xs|
  {
    if xs != [] {
      var t := xs[1..];
      assert xs == [xs[0]] + t;
      assert Distinct(t) by {
        forall i, j | 0 <= i < j < |t| ensures t[i] != t[j] {
          assert t[i] == xs[i + 1] && t[j] == xs[j + 1];
        }
      }
      DistinctCounts(t);
      assert xs[0] !in t by {
        forall k | 0 <= k < |t| ensures t[k] != xs[0] {
          assert t[k] == xs[k + 1];
        }
      }
      assert multiset(t)[xs[0]] == 0;
    }
  }

  /** A sequence counting each element at most once has no repeats. */
  lemma CountsDistinct<T>(xs: seq<T>)
    requires forall x :: multiset(xs)[x] <= 1
    ensures Distinct(xs)
  {
    forall i, j | 0 <= i < j < |xs| ensures xs[i] != xs[j] {
      var front, back := xs[..j], xs[j..];
      assert xs == front + back;
      assert xs[i] == front[i] && xs[j] == back[0];
      assert multiset(xs)[xs[j]] == multiset(front)[xs[j]] + multiset(back)[xs[j]];
      assert multiset(back)[xs[j]] >= 1 && multiset(front)[xs[i]] >= 1;
    }
  }

  /** Reordering keeps a sequence free of repeats. */
  lemma DistinctPermutation<T>(xs: seq<T>, ys: seq<T>)
    requires Distinct(xs) && multiset(ys) == multiset(xs)
    ensures Distinct(ys)
  {
    DistinctCounts(xs);
    CountsDistinct(ys);
  }

  /** `xs` is ordered by `key`, smallest first. */
  predicate SortedBy<T>(xs: seq<T>, key: T -> int) {
    forall i, j :: 0 <= i < j < |xs| ==> key(xs[i]) <= key(xs[j])
  }

  /** Insert `x` into the ordered `xs` after every element with a key not above its own. */
  function InsertBy<T>(x: T, xs: seq<T>, key: T -> int): (r: seq<T>)
    requires SortedBy(xs, key)
    ensures multiset(r) == multiset(xs) + multiset{x}
    ensures SortedBy(r, key)
  {
    if xs == [] then [x]
    else if key(x) < key(xs[0]) then [x] + xs
    else
      var tail := InsertBy(x, xs[1..], key);
      assert xs == [xs[0]] + xs[1..];
      assert forall k :: 0 <= k < |tail| ==> key(xs[0]) <= key(tail[k]) by {
        forall k | 0 <= k < |tail| ensures key(xs[0]) <= key(tail[k]) {
          assert tail[k] in multiset(tail);
          assert tail[k] in multiset(xs[1..]) || tail[k] == x;
          if tail[k] != x {
            var j :| 0 <= j < |xs[1..]| && xs[1..][j] == tail[k];
            assert xs[j + 1] == tail[k];
          }
        }
      }
      [xs[0]] + tail
  }

  /** A sort of `xs` by `key` (SQL `ORDER BY`); the order among ties is not promised. */
  function SortBy<T>(xs: seq<T>, key: T -> int): (r: seq<T>)
    ensures multiset(r) == multiset(xs)
    ensures SortedBy(r, key)
  {
    if xs == [] then []
    else
      assert xs == [xs[0]] + xs[1..];
      InsertBy(xs[0], SortBy(xs[1..], key), key)
  }

  /** The ids of `ids` ordered by `key`, each once. */
  function SortIds(ids: set<nat>, key: nat -> int): (r: seq<nat>)
    ensures forall id :: id in r <==> id in ids
    ensures Distinct(r)
    ensures SortedBy(r, key)
  {
    var asc := Ascending(ids);
    var r := SortBy(asc, key);
    DistinctPermutation(asc, r);
    assert forall id :: id in r <==> id in ids by {
      forall id ensures id in r <==> id in ids {
        assert id in r <==> id in multiset(r);
        assert id in asc <==> id in multiset(asc);
      }
    }
    r
  }

  /** The key of row `id` of `m`, for ordering ids. */
  function RowKey<V>(m: map<nat, V>, key: V -> int): (k: nat -> int)
    ensures forall id :: id in m ==> k(id) == key(m[id])
  {
    (id: nat) => if id in m then key(m[id]) else 0
  }

  /**
   * The ids of the rows of `m` that `keep` selects, ordered by `key`
   * (a `WHERE` followed by an `ORDER BY`).
   */
  function SelectSorted<V>(m: map<nat, V>, keep: V -> bool, key: V -> int): (r: seq<nat>)
    ensures forall id :: id in r <==> id in m && keep(m[id])
    ensures Distinct(r)
    ensures forall i, j :: 0 <= i < j < |r| ==> r[i] in m && r[j] in m && key(m[r[i]]) <= key(m[r[j]])
  {
    var chosen := set id | id in m && keep(m[id]);
    var r := SortIds(chosen, RowKey(m, key));
    SortedRows(m, key, r);
    r
  }

  /** Ids of rows of `m` sorted by their row keys are sorted by `key`. */
  lemma SortedRows<V>(m: map<nat, V>, key: V -> int, r: seq<nat>)
    requires forall id :: id in r ==> id in m
    requires SortedBy(r, RowKey(m, key))
    ensures forall i, j :: 0 <= i < j < |r| ==> r[i] in m && r[j] in m && key(m[r[i]]) <= key(m[r[j]])
  {
    forall i, j | 0 <= i < j < |r|
      ensures r[i] in m && r[j] in m && key(m[r[i]]) <= key(m[r[j]])
    {
      assert r[i] in r && r[j] in r;
    }
  }
}
