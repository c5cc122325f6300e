/**
 * The ranking half of the query: the window `row_number()` over rows
 * partitioned by business name and ordered by rating (highest first), the
 * rank-1 selection it feeds, and the global ordering by rating.
 *
 * Neither ordering has a secondary key in the query, so ties are broken here
 * by position: within a name, the earlier row of two equally rated rows ranks
 * first; the global sort is stable. No property stated about the query
 * depends on that choice.
 */
module Ranking {
  import opened Catalog

  /** A catalog row with the computed `distance` column attached. */
  datatype Located = Located(rec: Restaurant, distance: real)

  /** The business names that occur in a table. */
  function Names(s: seq<Located>): set<string> {
    set x | x in s :: x.rec.busName
  }

  /** No two rows of the table share a business name. */
  predicate DistinctNames(s: seq<Located>) {
    forall a, b :: 0 <= a < b < |s| ==> s[a].rec.busName != s[b].rec.busName
  }

  /** Ratings never increase along the table. */
  predicate SortedByRating(s: seq<Located>) {
    forall a, b :: 0 <= a < b < |s| ==> s[a].rec.rating >= s[b].rec.rating
  }

  // ---------------------------------------------------------------------------
  // row_number() OVER (PARTITION BY bus_name ORDER BY rating DESC)
  // ---------------------------------------------------------------------------

  /** Rows j and i fall in the same window partition. */
  predicate SamePartition(s: seq<Located>, j: nat, i: nat)
    requires j < |s| && i < |s|
  {
    s[j].rec.busName == s[i].rec.busName
  }

  /** Row j comes before row i in the window order (rating descending, then position). */
  predicate Precedes(s: seq<Located>, j: nat, i: nat)
    requires j < |s| && i < |s|
  {
    s[j].rec.rating > s[i].rec.rating || (s[j].rec.rating == s[i].rec.rating && j < i)
  }

  /** No row of i's partition comes before row i. */
  predicate FirstInPartition(s: seq<Located>, i: nat)
    requires i < |s|
  {
    forall j :: 0 <= j < |s| && SamePartition(s, j, i) ==> !Precedes(s, j, i)
  }

  /** How many of the first n rows of i's partition come before row i. */
  function CountPreceding(s: seq<Located>, i: nat, n: nat): (c: nat)
    requires i < |s| && n <= |s|
    ensures c <= n
    ensures i < n ==> c < n  // row i never comes before itself
    ensures c == 0 <==> forall j :: 0 <= j < n && SamePartition(s, j, i) ==> !Precedes(s, j, i)
    decreases n
  {
    if n == 0 then 0
    else CountPreceding(s, i, n - 1) + (if SamePartition(s, n - 1, i) && Precedes(s, n - 1, i) then 1 else 0)
  }

  /** The row number of row i within its partition, counting from 1. */
  function RowNumber(s: seq<Located>, i: nat): (k: nat)
    requires i < |s|
    ensures 1 <= k <= |s|
    ensures k == 1 <==> FirstInPartition(s, i)
  {
    1 + CountPreceding(s, i, |s|)
  }

  /** The rows among the first n whose row number is 1, in table order. */
  function KeepFirstRanked(s: seq<Located>, n: nat): (r: seq<Located>)
    requires n <= |s|
    ensures |r| <= n
    ensures forall x :: x in r ==> exists i :: 0 <= i < n && FirstInPartition(s, i) && s[i] == x
    ensures forall i :: 0 <= i < n && FirstInPartition(s, i) ==> s[i] in r
    decreases n
  {
    if n == 0 then []
    else
      var kept := KeepFirstRanked(s, n - 1);
      if RowNumber(s, n - 1) == 1 then kept + [s[n - 1]] else kept
  }

  /** Two distinct rows that both rank first belong to different partitions. */
  lemma FirstRankedNamesDiffer(s: seq<Located>, i: nat, k: nat)
    requires i < |s| && k < |s| && i != k
    requires FirstInPartition(s, i) && FirstInPartition(s, k)
    ensures s[i].rec.busName != s[k].rec.busName
  {
    assert Precedes(s, i, k) || Precedes(s, k, i);
    assert SamePartition(s, i, k) ==> !Precedes(s, i, k);
    assert SamePartition(s, k, i) ==> !Precedes(s, k, i);
  }

  lemma {:induction false} KeepFirstRankedDistinct(s: seq<Located>, n: nat)
    requires n <= |s|
    ensures DistinctNames(KeepFirstRanked(s, n))
    decreases n
  {
    if n > 0 {
      var kept := KeepFirstRanked(s, n - 1);
      KeepFirstRankedDistinct(s, n - 1);
      if RowNumber(s, n - 1) == 1 {
        var r := kept + [s[n - 1]];
        forall a, b | 0 <= a < b < |r| ensures r[a].rec.busName != r[b].rec.busName {
          if b == |kept| {
            assert r[a] == kept[a] && kept[a] in kept;
            var i :| 0 <= i < n - 1 && FirstInPartition(s, i) && s[i] == kept[a];
            FirstRankedNamesDiffer(s, i, n - 1);
          } else {
            assert r[a] == kept[a] && r[b] == kept[b];
          }
        }
      }
    }
  }

  /**
   * Index of the row that ranks first for `name` among the first n rows, or -1
   * when none of them has that name.
   */
  function Leader(s: seq<Located>, name: string, n: nat): (c: int)
    requires n <= |s|
    ensures -1 <= c < n
    ensures c == -1 ==> forall j :: 0 <= j < n ==> s[j].rec.busName != name
    ensures c >= 0 ==> s[c].rec.busName == name
    ensures c >= 0 ==> forall j :: 0 <= j < n && s[j].rec.busName == name ==> !Precedes(s, j, c)
    decreases n
  {
    if n == 0 then -1
    else
      var c := Leader(s, name, n - 1);
      if s[n - 1].rec.busName != name then c
      else if c == -1 || s[n - 1].rec.rating > s[c].rec.rating then n - 1
      else c
  }

  /** Every partition has a row that ranks first. */
  lemma PartitionHasFirst(s: seq<Located>, i: nat)
    requires i < |s|
    ensures exists k :: 0 <= k < |s| && FirstInPartition(s, k) && s[k].rec.busName == s[i].rec.busName
  {
    var k := Leader(s, s[i].rec.busName, |s|);
    assert k != -1;
    assert FirstInPartition(s, k);
  }

  /** Keeping the rows of row number 1, in table order. */
  function BestPerName(s: seq<Located>): seq<Located> {
    KeepFirstRanked(s, |s|)
  }

  /**
   * One row per business name, the same set of names as the input, rows taken
   * from the input, and each kept row rated at least as high as every input
   * row that shares its name.
   */
  lemma BestPerNameSpec(s: seq<Located>)
    ensures DistinctNames(BestPerName(s))
    ensures Names(BestPerName(s)) == Names(s)
    ensures forall x :: x in BestPerName(s) ==> x in s
    ensures forall x, y :: x in BestPerName(s) && y in s && y.rec.busName == x.rec.busName ==>
      y.rec.rating <= x.rec.rating
  {
    KeepFirstRankedDistinct(s, |s|);
    BestPerNameFacts(s);
  }

  lemma BestPerNameFacts(s: seq<Located>)
    ensures Names(KeepFirstRanked(s, |s|)) == Names(s)
    ensures forall x :: x in KeepFirstRanked(s, |s|) ==> x in s
    ensures forall x, y :: x in KeepFirstRanked(s, |s|) && y in s && y.rec.busName == x.rec.busName ==>
      y.rec.rating <= x.rec.rating
  {
    var r := KeepFirstRanked(s, |s|);
    forall x, y | x in r && y in s && y.rec.busName == x.rec.busName
      ensures y.rec.rating <= x.rec.rating
    {
      var i :| 0 <= i < |s| && FirstInPartition(s, i) && s[i] == x;
      var j :| 0 <= j < |s| && s[j] == y;
      assert SamePartition(s, j, i);
    }
    forall name | name in Names(s) ensures name in Names(r) {
      var y :| y in s && y.rec.busName == name;
      var j :| 0 <= j < |s| && s[j] == y;
      PartitionHasFirst(s, j);
      var k :| 0 <= k < |s| && FirstInPartition(s, k) && s[k].rec.busName == name;
      assert s[k] in r;
    }
  }

  // ---------------------------------------------------------------------------
  // ORDER BY rating DESC
  // ---------------------------------------------------------------------------

  /** Places x before the first row it is rated at least as high as. */
  function InsertByRating(x: Located, t: seq<Located>): seq<Located> {
    if t == [] || x.rec.rating >= t[0].rec.rating then [x] + t
    else [t[0]] + InsertByRating(x, t[1..])
  }

  /** The global ordering by rating, highest first: a stable insertion sort. */
  function SortByRating(s: seq<Located>): seq<Located> {
    if s == [] then [] else InsertByRating(s[0], SortByRating(s[1..]))
  }

  /** Inserting adds exactly x. */
  lemma {:induction false} InsertByRatingPermutes(x: Located, t: seq<Located>)
    ensures multiset(InsertByRating(x, t)) == multiset(t) + multiset{x}
    decreases |t|
  {
    if !(t == [] || x.rec.rating >= t[0].rec.rating) {
      InsertByRatingPermutes(x, t[1..]);
      assert t == [t[0]] + t[1..];
    }
  }

  /** Sorting is a permutation. */
  lemma {:induction false} SortByRatingPermutes(s: seq<Located>)
    ensures multiset(SortByRating(s)) == multiset(s)
    decreases |s|
  {
    if s != [] {
      SortByRatingPermutes(s[1..]);
      InsertByRatingPermutes(s[0], SortByRating(s[1..]));
      assert s == [s[0]] + s[1..];
    }
  }

  lemma SortedCons(y: Located, s: seq<Located>)
    requires SortedByRating(s)
    requires forall z :: z in s ==> y.rec.rating >= z.rec.rating
    ensures SortedByRating([y] + s)
  {
    var r := [y] + s;
    forall a, b | 0 <= a < b < |r| ensures r[a].rec.rating >= r[b].rec.rating {
      assert r[b] == s[b - 1] && s[b - 1] in s;
      if a > 0 {
        assert r[a] == s[a - 1];
      }
    }
  }

  lemma {:induction false} InsertByRatingSorted(x: Located, t: seq<Located>)
    requires SortedByRating(t)
    ensures SortedByRating(InsertByRating(x, t))
    decreases |t|
  {
    if t == [] || x.rec.rating >= t[0].rec.rating {
      forall z | z in t ensures x.rec.rating >= z.rec.rating {
        var k :| 0 <= k < |t| && t[k] == z;
        assert k == 0 || t[0].rec.rating >= t[k].rec.rating;
      }
      SortedCons(x, t);
    } else {
      var tail := t[1..];
      assert SortedByRating(tail) by {
        forall a, b | 0 <= a < b < |tail| ensures tail[a].rec.rating >= tail[b].rec.rating {
          assert tail[a] == t[a + 1] && tail[b] == t[b + 1];
        }
      }
      InsertByRatingSorted(x, tail);
      InsertByRatingPermutes(x, tail);
      var rest := InsertByRating(x, tail);
      forall z | z in rest ensures t[0].rec.rating >= z.rec.rating {
        assert z in multiset(rest);
        if z != x {
          assert z in multiset(tail);
          var k :| 0 <= k < |tail| && tail[k] == z;
          assert tail[k] == t[k + 1];
        }
      }
      SortedCons(t[0], rest);
    }
  }

  lemma {:induction false} SortByRatingSorted(s: seq<Located>)
    ensures SortedByRating(SortByRating(s))
    decreases |s|
  {
    if s != [] {
      SortByRatingSorted(s[1..]);
      InsertByRatingSorted(s[0], SortByRating(s[1..]));
    }
  }

  /** Two tables holding the same rows hold the same names. */
  lemma SameRowsSameNames(a: seq<Located>, b: seq<Located>)
    requires multiset(a) == multiset(b)
    ensures Names(a) == Names(b)
  {
    forall x ensures x in a <==> x in b {
      assert x in a <==> x in multiset(a);
      assert x in b <==> x in multiset(b);
    }
  }

  lemma DistinctCons(y: Located, s: seq<Located>)
    requires DistinctNames(s) && y.rec.busName !in Names(s)
    ensures DistinctNames([y] + s)
  {
    var r := [y] + s;
    forall a, b | 0 <= a < b < |r| ensures r[a].rec.busName != r[b].rec.busName {
      assert r[b] == s[b - 1] && s[b - 1] in s;
      if a > 0 {
        assert r[a] == s[a - 1];
      }
    }
  }

  lemma DistinctTail(s: seq<Located>)
    requires s != [] && DistinctNames(s)
    ensures DistinctNames(s[1..])
    ensures s[0].rec.busName !in Names(s[1..])
  {
    var tail := s[1..];
    forall a, b | 0 <= a < b < |tail| ensures tail[a].rec.busName != tail[b].rec.busName {
      assert tail[a] == s[a + 1] && tail[b] == s[b + 1];
    }
    forall z | z in tail ensures z.rec.busName != s[0].rec.busName {
      var k :| 0 <= k < |tail| && tail[k] == z;
      assert s[k + 1] == z;
    }
  }

  lemma {:induction false} InsertByRatingDistinct(x: Located, t: seq<Located>)
    requires DistinctNames(t) && x.rec.busName !in Names(t)
    ensures DistinctNames(InsertByRating(x, t))
    decreases |t|
  {
    if t == [] || x.rec.rating >= t[0].rec.rating {
      DistinctCons(x, t);
    } else {
      var tail := t[1..];
      DistinctTail(t);
      assert Names(tail) <= Names(t) by {
        forall z | z in tail ensures z in t { }
      }
      InsertByRatingDistinct(x, tail);
      InsertByRatingPermutes(x, tail);
      var rest := InsertByRating(x, tail);
      assert t[0] in t;
      forall z | z in rest ensures z.rec.busName != t[0].rec.busName {
        assert z in multiset(rest);
        if z != x {
          assert z in multiset(tail);
          assert z in tail;
        }
      }
      DistinctCons(t[0], rest);
    }
  }

  lemma {:induction false} SortByRatingDistinct(s: seq<Located>)
    requires DistinctNames(s)
    ensures DistinctNames(SortByRating(s))
    decreases |s|
  {
    if s != [] {
      DistinctTail(s);
      SortByRatingDistinct(s[1..]);
      SortByRatingPermutes(s[1..]);
      SameRowsSameNames(SortByRating(s[1..]), s[1..]);
      InsertByRatingDistinct(s[0], SortByRating(s[1..]));
    }
  }

  /** A table without repeated names has exactly as many names as rows. */
  lemma {:induction false} DistinctNamesCount(s: seq<Located>)
    requires DistinctNames(s)
    ensures |Names(s)| == |s|
    decreases |s|
  {
    if s != [] {
      DistinctTail(s);
      DistinctNamesCount(s[1..]);
      assert Names(s) == {s[0].rec.busName} + Names(s[1..]) by {
        forall z | z in s ensures z == s[0] || z in s[1..] {
          var k :| 0 <= k < |s| && s[k] == z;
          if k > 0 {
            assert s[1..][k - 1] == z;
          }
        }
      }
    }
  }
}
