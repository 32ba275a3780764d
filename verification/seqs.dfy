/** Table operations: rows are kept as sequences, and repository queries become
    searches, filters and sorts over them. */
module Seqs {
  import opened Wrappers

  /** Index of the first row satisfying `p`, if any (a repository `findBy…` over a
      column the database keeps unique). */
  function FindIndex<T>(s: seq<T>, p: T -> bool): (r: Option<nat>)
    ensures r.Some? ==> r.value < |s| && p(s[r.value])
    ensures r.Some? ==> forall j :: 0 <= j < r.value ==> !p(s[j])
    ensures r.None? <==> forall j :: 0 <= j < |s| ==> !p(s[j])
  {
    if |s| == 0 then None
    else if p(s[0]) then Some(0)
    else
      match FindIndex(s[1..], p)
      case None =>
        assert forall j :: 1 <= j < |s| ==> s[j] == s[1..][j - 1];
        None
      case Some(k) =>
        assert forall j :: 1 <= j < k + 1 ==> s[j] == s[1..][j - 1];
        Some(k + 1)
  }

  /** Result of a query that must return at most one row (Spring Data's
      `Optional<…> findBy…` throws when two rows match). */
  datatype Lookup = NoMatch | Unique(index: nat) | NonUnique

  function FindUnique<T>(s: seq<T>, p: T -> bool): (r: Lookup)
    ensures r.NoMatch? <==> forall j :: 0 <= j < |s| ==> !p(s[j])
    ensures r.Unique? ==> r.index < |s| && p(s[r.index])
    ensures r.Unique? ==> forall j :: 0 <= j < |s| && j != r.index ==> !p(s[j])
    ensures r.NonUnique? <==> exists i, j :: 0 <= i < j < |s| && p(s[i]) && p(s[j])
  {
    match FindIndex(s, p)
    case None => NoMatch
    case Some(i) =>
      match FindIndex(s[i + 1..], p)
      case None =>
        assert forall j :: i + 1 <= j < |s| ==> s[j] == s[i + 1..][j - i - 1];
        Unique(i)
      case Some(k) =>
        assert s[i + 1 + k] == s[i + 1..][k];
        NonUnique
  }

  /** The rows satisfying `p`, in their original order. */
  function Filter<T>(s: seq<T>, p: T -> bool): (r: seq<T>)
    ensures |r| <= |s|
    ensures forall k :: 0 <= k < |r| ==> r[k] in s && p(r[k])
    ensures forall k :: 0 <= k < |s| && p(s[k]) ==> s[k] in r
  {
    if |s| == 0 then []
    else
      assert s == [s[0]] + s[1..];
      (if p(s[0]) then [s[0]] else []) + Filter(s[1..], p)
  }

  /** Filtering keeps a row's relative order: a filter of an append is the append of
      the filters. */
  lemma {:induction false} FilterAppend<T>(s: seq<T>, x: T, p: T -> bool)
    ensures Filter(s + [x], p) == Filter(s, p) + (if p(x) then [x] else [])
  {
    if |s| == 0 {
      assert s + [x] == [x];
    } else {
      assert (s + [x])[1..] == s[1..] + [x];
      FilterAppend(s[1..], x, p);
    }
  }

  /** Filtering with a predicate every row satisfies changes nothing. */
  lemma {:induction false} FilterAll<T>(s: seq<T>, p: T -> bool)
    requires forall k :: 0 <= k < |s| ==> p(s[k])
    ensures Filter(s, p) == s
  {
    if |s| > 0 {
      assert forall k :: 0 <= k < |s[1..]| ==> p(s[1..][k]) by {
        forall k | 0 <= k < |s[1..]| ensures p(s[1..][k]) {
          assert s[1..][k] == s[k + 1];
        }
      }
      FilterAll(s[1..], p);
      assert s == [s[0]] + s[1..];
    }
  }

  /** A row survives a filter exactly when it was there and satisfies `p`. */
  lemma FilterMembership<T>(s: seq<T>, p: T -> bool, x: T)
    ensures x in Filter(s, p) <==> x in s && p(x)
  {
    var r := Filter(s, p);
    if x in r {
      var k :| 0 <= k < |r| && r[k] == x;
    }
    if x in s && p(x) {
      var k :| 0 <= k < |s| && s[k] == x;
    }
  }

  /** A relation from `x` to every row still holds to every filtered row. */
  lemma FilterKeepsRelation<T>(x: T, s: seq<T>, p: T -> bool, rel: (T, T) -> bool)
    requires forall m :: 0 <= m < |s| ==> rel(x, s[m])
    ensures forall j :: 0 <= j < |Filter(s, p)| ==> rel(x, Filter(s, p)[j])
  {
    forall j | 0 <= j < |Filter(s, p)| ensures rel(x, Filter(s, p)[j]) {
      var m :| 0 <= m < |s| && s[m] == Filter(s, p)[j];
    }
  }

  /** A relation that holds between every row and each later row still holds after
      filtering: filtering never reorders rows. */
  lemma {:induction false} FilterPairwise<T>(s: seq<T>, p: T -> bool, rel: (T, T) -> bool)
    requires forall i, j :: 0 <= i < j < |s| ==> rel(s[i], s[j])
    ensures forall i, j :: 0 <= i < j < |Filter(s, p)| ==> rel(Filter(s, p)[i], Filter(s, p)[j])
  {
    if |s| > 0 {
      var tail := s[1..];
      assert forall i, j :: 0 <= i < j < |tail| ==> rel(tail[i], tail[j]) by {
        forall i, j | 0 <= i < j < |tail| ensures rel(tail[i], tail[j]) {
          assert tail[i] == s[i + 1] && tail[j] == s[j + 1];
        }
      }
      FilterPairwise(tail, p, rel);
      assert forall m :: 0 <= m < |tail| ==> rel(s[0], tail[m]) by {
        forall m | 0 <= m < |tail| ensures rel(s[0], tail[m]) {
          assert tail[m] == s[m + 1];
        }
      }
      FilterKeepsRelation(s[0], tail, p, rel);
      var rest := Filter(tail, p);
      if p(s[0]) {
        var r := [s[0]] + rest;
        assert Filter(s, p) == r;
        forall i, j | 0 <= i < j < |r| ensures rel(r[i], r[j]) {
          assert r[j] == rest[j - 1];
          if i > 0 {
            assert r[i] == rest[i - 1];
          }
        }
      } else {
        assert Filter(s, p) == rest;
      }
    }
  }

  /** Each row transformed by `f`, in order (a stream `map`). */
  function Map<T, U>(s: seq<T>, f: T -> U): (r: seq<U>)
    ensures |r| == |s|
    ensures forall k :: 0 <= k < |s| ==> r[k] == f(s[k])
  {
    seq(|s|, k requires 0 <= k < |s| => f(s[k]))
  }

  /** Mapping keeps membership: the image of a member is a member of the image. */
  lemma MappedMember<T, U>(s: seq<T>, f: T -> U, x: T)
    requires x in s
    ensures f(x) in Map(s, f)
  {
    var m :| 0 <= m < |s| && s[m] == x;
    assert Map(s, f)[m] == f(x);
  }

  /** A second update of the same position overwrites the first. */
  lemma UpdateTwice<T>(s: seq<T>, i: nat, a: T, b: T)
    requires i < |s|
    ensures s[i := a][i := b] == s[i := b]
  {
  }

  /** Updating a position with the value it holds changes nothing. */
  lemma UpdateSame<T>(s: seq<T>, i: nat)
    requires i < |s|
    ensures s[i := s[i]] == s
  {
  }

  /** No value occurs twice. */
  predicate Distinct<T(==)>(s: seq<T>) {
    forall i, j :: 0 <= i < j < |s| ==> s[i] != s[j]
  }

  /** Number of rows satisfying `p`. */
  function Count<T>(s: seq<T>, p: T -> bool): (n: nat)
    ensures n == |Filter(s, p)|
    ensures n == 0 <==> forall j :: 0 <= j < |s| ==> !p(s[j])
  {
    if |s| == 0 then 0
    else
      var rest := Count(s[1..], p);
      assert forall j :: 1 <= j < |s| ==> s[j] == s[1..][j - 1];
      (if p(s[0]) then 1 else 0) + rest
  }

  /** `s` is in ascending order of `key`. */
  ghost predicate SortedBy<T>(s: seq<T>, key: T -> int) {
    forall i, j :: 0 <= i < j < |s| ==> key(s[i]) <= key(s[j])
  }

  /** A row no greater than the head of a sorted sequence can go in front of it. */
  lemma ConsSorted<T>(y: T, rest: seq<T>, key: T -> int)
    requires SortedBy(rest, key) && (|rest| > 0 ==> key(y) <= key(rest[0]))
    ensures SortedBy([y] + rest, key)
  {
    var r := [y] + rest;
    forall i, j | 0 <= i < j < |r| ensures key(r[i]) <= key(r[j]) {
      assert r[j] == rest[j - 1];
      if i > 0 {
        assert r[i] == rest[i - 1];
      } else {
        assert key(rest[0]) <= key(rest[j - 1]);
      }
    }
  }

  function InsertBy<T>(x: T, s: seq<T>, key: T -> int): (r: seq<T>)
    requires SortedBy(s, key)
    ensures SortedBy(r, key)
    ensures multiset(r) == multiset(s) + multiset{x}
    ensures |r| == |s| + 1
    ensures key(r[0]) == key(x) || (|s| > 0 && key(r[0]) == key(s[0]))
  {
    if |s| == 0 then [x]
    else if key(x) <= key(s[0]) then
      ConsSorted(x, s, key);
      [x] + s
    else
      var rest := InsertBy(x, s[1..], key);
      assert SortedBy(s[1..], key) by {
        forall i, j | 0 <= i < j < |s[1..]| ensures key(s[1..][i]) <= key(s[1..][j]) {
          assert s[1..][i] == s[i + 1] && s[1..][j] == s[j + 1];
        }
      }
      assert s == [s[0]] + s[1..];
      assert key(s[0]) <= key(rest[0]);
      ConsSorted(s[0], rest, key);
      [s[0]] + rest
  }

  /** `ORDER BY key ASC`: a permutation of `s` in ascending `key` order (the order of
      rows with equal keys is the database's choice; insertion sort is one valid one). */
  function SortBy<T>(s: seq<T>, key: T -> int): (r: seq<T>)
    ensures SortedBy(r, key)
    ensures multiset(r) == multiset(s)
    ensures |r| == |s|
  {
    if |s| == 0 then []
    else
      assert s == [s[0]] + s[1..];
      InsertBy(s[0], SortBy(s[1..], key), key)
  }
}
