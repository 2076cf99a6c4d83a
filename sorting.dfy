/**
 * `sorted(files, key=lambda f: f.path)`: a stable sort of file diffs by
 * path, written as an insertion sort. A file is inserted in front of the
 * first file whose path is not smaller, so files with equal paths keep
 * their input order, as Python's sort does.
 */
module Sorting {
  import opened Strings
  import opened Models

  predicate SortedByPath(s: seq<FileDiff>)
  {
    forall i, j :: 0 <= i < j < |s| ==> LessEq(s[i].path, s[j].path)
  }

  /** `x` placed in front of the first file whose path is not below its own. */
  function Insert(x: FileDiff, s: seq<FileDiff>): (r: seq<FileDiff>)
    ensures multiset(r) == multiset(s) + multiset{x}
  {
    if s == [] || LessEq(x.path, s[0].path) then
      [x] + s
    else
      assert s == [s[0]] + s[1..];
      [s[0]] + Insert(x, s[1..])
  }

  /** Inserting into a sorted sequence keeps it sorted. */
  lemma {:induction false} InsertSorted(x: FileDiff, s: seq<FileDiff>)
    requires SortedByPath(s)
    ensures SortedByPath(Insert(x, s))
  {
    if s == [] || LessEq(x.path, s[0].path) {
      InsertFront(x, s);
    } else {
      InsertSorted(x, s[1..]);
      InsertStep(x, s, Insert(x, s[1..]));
    }
  }

  lemma InsertFront(x: FileDiff, s: seq<FileDiff>)
    requires SortedByPath(s)
    requires s == [] || LessEq(x.path, s[0].path)
    ensures SortedByPath([x] + s)
  {
    forall i, j | 0 <= i < j < |s| + 1
      ensures LessEq(([x] + s)[i].path, ([x] + s)[j].path)
    {
      if i == 0 && j > 1 {
        LessEqTransitive(x.path, s[0].path, s[j - 1].path);
      }
    }
  }

  lemma InsertStep(x: FileDiff, s: seq<FileDiff>, rest: seq<FileDiff>)
    requires SortedByPath(s) && s != [] && !LessEq(x.path, s[0].path)
    requires SortedByPath(rest) && multiset(rest) == multiset(s[1..]) + multiset{x}
    ensures SortedByPath([s[0]] + rest)
  {
    LessEqTotal(x.path, s[0].path);
    forall z | z in rest
      ensures LessEq(s[0].path, z.path)
    {
      assert z in multiset(rest);
      if z != x {
        assert z in multiset(s[1..]);
        var k :| 0 <= k < |s[1..]| && s[1..][k] == z;
        assert s[k + 1] == z;
      }
    }
    SortedCons(s[0], rest);
  }

  lemma SortedCons(y: FileDiff, s: seq<FileDiff>)
    requires SortedByPath(s)
    requires forall z | z in s :: LessEq(y.path, z.path)
    ensures SortedByPath([y] + s)
  {
    forall i, j | 0 <= i < j < |s| + 1
      ensures LessEq(([y] + s)[i].path, ([y] + s)[j].path)
    {
      if i == 0 {
        assert s[j - 1] in s;
      }
    }
  }

  /** The files ordered by path, ties in input order: a permutation of the input. */
  function SortByPath(s: seq<FileDiff>): (r: seq<FileDiff>)
    ensures multiset(r) == multiset(s)
    ensures |r| == |s|
  {
    if s == [] then []
    else
      assert s == [s[0]] + s[1..];
      var r := Insert(s[0], SortByPath(s[1..]));
      assert |r| == |multiset(r)|;
      r
  }

  /** The result of `SortByPath` is in ascending path order. */
  lemma {:induction false} SortByPathSorted(s: seq<FileDiff>)
    ensures SortedByPath(SortByPath(s))
  {
    if s != [] {
      SortByPathSorted(s[1..]);
      InsertSorted(s[0], SortByPath(s[1..]));
    }
  }
}
