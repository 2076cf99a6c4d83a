/**
 * The split planner's building blocks: selecting files by includes and
 * excludes patterns, dealing them round-robin into groups, routing them to
 * groups by `--assign` patterns, naming the branches and writing the pull
 * request bodies.
 *
 * gitignore-style matching is not modelled: a `Matcher` says whether a
 * list of patterns matches a path, and every result holds for any matcher.
 */
module Splitter {
  import opened Wrappers
  import opened Errors
  import opened Strings
  import opened Models
  import opened Groups
  import opened Sorting

  /** `PathSpec.from_lines("gitignore", patterns).match_file(path)`. */
  type Matcher = (seq<string>, string) -> bool

  // ---------------------------------------------------------------- filter_files

  /**
   * Whether `filter_files` keeps a path: a non-empty includes list must
   * match it and a non-empty excludes list must not.
   */
  predicate Keeps(includes: seq<string>, excludes: seq<string>, matches: Matcher, path: string)
  {
    (includes == [] || matches(includes, path)) && (excludes == [] || !matches(excludes, path))
  }

  /** The files `filter_files` returns. */
  function Kept(files: seq<FileDiff>, includes: seq<string>, excludes: seq<string>, matches: Matcher): seq<FileDiff>
  {
    if files == [] then []
    else
      var f := files[|files| - 1];
      Kept(files[..|files| - 1], includes, excludes, matches) + (if Keeps(includes, excludes, matches, f.path) then [f] else [])
  }

  /** A file survives filtering exactly when it is in the input and its path is kept. */
  lemma {:induction false} KeptMembers(files: seq<FileDiff>, includes: seq<string>, excludes: seq<string>, matches: Matcher, f: FileDiff)
    ensures f in Kept(files, includes, excludes, matches) <==> f in files && Keeps(includes, excludes, matches, f.path)
  {
    if files != [] {
      var init := files[..|files| - 1];
      KeptMembers(init, includes, excludes, matches, f);
      assert files == init + [files[|files| - 1]];
    }
  }

  /** Filtering a concatenation filters each part: the kept files stay in input order. */
  lemma {:induction false} KeptConcat(a: seq<FileDiff>, b: seq<FileDiff>, includes: seq<string>, excludes: seq<string>, matches: Matcher)
    ensures Kept(a + b, includes, excludes, matches) == Kept(a, includes, excludes, matches) + Kept(b, includes, excludes, matches)
  {
    if b == [] {
      assert a + b == a;
    } else {
      var init := b[..|b| - 1];
      assert (a + b)[..|a + b| - 1] == a + init;
      KeptConcat(a, init, includes, excludes, matches);
    }
  }

  /** With neither includes nor excludes patterns every file is kept, in order. */
  lemma {:induction false} KeptWithoutPatterns(files: seq<FileDiff>, matches: Matcher)
    ensures Kept(files, [], [], matches) == files
  {
    if files != [] {
      KeptWithoutPatterns(files[..|files| - 1], matches);
      PrefixSnoc(files, |files|);
      assert files[..|files|] == files;
    }
  }

  /** `filter_files(files, include_patterns, exclude_patterns)`. */
  method FilterFiles(files: seq<FileDiff>, includes: seq<string>, excludes: seq<string>, matches: Matcher)
    returns (result: seq<FileDiff>)
    ensures result == Kept(files, includes, excludes, matches)
  {
    result := [];
    for i := 0 to |files|
      invariant result == Kept(files[..i], includes, excludes, matches)
    {
      var f := files[i];
      assert files[..i + 1][..i] == files[..i];
      if includes != [] && !matches(includes, f.path) {
        continue;
      }
      if excludes != [] && matches(excludes, f.path) {
        continue;
      }
      result := result + [f];
    }
    assert files[..|files|] == files;
  }

  // ---------------------------------------------------------------- distribute_files

  lemma DivModUnique(x: int, n: int, q: int, r: int)
    requires n >= 1 && 0 <= r < n && x == q * n + r
    ensures x / n == q && x % n == r
  {
    var q', r' := x / n, x % n;
    assert x == q' * n + r';
    if q' < q {
      assert (q - q') * n >= n by { MulAtLeast(q - q', n); }
      assert false;
    } else if q' > q {
      assert (q' - q) * n >= n by { MulAtLeast(q' - q, n); }
      assert false;
    }
  }

  lemma MulAtLeast(a: int, n: int)
    requires a >= 1 && n >= 1
    ensures a * n >= n
  {
  }

  lemma DivModStep(m: nat, n: nat)
    requires n >= 1
    ensures m % n + 1 < n ==> (m + 1) / n == m / n && (m + 1) % n == m % n + 1
    ensures m % n + 1 == n ==> (m + 1) / n == m / n + 1 && (m + 1) % n == 0
  {
    if m % n + 1 < n {
      DivModUnique(m + 1, n, m / n, m % n + 1);
    } else {
      DivModUnique(m + 1, n, m / n + 1, 0);
    }
  }

  /** Dealing `s` in order into `n` piles: the i-th file goes on pile `i % n`. */
  function Deal(s: seq<FileDiff>, n: nat): (piles: seq<seq<FileDiff>>)
    requires n >= 1
    ensures |piles| == n
  {
    if s == [] then seq(n, _ => [])
    else
      var piles := Deal(s[..|s| - 1], n);
      var k := (|s| - 1) % n;
      piles[k := piles[k] + [s[|s| - 1]]]
  }

  /** Pile `k` of a deal holds `|s| / n` files, one more when `k < |s| % n`. */
  lemma {:induction false} DealSizes(s: seq<FileDiff>, n: nat)
    requires n >= 1
    ensures forall k :: 0 <= k < n ==> |Deal(s, n)[k]| == |s| / n + (if k < |s| % n then 1 else 0)
  {
    if s != [] {
      var m := |s| - 1;
      DealSizes(s[..m], n);
      DivModStep(m, n);
    }
  }

  /** Dealing one more file adds it to the end of pile `|init| % n`. */
  lemma DealSnoc(init: seq<FileDiff>, x: FileDiff, n: nat)
    requires n >= 1
    ensures Deal(init + [x], n) == Deal(init, n)[|init| % n := Deal(init, n)[|init| % n] + [x]]
  {
    assert (init + [x])[..|init|] == init;
  }

  /** File `i` of `s` is file `i / n` of pile `i % n`. */
  predicate Placed(piles: seq<seq<FileDiff>>, s: seq<FileDiff>, n: nat, i: nat)
  {
    n >= 1 && i < |s| && i % n < |piles| && i / n < |piles[i % n]| && piles[i % n][i / n] == s[i]
  }

  /** The i-th file of `s` is file `i / n` of pile `i % n`. */
  lemma {:induction false} DealPlacement(s: seq<FileDiff>, n: nat)
    requires n >= 1
    ensures forall i :: 0 <= i < |s| ==> Placed(Deal(s, n), s, n, i)
  {
    if s != [] {
      var init, x := s[..|s| - 1], s[|s| - 1];
      assert s == init + [x];
      DealPlacement(init, n);
      forall i | 0 <= i < |s|
        ensures Placed(Deal(init + [x], n), init + [x], n, i)
      {
        if i < |init| {
          PlacementKept(init, x, n, i);
        } else {
          PlacementNew(init, x, n);
        }
      }
    }
  }

  lemma PlacementKept(init: seq<FileDiff>, x: FileDiff, n: nat, i: nat)
    requires n >= 1 && Placed(Deal(init, n), init, n, i)
    ensures Placed(Deal(init + [x], n), init + [x], n, i)
  {
    DealSnoc(init, x, n);
  }

  lemma PlacementNew(init: seq<FileDiff>, x: FileDiff, n: nat)
    requires n >= 1
    ensures Placed(Deal(init + [x], n), init + [x], n, |init|)
  {
    DealSizes(init, n);
    DealSnoc(init, x, n);
    assert |Deal(init, n)[|init| % n]| == |init| / n;
  }

  /** Every file is dealt exactly once. */
  lemma {:induction false} DealPartition(s: seq<FileDiff>, n: nat)
    requires n >= 1
    ensures multiset(Flatten(Deal(s, n))) == multiset(s)
  {
    if s == [] {
      var piles := Deal(s, n);
      forall k | 0 <= k < n ensures piles[k] == [] { }
      EmptyPilesFlatten(piles);
    } else {
      var init, x := s[..|s| - 1], s[|s| - 1];
      assert s == init + [x];
      DealPartition(init, n);
      DealSnoc(init, x, n);
      FlattenAppendAt(Deal(init, n), |init| % n, x);
    }
  }

  lemma {:induction false} EmptyPilesFlatten(piles: seq<seq<FileDiff>>)
    requires forall k :: 0 <= k < |piles| ==> piles[k] == []
    ensures Flatten(piles) == []
  {
    if piles != [] {
      EmptyPilesFlatten(piles[1..]);
    }
  }

  /** Dealing a sorted sequence leaves every pile sorted. */
  lemma {:induction false} DealSorted(s: seq<FileDiff>, n: nat)
    requires n >= 1 && SortedByPath(s)
    ensures forall k :: 0 <= k < n ==> SortedByPath(Deal(s, n)[k])
  {
    if s != [] {
      var m := |s| - 1;
      var init := s[..m];
      DealSorted(init, n);
      DealPartition(init, n);
      var before := Deal(init, n);
      var k := m % n;
      forall y: FileDiff | y in before[k]
        ensures LessEq(y.path, s[m].path)
      {
        InFlatten(before, k, y);
        assert y in multiset(init);
        var i :| 0 <= i < m && init[i] == y;
      }
      SortedSnoc(before[k], s[m]);
    }
  }

  lemma SortedSnoc(s: seq<FileDiff>, x: FileDiff)
    requires SortedByPath(s)
    requires forall y: FileDiff | y in s :: LessEq(y.path, x.path)
    ensures SortedByPath(s + [x])
  {
    forall i, j | 0 <= i < j < |s| + 1
      ensures LessEq((s + [x])[i].path, (s + [x])[j].path)
    {
      if j == |s| {
        assert s[i] in s;
      }
    }
  }

  /** `distribute_files(files, num_prs)`: the non-empty piles of a round-robin deal of the files sorted by path. */
  function Distribution(files: seq<FileDiff>, numPrs: int): seq<seq<FileDiff>>
    requires files == [] || numPrs >= 1
  {
    if numPrs < 1 then [] else NonEmpty(Deal(SortByPath(files), numPrs))
  }

  function Min(a: int, b: int): int
  {
    if a < b then a else b
  }

  lemma DivAtLeastOne(x: int, n: int)
    requires n >= 1 && x >= n
    ensures x / n >= 1
  {
    var q, r := (x - n) / n, (x - n) % n;
    assert x - n == q * n + r;
    assert x == (q + 1) * n + r;
    DivModUnique(x, n, q + 1, r);
  }

  /**
   * When pile `k` holds `len / n` files plus one for `k < len % n`, the
   * non-empty piles are exactly the first `min(n, len)`.
   */
  lemma SizedPiles(piles: seq<seq<FileDiff>>, len: nat, n: nat)
    requires n >= 1 && |piles| == n
    requires forall k :: 0 <= k < n ==> |piles[k]| == len / n + (if k < len % n then 1 else 0)
    ensures forall k :: 0 <= k < Min(n, len) ==> piles[k] != []
    ensures forall k :: Min(n, len) <= k < n ==> piles[k] == []
  {
    if len < n {
      DivModUnique(len, n, 0, len);
    } else {
      DivAtLeastOne(len, n);
    }
  }

  /** Only the first `min(n, |s|)` piles of a deal receive files. */
  lemma DistributionIsPrefix(files: seq<FileDiff>, n: int)
    requires n >= 1
    ensures Distribution(files, n) == Deal(SortByPath(files), n)[..Min(n, |files|)]
  {
    var s := SortByPath(files);
    var piles := Deal(s, n);
    DealSizes(s, n);
    SizedPiles(piles, |s|, n);
    NonEmptyPrefix(piles, Min(n, |files|));
  }

  /** `distribute_files` returns `min(num_prs, len(files))` groups, none of them empty. */
  lemma DistributionCount(files: seq<FileDiff>, n: int)
    requires n >= 1
    ensures |Distribution(files, n)| == Min(n, |files|)
    ensures forall k :: 0 <= k < |Distribution(files, n)| ==> Distribution(files, n)[k] != []
  {
    DistributionIsPrefix(files, n);
  }

  /**
   * Round-robin placement: the file at position i of the path order is
   * file `i / n` of group `i % n`.
   */
  lemma DistributionPlacement(files: seq<FileDiff>, n: int)
    requires n >= 1
    ensures forall i :: 0 <= i < |files| ==> Placed(Distribution(files, n), SortByPath(files), n, i)
  {
    var s := SortByPath(files);
    DistributionIsPrefix(files, n);
    DealPlacement(s, n);
    PrefixPlacement(Deal(s, n), s, n);
  }

  /** Placement in the piles carries over to the first `min(n, |s|)` of them. */
  lemma PrefixPlacement(piles: seq<seq<FileDiff>>, s: seq<FileDiff>, n: nat)
    requires n >= 1 && |piles| == n
    requires forall i :: 0 <= i < |s| ==> Placed(piles, s, n, i)
    ensures forall i :: 0 <= i < |s| ==> Placed(piles[..Min(n, |s|)], s, n, i)
  {
    forall i | 0 <= i < |s|
      ensures Placed(piles[..Min(n, |s|)], s, n, i)
    {
      assert Placed(piles, s, n, i);
      if |s| < n {
        DivModUnique(i, n, 0, i);
      }
    }
  }

  /** Group sizes: `len(files) // n`, plus one for the first `len(files) % n` groups, so no two differ by more than one. */
  lemma DistributionSizes(files: seq<FileDiff>, n: int)
    requires n >= 1
    ensures forall k :: 0 <= k < |Distribution(files, n)| ==>
      |Distribution(files, n)[k]| == |files| / n + (if k < |files| % n then 1 else 0)
    ensures forall a, b :: 0 <= a < |Distribution(files, n)| && 0 <= b < |Distribution(files, n)| ==>
      |Distribution(files, n)[a]| <= |Distribution(files, n)[b]| + 1
  {
    DistributionIsPrefix(files, n);
    DealSizes(SortByPath(files), n);
  }

  /** The groups together hold exactly the input files: nothing lost, nothing duplicated. */
  lemma DistributionPartition(files: seq<FileDiff>, n: int)
    requires files == [] || n >= 1
    ensures multiset(Flatten(Distribution(files, n))) == multiset(files)
  {
    if n >= 1 {
      var s := SortByPath(files);
      FlattenNonEmpty(Deal(s, n));
      DealPartition(s, n);
    }
  }

  /** Each group lists its files in ascending path order. */
  lemma DistributionSorted(files: seq<FileDiff>, n: int)
    requires n >= 1
    ensures forall k :: 0 <= k < |Distribution(files, n)| ==> SortedByPath(Distribution(files, n)[k])
  {
    DistributionIsPrefix(files, n);
    SortByPathSorted(files);
    DealSorted(SortByPath(files), n);
  }

  /** `distribute_files(files, num_prs)`. */
  method DistributeFiles(files: seq<FileDiff>, numPrs: int) returns (result: seq<seq<FileDiff>>)
    requires files == [] || numPrs >= 1
    ensures result == Distribution(files, numPrs)
  {
    var sorted := SortByPath(files);
    var groups: seq<seq<FileDiff>> := seq(if numPrs < 0 then 0 else numPrs, _ => []);
    for i := 0 to |sorted|
      invariant numPrs >= 1 ==> groups == Deal(sorted[..i], numPrs)
      invariant numPrs < 1 ==> groups == []
    {
      assert sorted[..i + 1][..i] == sorted[..i];
      groups := groups[i % numPrs := groups[i % numPrs] + [sorted[i]]];
    }
    assert sorted[..|sorted|] == sorted;
    result := NonEmpty(groups);
  }

  // ---------------------------------------------------------------- assign_files

  predicate StrictlyIncreasing(keys: seq<int>)
  {
    forall i, j :: 0 <= i < j < |keys| ==> keys[i] < keys[j]
  }

  lemma Inhabited(s: set<int>)
    requires s != {}
    ensures exists x :: x in s
  {
    if forall x :: x !in s {
      assert false;
    }
  }

  predicate IsLeast(m: int, s: set<int>)
  {
    m in s && forall x | x in s :: m <= x
  }

  lemma {:induction false} MinExists(s: set<int>)
    requires s != {}
    ensures exists m :: IsLeast(m, s)
  {
    Inhabited(s);
    var y :| y in s;
    var rest := s - {y};
    if rest == {} {
      forall x | x in s ensures y <= x {
        assert x !in rest;
      }
      assert IsLeast(y, s);
    } else {
      MinExists(rest);
      var m :| IsLeast(m, rest);
      var least := if y < m then y else m;
      forall x | x in s ensures least <= x {
        if x != y {
          assert x in rest;
        }
      }
      assert IsLeast(least, s);
    }
  }

  lemma ConsIncreasing(m: int, rest: seq<int>)
    requires StrictlyIncreasing(rest)
    requires forall x | x in rest :: m < x
    ensures StrictlyIncreasing([m] + rest)
  {
    forall i, j | 0 <= i < j < |rest| + 1
      ensures ([m] + rest)[i] < ([m] + rest)[j]
    {
      if i == 0 {
        assert rest[j - 1] in rest;
      }
    }
  }

  /** `sorted(keys)`: the group numbers in ascending order. */
  function SortedKeys(s: set<int>): (keys: seq<int>)
    ensures |keys| == |s|
    ensures forall g :: g in keys <==> g in s
    decreases |s|
  {
    if s == {} then []
    else
      MinExists(s);
      var m :| IsLeast(m, s);
      [m] + SortedKeys(s - {m})
  }

  /** The keys come out in ascending order. */
  lemma {:induction false} SortedKeysIncreasing(s: set<int>)
    ensures StrictlyIncreasing(SortedKeys(s))
    decreases |s|
  {
    if s != {} {
      var keys := SortedKeys(s);
      var m := keys[0];
      assert IsLeast(m, s) && keys[1..] == SortedKeys(s - {m});
      SortedKeysIncreasing(s - {m});
      var rest := SortedKeys(s - {m});
      forall x | x in rest ensures m < x {
        assert x in s && x != m;
      }
      ConsIncreasing(m, rest);
      assert keys == [m] + rest;
    }
  }

  /** The first of `keys` whose patterns match `path`. */
  function FirstMatch(keys: seq<int>, assignments: map<int, seq<string>>, matches: Matcher, path: string): Option<int>
    requires forall i :: 0 <= i < |keys| ==> keys[i] in assignments
  {
    if keys == [] then None
    else if matches(assignments[keys[0]], path) then Some(keys[0])
    else FirstMatch(keys[1..], assignments, matches, path)
  }

  lemma FirstMatchStep(keys: seq<int>, j: nat, assignments: map<int, seq<string>>, matches: Matcher, path: string)
    requires j < |keys| && forall i :: 0 <= i < |keys| ==> keys[i] in assignments
    ensures FirstMatch(keys[j..], assignments, matches, path) ==
      if matches(assignments[keys[j]], path) then Some(keys[j]) else FirstMatch(keys[j + 1..], assignments, matches, path)
  {
    assert keys[j..][0] == keys[j] && keys[j..][1..] == keys[j + 1..];
  }

  /** Scanning keys in ascending order finds the lowest matching key, if there is one. */
  lemma {:induction false} FirstMatchLowest(keys: seq<int>, assignments: map<int, seq<string>>, matches: Matcher, path: string)
    requires forall i :: 0 <= i < |keys| ==> keys[i] in assignments
    requires StrictlyIncreasing(keys)
    ensures FirstMatch(keys, assignments, matches, path) == None <==>
      forall g | g in keys :: !matches(assignments[g], path)
    ensures FirstMatch(keys, assignments, matches, path).Some? ==>
      var g := FirstMatch(keys, assignments, matches, path).value;
      g in keys && matches(assignments[g], path) &&
      forall h | h in keys && h < g :: !matches(assignments[h], path)
  {
    if keys != [] {
      FirstMatchLowest(keys[1..], assignments, matches, path);
      forall h | h in keys[1..] ensures keys[0] < h {
        var j :| 0 <= j < |keys[1..]| && keys[1..][j] == h;
        assert keys[j + 1] == h;
      }
      assert forall h | h in keys :: h == keys[0] || h in keys[1..];
    }
  }

  /** The group a path is claimed by: the lowest group number whose patterns match it, if any. */
  function Claim(assignments: map<int, seq<string>>, matches: Matcher, path: string): Option<int>
  {
    FirstMatch(SortedKeys(assignments.Keys), assignments, matches, path)
  }

  /** First match wins: the claim is a matching group and no lower group matches; no claim means no group matches. */
  lemma ClaimIsLowestMatch(assignments: map<int, seq<string>>, matches: Matcher, path: string)
    ensures Claim(assignments, matches, path) == None <==>
      forall g | g in assignments :: !matches(assignments[g], path)
    ensures Claim(assignments, matches, path).Some? ==>
      var g := Claim(assignments, matches, path).value;
      g in assignments && matches(assignments[g], path) &&
      forall h | h in assignments && h < g :: !matches(assignments[h], path)
  {
    SortedKeysIncreasing(assignments.Keys);
    FirstMatchLowest(SortedKeys(assignments.Keys), assignments, matches, path);
  }

  /** Where a file goes: a group's slot, the leftover group, or nowhere (Python's IndexError). */
  datatype Target = ToGroup(slot: nat) | ToLeftover | NoSuchGroup

  /** Whether `groups[g - 1]` exists in a list of `n` groups; 0 and negative numbers count from the end. */
  predicate InRange(g: int, n: int)
  {
    1 - n <= g <= n
  }

  /** The list position `groups[g - 1]` refers to. */
  function Slot(g: int, n: int): (b: nat)
    requires InRange(g, n)
    ensures b < n
  {
    if g >= 1 then g - 1 else g - 1 + n
  }

  function TargetOf(assignments: map<int, seq<string>>, n: int, matches: Matcher, path: string): (t: Target)
    ensures t.ToGroup? ==> t.slot < n
  {
    match Claim(assignments, matches, path)
    case None => ToLeftover
    case Some(g) => if InRange(g, n) then ToGroup(Slot(g, n)) else NoSuchGroup
  }

  function Max0(n: int): nat
  {
    if n < 0 then 0 else n
  }

  /** The groups being filled and the files no group has claimed so far. */
  datatype Routing = Routing(groups: seq<seq<FileDiff>>, leftover: seq<FileDiff>)

  /** Routing one more file: it joins the group its target names or the leftovers; an error when it has nowhere to go. */
  function Place(st: Routing, f: FileDiff, assignments: map<int, seq<string>>, n: int, matches: Matcher): Result<Routing, Failure>
    requires |st.groups| == Max0(n)
  {
    match TargetOf(assignments, n, matches, f.path)
    case ToGroup(b) => Ok(Routing(st.groups[b := st.groups[b] + [f]], st.leftover))
    case ToLeftover => Ok(Routing(st.groups, st.leftover + [f]))
    case NoSuchGroup => Err(IndexError)
  }

  /** The routing of the first `i` files of `s`, in order; an error once one of them has nowhere to go. */
  function RouteFirst(s: seq<FileDiff>, i: nat, assignments: map<int, seq<string>>, n: int, matches: Matcher): (r: Result<Routing, Failure>)
    requires i <= |s|
    ensures r.Ok? ==> |r.value.groups| == Max0(n)
    ensures r.Err? ==> r.error == IndexError
  {
    if i == 0 then Ok(Routing(seq(Max0(n), _ => []), []))
    else
      match RouteFirst(s, i - 1, assignments, n, matches)
      case Err(e) => Err(e)
      case Ok(st) => Place(st, s[i - 1], assignments, n, matches)
  }

  /** Once a file has had nowhere to go, routing stays failed. */
  lemma {:induction false} RouteStaysFailed(s: seq<FileDiff>, i: nat, k: nat, assignments: map<int, seq<string>>, n: int, matches: Matcher)
    requires i <= k <= |s| && RouteFirst(s, i, assignments, n, matches).Err?
    ensures RouteFirst(s, k, assignments, n, matches).Err?
    decreases k - i
  {
    if i < k {
      RouteStaysFailed(s, i + 1, k, assignments, n, matches);
    }
  }

  /** `assign_files(files, assignments, num_prs)`: the non-empty groups, then the leftover files when there are any. */
  function Assignment(files: seq<FileDiff>, assignments: map<int, seq<string>>, n: int, matches: Matcher): Result<seq<seq<FileDiff>>, Failure>
  {
    var s := SortByPath(files);
    match RouteFirst(s, |s|, assignments, n, matches)
    case Err(e) => Err(e)
    case Ok(st) => Ok(NonEmpty(st.groups) + (if st.leftover == [] then [] else [st.leftover]))
  }

  /** Routing fails exactly when one of the files is claimed by a group number the list has no slot for. */
  lemma {:induction false} RouteFails(s: seq<FileDiff>, i: nat, assignments: map<int, seq<string>>, n: int, matches: Matcher)
    requires i <= |s|
    ensures RouteFirst(s, i, assignments, n, matches).Err? <==>
      exists f | f in s[..i] :: TargetOf(assignments, n, matches, f.path) == NoSuchGroup
  {
    if i > 0 {
      RouteFails(s, i - 1, assignments, n, matches);
      var x := s[i - 1];
      assert s[..i] == s[..i - 1] + [x];
      if TargetOf(assignments, n, matches, x.path) == NoSuchGroup {
        assert x in s[..i];
      } else if RouteFirst(s, i - 1, assignments, n, matches).Err? {
        var f :| f in s[..i - 1] && TargetOf(assignments, n, matches, f.path) == NoSuchGroup;
        assert f in s[..i];
      } else {
        assert RouteFirst(s, i, assignments, n, matches).Ok?;
        assert forall f | f in s[..i] :: f in s[..i - 1] || f == x;
      }
    }
  }

  /** A routed file sits in the group its target names, or among the leftovers; nothing else does. */
  lemma {:induction false} RouteMembers(s: seq<FileDiff>, i: nat, assignments: map<int, seq<string>>, n: int, matches: Matcher, f: FileDiff)
    requires i <= |s| && RouteFirst(s, i, assignments, n, matches).Ok?
    ensures var st := RouteFirst(s, i, assignments, n, matches).value;
      && (forall b :: 0 <= b < |st.groups| ==> (f in st.groups[b] <==> f in s[..i] && TargetOf(assignments, n, matches, f.path) == ToGroup(b)))
      && (f in st.leftover <==> f in s[..i] && TargetOf(assignments, n, matches, f.path) == ToLeftover)
  {
    if i > 0 {
      RouteMembers(s, i - 1, assignments, n, matches, f);
      PlaceMembers(RouteFirst(s, i - 1, assignments, n, matches).value, s[i - 1], assignments, n, matches, f);
      PrefixSnoc(s, i);
    }
  }

  /** Placing `x` adds it to the group its target names or to the leftovers, and moves nothing else. */
  lemma PlaceMembers(st: Routing, x: FileDiff, assignments: map<int, seq<string>>, n: int, matches: Matcher, f: FileDiff)
    requires |st.groups| == Max0(n) && Place(st, x, assignments, n, matches).Ok?
    ensures var st' := Place(st, x, assignments, n, matches).value;
      && |st'.groups| == |st.groups|
      && (forall b :: 0 <= b < |st.groups| ==>
            (f in st'.groups[b] <==> f in st.groups[b] || (f == x && TargetOf(assignments, n, matches, x.path) == ToGroup(b))))
      && (f in st'.leftover <==> f in st.leftover || (f == x && TargetOf(assignments, n, matches, x.path) == ToLeftover))
  {
  }

  /** Placing `x` adds exactly `x` to the groups and leftovers together. */
  lemma PlacePartition(st: Routing, x: FileDiff, assignments: map<int, seq<string>>, n: int, matches: Matcher)
    requires |st.groups| == Max0(n) && Place(st, x, assignments, n, matches).Ok?
    ensures var st' := Place(st, x, assignments, n, matches).value;
      multiset(Flatten(st'.groups)) + multiset(st'.leftover) == multiset(Flatten(st.groups)) + multiset(st.leftover) + multiset{x}
  {
    var t := TargetOf(assignments, n, matches, x.path);
    if t.ToGroup? {
      FlattenAppendAt(st.groups, t.slot, x);
    }
  }

  /** Routing loses and duplicates nothing: the groups and the leftovers together hold exactly the routed files. */
  lemma {:induction false} RoutePartition(s: seq<FileDiff>, i: nat, assignments: map<int, seq<string>>, n: int, matches: Matcher)
    requires i <= |s| && RouteFirst(s, i, assignments, n, matches).Ok?
    ensures var st := RouteFirst(s, i, assignments, n, matches).value;
      multiset(Flatten(st.groups)) + multiset(st.leftover) == multiset(s[..i])
  {
    if i == 0 {
      EmptyPilesFlatten(seq(Max0(n), _ => []));
    } else {
      RoutePartition(s, i - 1, assignments, n, matches);
      PlacePartition(RouteFirst(s, i - 1, assignments, n, matches).value, s[i - 1], assignments, n, matches);
      PrefixSnoc(s, i);
    }
  }

  /** Routing a sorted sequence leaves every group and the leftovers sorted. */
  lemma {:induction false} RouteSorted(s: seq<FileDiff>, i: nat, assignments: map<int, seq<string>>, n: int, matches: Matcher)
    requires i <= |s| && SortedByPath(s) && RouteFirst(s, i, assignments, n, matches).Ok?
    ensures var st := RouteFirst(s, i, assignments, n, matches).value;
      (forall b :: 0 <= b < |st.groups| ==> SortedByPath(st.groups[b])) && SortedByPath(st.leftover)
  {
    if i > 0 {
      RouteSorted(s, i - 1, assignments, n, matches);
      var st := RouteFirst(s, i - 1, assignments, n, matches).value;
      var x := s[i - 1];
      forall y: FileDiff | y in s[..i - 1]
        ensures LessEq(y.path, x.path)
      {
        var j :| 0 <= j < i - 1 && s[..i - 1][j] == y;
      }
      match TargetOf(assignments, n, matches, x.path)
      case ToGroup(b) =>
        forall y: FileDiff | y in st.groups[b] ensures LessEq(y.path, x.path) {
          RouteMembers(s, i - 1, assignments, n, matches, y);
        }
        SortedSnoc(st.groups[b], x);
      case ToLeftover =>
        forall y: FileDiff | y in st.leftover ensures LessEq(y.path, x.path) {
          RouteMembers(s, i - 1, assignments, n, matches, y);
        }
        SortedSnoc(st.leftover, x);
      case NoSuchGroup =>
    }
  }

  /** `assign_files` raises IndexError exactly when some file's lowest matching group number has no slot among `num_prs` groups. */
  lemma AssignmentFails(files: seq<FileDiff>, assignments: map<int, seq<string>>, n: int, matches: Matcher)
    ensures Assignment(files, assignments, n, matches).Err? <==>
      exists f | f in files :: TargetOf(assignments, n, matches, f.path) == NoSuchGroup
    ensures Assignment(files, assignments, n, matches).Err? ==> Assignment(files, assignments, n, matches).error == IndexError
  {
    var s := SortByPath(files);
    RouteFails(s, |s|, assignments, n, matches);
    assert s[..|s|] == s;
    forall f: FileDiff
      ensures f in s <==> f in files
    {
      assert f in s <==> f in multiset(s);
    }
  }

  /** Every file lands in exactly one group: the groups together are a permutation of the input. */
  lemma AssignmentPartition(files: seq<FileDiff>, assignments: map<int, seq<string>>, n: int, matches: Matcher)
    requires Assignment(files, assignments, n, matches).Ok?
    ensures multiset(Flatten(Assignment(files, assignments, n, matches).value)) == multiset(files)
  {
    var s := SortByPath(files);
    var st := RouteFirst(s, |s|, assignments, n, matches).value;
    RoutePartition(s, |s|, assignments, n, matches);
    assert s[..|s|] == s;
    FlattenNonEmpty(st.groups);
    FlattenAppend(NonEmpty(st.groups), if st.leftover == [] then [] else [st.leftover]);
  }

  /**
   * No group is empty, there are at most `num_prs + 1` of them, and each
   * lists its files in ascending path order.
   */
  lemma AssignmentShape(files: seq<FileDiff>, assignments: map<int, seq<string>>, n: int, matches: Matcher)
    requires Assignment(files, assignments, n, matches).Ok?
    ensures var out := Assignment(files, assignments, n, matches).value;
      && |out| <= Max0(n) + 1
      && (forall k :: 0 <= k < |out| ==> out[k] != [] && SortedByPath(out[k]))
  {
    var s := SortByPath(files);
    SortByPathSorted(files);
    RouteSorted(s, |s|, assignments, n, matches);
  }

  /** Each pile holds exactly the files whose target is its slot, and the leftovers exactly the unclaimed files. */
  ghost predicate ByTarget(piles: seq<seq<FileDiff>>, leftover: seq<FileDiff>, files: seq<FileDiff>, t: string -> Target)
  {
    && (forall b, f :: 0 <= b < |piles| ==> (f in piles[b] <==> f in files && t(f.path) == ToGroup(b)))
    && (forall f :: f in leftover <==> f in files && t(f.path) == ToLeftover)
  }

  /**
   * The groups built from piles and leftovers that hold exactly the files
   * of each target: files share a group exactly when they share a target,
   * and the leftovers, when there are any, are the last group.
   */
  lemma {:induction false} GroupsByTarget(piles: seq<seq<FileDiff>>, leftover: seq<FileDiff>, files: seq<FileDiff>, t: string -> Target)
    requires ByTarget(piles, leftover, files, t)
    ensures var out := NonEmpty(piles) + (if leftover == [] then [] else [leftover]);
      forall k, f :: 0 <= k < |out| && f in out[k] ==> f in files
    ensures var out := NonEmpty(piles) + (if leftover == [] then [] else [leftover]);
      forall k, f, g :: 0 <= k < |out| && f in out[k] && g in files ==>
        (g in out[k] <==> t(g.path) == t(f.path))
    ensures var out := NonEmpty(piles) + (if leftover == [] then [] else [leftover]);
      (exists f | f in files :: t(f.path) == ToLeftover) ==>
        |out| > 0 && forall g :: g in out[|out| - 1] <==> g in files && t(g.path) == ToLeftover
    ensures var out := NonEmpty(piles) + (if leftover == [] then [] else [leftover]);
      (forall f | f in files :: t(f.path) != ToLeftover) ==> forall k, f :: 0 <= k < |out| && f in out[k] ==> t(f.path).ToGroup?
  {
    var claimed := NonEmpty(piles);
    var out := claimed + (if leftover == [] then [] else [leftover]);
    forall k, f | 0 <= k < |out| && f in out[k]
      ensures f in files
    {
      if k < |claimed| {
        var b :| 0 <= b < |piles| && piles[b] == out[k];
      }
    }
    forall k, f: FileDiff, g: FileDiff | 0 <= k < |out| && f in out[k] && g in files
      ensures g in out[k] <==> t(g.path) == t(f.path)
    {
      if k < |claimed| {
        var b :| 0 <= b < |piles| && piles[b] == out[k];
      }
    }
    if exists f | f in files :: t(f.path) == ToLeftover {
      var f :| f in files && t(f.path) == ToLeftover;
      assert f in leftover;
    } else {
      forall k, f: FileDiff | 0 <= k < |out| && f in out[k]
        ensures t(f.path).ToGroup?
      {
        if k < |claimed| {
          var b :| 0 <= b < |piles| && piles[b] == out[k];
        }
      }
    }
  }

  /** The facts `GroupsByTarget` needs, for the routing of the sorted files. */
  lemma RouteByTarget(files: seq<FileDiff>, assignments: map<int, seq<string>>, n: int, matches: Matcher, t: string -> Target)
    requires RouteFirst(SortByPath(files), |files|, assignments, n, matches).Ok?
    requires forall p :: t(p) == TargetOf(assignments, n, matches, p)
    ensures var st := RouteFirst(SortByPath(files), |files|, assignments, n, matches).value;
      ByTarget(st.groups, st.leftover, files, t)
  {
    var s := SortByPath(files);
    assert s[..|s|] == s;
    forall f: FileDiff
      ensures var st := RouteFirst(s, |s|, assignments, n, matches).value;
        && (forall b :: 0 <= b < |st.groups| ==> (f in st.groups[b] <==> f in files && t(f.path) == ToGroup(b)))
        && (f in st.leftover <==> f in files && t(f.path) == ToLeftover)
    {
      RouteMembers(s, |s|, assignments, n, matches, f);
      assert f in s <==> f in multiset(s);
    }
  }

  /**
   * First match wins: two files share a group exactly when they have the
   * same target, so each group other than the leftovers is everything
   * claimed for one slot.
   */
  lemma AssignmentSameTarget(files: seq<FileDiff>, assignments: map<int, seq<string>>, n: int, matches: Matcher)
    requires Assignment(files, assignments, n, matches).Ok?
    ensures var out := Assignment(files, assignments, n, matches).value;
      forall k, f, g :: 0 <= k < |out| && f in out[k] && g in files ==>
        f in files && (g in out[k] <==> TargetOf(assignments, n, matches, g.path) == TargetOf(assignments, n, matches, f.path))
  {
    var t := (p: string) => TargetOf(assignments, n, matches, p);
    var st := RouteFirst(SortByPath(files), |files|, assignments, n, matches).value;
    var out := NonEmpty(st.groups) + (if st.leftover == [] then [] else [st.leftover]);
    assert Assignment(files, assignments, n, matches).value == out;
    RouteByTarget(files, assignments, n, matches, t);
    GroupsByTarget(st.groups, st.leftover, files, t);
    forall k, f: FileDiff, g: FileDiff | 0 <= k < |out| && f in out[k] && g in files
      ensures f in files && (g in out[k] <==> TargetOf(assignments, n, matches, g.path) == TargetOf(assignments, n, matches, f.path))
    {
      assert t(g.path) == TargetOf(assignments, n, matches, g.path) && t(f.path) == TargetOf(assignments, n, matches, f.path);
    }
  }

  /**
   * Groups come in the order of their numbers: of two output groups, when
   * the later one was claimed by a group number, so was the earlier one,
   * and for a lower slot. Empty slots are skipped and the leftovers, being
   * claimed by none, come after every claimed group.
   */
  lemma AssignmentSlotOrder(files: seq<FileDiff>, assignments: map<int, seq<string>>, n: int, matches: Matcher)
    requires Assignment(files, assignments, n, matches).Ok?
    ensures var out := Assignment(files, assignments, n, matches).value;
      forall k, k', f, g :: 0 <= k < k' < |out| && f in out[k] && g in out[k'] ==>
        (TargetOf(assignments, n, matches, g.path).ToGroup? ==>
           && TargetOf(assignments, n, matches, f.path).ToGroup?
           && TargetOf(assignments, n, matches, f.path).slot < TargetOf(assignments, n, matches, g.path).slot)
  {
    var t := (p: string) => TargetOf(assignments, n, matches, p);
    var st := RouteFirst(SortByPath(files), |files|, assignments, n, matches).value;
    var claimed := NonEmpty(st.groups);
    var out := claimed + (if st.leftover == [] then [] else [st.leftover]);
    assert Assignment(files, assignments, n, matches).value == out;
    RouteByTarget(files, assignments, n, matches, t);
    forall k, k', f: FileDiff, g: FileDiff | 0 <= k < k' < |out| && f in out[k] && g in out[k']
      ensures TargetOf(assignments, n, matches, g.path).ToGroup? ==>
        && TargetOf(assignments, n, matches, f.path).ToGroup?
        && TargetOf(assignments, n, matches, f.path).slot < TargetOf(assignments, n, matches, g.path).slot
    {
      if k' < |claimed| {
        var b, b' := SourceIndex(st.groups, k), SourceIndex(st.groups, k');
        SourceIndexIncreasing(st.groups, k, k');
        assert f in st.groups[b] && g in st.groups[b'];
        assert t(f.path) == ToGroup(b) && t(g.path) == ToGroup(b');
      } else {
        assert g in st.leftover;
        assert t(g.path) == ToLeftover;
      }
    }
  }

  /** When some file matches no group, the last group is exactly the unmatched files. */
  lemma AssignmentLeftoverLast(files: seq<FileDiff>, assignments: map<int, seq<string>>, n: int, matches: Matcher, f: FileDiff)
    requires Assignment(files, assignments, n, matches).Ok?
    requires f in files && TargetOf(assignments, n, matches, f.path) == ToLeftover
    ensures var out := Assignment(files, assignments, n, matches).value;
      |out| > 0 && forall g :: g in out[|out| - 1] <==> g in files && TargetOf(assignments, n, matches, g.path) == ToLeftover
  {
    var t := (p: string) => TargetOf(assignments, n, matches, p);
    RouteByTarget(files, assignments, n, matches, t);
    var st := RouteFirst(SortByPath(files), |files|, assignments, n, matches).value;
    assert t(f.path) == ToLeftover;
    GroupsByTarget(st.groups, st.leftover, files, t);
  }

  /** When every file matches some group, there is no leftover group. */
  lemma AssignmentAllClaimed(files: seq<FileDiff>, assignments: map<int, seq<string>>, n: int, matches: Matcher)
    requires Assignment(files, assignments, n, matches).Ok?
    requires forall f | f in files :: TargetOf(assignments, n, matches, f.path) != ToLeftover
    ensures var out := Assignment(files, assignments, n, matches).value;
      forall k, f :: 0 <= k < |out| && f in out[k] ==> TargetOf(assignments, n, matches, f.path).ToGroup?
  {
    var t := (p: string) => TargetOf(assignments, n, matches, p);
    var st := RouteFirst(SortByPath(files), |files|, assignments, n, matches).value;
    var out := NonEmpty(st.groups) + (if st.leftover == [] then [] else [st.leftover]);
    assert Assignment(files, assignments, n, matches).value == out;
    RouteByTarget(files, assignments, n, matches, t);
    assert forall f | f in files :: t(f.path) != ToLeftover;
    GroupsByTarget(st.groups, st.leftover, files, t);
    forall k, f: FileDiff | 0 <= k < |out| && f in out[k]
      ensures TargetOf(assignments, n, matches, f.path).ToGroup?
    {
      assert t(f.path).ToGroup?;
    }
  }

  /**
   * Piles and leftovers sorted by target give more groups than there are
   * piles exactly when some file is unclaimed and every pile received a file.
   */
  lemma MoreGroupsThanPiles(piles: seq<seq<FileDiff>>, leftover: seq<FileDiff>, files: seq<FileDiff>, t: string -> Target)
    requires ByTarget(piles, leftover, files, t)
    ensures var out := NonEmpty(piles) + (if leftover == [] then [] else [leftover]);
      |out| > |piles| <==>
        (exists f | f in files :: t(f.path) == ToLeftover) &&
        forall b :: 0 <= b < |piles| ==> exists f | f in files :: t(f.path) == ToGroup(b)
  {
    NonEmptyFull(piles);
    forall b | 0 <= b < |piles|
      ensures piles[b] != [] <==> exists f | f in files :: t(f.path) == ToGroup(b)
    {
      if piles[b] != [] {
        var f := piles[b][0];
        assert f in piles[b];
        assert f in files && t(f.path) == ToGroup(b);
      }
    }
    if leftover != [] {
      var f := leftover[0];
      assert f in leftover;
      assert f in files && t(f.path) == ToLeftover;
    }
  }

  /**
   * `assign_files` returns more than `num_prs` groups exactly when some
   * file matches no group and every one of the `num_prs` groups received a
   * file: a leftover group that follows an empty assigned group does not
   * push the count above `num_prs`.
   */
  /** Some file matches no `--assign` pattern. */
  ghost predicate SomeUnclaimed(files: seq<FileDiff>, assignments: map<int, seq<string>>, n: int, matches: Matcher)
  {
    exists f | f in files :: TargetOf(assignments, n, matches, f.path) == ToLeftover
  }

  /** Each of the first `slots` groups is the target of some file. */
  ghost predicate EverySlotUsed(files: seq<FileDiff>, assignments: map<int, seq<string>>, n: int, matches: Matcher, slots: int)
  {
    forall b :: 0 <= b < slots ==> exists f | f in files :: TargetOf(assignments, n, matches, f.path) == ToGroup(b)
  }

  lemma AssignmentMoreThanSlots(files: seq<FileDiff>, assignments: map<int, seq<string>>, n: int, matches: Matcher)
    requires Assignment(files, assignments, n, matches).Ok?
    ensures |Assignment(files, assignments, n, matches).value| > Max0(n) <==>
      SomeUnclaimed(files, assignments, n, matches) && EverySlotUsed(files, assignments, n, matches, Max0(n))
  {
    var t := (p: string) => TargetOf(assignments, n, matches, p);
    var st := RouteFirst(SortByPath(files), |files|, assignments, n, matches).value;
    var out := NonEmpty(st.groups) + (if st.leftover == [] then [] else [st.leftover]);
    assert Assignment(files, assignments, n, matches).value == out;
    RouteByTarget(files, assignments, n, matches, t);
    MoreGroupsThanPiles(st.groups, st.leftover, files, t);
    assert (exists f | f in files :: t(f.path) == ToLeftover) <==>
      (exists f | f in files :: TargetOf(assignments, n, matches, f.path) == ToLeftover);
    forall b | 0 <= b < Max0(n)
      ensures (exists f | f in files :: t(f.path) == ToGroup(b)) <==>
        (exists f | f in files :: TargetOf(assignments, n, matches, f.path) == ToGroup(b))
    {
    }
  }

  /** The inner loop of `assign_files`: the first of `keys` whose patterns match the path. */
  method ScanKeys(keys: seq<int>, assignments: map<int, seq<string>>, matches: Matcher, path: string) returns (claim: Option<int>)
    requires forall i :: 0 <= i < |keys| ==> keys[i] in assignments
    ensures claim == FirstMatch(keys, assignments, matches, path)
  {
    var j := 0;
    assert keys[j..] == keys;
    while j < |keys|
      invariant 0 <= j <= |keys|
      invariant FirstMatch(keys, assignments, matches, path) == FirstMatch(keys[j..], assignments, matches, path)
    {
      FirstMatchStep(keys, j, assignments, matches, path);
      if matches(assignments[keys[j]], path) {
        return Some(keys[j]);
      }
      j := j + 1;
    }
    return None;
  }

  /** The group numbers scanned in ascending order: the first whose patterns match claims the path. */
  method FindClaim(assignments: map<int, seq<string>>, matches: Matcher, path: string) returns (claim: Option<int>)
    ensures claim == Claim(assignments, matches, path)
  {
    var keys := SortedKeys(assignments.Keys);
    claim := ScanKeys(keys, assignments, matches, path);
  }

  /** The body of `assign_files`'s outer loop for one file: it joins the group that claims it, or the leftovers. */
  method PlaceFile(groups: seq<seq<FileDiff>>, leftover: seq<FileDiff>, f: FileDiff,
                   assignments: map<int, seq<string>>, numPrs: int, matches: Matcher)
    returns (r: Result<Routing, Failure>)
    requires |groups| == Max0(numPrs)
    ensures r == Place(Routing(groups, leftover), f, assignments, numPrs, matches)
  {
    var claim := FindClaim(assignments, matches, f.path);
    if claim.None? {
      return Ok(Routing(groups, leftover + [f]));
    }
    var g := claim.value;
    if !InRange(g, numPrs) {
      return Err(IndexError);
    }
    var b := Slot(g, numPrs);
    return Ok(Routing(groups[b := groups[b] + [f]], leftover));
  }

  /** `assign_files(files, assignments, num_prs)`. */
  method AssignFiles(files: seq<FileDiff>, assignments: map<int, seq<string>>, numPrs: int, matches: Matcher)
    returns (r: Result<seq<seq<FileDiff>>, Failure>)
    ensures r == Assignment(files, assignments, numPrs, matches)
  {
    var groups: seq<seq<FileDiff>> := seq(Max0(numPrs), _ => []);
    var leftover: seq<FileDiff> := [];
    var sorted := SortByPath(files);
    for i := 0 to |sorted|
      invariant RouteFirst(sorted, i, assignments, numPrs, matches) == Ok(Routing(groups, leftover))
    {
      var step := PlaceFile(groups, leftover, sorted[i], assignments, numPrs, matches);
      if step.Err? {
        RouteStaysFailed(sorted, i + 1, |sorted|, assignments, numPrs, matches);
        return Err(IndexError);
      }
      groups, leftover := step.value.groups, step.value.leftover;
    }
    r := Ok(NonEmpty(groups) + (if leftover == [] then [] else [leftover]));
  }

  // ---------------------------------------------------------------- generate_branch_name

  /** The branch stem: the source branch, with `prefix` put in front unless it is empty or already there. */
  function BranchStem(source: string, prefix: string): (stem: string)
    ensures StartsWith(stem, prefix)
    ensures StartsWith(source, prefix) ==> stem == source
    ensures !StartsWith(source, prefix) ==> stem == prefix + source
  {
    if prefix != "" && !StartsWith(source, prefix) then prefix + source else source
  }

  /** What follows the stem: `-part-leftover-of-{total}` or `-part-{index + 1}-of-{total}`. */
  function PartSuffix(index: int, total: int, isLeftover: bool): string
  {
    if isLeftover then "-part-leftover-of-" + IntToString(total)
    else "-part-" + IntToString(index + 1) + "-of-" + IntToString(total)
  }

  /** `generate_branch_name(source_branch, prefix, index, total, is_leftover)`. */
  function BranchName(source: string, prefix: string, index: int, total: int, isLeftover: bool): string
  {
    BranchStem(source, prefix) + PartSuffix(index, total, isLeftover)
  }

  /** Prefixing is idempotent: a branch that already carries the prefix keeps its name. */
  lemma BranchStemIdempotent(source: string, prefix: string)
    ensures BranchStem(BranchStem(source, prefix), prefix) == BranchStem(source, prefix)
  {
  }

  /**
   * Every branch name starts with the prefix, and with the source branch
   * once prefixed. What follows the stem is the part suffix: the step
   * `BranchNamesDistinct` takes to compare two names by their suffixes.
   */
  lemma BranchNameShape(source: string, prefix: string, index: int, total: int, isLeftover: bool)
    ensures var name := BranchName(source, prefix, index, total, isLeftover);
      && StartsWith(name, prefix)
      && StartsWith(name, BranchStem(source, prefix))
      && name[|BranchStem(source, prefix)|..] == PartSuffix(index, total, isLeftover)
  {
    var stem := BranchStem(source, prefix);
    var name := BranchName(source, prefix, index, total, isLeftover);
    assert name[..|stem|] == stem;
    assert name[..|prefix|] == stem[..|prefix|];
  }

  /** The leftover suffix differs from every numbered one: `l` against a digit after `-part-`. */
  lemma LeftoverSuffixDiffers(i: nat, total: int)
    ensures PartSuffix(i, total, true) != PartSuffix(i, total, false)
  {
    var a := IntToString(i + 1);
    assert a == NatToString(i + 1);
    var v := "-part-" + a + "-of-" + IntToString(total);
    assert v[6] == a[0];
    assert IsDigit(a[0]);
  }

  /** Two numbered suffixes differ when their runs of digits differ. */
  lemma NumberedTextsDiffer(a: string, b: string, t: string)
    requires AllDigits(a) && AllDigits(b) && a != b
    ensures "-part-" + a + "-of-" + t != "-part-" + b + "-of-" + t
  {
    var u, v := "-part-" + a + "-of-" + t, "-part-" + b + "-of-" + t;
    if |a| < |b| {
      assert u[6 + |a|] == '-' && v[6 + |a|] == b[|a|];
    } else if |b| < |a| {
      assert v[6 + |b|] == '-' && u[6 + |b|] == a[|b|];
    } else {
      var k :| 0 <= k < |a| && a[k] != b[k];
      assert u[6 + k] == a[k] && v[6 + k] == b[k];
    }
  }

  /** Numbered suffixes with different indices differ. */
  lemma NumberedSuffixesDiffer(i: nat, j: nat, total: int)
    requires i != j
    ensures PartSuffix(i, total, false) != PartSuffix(j, total, false)
  {
    IntToStringInjective(i + 1, j + 1);
    NumberedTextsDiffer(IntToString(i + 1), IntToString(j + 1), IntToString(total));
  }

  lemma PartSuffixesDistinct(i: nat, j: nat, total: int, leftoverI: bool, leftoverJ: bool)
    requires leftoverI != leftoverJ || (!leftoverI && i != j)
    ensures PartSuffix(i, total, leftoverI) != PartSuffix(j, total, leftoverJ)
  {
    if leftoverI && !leftoverJ {
      LeftoverSuffixDiffers(j, total);
    } else if leftoverJ && !leftoverI {
      LeftoverSuffixDiffers(i, total);
    } else {
      NumberedSuffixesDiffer(i, j, total);
    }
  }

  /**
   * Two groups of one split never share a branch name: numbered parts with
   * different indices differ, and the leftover part differs from every
   * numbered one.
   */
  lemma BranchNamesDistinct(source: string, prefix: string, i: nat, j: nat, total: int, leftoverI: bool, leftoverJ: bool)
    requires leftoverI != leftoverJ || (!leftoverI && i != j)
    ensures BranchName(source, prefix, i, total, leftoverI) != BranchName(source, prefix, j, total, leftoverJ)
  {
    var stem := BranchStem(source, prefix);
    PartSuffixesDistinct(i, j, total, leftoverI, leftoverJ);
    BranchNameShape(source, prefix, i, total, leftoverI);
    BranchNameShape(source, prefix, j, total, leftoverJ);
  }

  // ---------------------------------------------------------------- build_pr_body

  /** Python truthiness of an optional string: set and not empty. */
  predicate Given(s: Option<string>)
  {
    s.Some? && s.value != ""
  }

  /** The word for a status letter; a letter without one stands for itself. */
  function StatusLabel(status: char): (word: string)
    ensures word != ""
    ensures ValidStatus(status) <==> word != [status]
  {
    match status
    case 'A' => "added"
    case 'M' => "modified"
    case 'D' => "deleted"
    case 'R' => "renamed"
    case 'C' => "copied"
    case 'T' => "type changed"
    case _ => [status]
  }

  /** The line listing one file. */
  function FileLine(f: FileDiff): string
  {
    "- `" + f.path + "` (" + StatusLabel(f.status) + ")"
  }

  /** One listing line per file, in order. */
  function FileLines(files: seq<FileDiff>): (lines: seq<string>)
    ensures |lines| == |files|
  {
    if files == [] then [] else FileLines(files[..|files| - 1]) + [FileLine(files[|files| - 1])]
  }

  /** The listing has one line per file, in the order of the files. */
  lemma {:induction false} FileLinesAt(files: seq<FileDiff>)
    ensures forall k :: 0 <= k < |files| ==> FileLines(files)[k] == FileLine(files[k])
  {
    if files != [] {
      FileLinesAt(files[..|files| - 1]);
    }
  }

  const Rule: string := "---"
  const FilesHeading: string := "## Files"

  /** The line naming the part and the source branch. */
  function PartLine(index: int, total: int, source: string): string
  {
    "Part " + IntToString(index + 1) + " of " + IntToString(total) + " from `" + source + "`."
  }

  /** The source pull request's body and a rule under it, when there is a body. */
  function BodyHead(sourceBody: Option<string>): seq<string>
  {
    if Given(sourceBody) then [sourceBody.value, "", Rule, ""] else []
  }

  /** The dependency line and a blank line, when there is a dependency. */
  function BodyTail(dependsOn: Option<string>): seq<string>
  {
    if Given(dependsOn) then ["Depends on: " + dependsOn.value, ""] else []
  }

  /** The lines `build_pr_body` joins. */
  function BodyLines(index: int, files: seq<FileDiff>, total: int, source: string,
                     dependsOn: Option<string>, sourceBody: Option<string>): seq<string>
  {
    BodyHead(sourceBody) + [PartLine(index, total, source), "", FilesHeading, ""] + FileLines(files) + [""] + BodyTail(dependsOn)
  }

  /**
   * A pull request body has the source body and a rule when there is one,
   * then five lines around the file listing with one line per file, then
   * two more lines exactly when there is a dependency.
   */
  lemma BodyLength(index: int, files: seq<FileDiff>, total: int, source: string,
                   dependsOn: Option<string>, sourceBody: Option<string>)
    ensures |BodyLines(index, files, total, source, dependsOn, sourceBody)|
      == (if Given(sourceBody) then 4 else 0) + 5 + |files| + (if Given(dependsOn) then 2 else 0)
    ensures Given(sourceBody) ==> BodyLines(index, files, total, source, dependsOn, sourceBody)[..4] == [sourceBody.value, "", Rule, ""]
  {
    BodyShape(BodyHead(sourceBody), PartLine(index, total, source), "", FilesHeading, FileLines(files), BodyTail(dependsOn), |files|);
  }

  /**
   * After the source body: the part line, a blank line, the `## Files`
   * heading and a blank line, then the listing (one line per file, in
   * order, by `FileLines`) and a blank line.
   */
  lemma BodyListing(index: int, files: seq<FileDiff>, total: int, source: string,
                    dependsOn: Option<string>, sourceBody: Option<string>)
    ensures var lines := BodyLines(index, files, total, source, dependsOn, sourceBody);
      var h := |BodyHead(sourceBody)|;
      && h == (if Given(sourceBody) then 4 else 0)
      && h + 5 + |files| <= |lines|
      && lines[h] == PartLine(index, total, source)
      && lines[h + 1..h + 4] == ["", FilesHeading, ""]
      && lines[h + 4..h + 4 + |files|] == FileLines(files)
      && lines[h + 4 + |files|] == ""
  {
    BodyShape(BodyHead(sourceBody), PartLine(index, total, source), "", FilesHeading, FileLines(files), BodyTail(dependsOn), |files|);
  }

  /** The body ends with `Depends on: {depends_on}` and a blank line exactly when there is a dependency. */
  lemma BodyDependsOn(index: int, files: seq<FileDiff>, total: int, source: string,
                      dependsOn: Option<string>, sourceBody: Option<string>)
    ensures var lines := BodyLines(index, files, total, source, dependsOn, sourceBody);
      var end := (if Given(sourceBody) then 4 else 0) + 5 + |files|;
      && end <= |lines|
      && (Given(dependsOn) ==> lines[end..] == ["Depends on: " + dependsOn.value, ""])
      && (!Given(dependsOn) ==> end == |lines|)
  {
    BodyShape(BodyHead(sourceBody), PartLine(index, total, source), "", FilesHeading, FileLines(files), BodyTail(dependsOn), |files|);
  }

  /** Where each piece of `head + [part, blank, heading, blank] + listing + [blank] + tail` sits. */
  lemma BodyShape<T>(head: seq<T>, part: T, blank: T, heading: T, listing: seq<T>, tail: seq<T>, l: nat)
    requires l == |listing|
    ensures var lines := head + [part, blank, heading, blank] + listing + [blank] + tail;
      var h := |head|;
      && |lines| == h + 5 + l + |tail|
      && lines[..h] == head
      && lines[h] == part
      && lines[h + 1..h + 4] == [blank, heading, blank]
      && lines[h + 4..h + 4 + l] == listing
      && lines[h + 4 + l] == blank
      && lines[h + 5 + l..] == tail
  {
  }

  /** A string without a line break. */
  predicate OneLine(s: string)
  {
    '\n' !in s
  }

  lemma ConcatOneLine(a: seq<string>, b: seq<string>)
    requires forall k :: 0 <= k < |a| ==> OneLine(a[k])
    requires forall k :: 0 <= k < |b| ==> OneLine(b[k])
    ensures forall k :: 0 <= k < |a + b| ==> OneLine((a + b)[k])
  {
    forall k | 0 <= k < |a + b|
      ensures OneLine((a + b)[k])
    {
      if k >= |a| {
        assert (a + b)[k] == b[k - |a|];
      }
    }
  }

  lemma StatusLabelOneLine(status: char)
    requires status != '\n'
    ensures OneLine(StatusLabel(status))
  {
    match status
    case 'A' => assert StatusLabel(status) == "added";
    case 'M' => assert StatusLabel(status) == "modified";
    case 'D' => assert StatusLabel(status) == "deleted";
    case 'R' => assert StatusLabel(status) == "renamed";
    case 'C' => assert StatusLabel(status) == "copied";
    case 'T' => assert StatusLabel(status) == "type changed";
    case _ => assert StatusLabel(status) == [status];
  }

  lemma FileLineOneLine(f: FileDiff)
    requires OneLine(f.path) && f.status != '\n'
    ensures OneLine(FileLine(f))
  {
    StatusLabelOneLine(f.status);
  }

  lemma FileLinesOneLine(files: seq<FileDiff>)
    requires forall k :: 0 <= k < |files| ==> OneLine(files[k].path) && files[k].status != '\n'
    ensures forall k :: 0 <= k < |files| ==> OneLine(FileLines(files)[k])
  {
    FileLinesAt(files);
    forall k | 0 <= k < |files|
      ensures OneLine(FileLines(files)[k])
    {
      FileLineOneLine(files[k]);
    }
  }

  /** No line of a body holds a line break when neither the inputs nor the paths and status letters do. */
  lemma BodyLinesOneLine(index: int, files: seq<FileDiff>, total: int, source: string,
                         dependsOn: Option<string>, sourceBody: Option<string>)
    requires OneLine(source)
    requires forall k :: 0 <= k < |files| ==> OneLine(files[k].path) && files[k].status != '\n'
    requires Given(dependsOn) ==> OneLine(dependsOn.value)
    requires Given(sourceBody) ==> OneLine(sourceBody.value)
    ensures var lines := BodyLines(index, files, total, source, dependsOn, sourceBody);
      forall k :: 0 <= k < |lines| ==> OneLine(lines[k])
  {
    IntToStringOneLine(index + 1);
    IntToStringOneLine(total);
    var head := BodyHead(sourceBody);
    var mid := [PartLine(index, total, source), "", FilesHeading, ""];
    assert OneLine(mid[0]);
    FileLinesOneLine(files);
    ConcatOneLine(head, mid);
    ConcatOneLine(head + mid, FileLines(files));
    ConcatOneLine(head + mid + FileLines(files), [""]);
    ConcatOneLine(head + mid + FileLines(files) + [""], BodyTail(dependsOn));
  }

  /**
   * Splitting a body at its line breaks gives back its lines, when no input
   * holds a line break: the body is exactly those lines, in order.
   */
  lemma BodySplitsIntoLines(index: int, files: seq<FileDiff>, total: int, source: string,
                            dependsOn: Option<string>, sourceBody: Option<string>)
    requires OneLine(source)
    requires forall k :: 0 <= k < |files| ==> OneLine(files[k].path) && files[k].status != '\n'
    requires Given(dependsOn) ==> OneLine(dependsOn.value)
    requires Given(sourceBody) ==> OneLine(sourceBody.value)
    ensures var lines := BodyLines(index, files, total, source, dependsOn, sourceBody);
      Split(Join(lines, "\n"), '\n') == lines
  {
    BodyLinesOneLine(index, files, total, source, dependsOn, sourceBody);
    SplitJoin(BodyLines(index, files, total, source, dependsOn, sourceBody), '\n');
  }

  /** The loop of `build_pr_body` over the group's files: one listing line appended per file. */
  method AppendFileLines(lines: seq<string>, files: seq<FileDiff>) returns (result: seq<string>)
    ensures result == lines + FileLines(files)
  {
    result := lines;
    for i := 0 to |files|
      invariant result == lines + FileLines(files[..i])
    {
      var f := files[i];
      assert files[..i + 1][..i] == files[..i];
      var word := StatusLabel(f.status);
      result := result + ["- `" + f.path + "` (" + word + ")"];
    }
    assert files[..|files|] == files;
  }

  /** `build_pr_body(group, total, source_branch, depends_on, source_body)`. */
  method BuildPrBody(group: PrGroup, total: int, source: string, dependsOn: Option<string>, sourceBody: Option<string>)
    returns (body: string)
    ensures body == Join(BodyLines(group.index, group.files, total, source, dependsOn, sourceBody), "\n")
  {
    var lines: seq<string> := [];
    if sourceBody.Some? && sourceBody.value != "" {
      lines := lines + [sourceBody.value];
      lines := lines + [""];
      lines := lines + [Rule];
      lines := lines + [""];
    }
    lines := lines + [PartLine(group.index, total, source)];
    lines := lines + [""];
    lines := lines + [FilesHeading];
    lines := lines + [""];
    assert lines == BodyHead(sourceBody) + [PartLine(group.index, total, source), "", FilesHeading, ""];
    lines := AppendFileLines(lines, group.files);
    lines := lines + [""];
    ghost var listed := lines;
    if dependsOn.Some? && dependsOn.value != "" {
      lines := lines + ["Depends on: " + dependsOn.value];
      lines := lines + [""];
    }
    assert lines == listed + BodyTail(dependsOn);
    body := Join(lines, "\n");
  }

  // ---------------------------------------------------------------- split (planning)

  const NoChangesMessage: string := "No changed files found between branches."

  function NoMatchMessage(total: int): string
  {
    "No files match the given patterns. Total changed files: " + IntToString(total) + "."
  }

  function LeftoverWarning(count: int): string
  {
    IntToString(count) + " file(s) were not matched by any --assign pattern and will be in a separate group."
  }

  function FewerFilesWarning(requested: int, available: int, actual: int): string
  {
    "Requested " + IntToString(requested) + " PRs but only " + IntToString(available)
      + " files match. Using " + IntToString(actual) + " PRs instead."
  }

  /** `config.source_branch or get_current_branch(repo)`: the current branch counts only when no source branch is set. */
  function SourceBranch(config: SplitConfig, current: string): string
  {
    if Given(config.sourceBranch) then config.sourceBranch.value else current
  }

  /** `source_pr_title or source_branch`. */
  function BaseTitle(prTitle: string, source: string): string
  {
    if prTitle != "" then prTitle else source
  }

  /** `pr_info.get("body", "") or None`. */
  function SourceBody(prBody: string): Option<string>
  {
    if prBody != "" then Some(prBody) else None
  }

  /** The groups to open, whether the last of them is flagged as the leftovers, and the warnings raised. */
  datatype Grouping = Grouping(groups: seq<seq<FileDiff>>, hasLeftover: bool, warnings: seq<string>)

  /** With `--assign` patterns: `assign_files`, and the leftover flag `len(distributed) > num_prs`. */
  function AssignedGrouping(filtered: seq<FileDiff>, assignments: map<int, seq<string>>, numPrs: int, matches: Matcher)
    : Result<Grouping, Failure>
    requires numPrs >= 1
  {
    match Assignment(filtered, assignments, numPrs, matches)
    case Err(e) => Err(e)
    case Ok(d) =>
      var hasLeftover := |d| > numPrs;
      Ok(Grouping(d, hasLeftover, if hasLeftover then [LeftoverWarning(|d[|d| - 1]|)] else []))
  }

  /** Without `--assign` patterns: `distribute_files` into `min(num_prs, len(filtered))` groups. */
  function DealtGrouping(filtered: seq<FileDiff>, numPrs: int): Grouping
    requires numPrs >= 1
  {
    var actual := Min(numPrs, |filtered|);
    Grouping(Distribution(filtered, actual), false,
             if actual < numPrs then [FewerFilesWarning(numPrs, |filtered|, actual)] else [])
  }

  /** The grouping `split` asks for: by `--assign` patterns when there are any, else round-robin. */
  function Grouped(filtered: seq<FileDiff>, config: SplitConfig, matches: Matcher): Result<Grouping, Failure>
    requires config.Valid()
  {
    if config.assignments != map[] then AssignedGrouping(filtered, config.assignments, config.numPrs, matches)
    else Ok(DealtGrouping(filtered, config.numPrs))
  }

  /** The title of group `i` of `total`: the leftover tag, else the custom title for number `i + 1` when set, else the base title. */
  function Title(i: int, total: int, isLeftover: bool, titles: map<int, string>, baseTitle: string): string
  {
    if isLeftover then "[leftover/" + IntToString(total) + "] " + baseTitle
    else if i + 1 in titles && titles[i + 1] != "" then "[" + IntToString(i + 1) + "/" + IntToString(total) + "] " + titles[i + 1]
    else "[" + IntToString(i + 1) + "/" + IntToString(total) + "] " + baseTitle
  }

  /** The pull request planned for group `i` of `d`. */
  function PlannedPr(d: seq<seq<FileDiff>>, i: nat, hasLeftover: bool, config: SplitConfig,
                     source: string, baseTitle: string, sourceBody: Option<string>): PrGroup
    requires i < |d|
  {
    var total := |d|;
    var isLeftover := hasLeftover && i == total - 1;
    PrGroup(i, BranchName(source, config.prefix, i, total, isLeftover), d[i],
            Title(i, total, isLeftover, config.titles, baseTitle),
            Join(BodyLines(i, d[i], total, source, config.dependsOn, sourceBody), "\n"),
            config.dependsOn)
  }

  /** The pull requests planned for the first `k` groups of `d`, in order. */
  function PlannedPrs(d: seq<seq<FileDiff>>, k: nat, hasLeftover: bool, config: SplitConfig,
                      source: string, baseTitle: string, sourceBody: Option<string>): (prs: seq<PrGroup>)
    requires k <= |d|
    ensures |prs| == k
    ensures forall i :: 0 <= i < k ==> prs[i] == PlannedPr(d, i, hasLeftover, config, source, baseTitle, sourceBody)
  {
    if k == 0 then []
    else PlannedPrs(d, k - 1, hasLeftover, config, source, baseTitle, sourceBody)
           + [PlannedPr(d, k - 1, hasLeftover, config, source, baseTitle, sourceBody)]
  }

  /**
   * The planning half of `split(config)`: `current` is what
   * `get_current_branch` reports, `allFiles` what `get_changed_files`
   * reports, and `prTitle`/`prBody` the title and body of the open pull
   * request (empty when there is none).
   */
  function Plan(config: SplitConfig, current: string, allFiles: seq<FileDiff>,
                prTitle: string, prBody: string, matches: Matcher): Result<SplitResult, Failure>
    requires config.Valid()
  {
    var source := SourceBranch(config, current);
    if allFiles == [] then Err(ValidationError(NoChangesMessage))
    else
      var filtered := Kept(allFiles, config.filePatterns, config.excludePatterns, matches);
      if filtered == [] then Err(ValidationError(NoMatchMessage(|allFiles|)))
      else
        match Grouped(filtered, config, matches)
        case Err(e) => Err(e)
        case Ok(g) =>
          Ok(SplitResult(PlannedPrs(g.groups, |g.groups|, g.hasLeftover, config, source,
                                    BaseTitle(prTitle, source), SourceBody(prBody)),
                         g.warnings, source, config.baseBranch))
  }

  /** The file lists of the planned pull requests. */
  function FilesOf(prs: seq<PrGroup>): (d: seq<seq<FileDiff>>)
    ensures |d| == |prs| && forall i :: 0 <= i < |prs| ==> d[i] == prs[i].files
  {
    if prs == [] then [] else [prs[0].files] + FilesOf(prs[1..])
  }

  /** `split` raises `ValidationError` for an empty diff and for a diff that no pattern lets through, and `IndexError` when `assign_files` does. */
  lemma PlanRejects(config: SplitConfig, current: string, allFiles: seq<FileDiff>,
                    prTitle: string, prBody: string, matches: Matcher)
    requires config.Valid()
    ensures var r := Plan(config, current, allFiles, prTitle, prBody, matches);
      var filtered := Kept(allFiles, config.filePatterns, config.excludePatterns, matches);
      && (allFiles == [] ==> r == Err(ValidationError(NoChangesMessage)))
      && (allFiles != [] && filtered == [] ==> r == Err(ValidationError(NoMatchMessage(|allFiles|))))
      && (allFiles != [] && filtered != [] ==>
            (r.Err? <==> (config.assignments != map[] &&
               exists f | f in filtered :: TargetOf(config.assignments, config.numPrs, matches, f.path) == NoSuchGroup)))
      && (allFiles != [] && filtered != [] && r.Err? ==> r.error == IndexError)
  {
    var filtered := Kept(allFiles, config.filePatterns, config.excludePatterns, matches);
    if allFiles != [] && filtered != [] && config.assignments != map[] {
      AssignmentFails(filtered, config.assignments, config.numPrs, matches);
    }
  }

  /** An accepted plan holds the pull requests planned for the groups `Grouped` chose, and its warnings. */
  lemma PlanValue(config: SplitConfig, current: string, allFiles: seq<FileDiff>,
                  prTitle: string, prBody: string, matches: Matcher)
    requires config.Valid() && Plan(config, current, allFiles, prTitle, prBody, matches).Ok?
    ensures Grouped(Kept(allFiles, config.filePatterns, config.excludePatterns, matches), config, matches).Ok?
    ensures var source := SourceBranch(config, current);
      var g := Grouped(Kept(allFiles, config.filePatterns, config.excludePatterns, matches), config, matches).value;
      Plan(config, current, allFiles, prTitle, prBody, matches).value
        == SplitResult(PlannedPrs(g.groups, |g.groups|, g.hasLeftover, config, source,
                                  BaseTitle(prTitle, source), SourceBody(prBody)),
                       g.warnings, source, config.baseBranch)
  {
  }

  /** The planned pull requests carry exactly the groups they were planned from. */
  lemma FilesOfPlanned(d: seq<seq<FileDiff>>, hasLeftover: bool, config: SplitConfig,
                       source: string, baseTitle: string, sourceBody: Option<string>)
    ensures FilesOf(PlannedPrs(d, |d|, hasLeftover, config, source, baseTitle, sourceBody)) == d
  {
    var prs := PlannedPrs(d, |d|, hasLeftover, config, source, baseTitle, sourceBody);
    forall i | 0 <= i < |d|
      ensures FilesOf(prs)[i] == d[i]
    {
      assert prs[i] == PlannedPr(d, i, hasLeftover, config, source, baseTitle, sourceBody);
    }
  }

  /** Only the last planned pull request can be a leftover branch, and no two share a branch name. */
  lemma PlannedBranches(d: seq<seq<FileDiff>>, hasLeftover: bool, config: SplitConfig,
                        source: string, baseTitle: string, sourceBody: Option<string>)
    ensures var prs := PlannedPrs(d, |d|, hasLeftover, config, source, baseTitle, sourceBody);
      && (forall i :: 0 <= i < |d| ==>
            prs[i].branchName == BranchName(source, config.prefix, i, |d|, hasLeftover && i == |d| - 1))
      && (forall i, j :: 0 <= i < j < |d| ==> prs[i].branchName != prs[j].branchName)
  {
    var prs := PlannedPrs(d, |d|, hasLeftover, config, source, baseTitle, sourceBody);
    forall i | 0 <= i < |d|
      ensures prs[i].branchName == BranchName(source, config.prefix, i, |d|, hasLeftover && i == |d| - 1)
    {
      assert prs[i] == PlannedPr(d, i, hasLeftover, config, source, baseTitle, sourceBody);
    }
    forall i, j | 0 <= i < j < |d|
      ensures prs[i].branchName != prs[j].branchName
    {
      BranchNamesDistinct(source, config.prefix, i, j, |d|, false, hasLeftover && j == |d| - 1);
    }
  }

  /** The title of each planned pull request, by position. */
  lemma PlannedTitles(d: seq<seq<FileDiff>>, hasLeftover: bool, config: SplitConfig,
                      source: string, baseTitle: string, sourceBody: Option<string>)
    ensures var prs := PlannedPrs(d, |d|, hasLeftover, config, source, baseTitle, sourceBody);
      forall i :: 0 <= i < |d| ==>
        prs[i].title == Title(i, |d|, hasLeftover && i == |d| - 1, config.titles, baseTitle)
  {
    var prs := PlannedPrs(d, |d|, hasLeftover, config, source, baseTitle, sourceBody);
    forall i | 0 <= i < |d|
      ensures prs[i].title == Title(i, |d|, hasLeftover && i == |d| - 1, config.titles, baseTitle)
    {
      assert prs[i] == PlannedPr(d, i, hasLeftover, config, source, baseTitle, sourceBody);
    }
  }

  /** Every changed file that passes the patterns is in exactly one planned pull request. */
  lemma PlanPartition(config: SplitConfig, current: string, allFiles: seq<FileDiff>,
                      prTitle: string, prBody: string, matches: Matcher)
    requires config.Valid() && Plan(config, current, allFiles, prTitle, prBody, matches).Ok?
    ensures var r := Plan(config, current, allFiles, prTitle, prBody, matches).value;
      multiset(Flatten(FilesOf(r.groups))) == multiset(Kept(allFiles, config.filePatterns, config.excludePatterns, matches))
  {
    var source := SourceBranch(config, current);
    var filtered := Kept(allFiles, config.filePatterns, config.excludePatterns, matches);
    PlanValue(config, current, allFiles, prTitle, prBody, matches);
    var g := Grouped(filtered, config, matches).value;
    FilesOfPlanned(g.groups, g.hasLeftover, config, source, BaseTitle(prTitle, source), SourceBody(prBody));
    if config.assignments != map[] {
      AssignmentPartition(filtered, config.assignments, config.numPrs, matches);
    } else {
      DistributionPartition(filtered, Min(config.numPrs, |filtered|));
    }
  }

  /** No group is empty and each lists its files in path order. */
  predicate SortedGroups(d: seq<seq<FileDiff>>)
  {
    forall i :: 0 <= i < |d| ==> d[i] != [] && SortedByPath(d[i])
  }

  /** Both ways of grouping give non-empty groups in path order. */
  lemma GroupedSorted(filtered: seq<FileDiff>, config: SplitConfig, matches: Matcher)
    requires config.Valid() && Grouped(filtered, config, matches).Ok?
    ensures SortedGroups(Grouped(filtered, config, matches).value.groups)
  {
    if config.assignments != map[] {
      AssignmentShape(filtered, config.assignments, config.numPrs, matches);
    } else if filtered != [] {
      var actual := Min(config.numPrs, |filtered|);
      DistributionCount(filtered, actual);
      DistributionSorted(filtered, actual);
    }
  }

  /** No planned pull request is empty, and each lists its files in path order. */
  lemma PlanGroupsSorted(config: SplitConfig, current: string, allFiles: seq<FileDiff>,
                         prTitle: string, prBody: string, matches: Matcher)
    requires config.Valid() && Plan(config, current, allFiles, prTitle, prBody, matches).Ok?
    ensures var r := Plan(config, current, allFiles, prTitle, prBody, matches).value;
      forall i :: 0 <= i < |r.groups| ==> r.groups[i].files != [] && SortedByPath(r.groups[i].files)
  {
    var source := SourceBranch(config, current);
    var filtered := Kept(allFiles, config.filePatterns, config.excludePatterns, matches);
    PlanValue(config, current, allFiles, prTitle, prBody, matches);
    var g := Grouped(filtered, config, matches).value;
    GroupedSorted(filtered, config, matches);
    var prs := PlannedPrs(g.groups, |g.groups|, g.hasLeftover, config, source, BaseTitle(prTitle, source), SourceBody(prBody));
    forall i | 0 <= i < |prs|
      ensures prs[i].files != [] && SortedByPath(prs[i].files)
    {
      assert prs[i] == PlannedPr(g.groups, i, g.hasLeftover, config, source, BaseTitle(prTitle, source), SourceBody(prBody));
    }
  }

  /**
   * Without `--assign` patterns there are `min(num_prs, len(filtered))`
   * pull requests and exactly one warning, the fewer-files one, when fewer
   * files than `num_prs` pass the patterns.
   */
  lemma PlanWithoutAssignments(config: SplitConfig, current: string, allFiles: seq<FileDiff>,
                               prTitle: string, prBody: string, matches: Matcher)
    requires config.Valid() && config.assignments == map[]
    requires Plan(config, current, allFiles, prTitle, prBody, matches).Ok?
    ensures var r := Plan(config, current, allFiles, prTitle, prBody, matches).value;
      var filtered := Kept(allFiles, config.filePatterns, config.excludePatterns, matches);
      && |r.groups| == Min(config.numPrs, |filtered|)
      && (|filtered| < config.numPrs ==> r.warnings == [FewerFilesWarning(config.numPrs, |filtered|, |filtered|)])
      && (|filtered| >= config.numPrs ==> r.warnings == [])
  {
    var source := SourceBranch(config, current);
    var filtered := Kept(allFiles, config.filePatterns, config.excludePatterns, matches);
    PlanValue(config, current, allFiles, prTitle, prBody, matches);
    var g := Grouped(filtered, config, matches).value;
    var actual := Min(config.numPrs, |filtered|);
    assert g == Grouping(Distribution(filtered, actual), false,
                         if actual < config.numPrs then [FewerFilesWarning(config.numPrs, |filtered|, actual)] else []);
    DistributionCount(filtered, actual);
  }

  /**
   * Branch names: every pull request is named `{stem}-part-{i + 1}-of-{total}`
   * by its position, except the last when the plan flags it as the
   * leftovers (`--assign` patterns given and more groups than `num_prs`),
   * which is named `{stem}-part-leftover-of-{total}`.
   */
  lemma PlanBranches(config: SplitConfig, current: string, allFiles: seq<FileDiff>,
                     prTitle: string, prBody: string, matches: Matcher)
    requires config.Valid() && Plan(config, current, allFiles, prTitle, prBody, matches).Ok?
    ensures var r := Plan(config, current, allFiles, prTitle, prBody, matches).value;
      var n := |r.groups|;
      var flagged := config.assignments != map[] && n > config.numPrs;
      forall i :: 0 <= i < n ==>
        r.groups[i].branchName == BranchName(r.sourceBranch, config.prefix, i, n, flagged && i == n - 1)
  {
    var source := SourceBranch(config, current);
    var filtered := Kept(allFiles, config.filePatterns, config.excludePatterns, matches);
    PlanValue(config, current, allFiles, prTitle, prBody, matches);
    var g := Grouped(filtered, config, matches).value;
    assert g.hasLeftover == (config.assignments != map[] && |g.groups| > config.numPrs);
    PlannedBranches(g.groups, g.hasLeftover, config, source, BaseTitle(prTitle, source), SourceBody(prBody));
  }

  /** Without `--assign` patterns no pull request is a leftover: every branch is numbered by position. */
  lemma PlanBranchesNumbered(config: SplitConfig, current: string, allFiles: seq<FileDiff>,
                             prTitle: string, prBody: string, matches: Matcher)
    requires config.Valid() && config.assignments == map[]
    requires Plan(config, current, allFiles, prTitle, prBody, matches).Ok?
    ensures var r := Plan(config, current, allFiles, prTitle, prBody, matches).value;
      forall i :: 0 <= i < |r.groups| ==> r.groups[i].branchName == BranchName(r.sourceBranch, config.prefix, i, |r.groups|, false)
  {
    var source := SourceBranch(config, current);
    var filtered := Kept(allFiles, config.filePatterns, config.excludePatterns, matches);
    PlanValue(config, current, allFiles, prTitle, prBody, matches);
    var g := Grouped(filtered, config, matches).value;
    assert !g.hasLeftover;
    PlannedBranches(g.groups, false, config, source, BaseTitle(prTitle, source), SourceBody(prBody));
  }

  /**
   * With `--assign` patterns there are at most `num_prs + 1` pull
   * requests; when there are more than `num_prs` the last is flagged as
   * the leftovers (its branch and title say so) and one warning counts its
   * files; otherwise there is no warning.
   */
  lemma PlanLeftoverFlag(config: SplitConfig, current: string, allFiles: seq<FileDiff>,
                         prTitle: string, prBody: string, matches: Matcher)
    requires config.Valid() && config.assignments != map[]
    requires Plan(config, current, allFiles, prTitle, prBody, matches).Ok?
    ensures var r := Plan(config, current, allFiles, prTitle, prBody, matches).value;
      var n := |r.groups|;
      && n <= config.numPrs + 1
      && (n <= config.numPrs ==> r.warnings == [])
      && (n > config.numPrs ==>
            && r.warnings == [LeftoverWarning(|r.groups[n - 1].files|)]
            && r.groups[n - 1].branchName == BranchName(r.sourceBranch, config.prefix, n - 1, n, true)
            && r.groups[n - 1].title == "[leftover/" + IntToString(n) + "] " + BaseTitle(prTitle, r.sourceBranch))
  {
    var source := SourceBranch(config, current);
    var filtered := Kept(allFiles, config.filePatterns, config.excludePatterns, matches);
    PlanValue(config, current, allFiles, prTitle, prBody, matches);
    var g := Grouped(filtered, config, matches).value;
    assert g.groups == Assignment(filtered, config.assignments, config.numPrs, matches).value;
    AssignmentShape(filtered, config.assignments, config.numPrs, matches);
    PlannedBranches(g.groups, g.hasLeftover, config, source, BaseTitle(prTitle, source), SourceBody(prBody));
    PlannedTitles(g.groups, g.hasLeftover, config, source, BaseTitle(prTitle, source), SourceBody(prBody));
  }

  /**
   * The leftover flag `len(distributed) > num_prs` is raised exactly when
   * some file matches no `--assign` pattern and every one of the `num_prs`
   * groups received a file; unmatched files that follow an empty assigned
   * group still form a last group, but it is not flagged.
   */
  lemma PlanLeftoverWhen(config: SplitConfig, current: string, allFiles: seq<FileDiff>,
                         prTitle: string, prBody: string, matches: Matcher)
    requires config.Valid() && config.assignments != map[]
    requires Plan(config, current, allFiles, prTitle, prBody, matches).Ok?
    ensures var r := Plan(config, current, allFiles, prTitle, prBody, matches).value;
      var filtered := Kept(allFiles, config.filePatterns, config.excludePatterns, matches);
      |r.groups| > config.numPrs <==>
        SomeUnclaimed(filtered, config.assignments, config.numPrs, matches) &&
        EverySlotUsed(filtered, config.assignments, config.numPrs, matches, config.numPrs)
  {
    var filtered := Kept(allFiles, config.filePatterns, config.excludePatterns, matches);
    PlanValue(config, current, allFiles, prTitle, prBody, matches);
    var g := Grouped(filtered, config, matches).value;
    assert g.groups == Assignment(filtered, config.assignments, config.numPrs, matches).value;
    AssignmentMoreThanSlots(filtered, config.assignments, config.numPrs, matches);
    assert |Plan(config, current, allFiles, prTitle, prBody, matches).value.groups| == |g.groups|;
    assert Max0(config.numPrs) == config.numPrs;
  }

  /**
   * Titles: every pull request but a flagged leftover is titled
   * `[{i + 1}/{total}]` followed by the custom title given for number
   * `i + 1` when it is set and not empty, else by the base title, which is
   * the open pull request's title or else the source branch.
   */
  lemma PlanTitles(config: SplitConfig, current: string, allFiles: seq<FileDiff>,
                   prTitle: string, prBody: string, matches: Matcher)
    requires config.Valid() && Plan(config, current, allFiles, prTitle, prBody, matches).Ok?
    ensures var r := Plan(config, current, allFiles, prTitle, prBody, matches).value;
      var n := |r.groups|;
      var flagged := config.assignments != map[] && n > config.numPrs;
      forall i :: 0 <= i < n && !(flagged && i == n - 1) ==>
        r.groups[i].title == "[" + IntToString(i + 1) + "/" + IntToString(n) + "] "
          + (if i + 1 in config.titles && config.titles[i + 1] != "" then config.titles[i + 1]
             else if prTitle != "" then prTitle else r.sourceBranch)
  {
    var source := SourceBranch(config, current);
    var filtered := Kept(allFiles, config.filePatterns, config.excludePatterns, matches);
    PlanValue(config, current, allFiles, prTitle, prBody, matches);
    var g := Grouped(filtered, config, matches).value;
    PlannedTitles(g.groups, g.hasLeftover, config, source, BaseTitle(prTitle, source), SourceBody(prBody));
  }

  /** No two pull requests of a plan share a branch name. */
  lemma PlanBranchesDistinct(config: SplitConfig, current: string, allFiles: seq<FileDiff>,
                             prTitle: string, prBody: string, matches: Matcher)
    requires config.Valid() && Plan(config, current, allFiles, prTitle, prBody, matches).Ok?
    ensures var r := Plan(config, current, allFiles, prTitle, prBody, matches).value;
      forall i, j :: 0 <= i < j < |r.groups| ==> r.groups[i].branchName != r.groups[j].branchName
  {
    var source := SourceBranch(config, current);
    var filtered := Kept(allFiles, config.filePatterns, config.excludePatterns, matches);
    PlanValue(config, current, allFiles, prTitle, prBody, matches);
    var g := Grouped(filtered, config, matches).value;
    PlannedBranches(g.groups, g.hasLeftover, config, source, BaseTitle(prTitle, source), SourceBody(prBody));
  }

  /**
   * Each planned pull request records its position and the configured
   * dependency, and its body is the body built for its files; the plan
   * records the source branch (the configured one when set, else the
   * current branch) and the base branch.
   */
  lemma PlanFields(config: SplitConfig, current: string, allFiles: seq<FileDiff>,
                   prTitle: string, prBody: string, matches: Matcher)
    requires config.Valid() && Plan(config, current, allFiles, prTitle, prBody, matches).Ok?
    ensures var r := Plan(config, current, allFiles, prTitle, prBody, matches).value;
      && r.sourceBranch == (if config.sourceBranch.Some? && config.sourceBranch.value != "" then config.sourceBranch.value else current)
      && r.baseBranch == config.baseBranch
      && forall i :: 0 <= i < |r.groups| ==>
           && r.groups[i].index == i
           && r.groups[i].dependsOn == config.dependsOn
           && r.groups[i].body == Join(BodyLines(i, r.groups[i].files, |r.groups|, r.sourceBranch, config.dependsOn,
                                                 if prBody != "" then Some(prBody) else None), "\n")
  {
    PlanValue(config, current, allFiles, prTitle, prBody, matches);
  }

  /** The grouping step of `split` with `--assign` patterns: `assign_files` and its leftover flag and warning. */
  method GroupByAssignments(filtered: seq<FileDiff>, assignments: map<int, seq<string>>, numPrs: int, matches: Matcher)
    returns (r: Result<Grouping, Failure>)
    requires numPrs >= 1
    ensures r == AssignedGrouping(filtered, assignments, numPrs, matches)
  {
    var routed := AssignFiles(filtered, assignments, numPrs, matches);
    if routed.Err? {
      return Err(routed.error);
    }
    var distributed := routed.value;
    var hasLeftover := |distributed| > numPrs;
    var warnings := if hasLeftover then [LeftoverWarning(|distributed[|distributed| - 1]|)] else [];
    return Ok(Grouping(distributed, hasLeftover, warnings));
  }

  /** The grouping step of `split` without `--assign` patterns: `distribute_files` and the fewer-files warning. */
  method GroupRoundRobin(filtered: seq<FileDiff>, numPrs: int) returns (g: Grouping)
    requires numPrs >= 1
    ensures g == DealtGrouping(filtered, numPrs)
  {
    var actual := Min(numPrs, |filtered|);
    var warnings := if actual < numPrs then [FewerFilesWarning(numPrs, |filtered|, actual)] else [];
    var distributed := DistributeFiles(filtered, actual);
    return Grouping(distributed, false, warnings);
  }

  /** The loop of `split` that builds one pull request per group. */
  method PlanGroups(d: seq<seq<FileDiff>>, hasLeftover: bool, config: SplitConfig,
                    source: string, baseTitle: string, sourceBody: Option<string>)
    returns (groups: seq<PrGroup>)
    ensures groups == PlannedPrs(d, |d|, hasLeftover, config, source, baseTitle, sourceBody)
  {
    groups := [];
    var total := |d|;
    for i := 0 to total
      invariant groups == PlannedPrs(d, i, hasLeftover, config, source, baseTitle, sourceBody)
    {
      var isLeftover := hasLeftover && i == total - 1;
      var branchName := BranchName(source, config.prefix, i, total, isLeftover);
      var title := Title(i, total, isLeftover, config.titles, baseTitle);
      var body := BuildPrBody(PrGroup(i, branchName, d[i], title, "", config.dependsOn),
                              total, source, config.dependsOn, sourceBody);
      groups := groups + [PrGroup(i, branchName, d[i], title, body, config.dependsOn)];
    }
  }

  /** `split(config)`, after the repository has been opened and the changed files and pull request read. */
  method PlanSplit(config: SplitConfig, current: string, allFiles: seq<FileDiff>,
                   prTitle: string, prBody: string, matches: Matcher)
    returns (r: Result<SplitResult, Failure>)
    requires config.Valid()
    ensures r == Plan(config, current, allFiles, prTitle, prBody, matches)
  {
    var source := if config.sourceBranch.Some? && config.sourceBranch.value != "" then config.sourceBranch.value else current;
    if allFiles == [] {
      return Err(ValidationError(NoChangesMessage));
    }
    var filtered := FilterFiles(allFiles, config.filePatterns, config.excludePatterns, matches);
    if filtered == [] {
      return Err(ValidationError(NoMatchMessage(|allFiles|)));
    }
    var baseTitle := if prTitle != "" then prTitle else source;
    var sourceBody := if prBody != "" then Some(prBody) else None;
    var g;
    if config.assignments != map[] {
      var grouping := GroupByAssignments(filtered, config.assignments, config.numPrs, matches);
      if grouping.Err? {
        return Err(grouping.error);
      }
      g := grouping.value;
    } else {
      g := GroupRoundRobin(filtered, config.numPrs);
    }
    assert Grouped(filtered, config, matches) == Ok(g);
    var groups := PlanGroups(g.groups, g.hasLeftover, config, source, baseTitle, sourceBody);
    return Ok(SplitResult(groups, g.warnings, source, config.baseBranch));
  }
}
