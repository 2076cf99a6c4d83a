/** Lists of file groups: concatenating them, and dropping the empty ones. */
module Groups {

  /** A non-empty prefix is the shorter prefix and its last element. */
  lemma PrefixSnoc<T>(s: seq<T>, i: nat)
    requires 0 < i <= |s|
    ensures s[..i] == s[..i - 1] + [s[i - 1]]
    ensures multiset(s[..i]) == multiset(s[..i - 1]) + multiset{s[i - 1]}
  {
    assert s[..i] == s[..i - 1] + [s[i - 1]];
  }

  /** All groups, one after the other. */
  function Flatten<T>(gs: seq<seq<T>>): seq<T>
  {
    if gs == [] then [] else gs[0] + Flatten(gs[1..])
  }

  /** `[g for g in gs if g]`: the non-empty groups, in their order. */
  function NonEmpty<T>(gs: seq<seq<T>>): (r: seq<seq<T>>)
    ensures |r| <= |gs|
    ensures forall i :: 0 <= i < |r| ==> r[i] != [] && r[i] in gs
  {
    if gs == [] then [] else (if gs[0] == [] then [] else [gs[0]]) + NonEmpty(gs[1..])
  }

  lemma {:induction false} FlattenAppend<T>(a: seq<seq<T>>, b: seq<seq<T>>)
    ensures Flatten(a + b) == Flatten(a) + Flatten(b)
  {
    if a == [] {
      assert a + b == b;
    } else {
      assert (a + b)[1..] == a[1..] + b;
      FlattenAppend(a[1..], b);
    }
  }

  /** Dropping empty groups loses no element and changes no order. */
  lemma {:induction false} FlattenNonEmpty<T>(gs: seq<seq<T>>)
    ensures Flatten(NonEmpty(gs)) == Flatten(gs)
  {
    if gs != [] {
      FlattenNonEmpty(gs[1..]);
      FlattenAppend(if gs[0] == [] then [] else [gs[0]], NonEmpty(gs[1..]));
    }
  }

  /** When the non-empty groups are exactly the first `m`, dropping the empty ones keeps those `m`. */
  lemma {:induction false} NonEmptyPrefix<T>(gs: seq<seq<T>>, m: nat)
    requires m <= |gs|
    requires forall k :: 0 <= k < m ==> gs[k] != []
    requires forall k :: m <= k < |gs| ==> gs[k] == []
    ensures NonEmpty(gs) == gs[..m]
  {
    if gs != [] {
      NonEmptyPrefix(gs[1..], if m == 0 then 0 else m - 1);
      if m == 0 {
        assert NonEmpty(gs) == NonEmpty(gs[1..]);
      } else {
        assert gs[..m] == [gs[0]] + gs[1..][..m - 1];
      }
    }
  }

  /** Appending one element to one group adds exactly that element to the whole. */
  lemma {:induction false} FlattenAppendAt<T>(gs: seq<seq<T>>, k: nat, x: T)
    requires k < |gs|
    ensures multiset(Flatten(gs[k := gs[k] + [x]])) == multiset(Flatten(gs)) + multiset{x}
  {
    var gs' := gs[k := gs[k] + [x]];
    if k == 0 {
      assert gs'[1..] == gs[1..];
    } else {
      assert gs'[1..] == gs[1..][k - 1 := gs[k] + [x]];
      FlattenAppendAt(gs[1..], k - 1, x);
    }
  }

  /** An element of one group is an element of the whole. */
  lemma {:induction false} InFlatten<T>(gs: seq<seq<T>>, k: nat, x: T)
    requires k < |gs| && x in gs[k]
    ensures x in Flatten(gs)
  {
    if k > 0 {
      InFlatten(gs[1..], k - 1, x);
    }
  }

  /** The position in `gs` of the `k`-th non-empty group. */
  function SourceIndex<T>(gs: seq<seq<T>>, k: nat): (b: nat)
    requires k < |NonEmpty(gs)|
    ensures b < |gs| && gs[b] == NonEmpty(gs)[k]
  {
    if gs[0] == [] then 1 + SourceIndex(gs[1..], k)
    else if k == 0 then 0
    else 1 + SourceIndex(gs[1..], k - 1)
  }

  /** Dropping empty groups keeps the rest in their order. */
  lemma {:induction false} SourceIndexIncreasing<T>(gs: seq<seq<T>>, k: nat, k': nat)
    requires k < k' < |NonEmpty(gs)|
    ensures SourceIndex(gs, k) < SourceIndex(gs, k')
  {
    if gs[0] == [] {
      SourceIndexIncreasing(gs[1..], k, k');
    } else if k > 0 {
      SourceIndexIncreasing(gs[1..], k - 1, k' - 1);
    }
  }

  /** Dropping empty groups keeps all of them exactly when none is empty. */
  lemma {:induction false} NonEmptyFull<T>(gs: seq<seq<T>>)
    ensures |NonEmpty(gs)| == |gs| <==> forall k :: 0 <= k < |gs| ==> gs[k] != []
  {
    if gs != [] {
      NonEmptyFull(gs[1..]);
      assert forall k :: 1 <= k < |gs| ==> gs[k] == gs[1..][k - 1];
    }
  }
}
