/** The filtered and ordered index list of the package pane
    (`recompute_visible_indices` in src/main.cpp). */
module Visible {
  import opened PackageModel
  import opened Fuzzy
  import opened Ordering

  /** A package passes the filter mode and, unless the query is empty, the
      query fuzzy-matches its name. */
  function Accepted(p: Package, query: string, fm: FilterMode): (acc: bool)
    ensures acc ==> FilterAccept(p, fm)
    ensures query == [] ==> (acc <==> FilterAccept(p, fm))
    ensures |query| > |p.name| ==> !acc
  {
    SubsequenceNoLonger(Lower(query), Lower(p.name));
    FilterAccept(p, fm) && (query == [] || Subsequence(Lower(query), Lower(p.name)))
  }

  /** Every entry of `v` indexes a list of length `n`. */
  predicate IndicesIn(v: seq<int>, n: int) {
    forall k :: 0 <= k < |v| ==> 0 <= v[k] < n
  }

  /** No later entry of `v` sorts strictly before an earlier one. `std::sort`
      is not stable, so this, and not one particular permutation, is what
      sortedness means for the source. */
  predicate NoInversion(packages: seq<Package>, v: seq<int>, mode: SortMode)
    requires IndicesIn(v, |packages|)
  {
    forall j, k :: 0 <= j < k < |v| ==> !SortLess(packages[v[k]], packages[v[j]], mode)
  }

  /** `v` is a correct visible list: each accepted index exactly once, no
      other index, in an order without inversions. */
  predicate IsVisibleOrder(packages: seq<Package>, query: string, fm: FilterMode, sm: SortMode, v: seq<int>) {
    && IndicesIn(v, |packages|)
    && (forall i :: 0 <= i < |packages| ==>
          multiset(v)[i] == if Accepted(packages[i], query, fm) then 1 else 0)
    && NoInversion(packages, v, sm)
  }

  /** Putting `x` at `pos`, after every entry it does not precede and before
      the first one it does, keeps the list free of inversions. */
  lemma InsertionKeepsOrder(packages: seq<Package>, s: seq<int>, x: int, pos: int, mode: SortMode)
    requires IndicesIn(s, |packages|) && 0 <= x < |packages| && NoInversion(packages, s, mode)
    requires 0 <= pos <= |s|
    requires forall j :: 0 <= j < pos ==> !SortLess(packages[x], packages[s[j]], mode)
    requires pos < |s| ==> SortLess(packages[x], packages[s[pos]], mode)
    ensures IndicesIn(s[..pos] + [x] + s[pos..], |packages|)
    ensures NoInversion(packages, s[..pos] + [x] + s[pos..], mode)
  {
    var r := s[..pos] + [x] + s[pos..];
    assert forall j :: 0 <= j < |r| ==> r[j] == if j < pos then s[j] else if j == pos then x else s[j - 1];
    forall j, k | 0 <= j < k < |r|
      ensures !SortLess(packages[r[k]], packages[r[j]], mode)
    {
      if j == pos {
        if SortLess(packages[s[k - 1]], packages[x], mode) {
          SortLessTransitive(packages[s[k - 1]], packages[x], packages[s[pos]], mode);
          SortLessIrreflexive(packages[s[pos]], mode);
        }
      }
    }
  }

  /** One insertion step of the ordering phase. */
  method InsertSorted(packages: seq<Package>, sorted: seq<int>, x: int, mode: SortMode) returns (r: seq<int>)
    requires IndicesIn(sorted, |packages|) && 0 <= x < |packages|
    requires NoInversion(packages, sorted, mode)
    ensures IndicesIn(r, |packages|) && NoInversion(packages, r, mode)
    ensures multiset(r) == multiset(sorted) + multiset{x}
  {
    var pos := 0;
    while pos < |sorted| && !SortLess(packages[x], packages[sorted[pos]], mode)
      invariant 0 <= pos <= |sorted|
      invariant forall j :: 0 <= j < pos ==> !SortLess(packages[x], packages[sorted[j]], mode)
    {
      pos := pos + 1;
    }
    InsertionKeepsOrder(packages, sorted, x, pos, mode);
    InsertionCounts(sorted, x, pos);
    r := sorted[..pos] + [x] + sorted[pos..];
  }

  /** Inserting `x` anywhere adds exactly one `x` to the multiset. */
  lemma InsertionCounts(s: seq<int>, x: int, pos: int)
    requires 0 <= pos <= |s|
    ensures multiset(s[..pos] + [x] + s[pos..]) == multiset(s) + multiset{x}
  {
    calc {
      multiset(s[..pos] + [x] + s[pos..]);
      multiset(s[..pos]) + multiset{x} + multiset(s[pos..]);
      { assert s == s[..pos] + s[pos..]; }
      multiset(s) + multiset{x};
    }
  }

  /** The first phase of `recompute_visible_indices`: every accepted index,
      in increasing order. */
  method FilterIndices(packages: seq<Package>, query: string, fm: FilterMode) returns (filtered: seq<int>)
    ensures filtered == AcceptedBelow(packages, query, fm, |packages|)
  {
    filtered := [];
    for i := 0 to |packages|
      invariant filtered == AcceptedBelow(packages, query, fm, i)
    {
      if !FilterAccept(packages[i], fm) {
        continue;
      }
      if |query| != 0 {
        var matched := FuzzyMatch(query, packages[i].name);
        if !matched {
          continue;
        }
      }
      filtered := filtered + [i];
    }
  }

  /** The second phase: orders the indices by `sort_less` (the source hands
      this to `std::sort`), keeping exactly the same entries. */
  method SortIndices(packages: seq<Package>, filtered: seq<int>, sm: SortMode) returns (visible: seq<int>)
    requires IndicesIn(filtered, |packages|)
    ensures IndicesIn(visible, |packages|) && NoInversion(packages, visible, sm)
    ensures multiset(visible) == multiset(filtered)
  {
    visible := [];
    for k := 0 to |filtered|
      invariant IndicesIn(visible, |packages|)
      invariant multiset(visible) == multiset(filtered[..k])
      invariant NoInversion(packages, visible, sm)
    {
      visible := InsertSorted(packages, visible, filtered[k], sm);
      assert filtered[..k + 1] == filtered[..k] + [filtered[k]];
    }
    assert filtered[..|filtered|] == filtered;
  }

  /** `recompute_visible_indices`: collects every accepted index, then orders
      the list by `sort_less`. */
  method RecomputeVisible(packages: seq<Package>, query: string, fm: FilterMode, sm: SortMode)
    returns (visible: seq<int>)
    ensures IsVisibleOrder(packages, query, fm, sm, visible)
  {
    var filtered := FilterIndices(packages, query, fm);
    AcceptedBelowCounts(packages, query, fm, |packages|);
    visible := SortIndices(packages, filtered, sm);
  }

  /** Which indices are visible depends on the packages, the query and the
      filter only: recomputing, under any sort mode, yields the same index
      multiset. */
  lemma VisibleSetDetermined(packages: seq<Package>, query: string, fm: FilterMode,
                             sm1: SortMode, sm2: SortMode, v1: seq<int>, v2: seq<int>)
    requires IsVisibleOrder(packages, query, fm, sm1, v1)
    requires IsVisibleOrder(packages, query, fm, sm2, v2)
    ensures multiset(v1) == multiset(v2)
  {
    forall x ensures multiset(v1)[x] == multiset(v2)[x] {
      if !(0 <= x < |packages|) {
        assert x !in v1 && x !in v2;
      }
    }
  }

  /** A value at two positions of a sequence occurs at least twice in its multiset. */
  lemma RepeatCountsTwice(v: seq<int>, j: int, k: int)
    requires 0 <= j < k < |v|
    ensures v[j] == v[k] ==> multiset(v)[v[j]] >= 2
  {
    assert v == v[..k] + v[k..];
    assert v[j] in v[..k] && v[k] in v[k..];
  }

  /** Filtering a visible list again by the same query and filter keeps every
      entry: each one is accepted, and none occurs twice. */
  lemma VisibleEntriesAccepted(packages: seq<Package>, query: string, fm: FilterMode, sm: SortMode, v: seq<int>)
    requires IsVisibleOrder(packages, query, fm, sm, v)
    ensures forall x :: x in v ==> Accepted(packages[x], query, fm)
    ensures forall j, k :: 0 <= j < k < |v| ==> v[j] != v[k]
  {
    forall x | x in v ensures Accepted(packages[x], query, fm) {
      assert multiset(v)[x] > 0;
    }
    forall j, k | 0 <= j < k < |v| ensures v[j] != v[k] {
      RepeatCountsTwice(v, j, k);
    }
  }

  /** The accepted indices below `n`, in increasing order: what the first
      phase of `recompute_visible_indices` collects. */
  function AcceptedBelow(packages: seq<Package>, query: string, fm: FilterMode, n: nat): (r: seq<int>)
    requires n <= |packages|
    ensures |r| <= n && IndicesIn(r, n)
  {
    if n == 0 then []
    else AcceptedBelow(packages, query, fm, n - 1) + (if Accepted(packages[n - 1], query, fm) then [n - 1] else [])
  }

  /** Strictly increasing: no entry repeats. */
  predicate Increasing(v: seq<int>) {
    forall j, k :: 0 <= j < k < |v| ==> v[j] < v[k]
  }

  /** In an increasing list every entry occurs exactly once. */
  lemma {:induction false} IncreasingCounts(v: seq<int>)
    requires Increasing(v)
    ensures forall x :: multiset(v)[x] == if x in v then 1 else 0
  {
    if v != [] {
      var init := v[..|v| - 1];
      var last := v[|v| - 1];
      IncreasingCounts(init);
      assert v == init + [last];
      forall x ensures multiset(v)[x] == if x in v then 1 else 0 {
        if x == last {
          assert x !in init;
        } else {
          assert multiset([last])[x] == 0;
        }
      }
    }
  }

  /** `AcceptedBelow` is increasing and holds exactly the accepted indices
      below `n`. */
  lemma {:induction false} AcceptedBelowMembers(packages: seq<Package>, query: string, fm: FilterMode, n: nat)
    requires n <= |packages|
    ensures Increasing(AcceptedBelow(packages, query, fm, n))
    ensures forall x :: x in AcceptedBelow(packages, query, fm, n) <==>
                          0 <= x < n && Accepted(packages[x], query, fm)
  {
    if n > 0 {
      AcceptedBelowMembers(packages, query, fm, n - 1);
      var prev := AcceptedBelow(packages, query, fm, n - 1);
      var last: seq<int> := if Accepted(packages[n - 1], query, fm) then [n - 1] else [];
      assert AcceptedBelow(packages, query, fm, n) == prev + last;
      forall x ensures x in prev + last <==> 0 <= x < n && Accepted(packages[x], query, fm) {
        assert x in prev + last <==> x in prev || x in last;
      }
      assert Increasing(prev + last) by {
        forall j, k | 0 <= j < k < |prev + last| ensures (prev + last)[j] < (prev + last)[k] {
          if k == |prev| {
            assert (prev + last)[j] in prev;
          }
        }
      }
    }
  }

  /** `AcceptedBelow` holds every accepted index below `n` exactly once and
      nothing else. */
  lemma AcceptedBelowCounts(packages: seq<Package>, query: string, fm: FilterMode, n: nat)
    requires n <= |packages|
    ensures forall x :: multiset(AcceptedBelow(packages, query, fm, n))[x] ==
                        if 0 <= x < n && Accepted(packages[x], query, fm) then 1 else 0
  {
    var r := AcceptedBelow(packages, query, fm, n);
    AcceptedBelowMembers(packages, query, fm, n);
    IncreasingCounts(r);
    forall x ensures multiset(r)[x] == if 0 <= x < n && Accepted(packages[x], query, fm) then 1 else 0 {
      assert x in r <==> 0 <= x < n && Accepted(packages[x], query, fm);
    }
  }

  /** A visible list is exactly as long as the number of accepted packages. */
  lemma VisibleLength(packages: seq<Package>, query: string, fm: FilterMode, sm: SortMode, v: seq<int>)
    requires IsVisibleOrder(packages, query, fm, sm, v)
    ensures |v| == |AcceptedBelow(packages, query, fm, |packages|)|
  {
    var a := AcceptedBelow(packages, query, fm, |packages|);
    AcceptedBelowCounts(packages, query, fm, |packages|);
    forall x ensures multiset(v)[x] == multiset(a)[x] {
      if !(0 <= x < |packages|) {
        assert x !in v;
      }
    }
    assert multiset(v) == multiset(a);
  }

  /** With an empty query and the All filter every package is accepted. */
  lemma {:induction false} AllAcceptedBelow(packages: seq<Package>, n: nat)
    requires n <= |packages|
    ensures |AcceptedBelow(packages, [], All, n)| == n
  {
    if n > 0 {
      AllAcceptedBelow(packages, n - 1);
      assert Accepted(packages[n - 1], [], All);
    }
  }

  /** An empty query under the All filter lists every package, whatever the
      sort mode: deleting the whole query restores the unfiltered list. */
  lemma VisibleWithoutNarrowing(packages: seq<Package>, sm: SortMode, v: seq<int>)
    requires IsVisibleOrder(packages, [], All, sm, v)
    ensures |v| == |packages|
  {
    VisibleLength(packages, [], All, sm, v);
    AllAcceptedBelow(packages, |packages|);
  }
}
