/**
 Chains of sorted runs and the merging pass of mergesort() in compat/merge.c over them.
 */
module MergeSortRuns {
  import opened StableOrder
  import opened MergeSort

  // ---------- chains of runs ----------

  /** From `i` the links lead to `e`, and every run on the way is sorted. */
  ghost predicate Chain<T>(cmp: Cmp<T>, s: seq<T>, next: seq<nat>, i: nat, e: nat)
    decreases e - i
  {
    i <= e <= |s| == |next| &&
    (i < e ==> i < next[i] <= e && Sorted(cmp, s[i..next[i]]) && Chain(cmp, s, next, next[i], e))
  }

  /** The number of runs between `i` and `e`. */
  ghost function Runs<T>(cmp: Cmp<T>, s: seq<T>, next: seq<nat>, i: nat, e: nat): nat
    requires Chain(cmp, s, next, i, e)
    decreases e - i
  {
    if i == e then 0 else 1 + Runs(cmp, s, next, next[i], e)
  }

  lemma {:induction false} ChainAppend<T>(cmp: Cmp<T>, s: seq<T>, next: seq<nat>, i: nat, m: nat, e: nat)
    requires Chain(cmp, s, next, i, m) && Chain(cmp, s, next, m, e)
    ensures Chain(cmp, s, next, i, e)
    ensures Runs(cmp, s, next, i, e) == Runs(cmp, s, next, i, m) + Runs(cmp, s, next, m, e)
    decreases m - i
  {
    if i < m {
      ChainAppend(cmp, s, next, next[i], m, e);
    }
  }

  lemma {:induction false} ChainFrame<T>(cmp: Cmp<T>, s: seq<T>, s': seq<T>, next: seq<nat>, next': seq<nat>, i: nat, e: nat)
    requires Chain(cmp, s, next, i, e) && |s| == |s'| == |next'|
    requires s[i..e] == s'[i..e] && next[i..e] == next'[i..e]
    ensures Chain(cmp, s', next', i, e)
    ensures Runs(cmp, s, next, i, e) == Runs(cmp, s', next', i, e)
    decreases e - i
  {
    if i < e {
      var k := next[i];
      assert next'[i..e][0] == next[i..e][0];
      Slices(s, i, k, e);
      Slices(s', i, k, e);
      Slices(next, i, k, e);
      Slices(next', i, k, e);
      ChainFrame(cmp, s, s', next, next', k, e);
    }
  }

  lemma OneRun<T>(cmp: Cmp<T>, s: seq<T>, next: seq<nat>, i: nat, e: nat)
    requires i < e <= |s| == |next| && next[i] == e && Sorted(cmp, s[i..e])
    ensures Chain(cmp, s, next, i, e) && Runs(cmp, s, next, i, e) == 1
  {
  }

  // ---------- one merging pass ----------

  /** After merging the pair of runs at `pos`, the merged prefix is one run longer. */
  lemma PassStep<T(!new)>(cmp: Cmp<T>, src: seq<T>, d: seq<T>, link: seq<nat>, pos: nat, l1: nat, l2: nat)
    requires TotalPreorder(cmp) && pos < l1 <= l2 <= |src| == |d| == |link|
    requires Chain(cmp, d, link, 0, pos) && Stable(cmp, src[..pos], d[..pos])
    requires Sorted(cmp, src[pos..l1]) && Sorted(cmp, src[l1..l2])
    ensures var d', link' := Overwritten(d, pos, Merge(cmp, src[pos..l1], src[l1..l2])), link[pos := l2];
      Chain(cmp, d', link', 0, l2) && Stable(cmp, src[..l2], d'[..l2]) &&
      Runs(cmp, d', link', 0, l2) == Runs(cmp, d, link, 0, pos) + 1
  {
    hide TotalPreorder;
    hide Merge;
    hide Stable;
    var m := Merge(cmp, src[pos..l1], src[l1..l2]);
    var d', link' := Overwritten(d, pos, m), link[pos := l2];
    MergeSorted(cmp, src[pos..l1], src[l1..l2]);
    MergeStable(cmp, src[pos..l1], src[l1..l2]);
    Slices(src, pos, l1, l2);
    StableConcat(cmp, src[..pos], d[..pos], src[pos..l2], m);
    assert src[..l2] == src[..pos] + src[pos..l2];
    assert d'[..l2] == d[..pos] + m;
    assert d'[0..pos] == d[0..pos] && link'[0..pos] == link[0..pos];
    ChainFrame(cmp, d, d', link, link', 0, pos);
    assert d'[pos..l2] == m;
    OneRun(cmp, d', link', pos, l2);
    ChainAppend(cmp, d', link', 0, pos, l2);
  }

  /** One iteration of the outer while loop: adjacent runs of `src` are merged into `dst`. */
  method Pass<T(!new)>(cmp: Cmp<T>, src: seq<T>, next: seq<nat>, dst: array<T>, link: array<nat>, big0: bool)
    returns (big: bool)
    requires TotalPreorder(cmp) && |src| == dst.Length == link.Length && Chain(cmp, src, next, 0, |src|)
    requires dst as object != link
    modifies dst, link
    ensures Chain(cmp, dst[..], link[..], 0, |src|) && Stable(cmp, src, dst[..])
    ensures 2 * Runs(cmp, dst[..], link[..], 0, |src|) <= Runs(cmp, src, next, 0, |src|) + 1
  {
    hide TotalPreorder;
    hide Merge;
    hide Stable;
    big := big0;
    ghost var total := Runs(cmp, src, next, 0, |src|);
    var p2: nat, l2: nat := 0, 0;
    assert Stable(cmp, src[..0], dst[..][..0]) by { StableRefl(cmp, src[..0]); }
    while p2 != |src|
      invariant p2 == l2 <= |src|
      invariant Chain(cmp, src, next, p2, |src|) && Chain(cmp, dst[..], link[..], 0, p2)
      invariant Stable(cmp, src[..p2], dst[..][..p2])
      invariant 2 * Runs(cmp, dst[..], link[..], 0, p2) + Runs(cmp, src, next, p2, |src|)
        <= total + if p2 == |src| then 1 else 0
      decreases |src| - p2
    {
      var f1 := p2;
      p2 := next[p2];
      var l1 := p2;
      if p2 != |src| {
        p2 := next[p2];
      }
      l2 := p2;
      assert src[|src|..] == [];
      ghost var d, k := dst[..], link[..];
      PassStep(cmp, src, d, k, f1, l1, l2);
      big := MergePair(cmp, src, dst, f1, l1, l2, big);
      link[f1] := l2;
      assert link[..] == k[f1 := l2];
    }
    assert src[..p2] == src && dst[..][..p2] == dst[..];
  }

  lemma StableRefl<T(!new)>(cmp: Cmp<T>, s: seq<T>)
    ensures Stable(cmp, s, s)
  {
  }
}
