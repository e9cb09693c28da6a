/**
 The first pass of mergesort() in compat/merge.c: insertion sort of the last elements, and
 detection of natural runs or pairs in the rest, reversing the strictly descending ones; and
 mergesort() itself.
 */
module MergeSortSetup {
  import opened StableOrder
  import opened MergeSort
  import opened MergeSortRuns

  // ---------- stable changes inside a segment ----------

  /** `s'` differs from `s` only inside `[lo..hi)`. */
  ghost predicate Only<T>(s: seq<T>, s': seq<T>, lo: nat, hi: nat) {
    lo <= hi <= |s| == |s'| && s[..lo] == s'[..lo] && s[hi..] == s'[hi..]
  }

  lemma StableSegment<T(!new)>(cmp: Cmp<T>, s: seq<T>, s': seq<T>, lo: nat, hi: nat)
    requires Only(s, s', lo, hi) && Stable(cmp, s[lo..hi], s'[lo..hi])
    ensures Stable(cmp, s, s')
  {
    StableConcat(cmp, s[..lo], s'[..lo], s[lo..hi], s'[lo..hi]);
    StableConcat(cmp, s[..lo] + s[lo..hi], s'[..lo] + s'[lo..hi], s[hi..], s'[hi..]);
    assert s == s[..lo] + s[lo..hi] + s[hi..];
    assert s' == s'[..lo] + s'[lo..hi] + s'[hi..];
  }

  /** Exchanging two neighbours in strictly wrong order. */
  lemma SwapStable<T(!new)>(cmp: Cmp<T>, s: seq<T>, i: nat)
    requires TotalPreorder(cmp) && i + 1 < |s| && cmp(s[i], s[i + 1]) > 0
    ensures Stable(cmp, s, s[i := s[i + 1]][i + 1 := s[i]])
  {
    var s' := s[i := s[i + 1]][i + 1 := s[i]];
    StablePair(cmp, s[i], s[i + 1]);
    assert s[i..i + 2] == [s[i], s[i + 1]] && s'[i..i + 2] == [s[i + 1], s[i]];
    StableSegment(cmp, s, s', i, i + 2);
  }

  // ---------- insertion sort ----------

  /** `a[lo..hi]` is in order, except that the element at `t` may be too far right. */
  ghost predicate AllBut<T>(cmp: Cmp<T>, s: seq<T>, lo: nat, hi: nat, t: nat)
    requires hi <= |s|
  {
    forall x, y :: lo <= x < y < hi && y != t ==> cmp(s[x], s[y]) <= 0
  }

  lemma AllButSwap<T(!new)>(cmp: Cmp<T>, s: seq<T>, lo: nat, hi: nat, t: nat)
    requires TotalPreorder(cmp) && lo < t < hi <= |s| && AllBut(cmp, s, lo, hi, t) && cmp(s[t - 1], s[t]) > 0
    ensures AllBut(cmp, s[t - 1 := s[t]][t := s[t - 1]], lo, hi, t - 1)
  {
    var s' := s[t - 1 := s[t]][t := s[t - 1]];
    forall x, y | lo <= x < y < hi && y != t - 1 ensures cmp(s'[x], s'[y]) <= 0 {
      var u := if x == t - 1 then t else if x == t then t - 1 else x;
      assert s'[x] == s[u];
      if y == t {
        assert x < t - 1 ==> cmp(s[x], s[t - 1]) <= 0;
      } else {
        assert u < y && cmp(s[u], s[y]) <= 0;
      }
    }
  }

  lemma AllButDone<T(!new)>(cmp: Cmp<T>, s: seq<T>, lo: nat, hi: nat, t: nat)
    requires TotalPreorder(cmp) && lo <= t < hi <= |s| && AllBut(cmp, s, lo, hi, t)
    requires t == lo || cmp(s[t - 1], s[t]) <= 0
    ensures Sorted(cmp, s[lo..hi])
  {
    forall x, y | lo <= x < y < hi ensures cmp(s[x], s[y]) <= 0 {
      if y == t && x < t - 1 {
        assert cmp(s[x], s[t - 1]) <= 0;
      }
    }
  }

  lemma OnlyAll<X>(s: seq<X>, lo: nat, hi: nat)
    requires lo <= hi <= |s|
    ensures Only(s, s, lo, hi)
  {
  }

  /** Swapping two neighbours that are strictly out of order. */
  method Swap<T(!new)>(cmp: Cmp<T>, a: array<T>, i: nat, ghost s: seq<T>, ghost lo: nat, ghost hi: nat)
    requires TotalPreorder(cmp) && lo <= i && i + 1 < hi <= a.Length && cmp(a[i], a[i + 1]) > 0
    requires Stable(cmp, s, a[..]) && Only(s, a[..], lo, hi)
    modifies a
    ensures a[..] == old(a[..])[i := old(a[i + 1])][i + 1 := old(a[i])]
    ensures Stable(cmp, s, a[..]) && Only(s, a[..], lo, hi)
  {
    hide TotalPreorder;
    hide Stable;
    ghost var b := a[..];
    SwapStable(cmp, b, i);
    a[i], a[i + 1] := a[i + 1], a[i];
    assert a[..] == b[i := b[i + 1]][i + 1 := b[i]];
    StableTransitive(cmp, s, b, a[..]);
  }

  /** insertionsort() on `a[lo..lo + n]`. */
  method InsertionSort<T(!new)>(cmp: Cmp<T>, a: array<T>, lo: nat, n: nat)
    requires TotalPreorder(cmp) && 1 <= n && lo + n <= a.Length
    modifies a
    ensures Sorted(cmp, a[lo..lo + n]) && Stable(cmp, old(a[..]), a[..]) && Only(old(a[..]), a[..], lo, lo + n)
  {
    hide TotalPreorder;
    hide Stable;
    hide AllBut;
    hide Only;
    ghost var s := a[..];
    StableRefl(cmp, s);
    OnlyAll(s, lo, lo + n);
    var ai := lo + 1;
    assert Sorted(cmp, a[lo..ai]);
    while ai < lo + n
      invariant lo < ai <= lo + n
      invariant Sorted(cmp, a[lo..ai]) && Stable(cmp, s, a[..]) && Only(s, a[..], lo, lo + n)
    {
      SortedAllBut(cmp, a[..], lo, ai);
      var t := ai;
      while t > lo
        invariant lo <= t <= ai
        invariant AllBut(cmp, a[..], lo, ai + 1, t) && Stable(cmp, s, a[..]) && Only(s, a[..], lo, lo + n)
      {
        var u := t - 1;
        if cmp(a[u], a[t]) <= 0 {
          break;
        }
        AllButSwap(cmp, a[..], lo, ai + 1, t);
        Swap(cmp, a, u, s, lo, lo + n);
        t := u;
      }
      AllButDone(cmp, a[..], lo, ai + 1, t);
      ai := ai + 1;
    }
  }

  lemma SortedAllBut<T>(cmp: Cmp<T>, s: seq<T>, lo: nat, hi: nat)
    requires lo <= hi < |s| && Sorted(cmp, s[lo..hi])
    ensures AllBut(cmp, s, lo, hi + 1, hi)
  {
    forall x, y | lo <= x < y < hi ensures cmp(s[x], s[y]) <= 0 {
      assert s[lo..hi][x - lo] == s[x] && s[lo..hi][y - lo] == s[y];
    }
  }

  // ---------- reversing a run ----------

  ghost predicate IsReverse<T>(s: seq<T>, r: seq<T>) {
    |r| == |s| && forall i :: 0 <= i < |s| ==> r[i] == s[|s| - 1 - i]
  }

  /** The reverse macro, which is only used on runs of even length. */
  method Reverse<T>(a: array<T>, bot: nat, top: nat)
    requires bot < top < a.Length && (top - bot) % 2 == 1
    modifies a
    ensures Only(old(a[..]), a[..], bot, top + 1) && IsReverse(old(a[bot..top + 1]), a[bot..top + 1])
  {
    var b, s := bot, top;
    while b < s
      invariant bot <= b <= s + 1 && s <= top && b - bot == top - s
      invariant forall j :: 0 <= j < a.Length && !(bot <= j < b) && !(s < j <= top) ==> a[j] == old(a[j])
      invariant forall j :: bot <= j < b || s < j <= top ==> a[j] == old(a[bot + top - j])
    {
      a[b], a[s] := a[s], a[b];
      b, s := b + 1, s - 1;
    }
    assert forall j :: bot <= j <= top ==> a[j] == old(a[bot + top - j]);
    ghost var o, r := old(a[bot..top + 1]), a[bot..top + 1];
    forall i | 0 <= i < |o| ensures r[i] == o[|o| - 1 - i] {
      assert r[i] == a[bot + i] && o[|o| - 1 - i] == old(a[top - i]);
    }
  }

  ghost predicate Descending<T>(cmp: Cmp<T>, s: seq<T>) {
    forall i, j :: 0 <= i < j < |s| ==> cmp(s[i], s[j]) > 0
  }

  /** Reversing a strictly descending run sorts it, and no two of its elements compare equal. */
  lemma {:induction false} ReverseStable<T(!new)>(cmp: Cmp<T>, s: seq<T>, r: seq<T>)
    requires TotalPreorder(cmp) && Descending(cmp, s) && IsReverse(s, r)
    ensures Sorted(cmp, r) && Stable(cmp, s, r)
  {
    if s != [] {
      var t, y, u := s[..|s| - 1], s[|s| - 1], r[1..];
      ReverseStable(cmp, t, u);
      MoveToFront(cmp, t, y);
      StableConcat(cmp, [y], [y], t, u);
      assert s == t + [y] && r == [y] + u;
      StableTransitive(cmp, s, [y] + t, r);
    }
  }

  /** Every neighbouring pair in `[lo..hi)` compares with the given sense. */
  ghost predicate Uniform<T>(cmp: Cmp<T>, s: seq<T>, lo: nat, hi: nat, sense: bool)
    requires hi <= |s|
  {
    forall j :: lo <= j && j + 1 < hi ==> (cmp(s[j], s[j + 1]) > 0) == sense
  }

  lemma {:induction false} UniformSorted<T(!new)>(cmp: Cmp<T>, s: seq<T>, lo: nat, hi: nat)
    requires TotalPreorder(cmp) && lo <= hi <= |s| && Uniform(cmp, s, lo, hi, false)
    ensures Sorted(cmp, s[lo..hi])
    decreases hi
  {
    if lo < hi {
      UniformSorted(cmp, s, lo, hi - 1);
      var t := s[lo..hi];
      assert t[..hi - 1 - lo] == s[lo..hi - 1];
      forall i, j | 0 <= i < j < |t| ensures cmp(t[i], t[j]) <= 0 {
        if j == |t| - 1 {
          assert cmp(s[hi - 2], s[hi - 1]) <= 0;
          assert i < j - 1 ==> cmp(s[lo..hi - 1][i], s[lo..hi - 1][j - 1]) <= 0;
        } else {
          assert cmp(s[lo..hi - 1][i], s[lo..hi - 1][j]) <= 0;
        }
      }
    }
  }

  lemma {:induction false} UniformDescending<T(!new)>(cmp: Cmp<T>, s: seq<T>, lo: nat, hi: nat)
    requires TotalPreorder(cmp) && lo <= hi <= |s| && Uniform(cmp, s, lo, hi, true)
    ensures Descending(cmp, s[lo..hi])
    decreases hi
  {
    if lo < hi {
      UniformDescending(cmp, s, lo, hi - 1);
      var t := s[lo..hi];
      assert t[..hi - 1 - lo] == s[lo..hi - 1];
      forall i, j | 0 <= i < j < |t| ensures cmp(t[i], t[j]) > 0 {
        if j == |t| - 1 {
          assert cmp(s[hi - 2], s[hi - 1]) > 0;
          assert i < j - 1 ==> cmp(s[lo..hi - 1][i], s[lo..hi - 1][j - 1]) > 0;
        } else {
          assert cmp(s[lo..hi - 1][i], s[lo..hi - 1][j]) > 0;
        }
      }
    }
  }

  /** Ends the run `a[f1..f2]`: a descending one is reversed, an ascending one left alone. */
  method CloseRun<T(!new)>(cmp: Cmp<T>, a: array<T>, f1: nat, f2: nat, sense: bool)
    requires TotalPreorder(cmp) && f1 < f2 <= a.Length && (f2 - f1) % 2 == 0
    requires Uniform(cmp, a[..], f1, f2, sense)
    modifies a
    ensures Sorted(cmp, a[f1..f2]) && Stable(cmp, old(a[..]), a[..]) && Only(old(a[..]), a[..], f1, f2)
  {
    hide TotalPreorder;
    hide Stable;
    hide Uniform;
    hide Sorted;
    ghost var s := a[..];
    if sense {
      Reverse(a, f1, f2 - 1);
      UniformDescending(cmp, s, f1, f2);
      ReverseStable(cmp, s[f1..f2], a[..][f1..f2]);
      StableSegment(cmp, s, a[..], f1, f2);
      assert a[..][f1..f2] == a[f1..f2];
    } else {
      UniformSorted(cmp, s, f1, f2);
      StableRefl(cmp, s);
      assert a[..][f1..f2] == a[f1..f2];
    }
  }

  // ---------- the first pass ----------

  /** Every pair at an even distance from `lo` compares with the given sense. */
  ghost predicate Pairs<T>(cmp: Cmp<T>, s: seq<T>, lo: nat, hi: nat, sense: bool)
    requires hi <= |s|
  {
    forall j :: lo <= j && j + 1 < hi && (j - lo) % 2 == 0 ==> (cmp(s[j], s[j + 1]) > 0) == sense
  }

  lemma OnlyNone<X>(s: seq<X>, i: nat)
    requires i <= |s|
    ensures Only(s, s, i, i)
  {
  }

  lemma OnlySame<X>(s: seq<X>, t: seq<X>, lo: nat, hi: nat)
    requires Only(s, t, lo, hi)
    ensures lo <= hi <= |s| == |t| && s[hi..] == t[hi..]
  {
  }

  lemma NoRuns<T>(cmp: Cmp<T>, s: seq<T>, next: seq<nat>, i: nat)
    requires i <= |s| == |next|
    ensures Chain(cmp, s, next, i, i)
  {
  }

  /** Extends a chain over the unchanged part by one run. */
  lemma ExtendChain<T(!new)>(cmp: Cmp<T>, s: seq<T>, s': seq<T>, k: seq<nat>, i: nat, f1: nat, f2: nat)
    requires i <= f1 < f2 <= |s| && Chain(cmp, s, k, i, f1) && Only(s, s', f1, f2) && Sorted(cmp, s'[f1..f2])
    ensures Chain(cmp, s', k[f1 := f2], i, f2)
  {
    var k' := k[f1 := f2];
    assert s[i..f1] == s[..f1][i..] && s'[i..f1] == s'[..f1][i..];
    assert k[i..f1] == k'[i..f1];
    ChainFrame(cmp, s, s', k, k', i, f1);
    OneRun(cmp, s', k', f1, f2);
    ChainAppend(cmp, s', k', i, f1, f2);
  }

  /** The pairwise branch of setup(): every pair becomes a run of two. */
  method Pairwise<T(!new)>(cmp: Cmp<T>, a: array<T>, next: array<nat>, lo: nat, hi: nat, sense: bool)
    requires TotalPreorder(cmp) && a as object != next && lo < hi <= a.Length == next.Length && (hi - lo) % 2 == 0
    requires Pairs(cmp, a[..], lo, hi, sense)
    modifies a, next
    ensures Chain(cmp, a[..], next[..], lo, hi) && Stable(cmp, old(a[..]), a[..])
    ensures Only(old(a[..]), a[..], lo, hi) && Only(old(next[..]), next[..], lo, hi)
  {
    hide TotalPreorder;
    hide Stable;
    hide Only;
    hide Chain;
    hide Pairs;
    ghost var s, k := a[..], next[..];
    StableRefl(cmp, s);
    OnlyNone(s, lo);
    OnlyNone(k, lo);
    NoRuns(cmp, s, k, lo);
    var f1: nat := lo;
    ghost var i, n := 0, (hi - lo) / 2;
    while f1 < hi
      invariant lo <= f1 <= hi && f1 == lo + 2 * i && hi == lo + 2 * n
      invariant Chain(cmp, a[..], next[..], lo, f1) && Stable(cmp, s, a[..])
      invariant Only(s, a[..], lo, f1) && Only(k, next[..], lo, f1)
    {
      PairAt(cmp, s, a[..], lo, f1, hi, sense);
      OnePair(cmp, a, next, s, k, lo, f1, sense);
      f1, i := f1 + 2, i + 1;
    }
  }

  lemma PairAt<T>(cmp: Cmp<T>, s: seq<T>, t: seq<T>, lo: nat, f: nat, hi: nat, sense: bool)
    requires lo <= f && f + 2 <= hi <= |s| && (f - lo) % 2 == 0 && Pairs(cmp, s, lo, hi, sense) && Only(s, t, lo, f)
    ensures |t| == |s| && (cmp(t[f], t[f + 1]) > 0) == sense
  {
    assert t[f..][0] == s[f..][0] && t[f..][1] == s[f..][1];
  }

  /** A pair becomes a run. */
  method OnePair<T(!new)>(cmp: Cmp<T>, a: array<T>, next: array<nat>, ghost s: seq<T>, ghost k: seq<nat>,
                          ghost lo: nat, f1: nat, sense: bool)
    requires TotalPreorder(cmp) && a as object != next && lo <= f1 && f1 + 2 <= a.Length == next.Length
    requires Chain(cmp, a[..], next[..], lo, f1) && Stable(cmp, s, a[..]) && (cmp(a[f1], a[f1 + 1]) > 0) == sense
    requires Only(s, a[..], lo, f1) && Only(k, next[..], lo, f1)
    modifies a, next
    ensures Chain(cmp, a[..], next[..], lo, f1 + 2) && Stable(cmp, s, a[..])
    ensures Only(s, a[..], lo, f1 + 2) && Only(k, next[..], lo, f1 + 2)
  {
    hide TotalPreorder;
    hide Stable;
    hide Sorted;
    hide Only;
    hide Chain;
    ghost var b, l := a[..], next[..];
    var g: nat := f1 + 2;
    next[f1] := g;
    StableRefl(cmp, b);
    OnlyAll(b, f1, g);
    if sense {
      Swap(cmp, a, f1, b, f1, g);
    }
    StableTransitive(cmp, s, b, a[..]);
    PairSorted(cmp, a[..], f1);
    assert next[..] == l[f1 := g];
    ExtendChain(cmp, b, a[..], l, lo, f1, g);
    OnlyExtend(s, b, a[..], lo, f1, g);
    OnlyOne(l, f1, g);
    OnlyExtend(k, l, next[..], lo, f1, g);
  }

  lemma OnlyOne(l: seq<nat>, i: nat, g: nat)
    requires i < g <= |l|
    ensures Only(l, l[i := g], i, g)
  {
  }

  lemma PairSorted<T(!new)>(cmp: Cmp<T>, s: seq<T>, i: nat)
    requires TotalPreorder(cmp) && i + 1 < |s|
    ensures Sorted(cmp, s[i..i + 2]) <==> cmp(s[i], s[i + 1]) <= 0
    ensures cmp(s[i + 1], s[i]) > 0 ==> Sorted(cmp, s[i..i + 2])
  {
  }

  lemma SortedJoin<T(!new)>(cmp: Cmp<T>, s: seq<T>, i: nat, j: nat, k: nat)
    requires TotalPreorder(cmp) && i < j < k <= |s|
    requires Sorted(cmp, s[i..j]) && Sorted(cmp, s[j..k]) && cmp(s[j - 1], s[j]) <= 0
    ensures Sorted(cmp, s[i..k])
  {
    forall x, y | i <= x < y < k ensures cmp(s[x], s[y]) <= 0 {
      if y < j {
        assert s[i..j][x - i] == s[x] && s[i..j][y - i] == s[y];
      } else if j <= x {
        assert s[j..k][x - j] == s[x] && s[j..k][y - j] == s[y];
      } else {
        assert x < j - 1 ==> cmp(s[i..j][x - i], s[i..j][j - 1 - i]) <= 0;
        assert j < y ==> cmp(s[j..k][0], s[j..k][y - j]) <= 0;
        assert cmp(s[x], s[j - 1]) <= 0 && cmp(s[j], s[y]) <= 0;
        assert cmp(s[x], s[j]) <= 0;
      }
    }
  }

  /** One more pair joins the current run. */
  lemma UniformExtend<T>(cmp: Cmp<T>, s: seq<T>, o: seq<T>, lo: nat, f1: nat, f2: nat, hi: nat, sense: bool)
    requires lo <= f1 <= f2 && f2 + 2 <= hi <= |s| == |o| && (f2 - lo) % 2 == 0 && Pairs(cmp, o, lo, hi, sense)
    requires s[f1..] == o[f1..]
    requires f1 < f2 ==> Uniform(cmp, s, f1, f2, sense) && (cmp(s[f2 - 1], s[f2]) > 0) == sense
    ensures Uniform(cmp, s, f1, f2 + 2, sense)
  {
    assert s[f1..][f2 - f1] == s[f2] && s[f1..][f2 + 1 - f1] == s[f2 + 1];
    assert o[f1..][f2 - f1] == o[f2] && o[f1..][f2 + 1 - f1] == o[f2 + 1];
    assert (cmp(s[f2], s[f2 + 1]) > 0) == sense;
    forall j | f1 <= j && j + 1 < f2 + 2 ensures (cmp(s[j], s[j + 1]) > 0) == sense {
    }
  }

  /** The natural branch of setup(): maximal uniform stretches become runs. */
  method Natural<T(!new)>(cmp: Cmp<T>, a: array<T>, next: array<nat>, lo: nat, hi: nat, last: nat, sense: bool)
    returns (p2: nat)
    requires TotalPreorder(cmp) && a as object != next
    requires lo < hi <= last < a.Length == next.Length && (hi - lo) % 2 == 0
    requires Pairs(cmp, a[..], lo, hi, sense) && Sorted(cmp, a[last..])
    modifies a, next
    ensures p2 == hi || (p2 == a.Length && hi == last)
    ensures Chain(cmp, a[..], next[..], lo, p2) && Stable(cmp, old(a[..]), a[..])
    ensures Only(old(a[..]), a[..], lo, hi) && Only(old(next[..]), next[..], lo, hi)
  {
    hide TotalPreorder;
    hide Stable;
    hide Sorted;
    hide Uniform;
    hide Pairs;
    hide Only;
    hide Chain;
    ghost var s, k := a[..], next[..];
    StableRefl(cmp, s);
    OnlyNone(s, lo);
    OnlyNone(k, lo);
    NoRuns(cmp, s, k, lo);
    var f1: nat, f2: nat := lo, lo + 2;
    ghost var i1, i2, n := 0, 1, (hi - lo) / 2;
    UniformExtend(cmp, s, s, lo, lo, lo, hi, sense);
    while f2 < hi
      invariant lo <= f1 < f2 <= hi && f1 == lo + 2 * i1 && f2 == lo + 2 * i2 && hi == lo + 2 * n
      invariant Chain(cmp, a[..], next[..], lo, f1) && Stable(cmp, s, a[..])
      invariant Only(s, a[..], lo, f1) && Only(k, next[..], lo, f1)
      invariant Uniform(cmp, a[..], f1, f2, sense)
    {
      if (cmp(a[f2 - 1], a[f2]) > 0) != sense {
        EndRun(cmp, a, next, s, k, lo, f1, f2, sense);
        f1, i1 := f2, i2;
      }
      OnlySame(s, a[..], lo, f1);
      UniformExtend(cmp, a[..], s, lo, f1, f2, hi, sense);
      f2, i2 := f2 + 2, i2 + 1;
    }
    p2 := EndLast(cmp, a, next, s, k, lo, f1, hi, last, sense);
  }

  /** A run of the natural branch ends at `f2`. */
  method EndRun<T(!new)>(cmp: Cmp<T>, a: array<T>, next: array<nat>, ghost s: seq<T>, ghost k: seq<nat>,
                         ghost lo: nat, f1: nat, f2: nat, sense: bool)
    requires TotalPreorder(cmp) && a as object != next
    requires lo <= f1 < f2 <= a.Length == next.Length && (f2 - f1) % 2 == 0
    requires Chain(cmp, a[..], next[..], lo, f1) && Stable(cmp, s, a[..]) && Uniform(cmp, a[..], f1, f2, sense)
    requires Only(s, a[..], lo, f1) && Only(k, next[..], lo, f1)
    modifies a, next
    ensures Chain(cmp, a[..], next[..], lo, f2) && Stable(cmp, s, a[..])
    ensures Only(s, a[..], lo, f2) && Only(k, next[..], lo, f2)
  {
    hide TotalPreorder;
    hide Stable;
    hide Sorted;
    hide Uniform;
    ghost var b, l := a[..], next[..];
    next[f1] := f2;
    CloseRun(cmp, a, f1, f2, sense);
    assert a[..][f1..f2] == a[f1..f2];
    assert next[..] == l[f1 := f2];
    StableTransitive(cmp, s, b, a[..]);
    ExtendChain(cmp, b, a[..], l, lo, f1, f2);
    OnlyExtend(s, b, a[..], lo, f1, f2);
    OnlyExtend(k, l, next[..], lo, f1, f2);
  }

  lemma OnlyExtend<X>(s: seq<X>, t: seq<X>, u: seq<X>, lo: nat, f1: nat, f2: nat)
    requires Only(s, t, lo, f1) && Only(t, u, f1, f2)
    ensures Only(s, u, lo, f2)
  {
    assert s[..lo] == t[..f1][..lo] == u[..f1][..lo] == u[..lo];
    assert s[f2..] == s[f1..][f2 - f1..] == t[f1..][f2 - f1..] == t[f2..] == u[f2..];
  }

  /** The last run of the natural branch, which may go on into the sorted tail. */
  method EndLast<T(!new)>(cmp: Cmp<T>, a: array<T>, next: array<nat>, ghost s: seq<T>, ghost k: seq<nat>,
                          ghost lo: nat, f1: nat, f2: nat, last: nat, sense: bool) returns (p2: nat)
    requires TotalPreorder(cmp) && a as object != next
    requires lo <= f1 < f2 <= last < a.Length == next.Length && (f2 - f1) % 2 == 0
    requires Chain(cmp, a[..], next[..], lo, f1) && Stable(cmp, s, a[..]) && Uniform(cmp, a[..], f1, f2, sense)
    requires Only(s, a[..], lo, f1) && Only(k, next[..], lo, f1) && Sorted(cmp, s[last..])
    modifies a, next
    ensures p2 == f2 || (p2 == a.Length && f2 == last)
    ensures Chain(cmp, a[..], next[..], lo, p2) && Stable(cmp, s, a[..])
    ensures Only(s, a[..], lo, f2) && Only(k, next[..], lo, f2)
  {
    hide TotalPreorder;
    hide Stable;
    hide Sorted;
    hide Uniform;
    ghost var b, l := a[..], next[..];
    CloseRun(cmp, a, f1, f2, sense);
    ghost var c := a[..];
    assert c[f1..f2] == a[f1..f2];
    OnlyExtend(s, b, c, lo, f1, f2);
    StableTransitive(cmp, s, b, c);
    if f2 < last || cmp(a[f2 - 1], a[f2]) > 0 {
      p2 := f2;
    } else {
      p2 := a.Length;
      assert c[last..] == c[last..a.Length] && s[last..] == s[f2..] == c[last..];
      SortedJoin(cmp, c, f1, f2, a.Length);
    }
    next[f1] := p2;
    assert next[..] == l[f1 := p2];
    OnlyExtend(k, l, next[..], lo, f1, f2);
    assert Only(b, c, f1, p2);
    ExtendChain(cmp, b, c, l, lo, f1, p2);
  }

  const THRESHOLD := 16

  /** The scan for pairs of the same sense. */
  method SameSense<T>(cmp: Cmp<T>, a: array<T>, f1: nat, last: nat, sense: bool) returns (f2: nat, length: nat)
    requires f1 + 2 <= last <= a.Length && (last - f1) % 2 == 0 && (cmp(a[f1], a[f1 + 1]) > 0) == sense
    ensures f1 < f2 <= last && (f2 - f1) % 2 == 0 && length == f2 - f1 && Pairs(cmp, a[..], f1, f2, sense)
    ensures f2 < last ==> (cmp(a[f2], a[f2 + 1]) > 0) != sense
  {
    hide Pairs;
    ghost var i, n := 1, (last - f1) / 2;
    length := 2;
    f2 := f1 + 2;
    FirstPair(cmp, a[..], f1, sense);
    while f2 < last
      invariant f1 < f2 <= last && f2 == f1 + 2 * i && last == f1 + 2 * n && length == f2 - f1
      invariant Pairs(cmp, a[..], f1, f2, sense)
    {
      if (cmp(a[f2], a[f2 + 1]) > 0) != sense {
        break;
      }
      NextPair(cmp, a[..], f1, f2, sense);
      length := length + 2;
      f2, i := f2 + 2, i + 1;
    }
  }

  lemma FirstPair<T>(cmp: Cmp<T>, s: seq<T>, f: nat, sense: bool)
    requires f + 2 <= |s| && (cmp(s[f], s[f + 1]) > 0) == sense
    ensures Pairs(cmp, s, f, f + 2, sense)
  {
  }

  lemma NextPair<T>(cmp: Cmp<T>, s: seq<T>, f: nat, g: nat, sense: bool)
    requires f <= g && g + 2 <= |s| && (g - f) % 2 == 0 && (cmp(s[g], s[g + 1]) > 0) == sense
    requires Pairs(cmp, s, f, g, sense)
    ensures Pairs(cmp, s, f, g + 2, sense)
  {
  }

  /** One round of the loop of setup(): a stretch of pairs of one sense becomes runs. */
  method Section<T(!new)>(cmp: Cmp<T>, a: array<T>, next: array<nat>, f1: nat, last: nat, sense: bool)
    returns (f2: nat, p2: nat)
    requires TotalPreorder(cmp) && a as object != next
    requires f1 + 2 <= last < a.Length == next.Length && (last - f1) % 2 == 0 && (cmp(a[f1], a[f1 + 1]) > 0) == sense
    requires Chain(cmp, a[..], next[..], 0, f1) && Sorted(cmp, a[last..])
    modifies a, next
    ensures f1 < f2 <= last && (f2 - f1) % 2 == 0 && (p2 == f2 || (p2 == a.Length && f2 == last))
    ensures Chain(cmp, a[..], next[..], 0, p2) && Stable(cmp, old(a[..]), a[..])
    ensures Only(old(a[..]), a[..], f1, f2) && Only(old(next[..]), next[..], f1, f2)
    ensures f2 < last ==> (cmp(a[f2], a[f2 + 1]) > 0) != sense
  {
    hide TotalPreorder;
    hide Stable;
    hide Sorted;
    hide Pairs;
    ghost var s, k := a[..], next[..];
    var length;
    f2, length := SameSense(cmp, a, f1, last, sense);
    if length < THRESHOLD {
      Pairwise(cmp, a, next, f1, f2, sense);
      p2 := f2;
    } else {
      p2 := Natural(cmp, a, next, f1, f2, last, sense);
    }
    assert f2 < last ==> a[f2] == s[f2..][0] && a[f2 + 1] == s[f2..][1];
    assert s[0..f1] == s[..f1] && a[..][0..f1] == a[..][..f1];
    assert k[0..f1] == k[..f1] && next[..][0..f1] == next[..][..f1];
    ChainFrame(cmp, s, a[..], k, next[..], 0, f1);
    ChainAppend(cmp, a[..], next[..], 0, f1, p2);
  }

  /** The loop of setup() over everything before the sorted tail at `last`. */
  method Sections<T(!new)>(cmp: Cmp<T>, a: array<T>, next: array<nat>, last: nat)
    requires TotalPreorder(cmp) && a as object != next
    requires 2 <= last < a.Length == next.Length && last % 2 == 0 && Sorted(cmp, a[last..]) && next[last] == a.Length
    modifies a, next
    ensures Chain(cmp, a[..], next[..], 0, a.Length) && Stable(cmp, old(a[..]), a[..])
  {
    hide TotalPreorder;
    hide Stable;
    hide Sorted;
    hide Only;
    hide Chain;
    ghost var s, k := a[..], next[..];
    StableRefl(cmp, s);
    OnlyNone(s, 0);
    OnlyNone(k, 0);
    NoRuns(cmp, s, k, 0);
    var f1: nat := 0;
    ghost var p2: nat, i, n := 0, 0, last / 2;
    var sense := cmp(a[0], a[1]) > 0;
    while f1 < last
      invariant 0 <= f1 <= last && f1 == 2 * i && last == 2 * n && (p2 == f1 || (p2 == a.Length && f1 == last))
      invariant f1 < last ==> (cmp(a[f1], a[f1 + 1]) > 0) == sense
      invariant Chain(cmp, a[..], next[..], 0, p2) && Stable(cmp, s, a[..])
      invariant Only(s, a[..], 0, f1) && Only(k, next[..], 0, f1)
    {
      ghost var g := f1;
      f1, p2 := NextSection(cmp, a, next, s, k, f1, last, sense);
      i := i + (f1 - g) / 2;
      sense := !sense;
    }
    SameTail(s, a[..], 0, last, last);
    SameTail(k, next[..], 0, last, last);
    TailRun(cmp, a[..], next[..], p2, last);
  }

  /** One more section, in terms of the array at the beginning. */
  method NextSection<T(!new)>(cmp: Cmp<T>, a: array<T>, next: array<nat>, ghost s: seq<T>, ghost k: seq<nat>,
                              f1: nat, last: nat, sense: bool) returns (f2: nat, p2: nat)
    requires TotalPreorder(cmp) && a as object != next
    requires f1 + 2 <= last < a.Length == next.Length == |s| && (last - f1) % 2 == 0 && Sorted(cmp, s[last..])
    requires (cmp(a[f1], a[f1 + 1]) > 0) == sense
    requires Chain(cmp, a[..], next[..], 0, f1) && Stable(cmp, s, a[..])
    requires Only(s, a[..], 0, f1) && Only(k, next[..], 0, f1)
    modifies a, next
    ensures f1 < f2 <= last && (f2 - f1) % 2 == 0 && (p2 == f2 || (p2 == a.Length && f2 == last))
    ensures Chain(cmp, a[..], next[..], 0, p2) && Stable(cmp, s, a[..])
    ensures Only(s, a[..], 0, f2) && Only(k, next[..], 0, f2)
    ensures f2 < last ==> (cmp(a[f2], a[f2 + 1]) > 0) != sense
  {
    hide TotalPreorder;
    hide Stable;
    hide Sorted;
    hide Only;
    hide Chain;
    ghost var b, l := a[..], next[..];
    SameTail(s, b, 0, f1, last);
    f2, p2 := Section(cmp, a, next, f1, last, sense);
    OnlyExtend(s, b, a[..], 0, f1, f2);
    OnlyExtend(k, l, next[..], 0, f1, f2);
    StableTransitive(cmp, s, b, a[..]);
  }

  lemma SameTail<X>(s: seq<X>, t: seq<X>, lo: nat, f: nat, last: nat)
    requires Only(s, t, lo, f) && f <= last < |s|
    ensures s[last..] == t[last..] && s[last] == t[last]
  {
    assert s[last..] == s[f..][last - f..] && t[last..] == t[f..][last - f..];
    assert s[last..][0] == s[last] && t[last..][0] == t[last];
  }

  lemma TailRun<T>(cmp: Cmp<T>, s: seq<T>, next: seq<nat>, p2: nat, last: nat)
    requires last < |s| == |next| && Chain(cmp, s, next, 0, p2) && (p2 == last || p2 == |s|)
    requires Sorted(cmp, s[last..]) && next[last] == |s|
    ensures Chain(cmp, s, next, 0, |s|)
  {
    if p2 == last {
      assert s[last..|s|] == s[last..];
      OneRun(cmp, s, next, last, |s|);
      ChainAppend(cmp, s, next, 0, last, |s|);
    }
  }

  /** setup(): leaves a chain of ascending runs that covers the array. */
  method Setup<T(!new)>(cmp: Cmp<T>, a: array<T>, next: array<nat>)
    requires TotalPreorder(cmp) && a as object != next && 1 <= a.Length == next.Length
    modifies a, next
    ensures Chain(cmp, a[..], next[..], 0, a.Length) && Stable(cmp, old(a[..]), a[..])
  {
    hide TotalPreorder;
    hide Stable;
    hide Sorted;
    var n: nat := a.Length;
    if n <= 5 {
      InsertionSort(cmp, a, 0, n);
      next[0] := n;
      assert a[..][0..n] == a[0..n];
      OneRun(cmp, a[..], next[..], 0, n);
    } else {
      var i := 4 + n % 2;
      ghost var o := a[..];
      InsertionSort(cmp, a, n - i, i);
      var last := n - i;
      next[last] := n;
      assert a[last..] == a[last..last + i];
      ghost var s := a[..];
      Sections(cmp, a, next, last);
      StableTransitive(cmp, o, s, a[..]);
    }
  }

  // ---------- the whole sort ----------

  const PSIZE: nat := 8

  /** mergesort(): a size too small for the link overlay is refused; otherwise the array ends up as
      the stable sort of what it held. */
  method Sort<T(0, !new)>(cmp: Cmp<T>, base: array<T>, size: nat) returns (r: int)
    requires TotalPreorder(cmp)
    modifies base
    ensures size < 4 ==> r == -1 && base[..] == old(base[..])
    ensures size >= 4 ==> r == 0 && base[..] == StableSort(cmp, old(base[..]))
  {
    hide TotalPreorder;
    hide Stable;
    hide Sorted;
    hide StableSort;
    if size < PSIZE / 2 {
      return -1;
    }
    var n: nat := base.Length;
    ghost var s := base[..];
    if n == 0 {
      assert StableSort(cmp, s) == [] by { StableSortCorrect(cmp, s); PermutedEmpty(s, StableSort(cmp, s)); }
      return 0;
    }
    var list1, list2 := base, new T[n];
    var next1, next2 := new nat[n], new nat[n];
    Setup(cmp, list1, next2);
    var big := false;
    while next2[0] != n
      invariant list1 != list2 && (list1 == base || fresh(list1)) && (list2 == base || fresh(list2))
      invariant list1 == base || list2 == base
      invariant fresh(next1) && fresh(next2) && next1 != next2
      invariant list1 as object != next1 && list1 as object != next2 && list2 as object != next1 && list2 as object != next2
      invariant list1.Length == list2.Length == next1.Length == next2.Length == n
      invariant Chain(cmp, list1[..], next2[..], 0, n) && Stable(cmp, s, list1[..])
      decreases Runs(cmp, list1[..], next2[..], 0, n)
    {
      ghost var b := list1[..];
      assert Runs(cmp, b, next2[..], next2[0], n) >= 1;
      big := Pass(cmp, list1[..], next2[..], list2, next1, big);
      StableTransitive(cmp, s, b, list2[..]);
      list1, list2 := list2, list1;
      next1, next2 := next2, next1;
    }
    assert list1[..][0..n] == list1[..];
    SortsLikeReference(cmp, s, list1[..]);
    if base == list2 {
      Copy(list1[..], 0, n, list2, 0);
    }
    return 0;
  }

  lemma PermutedEmpty<T>(s: seq<T>, r: seq<T>)
    requires s == [] && multiset(r) == multiset(s)
    ensures r == []
  {
    assert |r| == |multiset(r)|;
  }
}
