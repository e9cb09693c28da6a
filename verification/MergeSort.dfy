/**
 Merging two runs in the merge sort of compat/merge.c.  Element addresses are indices, and the run links,
 which the C code overlays on the array that is not in use, are index arrays of their own.
 */
module MergeSort {
  import opened StableOrder

  // ---------- merging two sorted sequences ----------

  ghost function Merge<T>(cmp: Cmp<T>, p: seq<T>, q: seq<T>): (r: seq<T>)
    ensures |r| == |p| + |q|
    decreases |p| + |q|
  {
    if p == [] then q
    else if q == [] then p
    else if cmp(p[0], q[0]) <= 0 then [p[0]] + Merge(cmp, p[1..], q)
    else [q[0]] + Merge(cmp, p, q[1..])
  }

  lemma MergeEmpty<T>(cmp: Cmp<T>, p: seq<T>, q: seq<T>)
    ensures p == [] ==> Merge(cmp, p, q) == q
    ensures q == [] ==> Merge(cmp, p, q) == p
  {
  }

  lemma {:induction false} MergeMembers<T>(cmp: Cmp<T>, p: seq<T>, q: seq<T>)
    ensures forall y :: y in Merge(cmp, p, q) ==> y in p || y in q
    decreases |p| + |q|
  {
    if p == [] || q == [] {
    } else if cmp(p[0], q[0]) <= 0 {
      MergeMembers(cmp, p[1..], q);
    } else {
      MergeMembers(cmp, p, q[1..]);
    }
  }

  lemma SortedStep<T>(cmp: Cmp<T>, x: T, p: seq<T>, q: seq<T>, m: seq<T>)
    requires Sorted(cmp, m) && forall y :: y in m ==> y in p || y in q
    requires forall y :: y in p || y in q ==> cmp(x, y) <= 0
    ensures Sorted(cmp, [x] + m)
  {
    SortedCons(cmp, x, m);
  }

  lemma {:induction false} MergeSorted<T(!new)>(cmp: Cmp<T>, p: seq<T>, q: seq<T>)
    requires TotalPreorder(cmp) && Sorted(cmp, p) && Sorted(cmp, q)
    ensures Sorted(cmp, Merge(cmp, p, q))
    decreases |p| + |q|
  {
    hide Sorted;
    hide TotalPreorder;
    hide Merge;
    MergeEmpty(cmp, p, q);
    if p == [] || q == [] {
    } else if cmp(p[0], q[0]) <= 0 {
      MergeHead(cmp, p, q);
      SortedTail(cmp, p);
      MergeSorted(cmp, p[1..], q);
      MergeMembers(cmp, p[1..], q);
      BelowAll(cmp, p[0], p[1..], q);
      SortedStep(cmp, p[0], p[1..], q, Merge(cmp, p[1..], q));
    } else {
      MergeHead(cmp, p, q);
      SortedTail(cmp, q);
      Opposite(cmp, p[0], q[0]);
      MergeSorted(cmp, p, q[1..]);
      MergeMembers(cmp, p, q[1..]);
      BelowAll(cmp, q[0], q[1..], p);
      SortedStep(cmp, q[0], q[1..], p, Merge(cmp, p, q[1..]));
    }
  }

  lemma SortedTail<T>(cmp: Cmp<T>, p: seq<T>)
    requires p != [] && Sorted(cmp, p)
    ensures Sorted(cmp, p[1..]) && [p[0]] + p[1..] == p
  {
  }

  lemma Opposite<T(!new)>(cmp: Cmp<T>, x: T, y: T)
    requires TotalPreorder(cmp) && cmp(x, y) > 0
    ensures cmp(y, x) <= 0
  {
  }

  lemma BelowAll<T(!new)>(cmp: Cmp<T>, x: T, p: seq<T>, q: seq<T>)
    requires TotalPreorder(cmp) && Sorted(cmp, [x] + p) && Sorted(cmp, q) && q != [] && cmp(x, q[0]) <= 0
    ensures forall y :: y in p || y in q ==> cmp(x, y) <= 0
  {
    forall i | 0 <= i < |p| ensures cmp(x, p[i]) <= 0 {
      assert ([x] + p)[0] == x && ([x] + p)[i + 1] == p[i];
    }
    forall i | 0 < i < |q| ensures cmp(x, q[i]) <= 0 {
      assert cmp(q[0], q[i]) <= 0;
    }
  }

  /** An element below everything before it may be moved to the front. */
  lemma {:induction false} MoveToFront<T(!new)>(cmp: Cmp<T>, p: seq<T>, y: T)
    requires TotalPreorder(cmp) && forall x :: x in p ==> cmp(x, y) > 0
    ensures Stable(cmp, p + [y], [y] + p)
  {
    if p == [] {
      assert p + [y] == [y] + p;
    } else {
      var x, t := p[0], p[1..];
      MoveToFront(cmp, t, y);
      StableConcat(cmp, [x], [x], t + [y], [y] + t);
      StablePair(cmp, x, y);
      StableConcat(cmp, [x, y], [y, x], t, t);
      assert p + [y] == [x] + (t + [y]) && [x] + ([y] + t) == [x, y] + t && [y, x] + t == [y] + p;
      StableTransitive(cmp, p + [y], [x, y] + t, [y] + p);
    }
  }

  lemma {:induction false} MergeStable<T(!new)>(cmp: Cmp<T>, p: seq<T>, q: seq<T>)
    requires TotalPreorder(cmp) && Sorted(cmp, p)
    ensures Stable(cmp, p + q, Merge(cmp, p, q))
    decreases |p| + |q|
  {
    if p == [] {
      assert p + q == q;
    } else if q == [] {
      assert p + q == p;
    } else if cmp(p[0], q[0]) <= 0 {
      MergeStable(cmp, p[1..], q);
      StableConcat(cmp, [p[0]], [p[0]], p[1..] + q, Merge(cmp, p[1..], q));
      assert p + q == [p[0]] + (p[1..] + q);
    } else {
      MergeStableRight(cmp, p, q);
    }
  }

  lemma {:induction false} MergeStableRight<T(!new)>(cmp: Cmp<T>, p: seq<T>, q: seq<T>)
    requires TotalPreorder(cmp) && Sorted(cmp, p) && p != [] && q != [] && cmp(p[0], q[0]) > 0
    ensures Stable(cmp, p + q, Merge(cmp, p, q))
    decreases |p| + |q|, 0
  {
    var y, q' := q[0], q[1..];
    MergeStable(cmp, p, q');
    forall x | x in p ensures cmp(x, y) > 0 {
      assert cmp(p[0], x) <= 0;
    }
    MoveToFront(cmp, p, y);
    StableConcat(cmp, p + [y], [y] + p, q', q');
    StableConcat(cmp, [y], [y], p + q', Merge(cmp, p, q'));
    assert p + q == (p + [y]) + q' && ([y] + p) + q' == [y] + (p + q');
    StableTransitive(cmp, p + q, [y] + (p + q'), Merge(cmp, p, q));
  }

  /** A stretch of `p` not above `q[0]`, then `q[0]` itself. */
  lemma MergeHead<T>(cmp: Cmp<T>, p: seq<T>, q: seq<T>)
    requires q != []
    ensures p != [] && cmp(p[0], q[0]) <= 0 ==> Merge(cmp, p, q) == [p[0]] + Merge(cmp, p[1..], q)
    ensures p == [] || cmp(p[0], q[0]) > 0 ==> Merge(cmp, p, q) == [q[0]] + Merge(cmp, p, q[1..])
  {
    MergeEmpty(cmp, p, q[1..]);
    assert [q[0]] + q[1..] == q;
  }

  lemma LongerStretch<T>(p: seq<T>, k: nat, x: T, m: seq<T>)
    requires 0 < k <= |p|
    ensures [p[0]] + (p[1..][..k - 1] + [x] + m) == p[..k] + [x] + m
  {
  }

  lemma {:induction false} MergeStretchLeft<T>(cmp: Cmp<T>, p: seq<T>, q: seq<T>, k: nat)
    requires q != [] && k <= |p|
    requires forall j :: 0 <= j < k ==> cmp(p[j], q[0]) <= 0
    requires k < |p| ==> cmp(p[k], q[0]) > 0
    ensures Merge(cmp, p, q) == p[..k] + [q[0]] + Merge(cmp, p[k..], q[1..])
    decreases k
  {
    hide Merge;
    MergeHead(cmp, p, q);
    if k == 0 {
      assert p[..0] + [q[0]] == [q[0]] && p[0..] == p;
    } else {
      MergeStretchLeft(cmp, p[1..], q, k - 1);
      assert p[1..][k - 1..] == p[k..];
      LongerStretch(p, k, q[0], Merge(cmp, p[k..], q[1..]));
    }
  }

  lemma MergeHeadRight<T>(cmp: Cmp<T>, p: seq<T>, q: seq<T>)
    requires p != []
    ensures q != [] && cmp(p[0], q[0]) > 0 ==> Merge(cmp, p, q) == [q[0]] + Merge(cmp, p, q[1..])
    ensures q == [] || cmp(p[0], q[0]) <= 0 ==> Merge(cmp, p, q) == [p[0]] + Merge(cmp, p[1..], q)
  {
    MergeEmpty(cmp, p[1..], q);
    assert [p[0]] + p[1..] == p;
  }

  /** A stretch of `q` strictly below `p[0]`, then `p[0]` itself. */
  lemma {:induction false} MergeStretchRight<T>(cmp: Cmp<T>, p: seq<T>, q: seq<T>, k: nat)
    requires p != [] && k <= |q|
    requires forall j :: 0 <= j < k ==> cmp(p[0], q[j]) > 0
    requires k < |q| ==> cmp(p[0], q[k]) <= 0
    ensures Merge(cmp, p, q) == q[..k] + [p[0]] + Merge(cmp, p[1..], q[k..])
    decreases k
  {
    hide Merge;
    MergeHeadRight(cmp, p, q);
    if k == 0 {
      assert q[..0] + [p[0]] == [p[0]] && q[0..] == q;
    } else {
      MergeStretchRight(cmp, p, q[1..], k - 1);
      assert q[1..][k - 1..] == q[k..];
      LongerStretch(q, k, p[0], Merge(cmp, p[1..], q[k..]));
    }
  }

  // ---------- finding the end of a stretch ----------

  /** One comparison above `sense` settles everything before it. */
  ghost predicate Downward<T>(cmp: Cmp<T>, s: seq<T>, q: T, sense: int, lo: nat, hi: nat)
    requires lo <= hi <= |s|
  {
    forall j, k :: lo <= j <= k < hi && cmp(q, s[k]) > sense ==> cmp(q, s[j]) > sense
  }

  lemma SortedDownward<T(!new)>(cmp: Cmp<T>, s: seq<T>, q: T, sense: int, lo: nat, hi: nat)
    requires TotalPreorder(cmp) && (sense == -1 || sense == 0) && lo <= hi <= |s| && Sorted(cmp, s[lo..hi])
    ensures Downward(cmp, s, q, sense, lo, hi)
  {
    forall j, k | lo <= j < k < hi && cmp(q, s[k]) > sense ensures cmp(q, s[j]) > sense {
      assert s[lo..hi][j - lo] == s[j] && s[lo..hi][k - lo] == s[k];
      assert cmp(s[j], s[k]) <= 0;
    }
  }

  /** Everything up to `b` compares above `sense` with `q`; the element at `t`, if any, does not. */
  ghost predicate Brackets<T>(cmp: Cmp<T>, s: seq<T>, q: T, sense: int, lo: nat, b: nat, t: nat, hi: nat)
    requires hi <= |s|
  {
    lo <= b < t <= hi && cmp(q, s[b]) > sense && (t < hi ==> cmp(q, s[t]) <= sense)
  }

  ghost predicate PowerOfTwo(i: nat) {
    i == 1 || (i > 1 && i % 2 == 0 && PowerOfTwo(i / 2))
  }

  /** The loop at EXPONENTIAL: steps of 1, 2, 4, ... until the end is passed or bracketed. */
  method Doubling<T>(cmp: Cmp<T>, src: seq<T>, q: T, sense: int, b0: nat, t0: nat, big0: bool, ghost lo: nat)
    returns (b: nat, t: nat, i: nat, fast: bool, big: bool)
    requires t0 <= |src| && Brackets(cmp, src, q, sense, lo, b0, t0, t0) && Downward(cmp, src, q, sense, lo, t0)
    ensures Brackets(cmp, src, q, sense, lo, b, t, t0)
    ensures fast ==> PowerOfTwo(i) && t == b + i
  {
    b, t, big, i := b0, t0, big0, 1;
    while true
      invariant Brackets(cmp, src, q, sense, lo, b, t, t0) && t == t0 && PowerOfTwo(i)
      decreases t - b
    {
      var p := b + i;
      if p >= t {
        p := t - 1;
        if p > b && cmp(q, src[p]) <= sense {
          t := p;
        } else {
          b := p;
        }
        fast := false;
        return;
      } else if cmp(q, src[p]) <= sense {
        t := p;
        if i == 1 {
          big := false;
        }
        fast := true;
        return;
      } else {
        b := p;
      }
      i := i * 2;
    }
  }

  /** The code at EXPONENTIAL, bisection, FASTCASE and COPY. */
  method Exponential<T>(cmp: Cmp<T>, src: seq<T>, q: T, sense: int, b0: nat, t0: nat, big0: bool, ghost lo: nat)
    returns (b: nat, big: bool)
    requires t0 <= |src| && Brackets(cmp, src, q, sense, lo, b0, t0, t0) && Downward(cmp, src, q, sense, lo, t0)
    ensures lo < b <= t0 && (b < t0 ==> cmp(q, src[b]) <= sense)
    ensures forall j :: lo <= j < b ==> cmp(q, src[j]) > sense
  {
    var t: nat, i: nat, fast: bool;
    b, t, i, fast, big := Doubling(cmp, src, q, sense, b0, t0, big0, lo);
    if !fast {
      while t > b + 1
        invariant Brackets(cmp, src, q, sense, lo, b, t, t0)
        decreases t - b
      {
        i := (t - b) / 2;
        var p := b + i;
        if cmp(q, src[p]) <= sense {
          t := p;
        } else {
          b := p;
        }
      }
    } else {
      while i > 1
        invariant Brackets(cmp, src, q, sense, lo, b, t, t0) && PowerOfTwo(i) && t == b + i
        decreases i
      {
        i := i / 2;
        var p := b + i;
        if cmp(q, src[p]) <= sense {
          t := p;
        } else {
          b := p;
        }
      }
    }
    b := t;
  }

  /** The search of the merge step: linear until six hits in a row, exponential while `big` is
      set.  Whatever history `big` carries, the result is the first place that does not compare
      above `sense`, or the end of the run. */
  method FindEnd<T>(cmp: Cmp<T>, src: seq<T>, q: T, sense: int, b0: nat, t: nat, big0: bool)
    returns (b: nat, big: bool)
    requires b0 < t <= |src| && cmp(q, src[b0]) > sense && Downward(cmp, src, q, sense, b0, t)
    ensures b0 < b <= t && (b < t ==> cmp(q, src[b]) <= sense)
    ensures forall j :: b0 <= j < b ==> cmp(q, src[j]) > sense
  {
    b, big := b0, big0;
    if !big {
      var i := 0;
      b := b + 1;
      while b < t && cmp(q, src[b]) > sense
        invariant b0 < b <= t && !big
        invariant forall j :: b0 <= j < b ==> cmp(q, src[j]) > sense
      {
        i := i + 1;
        if i == 6 {
          big := true;
          break;
        }
        b := b + 1;
      }
    }
    if big {
      b, big := Exponential(cmp, src, q, sense, b, t, big, b0);
    }
  }

  // ---------- merging one pair of runs ----------

  /** The copy loops: `src[from..to]` goes to `dst` at `at`. */
  method Copy<T>(src: seq<T>, from: nat, to: nat, dst: array<T>, at: nat)
    requires from <= to <= |src| && at + (to - from) <= dst.Length
    modifies dst
    ensures dst[..] == old(dst[..at]) + src[from..to] + old(dst[at + (to - from)..])
  {
    var k := 0;
    while k < to - from
      invariant 0 <= k <= to - from
      invariant forall j :: at <= j < at + k ==> dst[j] == src[from + (j - at)]
      invariant forall j :: 0 <= j < dst.Length && (j < at || at + k <= j) ==> dst[j] == old(dst[j])
    {
      dst[at + k] := src[from + k];
      k := k + 1;
    }
  }

  /** One round of the merge loop, as values: which stretch is copied and what follows it. */
  method Stretch<T(!new)>(cmp: Cmp<T>, src: seq<T>, f1: nat, l1: nat, f2: nat, l2: nat, big0: bool)
    returns (left: bool, b: nat, big: bool)
    requires TotalPreorder(cmp) && f1 < l1 <= f2 < l2 <= |src|
    requires Sorted(cmp, src[f1..l1]) && Sorted(cmp, src[f2..l2])
    ensures if left then f1 < b <= l1 else f2 < b <= l2
    ensures Merge(cmp, src[f1..l1], src[f2..l2]) ==
      if left then src[f1..b] + [src[f2]] + Merge(cmp, src[b..l1], src[f2 + 1..l2])
      else src[f2..b] + [src[f1]] + Merge(cmp, src[f1 + 1..l1], src[b..l2])
  {
    ghost var p, q := src[f1..l1], src[f2..l2];
    if cmp(src[f1], src[f2]) <= 0 {
      SortedDownward(cmp, src, src[f2], -1, f1, l1);
      left := true;
      b, big := FindEnd(cmp, src, src[f2], -1, f1, l1, big0);
      MergeStretchLeft(cmp, p, q, b - f1);
      Slices(src, f1, b, l1);
      Slices(src, f2, f2 + 1, l2);
    } else {
      SortedDownward(cmp, src, src[f1], 0, f2, l2);
      left := false;
      b, big := FindEnd(cmp, src, src[f1], 0, f2, l2, big0);
      MergeStretchRight(cmp, p, q, b - f2);
      Slices(src, f2, b, l2);
      Slices(src, f1, f1 + 1, l1);
    }
  }

  lemma Slices<T>(s: seq<T>, i: nat, j: nat, k: nat)
    requires i <= j <= k <= |s|
    ensures s[i..k][..j - i] == s[i..j] && s[i..k][j - i..] == s[j..k] && s[i..k] == s[i..j] + s[j..k]
  {
  }

  /** Copies a stretch and the one element that ends it. */
  method Emit<T>(src: seq<T>, from: nat, to: nat, last: T, dst: array<T>, at: nat) returns (next: nat)
    requires from <= to <= |src| && at + (to - from) < dst.Length
    modifies dst
    ensures next == at + |src[from..to] + [last]|
    ensures dst[..] == Overwritten(old(dst[..]), at, src[from..to] + [last])
  {
    Copy(src, from, to, dst, at);
    next := at + (to - from);
    dst[next] := last;
    next := next + 1;
  }

  ghost function Overwritten<T>(d: seq<T>, at: nat, w: seq<T>): seq<T>
    requires at + |w| <= |d|
  {
    d[..at] + w + d[at + |w|..]
  }

  lemma OverwrittenNone<T>(d: seq<T>, at: nat)
    requires at <= |d|
    ensures Overwritten(d, at, []) == d
  {
  }

  lemma OverwrittenIs<T>(d: seq<T>, at: nat, w: seq<T>)
    requires at + |w| <= |d|
    ensures Overwritten(d, at, w) == d[..at] + w + d[at + |w|..]
  {
  }

  lemma OverwrittenTwice<T>(d: seq<T>, at: nat, v: seq<T>, w: seq<T>)
    requires at + |v| + |w| <= |d|
    ensures Overwritten(Overwritten(d, at, v), at + |v|, w) == Overwritten(d, at, v + w)
  {
  }

  lemma Assoc<T>(a: seq<T>, b: seq<T>, c: seq<T>)
    ensures a + (b + c) == (a + b) + c
  {
  }

  lemma SortedSuffix<T>(cmp: Cmp<T>, s: seq<T>, i: nat, j: nat, k: nat)
    requires i <= j <= k <= |s| && Sorted(cmp, s[i..k])
    ensures Sorted(cmp, s[j..k])
  {
    assert forall a :: 0 <= a < k - j ==> s[j..k][a] == s[i..k][a + (j - i)];
  }

  /** One round of the merge loop. */
  method MergeRound<T(!new)>(cmp: Cmp<T>, src: seq<T>, dst: array<T>, f1: nat, l1: nat, f2: nat, l2: nat,
                             tp2: nat, big0: bool)
    returns (g1: nat, g2: nat, next: nat, big: bool, ghost w: seq<T>)
    requires TotalPreorder(cmp) && f1 < l1 <= f2 < l2 <= |src| == dst.Length && tp2 == f1 + (f2 - l1)
    requires Sorted(cmp, src[f1..l1]) && Sorted(cmp, src[f2..l2])
    modifies dst
    ensures f1 <= g1 <= l1 && f2 <= g2 <= l2 && f1 + f2 < g1 + g2 && next == g1 + (g2 - l1) == tp2 + |w|
    ensures Sorted(cmp, src[g1..l1]) && Sorted(cmp, src[g2..l2])
    ensures Merge(cmp, src[f1..l1], src[f2..l2]) == w + Merge(cmp, src[g1..l1], src[g2..l2])
    ensures dst[..] == Overwritten(old(dst[..]), tp2, w)
  {
    hide TotalPreorder;
    hide Merge;
    var left, b;
    left, b, big := Stretch(cmp, src, f1, l1, f2, l2, big0);
    if !left {
      w := src[f2..b] + [src[f1]];
      next := Emit(src, f2, b, src[f1], dst, tp2);
      g1, g2 := f1 + 1, b;
    } else {
      w := src[f1..b] + [src[f2]];
      next := Emit(src, f1, b, src[f2], dst, tp2);
      g1, g2 := b, f2 + 1;
    }
    SortedSuffix(cmp, src, f1, g1, l1);
    SortedSuffix(cmp, src, f2, g2, l2);
  }

  /** Merges `src[f..l1]` and `src[l1..l2]` into `dst[f..l2]`. */
  method MergePair<T(!new)>(cmp: Cmp<T>, src: seq<T>, dst: array<T>, f: nat, l1: nat, l2: nat, big0: bool)
    returns (big: bool)
    requires TotalPreorder(cmp) && f <= l1 <= l2 <= |src| == dst.Length
    requires Sorted(cmp, src[f..l1]) && Sorted(cmp, src[l1..l2])
    modifies dst
    ensures dst[..] == Overwritten(old(dst[..]), f, Merge(cmp, src[f..l1], src[l1..l2]))
  {
    hide TotalPreorder;
    hide Merge;
    hide Sorted;
    hide Overwritten;
    OverwrittenNone(dst[..], f);
    var f1, f2, tp2 := f, l1, f;
    ghost var m, done, d := Merge(cmp, src[f..l1], src[l1..l2]), [], dst[..];
    big := big0;
    while f1 < l1 && f2 < l2
      invariant f <= f1 <= l1 <= f2 <= l2 && tp2 == f1 + (f2 - l1) == f + |done|
      invariant Sorted(cmp, src[f1..l1]) && Sorted(cmp, src[f2..l2])
      invariant m == done + Merge(cmp, src[f1..l1], src[f2..l2])
      invariant dst[..] == Overwritten(d, f, done)
      decreases (l1 - f1) + (l2 - f2)
    {
      ghost var w;
      f1, f2, tp2, big, w := MergeRound(cmp, src, dst, f1, l1, f2, l2, tp2, big);
      Assoc(done, w, Merge(cmp, src[f1..l1], src[f2..l2]));
      OverwrittenTwice(d, f, done, w);
      done := done + w;
    }
    ghost var w := Merge(cmp, src[f1..l1], src[f2..l2]);
    MergeEmpty(cmp, src[f1..l1], src[f2..l2]);
    OverwrittenTwice(d, f, done, w);
    OverwrittenNone(dst[..], tp2);
    OverwrittenIs(dst[..], tp2, w);
    if f2 < l2 {
      Copy(src, f2, l2, dst, tp2);
    } else if f1 < l1 {
      Copy(src, f1, l1, dst, tp2);
    }
  }
}
