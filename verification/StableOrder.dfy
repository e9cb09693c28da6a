/**
 Stable sorting under an arbitrary total-preorder comparison: what it means, why its result is
 unique, and a simple reference sort.
 */
module StableOrder {

  type Cmp<!T> = (T, T) -> int

  /** What qsort-style callers promise of their comparison function. */
  ghost predicate TotalPreorder<T(!new)>(cmp: Cmp<T>) {
    (forall x, y :: cmp(x, y) <= 0 <==> cmp(y, x) >= 0) &&
    (forall x, y, z :: cmp(x, y) <= 0 && cmp(y, z) <= 0 ==> cmp(x, z) <= 0)
  }

  ghost predicate Sorted<T>(cmp: Cmp<T>, s: seq<T>) {
    forall i, j :: 0 <= i < j < |s| ==> cmp(s[i], s[j]) <= 0
  }

  /** The elements of `s` that compare equal to `x`, in their order. */
  ghost function Class<T>(cmp: Cmp<T>, x: T, s: seq<T>): seq<T> {
    if s == [] then []
    else (if cmp(x, s[0]) == 0 then [s[0]] else []) + Class(cmp, x, s[1..])
  }

  /** `r` is a rearrangement of `s` that keeps the order of elements that compare equal. */
  ghost predicate Stable<T(!new)>(cmp: Cmp<T>, s: seq<T>, r: seq<T>) {
    forall x :: Class(cmp, x, s) == Class(cmp, x, r)
  }

  lemma JoinClasses<T>(a: seq<T>, b: seq<T>, c: seq<T>)
    ensures a + (b + c) == a + b + c
  {
  }

  lemma {:induction false} ClassConcat<T>(cmp: Cmp<T>, x: T, s: seq<T>, t: seq<T>)
    ensures Class(cmp, x, s + t) == Class(cmp, x, s) + Class(cmp, x, t)
  {
    if s == [] {
      assert s + t == t;
    } else {
      assert (s + t)[1..] == s[1..] + t;
      ClassConcat(cmp, x, s[1..], t);
      JoinClasses(if cmp(x, s[0]) == 0 then [s[0]] else [], Class(cmp, x, s[1..]), Class(cmp, x, t));
    }
  }

  lemma StableConcat<T(!new)>(cmp: Cmp<T>, s: seq<T>, s': seq<T>, t: seq<T>, t': seq<T>)
    requires Stable(cmp, s, s') && Stable(cmp, t, t')
    ensures Stable(cmp, s + t, s' + t')
  {
    forall x ensures Class(cmp, x, s + t) == Class(cmp, x, s' + t') {
      ClassConcat(cmp, x, s, t);
      ClassConcat(cmp, x, s', t');
    }
  }

  lemma StableTransitive<T(!new)>(cmp: Cmp<T>, r: seq<T>, s: seq<T>, t: seq<T>)
    requires Stable(cmp, r, s) && Stable(cmp, s, t)
    ensures Stable(cmp, r, t)
  {
    forall x ensures Class(cmp, x, r) == Class(cmp, x, t) {
      assert Class(cmp, x, r) == Class(cmp, x, s);
    }
  }

  /** Two neighbours in strictly wrong order may be exchanged. */
  lemma StablePair<T(!new)>(cmp: Cmp<T>, x: T, y: T)
    requires TotalPreorder(cmp) && cmp(x, y) > 0
    ensures Stable(cmp, [x, y], [y, x])
  {
    forall z ensures Class(cmp, z, [x, y]) == Class(cmp, z, [y, x]) {
      assert [x, y][1..] == [y] && [y, x][1..] == [x];
      assert Class(cmp, z, [x]) == if cmp(z, x) == 0 then [x] else [];
      assert Class(cmp, z, [y]) == if cmp(z, y) == 0 then [y] else [];
      assert cmp(z, x) == 0 ==> cmp(x, z) <= 0;
    }
  }

  lemma {:induction false} ClassMember<T>(cmp: Cmp<T>, x: T, s: seq<T>)
    ensures forall y :: y in Class(cmp, x, s) ==> y in s && cmp(x, y) == 0
    ensures forall y :: y in s && cmp(x, y) == 0 ==> y in Class(cmp, x, s)
  {
    if s != [] {
      ClassMember(cmp, x, s[1..]);
    }
  }

  /** A sorted stable rearrangement is unique. */
  lemma {:induction false} StableUnique<T(!new)>(cmp: Cmp<T>, s: seq<T>, r: seq<T>)
    requires TotalPreorder(cmp) && Sorted(cmp, s) && Sorted(cmp, r) && Stable(cmp, s, r)
    ensures s == r
  {
    hide TotalPreorder;
    hide Sorted;
    if s == [] {
      assert r != [] ==> Class(cmp, r[0], s) == Class(cmp, r[0], r);
      if r != [] { OwnClass(cmp, r); }
    } else {
      HeadsEqual(cmp, s, r);
      Tails(cmp, s, r);
      StableUnique(cmp, s[1..], r[1..]);
    }
  }

  lemma OwnClass<T(!new)>(cmp: Cmp<T>, r: seq<T>)
    requires TotalPreorder(cmp) && r != []
    ensures Class(cmp, r[0], r) != []
  {
  }

  lemma Tails<T(!new)>(cmp: Cmp<T>, s: seq<T>, r: seq<T>)
    requires Sorted(cmp, s) && Sorted(cmp, r) && Stable(cmp, s, r) && s != [] && r != [] && r[0] == s[0]
    ensures Sorted(cmp, s[1..]) && Sorted(cmp, r[1..]) && Stable(cmp, s[1..], r[1..])
    ensures s == [s[0]] + s[1..] && r == [r[0]] + r[1..]
  {
    forall z ensures Class(cmp, z, s[1..]) == Class(cmp, z, r[1..]) {
      var h := if cmp(z, s[0]) == 0 then [s[0]] else [];
      assert Class(cmp, z, s) == Class(cmp, z, r);
      assert Class(cmp, z, s[1..]) == Class(cmp, z, s)[|h|..];
      assert Class(cmp, z, r[1..]) == Class(cmp, z, r)[|h|..];
    }
  }

  lemma HeadsEqual<T(!new)>(cmp: Cmp<T>, s: seq<T>, r: seq<T>)
    requires TotalPreorder(cmp) && Sorted(cmp, s) && Sorted(cmp, r) && Stable(cmp, s, r) && s != []
    ensures r != [] && r[0] == s[0]
  {
    var x := s[0];
    assert Class(cmp, x, s)[0] == x;
    ClassMember(cmp, x, r);
    assert Class(cmp, x, r)[0] == x && x in r;
    var y := r[0];
    assert Class(cmp, y, r)[0] == y;
    ClassMember(cmp, y, s);
    assert Class(cmp, y, s)[0] == y && y in s;
    assert cmp(x, y) <= 0 && cmp(y, x) <= 0;
    assert Class(cmp, x, r)[0] == y;
  }

  lemma {:induction false} ClassCount<T>(cmp: Cmp<T>, x: T, s: seq<T>)
    requires cmp(x, x) == 0
    ensures multiset(Class(cmp, x, s))[x] == multiset(s)[x]
  {
    if s != [] {
      ClassCount(cmp, x, s[1..]);
      assert s == [s[0]] + s[1..];
    }
  }

  /** A stable rearrangement is a permutation. */
  lemma StablePermutes<T(!new)>(cmp: Cmp<T>, s: seq<T>, r: seq<T>)
    requires TotalPreorder(cmp) && Stable(cmp, s, r)
    ensures multiset(s) == multiset(r)
  {
    forall x ensures multiset(s)[x] == multiset(r)[x] {
      assert cmp(x, x) == 0;
      ClassCount(cmp, x, s);
      ClassCount(cmp, x, r);
    }
  }

  // ---------- the reference sort ----------

  ghost function Place<T>(cmp: Cmp<T>, x: T, s: seq<T>): seq<T> {
    if s == [] || cmp(x, s[0]) <= 0 then [x] + s else [s[0]] + Place(cmp, x, s[1..])
  }

  ghost function StableSort<T>(cmp: Cmp<T>, s: seq<T>): seq<T> {
    if s == [] then [] else Place(cmp, s[0], StableSort(cmp, s[1..]))
  }

  lemma SortedCons<T>(cmp: Cmp<T>, x: T, s: seq<T>)
    requires Sorted(cmp, s) && forall y :: y in s ==> cmp(x, y) <= 0
    ensures Sorted(cmp, [x] + s)
  {
  }

  lemma {:induction false} PlaceSorted<T(!new)>(cmp: Cmp<T>, x: T, s: seq<T>)
    requires TotalPreorder(cmp) && Sorted(cmp, s)
    ensures Sorted(cmp, Place(cmp, x, s))
    ensures forall y :: y in Place(cmp, x, s) ==> y == x || y in s
  {
    if s == [] || cmp(x, s[0]) <= 0 {
    } else {
      PlaceSorted(cmp, x, s[1..]);
      var p := Place(cmp, x, s[1..]);
      forall y | y in p ensures cmp(s[0], y) <= 0 {
      }
      SortedCons(cmp, s[0], p);
    }
  }

  lemma {:induction false} PlaceStable<T(!new)>(cmp: Cmp<T>, x: T, s: seq<T>)
    requires TotalPreorder(cmp)
    ensures Stable(cmp, [x] + s, Place(cmp, x, s))
  {
    if s == [] || cmp(x, s[0]) <= 0 {
    } else {
      var y, t := s[0], s[1..];
      PlaceStable(cmp, x, t);
      StablePair(cmp, x, y);
      StableConcat(cmp, [x, y], [y, x], t, t);
      assert [x] + s == [x, y] + t && [y, x] + t == [y] + ([x] + t);
      StableConcat(cmp, [y], [y], [x] + t, Place(cmp, x, t));
      StableTransitive(cmp, [x] + s, [y, x] + t, Place(cmp, x, s));
    }
  }

  /** The reference sort sorts, permutes and is stable. */
  lemma {:induction false} StableSortCorrect<T(!new)>(cmp: Cmp<T>, s: seq<T>)
    requires TotalPreorder(cmp)
    ensures Sorted(cmp, StableSort(cmp, s)) && Stable(cmp, s, StableSort(cmp, s))
    ensures multiset(StableSort(cmp, s)) == multiset(s)
  {
    if s != [] {
      var t := StableSort(cmp, s[1..]);
      StableSortCorrect(cmp, s[1..]);
      PlaceSorted(cmp, s[0], t);
      PlaceStable(cmp, s[0], t);
      StableConcat(cmp, [s[0]], [s[0]], s[1..], t);
      assert s == [s[0]] + s[1..];
      StableTransitive(cmp, s, [s[0]] + t, StableSort(cmp, s));
    }
    StablePermutes(cmp, s, StableSort(cmp, s));
  }

  /** Whatever sorts stably computes what the reference sort computes. */
  lemma SortsLikeReference<T(!new)>(cmp: Cmp<T>, s: seq<T>, r: seq<T>)
    requires TotalPreorder(cmp) && Sorted(cmp, r) && Stable(cmp, s, r)
    ensures r == StableSort(cmp, s)
  {
    StableSortCorrect(cmp, s);
    StableUnique(cmp, r, StableSort(cmp, s));
  }
}
