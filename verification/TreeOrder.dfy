/**
 Search order on in-order sequences of nodes, and the sorted-set meaning of insertion and removal.
 */
module TreeOrder {
  import opened TreeShape

  /** Keys strictly increase. */
  ghost predicate Sorted(s: seq<Node>) {
    forall i, j :: 0 <= i < j < |s| ==> s[i].key < s[j].key
  }

  ghost predicate AllBelow(s: seq<Node>, k: int) {
    forall n :: n in s ==> n.key < k
  }

  ghost predicate AllAbove(k: int, s: seq<Node>) {
    forall n :: n in s ==> k < n.key
  }

  /** Where a key belongs: the number of nodes with a smaller key. */
  ghost function Rank(s: seq<Node>, k: int): nat
    ensures Rank(s, k) <= |s|
  {
    if s == [] then 0 else if s[0].key < k then 1 + Rank(s[1..], k) else 0
  }

  ghost function Inserted(s: seq<Node>, x: Node): seq<Node> {
    var i := Rank(s, x.key);
    s[..i] + [x] + s[i..]
  }

  ghost function Without(s: seq<Node>, x: Node): seq<Node> {
    if s == [] then [] else if s[0] == x then Without(s[1..], x) else [s[0]] + Without(s[1..], x)
  }

  lemma SortedSplit(a: seq<Node>, n: Node, b: seq<Node>)
    ensures Sorted(a + [n] + b) <==> Sorted(a) && Sorted(b) && AllBelow(a, n.key) && AllAbove(n.key, b)
  {
    var s := a + [n] + b;
    assert s[|a|] == n;
    if Sorted(s) {
      forall i, j | 0 <= i < j < |a| ensures a[i].key < a[j].key {
        assert s[i] == a[i] && s[j] == a[j];
      }
      forall i, j | 0 <= i < j < |b| ensures b[i].key < b[j].key {
        assert s[|a| + 1 + i] == b[i] && s[|a| + 1 + j] == b[j];
      }
      forall x | x in a ensures x.key < n.key {
        var i :| 0 <= i < |a| && a[i] == x;
        assert s[i] == x;
      }
      forall x | x in b ensures n.key < x.key {
        var i :| 0 <= i < |b| && b[i] == x;
        assert s[|a| + 1 + i] == x;
      }
    }
  }

  lemma {:induction false} RankAt(a: seq<Node>, b: seq<Node>, k: int)
    requires AllBelow(a, k) && AllAbove(k, b)
    ensures Rank(a + b, k) == |a|
  {
    if a == [] {
      assert a + b == b;
    } else {
      assert (a + b)[1..] == a[1..] + b;
      RankAt(a[1..], b, k);
    }
  }

  lemma InsertedAt(a: seq<Node>, x: Node, b: seq<Node>)
    requires AllBelow(a, x.key) && AllAbove(x.key, b)
    ensures a + [x] + b == Inserted(a + b, x)
  {
    RankAt(a, b, x.key);
    assert (a + b)[..|a|] == a && (a + b)[|a|..] == b;
  }

  lemma {:induction false} WithoutConcat(a: seq<Node>, b: seq<Node>, x: Node)
    ensures Without(a + b, x) == Without(a, x) + Without(b, x)
  {
    if a == [] {
      assert a + b == b;
    } else {
      assert (a + b)[1..] == a[1..] + b;
      WithoutConcat(a[1..], b, x);
    }
  }

  lemma {:induction false} WithoutAbsent(s: seq<Node>, x: Node)
    requires x !in s
    ensures Without(s, x) == s
  {
    if s != [] {
      WithoutAbsent(s[1..], x);
    }
  }

  lemma SortedSkip(a: seq<Node>, x: Node, b: seq<Node>)
    requires Sorted(a + [x] + b)
    ensures Sorted(a + b)
  {
    var s, r := a + [x] + b, a + b;
    forall i, j | 0 <= i < j < |r| ensures r[i].key < r[j].key {
      assert r[i] == s[if i < |a| then i else i + 1];
      assert r[j] == s[if j < |a| then j else j + 1];
    }
  }

  lemma WithoutAt(a: seq<Node>, x: Node, b: seq<Node>)
    requires Sorted(a + [x] + b)
    ensures a + b == Without(a + [x] + b, x)
  {
    SortedSplit(a, x, b);
    WithoutAbsent(a, x);
    WithoutAbsent(b, x);
    WithoutConcat(a + [x], b, x);
    WithoutConcat(a, [x], x);
    assert Without([x], x) == [];
    assert a + [] == a;
  }

  /** Turning left at `t.n`: everything right of the new hole is above the key. */
  lemma DescendOrder(c: Ctx, t: Tree, k: int)
    requires t.T? && Sorted(Inorder(Plug(c, t)))
    requires AllBelow(Before(c), k) && AllAbove(k, After(c))
    ensures k < t.n.key ==> AllAbove(k, After(InL(t.n, t.red, t.r, c)))
    ensures t.n.key < k ==> AllBelow(Before(InR(t.l, t.n, t.red, c)), k)
  {
    PlugInorder(c, t);
    Regroup(Before(c), Inorder(t.l), [t.n], Inorder(t.r), After(c));
    var a, b := Before(c) + Inorder(t.l), Inorder(t.r) + After(c);
    assert Inorder(Plug(c, t)) == a + [t.n] + b;
    SortedSplit(a, t.n, b);
  }

  /** Hanging a leaf into the place found for its key is sorted-set insertion. */
  lemma InsertedOrder(c: Ctx, x: Node, red: bool)
    requires AllBelow(Before(c), x.key) && AllAbove(x.key, After(c))
    ensures Inorder(Plug(c, T(Leaf, x, red, Leaf))) == Inserted(Inorder(Plug(c, Leaf)), x)
  {
    var a, b := Before(c), After(c);
    PlugInorder(c, Leaf);
    PlugInorder(c, T(Leaf, x, red, Leaf));
    assert a + [] + b == a + b;
    assert [] + [x] + [] == [x];
    InsertedAt(a, x, b);
  }

  lemma InsertedSorted(c: Ctx, x: Node)
    requires Sorted(Inorder(Plug(c, Leaf)))
    requires AllBelow(Before(c), x.key) && AllAbove(x.key, After(c))
    ensures Sorted(Inserted(Inorder(Plug(c, Leaf)), x))
  {
    var a, b := Before(c), After(c);
    PlugInorder(c, Leaf);
    assert a + [] + b == a + b;
    SortedParts(a, b);
    SortedSplit(a, x, b);
    InsertedAt(a, x, b);
  }

  lemma AbsentKey(c: Ctx, k: int)
    requires AllBelow(Before(c), k) && AllAbove(k, After(c))
    ensures forall n :: n in Nodes(Plug(c, Leaf)) ==> n.key != k
  {
    PlugInorder(c, Leaf);
    NodesInorder(Plug(c, Leaf));
  }

  lemma SortedParts(a: seq<Node>, b: seq<Node>)
    requires Sorted(a + b)
    ensures Sorted(a) && Sorted(b)
  {
    var s := a + b;
    forall i, j | 0 <= i < j < |a| ensures a[i].key < a[j].key {
      assert s[i] == a[i] && s[j] == a[j];
    }
    forall i, j | 0 <= i < j < |b| ensures b[i].key < b[j].key {
      assert s[|a| + i] == b[i] && s[|a| + j] == b[j];
    }
  }

  lemma InorderNodes(t: Tree, u: Tree)
    requires Inorder(t) == Inorder(u)
    ensures Nodes(t) == Nodes(u)
  {
    NodesInorder(t);
    NodesInorder(u);
  }

  lemma {:induction false} WithoutElems(s: seq<Node>, x: Node)
    ensures Elems(Without(s, x)) == Elems(s) - {x}
  {
    if s != [] {
      WithoutElems(s[1..], x);
      assert Elems(s) == {s[0]} + Elems(s[1..]);
      if s[0] != x {
        assert Elems(Without(s, x)) == {s[0]} + Elems(Without(s[1..], x));
      }
    }
  }

  /** A tree holding `a`, then `x`, then `b` becomes one holding `a` and `b`: sorted-set removal. */
  lemma RemovedOrder(t: Tree, u: Tree, a: seq<Node>, x: Node, b: seq<Node>)
    requires Sorted(Inorder(t)) && Inorder(t) == a + [x] + b && Inorder(u) == a + b
    ensures Inorder(u) == Without(Inorder(t), x) && Sorted(Inorder(u)) && Nodes(u) == Nodes(t) - {x}
  {
    WithoutAt(a, x, b);
    SortedSkip(a, x, b);
    NodesInorder(t);
    NodesInorder(u);
    WithoutElems(Inorder(t), x);
  }

  // Regroupings of concatenations, stated on plain sequences to keep them cheap.

  lemma Around<X>(p: seq<X>, l: seq<X>, n: X, r: seq<X>, q: seq<X>)
    ensures p + (l + [n] + r) + q == (p + l) + [n] + (r + q)
  {
  }

  lemma NoLeft<X>(p: seq<X>, r: seq<X>, q: seq<X>)
    ensures p + r + q == (p + []) + (r + q)
  {
  }

  lemma NoRight<X>(p: seq<X>, l: seq<X>, q: seq<X>)
    ensures p + l + q == (p + l) + ([] + q)
  {
  }

  lemma First<X>(n: X, r: seq<X>, q: seq<X>)
    ensures [] + ([] + [n] + r) + q == [n] + (r + q)
    ensures [] + r + q == r + q
  {
  }

  lemma Shift<X>(p: seq<X>, l: seq<X>, n: X, r: seq<X>, q: seq<X>)
    ensures p + (l + [n] + r) + q == (p + l) + (([n] + r) + q)
  {
  }

  /** Replacing a node with at most one child by that child. */
  lemma SpliceOrder(c: Ctx, t: Tree, u: Tree) returns (a: seq<Node>, b: seq<Node>)
    requires t.T? && ((t.l == Leaf && u == t.r) || (t.r == Leaf && u == t.l))
    ensures Inorder(Plug(c, t)) == a + [t.n] + b && Inorder(Plug(c, u)) == a + b
  {
    PlugInorder(c, t);
    PlugInorder(c, u);
    a, b := Before(c) + Inorder(t.l), Inorder(t.r) + After(c);
    Around(Before(c), Inorder(t.l), t.n, Inorder(t.r), After(c));
    if t.l == Leaf && u == t.r {
      NoLeft(Before(c), Inorder(t.r), After(c));
    } else {
      NoRight(Before(c), Inorder(t.l), After(c));
    }
  }

  lemma LeftmostOrder(d: Ctx, x: Tree)
    requires Before(d) == [] && x.T? && x.l == Leaf
    ensures Inorder(Plug(d, x)) == [x.n] + Inorder(Plug(d, x.r))
  {
    PlugInorder(d, x);
    PlugInorder(d, x.r);
    First(x.n, Inorder(x.r), After(d));
  }

  /** Replacing a node by its successor, the leftmost node of its right subtree. */
  lemma SuccessorOrder(c: Ctx, t: Tree, d: Ctx, x: Tree) returns (a: seq<Node>, b: seq<Node>)
    requires Before(d) == [] && t.T? && t.r == Plug(d, x) && x.T? && x.l == Leaf
    ensures Inorder(Plug(c, t)) == a + [t.n] + b
    ensures Inorder(Plug(c, T(t.l, x.n, t.red, Plug(d, x.r)))) == a + b
  {
    var rest := Inorder(Plug(d, x.r));
    LeftmostOrder(d, x);
    PlugInorder(c, t);
    PlugInorder(c, T(t.l, x.n, t.red, Plug(d, x.r)));
    a, b := Before(c) + Inorder(t.l), [x.n] + rest + After(c);
    Around(Before(c), Inorder(t.l), t.n, [x.n] + rest, After(c));
    Shift(Before(c), Inorder(t.l), x.n, rest, After(c));
  }
}
