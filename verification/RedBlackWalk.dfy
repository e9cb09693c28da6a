/**
 Searching and walking a red-black tree (RB_FIND, RB_NFIND, RB_MINMAX, RB_NEXT, RB_PREV and the
 RB_FOREACH macros), whole runs of insertions and removals, and the height bound.
 */
module RedBlackWalk {
  import opened TreeShape
  import opened TreeOrder
  import opened RedBlackBalance
  import opened RedBlackTree

  function FirstOf(s: seq<Node>): Node? {
    if s == [] then null else s[0]
  }

  function LastOf(s: seq<Node>): Node? {
    if s == [] then null else s[|s| - 1]
  }

  /** The contents of a tree in key order. */
  ghost function Contents(h: Head): seq<Node>
    reads h
  {
    Inorder(h.tree)
  }

  // ---------- searching ----------

  /** RB_FIND: the node with an equal key, if there is one. */
  method Find(h: Head, key: int) returns (res: Node?)
    requires h.Valid()
    ensures res != null ==> res in h.nodes && res.key == key
    ensures res == null ==> forall n :: n in h.nodes ==> n.key != key
  {
    var tmp := h.root;
    ghost var c, t := Top, h.tree;
    while tmp != null
      invariant At(Snap(h.nodes), h.root, c, t) && Plug(c, t) == h.tree && tmp == RootOf(t)
      invariant AllBelow(Before(c), key) && AllAbove(key, After(c))
      decreases t
    {
      DescendOrder(c, t, key);
      if key < tmp.key {
        tmp := tmp.field.left;
        c, t := InL(t.n, t.red, t.r, c), t.l;
        FillAt(Snap(h.nodes), h.root, c, t);
      } else if key > tmp.key {
        tmp := tmp.field.right;
        c, t := InR(t.l, t.n, t.red, c), t.r;
        FillAt(Snap(h.nodes), h.root, c, t);
      } else {
        PlugNodes(c, t);
        return tmp;
      }
    }
    AbsentKey(c, key);
    return null;
  }

  /** RB_NFIND: the first node, in key order, whose key is not below the given one. */
  method NFind(h: Head, key: int) returns (res: Node?)
    requires h.Valid()
    ensures res == FirstOf(Contents(h)[Rank(Contents(h), key)..])
  {
    var tmp := h.root;
    res := null;
    ghost var c, t := Top, h.tree;
    while tmp != null
      invariant At(Snap(h.nodes), h.root, c, t) && Plug(c, t) == h.tree && tmp == RootOf(t)
      invariant AllBelow(Before(c), key) && AllAbove(key, After(c))
      invariant res == FirstOf(After(c))
      decreases t
    {
      DescendOrder(c, t, key);
      if key < tmp.key {
        res := tmp;
        tmp := tmp.field.left;
        c, t := InL(t.n, t.red, t.r, c), t.l;
        FillAt(Snap(h.nodes), h.root, c, t);
      } else if key > tmp.key {
        tmp := tmp.field.right;
        c, t := InR(t.l, t.n, t.red, c), t.r;
        FillAt(Snap(h.nodes), h.root, c, t);
      } else {
        RankExact(c, t);
        return tmp;
      }
    }
    RankHole(c, key);
  }

  lemma RankHole(c: Ctx, key: int)
    requires AllBelow(Before(c), key) && AllAbove(key, After(c))
    ensures var s := Inorder(Plug(c, Leaf)); s[Rank(s, key)..] == After(c)
  {
    PlugInorder(c, Leaf);
    assert Before(c) + [] + After(c) == Before(c) + After(c);
    RankAt(Before(c), After(c), key);
  }

  lemma RankExact(c: Ctx, t: Tree)
    requires t.T? && Sorted(Inorder(Plug(c, t)))
    ensures var s := Inorder(Plug(c, t)); FirstOf(s[Rank(s, t.n.key)..]) == t.n
  {
    var a, b := Before(c) + Inorder(t.l), Inorder(t.r) + After(c);
    PlugInorder(c, t);
    Around(Before(c), Inorder(t.l), t.n, Inorder(t.r), After(c));
    SortedSplit(a, t.n, b);
    RankFirst(a, t.n, b);
  }

  lemma {:induction false} RankFirst(a: seq<Node>, n: Node, b: seq<Node>)
    requires AllBelow(a, n.key)
    ensures Rank(a + [n] + b, n.key) == |a|
  {
    if a != [] {
      assert (a + [n] + b)[1..] == a[1..] + [n] + b;
      RankFirst(a[1..], n, b);
    }
  }

  /** RB_MIN */
  method Min(h: Head) returns (parent: Node?)
    requires h.Valid()
    ensures parent == FirstOf(Contents(h))
  {
    hide RedBlack;
    hide Sorted;
    var tmp := h.root;
    parent := null;
    ghost var c, t := Top, h.tree;
    while tmp != null
      invariant At(Snap(h.nodes), h.root, c, t) && tmp == RootOf(t) && parent == FirstOf(After(c))
      invariant Contents(h) == Inorder(t) + After(c)
      decreases t
    {
      parent := tmp;
      tmp := tmp.field.left;
      Peel(Inorder(t.l), t.n, Inorder(t.r), After(c));
      c, t := InL(t.n, t.red, t.r, c), t.l;
      FillAt(Snap(h.nodes), h.root, c, t);
    }
  }

  /** RB_MAX */
  method Max(h: Head) returns (parent: Node?)
    requires h.Valid()
    ensures parent == LastOf(Contents(h))
  {
    hide RedBlack;
    hide Sorted;
    var tmp := h.root;
    parent := null;
    ghost var c, t := Top, h.tree;
    while tmp != null
      invariant At(Snap(h.nodes), h.root, c, t) && tmp == RootOf(t) && parent == LastOf(Before(c))
      invariant Contents(h) == Before(c) + Inorder(t)
      decreases t
    {
      parent := tmp;
      tmp := tmp.field.right;
      PeelLast(Before(c), Inorder(t.l), t.n, Inorder(t.r));
      c, t := InR(t.l, t.n, t.red, c), t.r;
      FillAt(Snap(h.nodes), h.root, c, t);
    }
  }

  lemma Peel<X>(l: seq<X>, n: X, r: seq<X>, q: seq<X>)
    ensures (l + [n] + r) + q == l + ([n] + r + q)
  {
  }

  lemma PeelLast<X>(p: seq<X>, l: seq<X>, n: X, r: seq<X>)
    ensures p + (l + [n] + r) == (p + l + [n]) + r
  {
  }

  // ---------- neighbours ----------

  /** The leftmost node below `elm`: the first node of its subtree. */
  method Leftmost(h: Head, elm0: Node, ghost c0: Ctx, ghost t0: Tree) returns (elm: Node)
    requires At(Snap(h.nodes), h.root, c0, t0) && t0.T? && t0.n == elm0
    ensures elm == Inorder(t0)[0]
  {
    elm := elm0;
    ghost var c, t := c0, t0;
    ghost var rest: seq<Node> := [];
    while elm.field.left != null
      invariant At(Snap(h.nodes), h.root, c, t) && t.T? && t.n == elm
      invariant Inorder(t0) == Inorder(t) + rest
      decreases t
    {
      elm := elm.field.left;
      Peel(Inorder(t.l), t.n, Inorder(t.r), rest);
      rest := [t.n] + Inorder(t.r) + rest;
      c, t := InL(t.n, t.red, t.r, c), t.l;
      FillAt(Snap(h.nodes), h.root, c, t);
    }
  }

  method Rightmost(h: Head, elm0: Node, ghost c0: Ctx, ghost t0: Tree) returns (elm: Node)
    requires At(Snap(h.nodes), h.root, c0, t0) && t0.T? && t0.n == elm0
    ensures elm == LastOf(Inorder(t0))
  {
    elm := elm0;
    ghost var c, t := c0, t0;
    ghost var rest: seq<Node> := [];
    while elm.field.right != null
      invariant At(Snap(h.nodes), h.root, c, t) && t.T? && t.n == elm
      invariant Inorder(t0) == rest + Inorder(t)
      decreases t
    {
      elm := elm.field.right;
      PeelLast(rest, Inorder(t.l), t.n, Inorder(t.r));
      rest := rest + Inorder(t.l) + [t.n];
      c, t := InR(t.l, t.n, t.red, c), t.r;
      FillAt(Snap(h.nodes), h.root, c, t);
    }
  }

  /** The climb of RB_NEXT: the first node after everything in the subtree at `elm0`. */
  method ClimbNext(h: Head, elm0: Node, ghost c0: Ctx, ghost t0: Tree) returns (res: Node?)
    requires At(Snap(h.nodes), h.root, c0, t0) && t0.T? && t0.n == elm0
    ensures res == FirstOf(After(c0))
  {
    var elm := elm0;
    ghost var c, t := c0, t0;
    while elm.field.parent != null && elm == elm.field.parent.field.right
      invariant At(Snap(h.nodes), h.root, c, t) && t.T? && t.n == elm && After(c) == After(c0)
      decreases c
    {
      elm := elm.field.parent;
      Sides(Snap(h.nodes), h.root, c, t);
      FillAt(Snap(h.nodes), h.root, c, t);
      c, t := c.up, Fill(c, t);
    }
    if c != Top {
      Sides(Snap(h.nodes), h.root, c, t);
    }
    res := elm.field.parent;
  }

  method ClimbPrev(h: Head, elm0: Node, ghost c0: Ctx, ghost t0: Tree) returns (res: Node?)
    requires At(Snap(h.nodes), h.root, c0, t0) && t0.T? && t0.n == elm0
    ensures res == LastOf(Before(c0))
  {
    var elm := elm0;
    ghost var c, t := c0, t0;
    while elm.field.parent != null && elm == elm.field.parent.field.left
      invariant At(Snap(h.nodes), h.root, c, t) && t.T? && t.n == elm && Before(c) == Before(c0)
      decreases c
    {
      elm := elm.field.parent;
      Sides(Snap(h.nodes), h.root, c, t);
      FillAt(Snap(h.nodes), h.root, c, t);
      c, t := c.up, Fill(c, t);
    }
    if c != Top {
      Sides(Snap(h.nodes), h.root, c, t);
    }
    res := elm.field.parent;
  }

  /** RB_NEXT: the next node in key order, or null after the last. */
  method Next(h: Head, elm: Node, ghost i: nat) returns (res: Node?)
    requires h.Valid() && i < |Contents(h)| && Contents(h)[i] == elm
    ensures res == FirstOf(Contents(h)[i + 1..])
  {
    ghost var c, t := Find3(h.tree, elm, i);
    PlugRep(Snap(h.nodes), h.root, c, t);
    if elm.field.right != null {
      FillAt(Snap(h.nodes), h.root, InR(t.l, t.n, t.red, c), t.r);
      res := Leftmost(h, elm.field.right, InR(t.l, t.n, t.red, c), t.r);
    } else {
      if c != Top { Sides(Snap(h.nodes), h.root, c, t); }
      if elm.field.parent != null && elm == elm.field.parent.field.left {
        res := elm.field.parent;
      } else {
        res := ClimbNext(h, elm, c, t);
      }
    }
  }

  /** RB_PREV: the previous node in key order, or null before the first. */
  method Prev(h: Head, elm: Node, ghost i: nat) returns (res: Node?)
    requires h.Valid() && i < |Contents(h)| && Contents(h)[i] == elm
    ensures res == LastOf(Contents(h)[..i])
  {
    ghost var c, t := Find3(h.tree, elm, i);
    PlugRep(Snap(h.nodes), h.root, c, t);
    if elm.field.left != null {
      FillAt(Snap(h.nodes), h.root, InL(t.n, t.red, t.r, c), t.l);
      res := Rightmost(h, elm.field.left, InL(t.n, t.red, t.r, c), t.l);
    } else {
      if c != Top { Sides(Snap(h.nodes), h.root, c, t); }
      if elm.field.parent != null && elm == elm.field.parent.field.right {
        res := elm.field.parent;
      } else {
        res := ClimbPrev(h, elm, c, t);
      }
    }
  }

  /** Focuses the `i`-th node and splits the in-order sequence there. */
  lemma Find3(tree: Tree, elm: Node, i: nat) returns (c: Ctx, t: Tree)
    requires Sorted(Inorder(tree)) && i < |Inorder(tree)| && Inorder(tree)[i] == elm
    ensures t.T? && t.n == elm && Plug(c, t) == tree
    ensures Inorder(tree)[..i] == Before(c) + Inorder(t.l)
    ensures Inorder(tree)[i + 1..] == Inorder(t.r) + After(c)
  {
    NodesInorder(tree);
    c, t := Locate(Top, tree, elm);
    PlugInorder(c, t);
    Around(Before(c), Inorder(t.l), t.n, Inorder(t.r), After(c));
    SplitAt(Inorder(tree), Before(c) + Inorder(t.l), t.n, Inorder(t.r) + After(c), i);
  }

  lemma SplitAt(s: seq<Node>, a: seq<Node>, n: Node, b: seq<Node>, i: nat)
    requires Sorted(s) && s == a + [n] + b && i < |s| && s[i] == n
    ensures s[..i] == a && s[i + 1..] == b
  {
    assert s[|a|] == n;
    assert i == |a|;
  }

  // ---------- iteration ----------

  /** RB_FOREACH: starting at RB_MIN and following RB_NEXT lists the contents in key order. */
  method ForEach(h: Head) returns (visited: seq<Node>)
    requires h.Valid()
    ensures visited == Contents(h)
  {
    visited := [];
    var x := Min(h);
    while x != null
      invariant |visited| <= |Contents(h)| && visited == Contents(h)[..|visited|]
      invariant x == FirstOf(Contents(h)[|visited|..])
      decreases |Contents(h)| - |visited|
    {
      ghost var k := |visited|;
      visited := visited + [x];
      x := Next(h, x, k);
    }
  }

  /** RB_FOREACH_REVERSE */
  method ForEachReverse(h: Head) returns (visited: seq<Node>)
    requires h.Valid()
    ensures |visited| == |Contents(h)|
    ensures forall i :: 0 <= i < |visited| ==> visited[i] == Contents(h)[|visited| - 1 - i]
  {
    visited := [];
    var x := Max(h);
    ghost var s := Contents(h);
    while x != null
      invariant |visited| <= |s| && x == LastOf(s[..|s| - |visited|])
      invariant forall i :: 0 <= i < |visited| ==> visited[i] == s[|s| - 1 - i]
      decreases |s| - |visited|
    {
      ghost var k := |s| - |visited| - 1;
      visited := visited + [x];
      x := Prev(h, x, k);
    }
  }

  /** The nodes of `s` that are not dropped, in order. */
  ghost function Kept(s: seq<Node>, drop: set<Node>): seq<Node> {
    if s == [] then [] else Kept(s[..|s| - 1], drop) + if s[|s| - 1] in drop then [] else [s[|s| - 1]]
  }

  lemma {:induction false} KeptSubset(s: seq<Node>, drop: set<Node>)
    ensures forall n :: n in Kept(s, drop) ==> n in s
  {
    if s != [] {
      KeptSubset(s[..|s| - 1], drop);
    }
  }

  /** Removing the node at the front of what is still to be visited. */
  lemma KeptStep(done: seq<Node>, x: Node, rest: seq<Node>, drop: set<Node>)
    requires Sorted(done + [x] + rest)
    ensures x in drop ==> Without(Kept(done, drop) + [x] + rest, x) == Kept(done + [x], drop) + rest
    ensures x !in drop ==> Kept(done, drop) + [x] + rest == Kept(done + [x], drop) + rest
  {
    var p := Kept(done, drop);
    assert (done + [x])[..|done|] == done;
    SortedSplit(done, x, rest);
    if x in drop {
      KeptSubset(done, drop);
      WithoutAbsent(p, x);
      WithoutAbsent(rest, x);
      WithoutConcat(p + [x], rest, x);
      WithoutConcat(p, [x], x);
      assert Without([x], x) == [];
    }
  }

  /** One round of RB_FOREACH_SAFE: the successor is taken before the body may remove `x`. */
  method SafeStep(h: Head, x: Node, drop: set<Node>, ghost done: seq<Node>, ghost rest: seq<Node>) returns (y: Node?)
    requires h.Valid() && Sorted(done + [x] + rest) && Contents(h) == Kept(done, drop) + [x] + rest
    modifies h, h.nodes
    ensures h.Valid() && h.nodes <= old(h.nodes)
    ensures Contents(h) == Kept(done + [x], drop) + rest && y == FirstOf(rest)
  {
    ghost var i := |Kept(done, drop)|;
    assert Contents(h)[i] == x && Contents(h)[i + 1..] == rest;
    y := Next(h, x, i);
    KeptStep(done, x, rest, drop);
    if x in drop {
      NodesInorder(h.tree);
      var _ := h.Remove(x);
    }
  }

  /** RB_FOREACH_SAFE whose body removes whichever nodes it likes: every node is still visited
      once, in key order, and exactly the others remain. */
  method ForEachSafe(h: Head, drop: set<Node>) returns (visited: seq<Node>)
    requires h.Valid()
    modifies h, h.nodes
    ensures h.Valid() && visited == old(Contents(h)) && Contents(h) == Kept(old(Contents(h)), drop)
  {
    ghost var s, rest := Contents(h), Contents(h);
    visited := [];
    var x := Min(h);
    while x != null
      invariant h.Valid() && h.nodes <= old(h.nodes)
      invariant s == visited + rest && x == FirstOf(rest) && Contents(h) == Kept(visited, drop) + rest
      decreases |rest|
    {
      var cur: Node := x;
      Unroll(visited, Kept(visited, drop), rest);
      rest := rest[1..];
      x := SafeStep(h, cur, drop, visited, rest);
      visited := visited + [cur];
    }
  }

  lemma Unroll(a: seq<Node>, b: seq<Node>, s: seq<Node>)
    requires s != []
    ensures a + s == a + [s[0]] + s[1..] && b + s == b + [s[0]] + s[1..]
  {
  }

  // ---------- whole runs ----------

  datatype Op = Ins(n: Node) | Del(key: int)

  ghost predicate HasKey(s: seq<Node>, k: int) {
    exists n :: n in s && n.key == k
  }

  ghost function WithoutKey(s: seq<Node>, k: int): seq<Node> {
    if s == [] then []
    else if s[0].key == k then WithoutKey(s[1..], k)
    else [s[0]] + WithoutKey(s[1..], k)
  }

  lemma {:induction false} WithoutKeyIsWithout(s: seq<Node>, x: Node)
    requires forall n :: n in s && n.key == x.key ==> n == x
    ensures WithoutKey(s, x.key) == Without(s, x)
  {
    if s != [] {
      WithoutKeyIsWithout(s[1..], x);
    }
  }

  lemma {:induction false} WithoutKeyAbsent(s: seq<Node>, k: int)
    requires !HasKey(s, k)
    ensures WithoutKey(s, k) == s
  {
    if s != [] {
      assert s[0] in s;
      WithoutKeyAbsent(s[1..], k);
    }
  }

  /** Sorted-set meaning of one operation: a duplicate is not inserted, a missing key not removed. */
  ghost function Applied(s: seq<Node>, op: Op): seq<Node> {
    match op
    case Ins(n) => if HasKey(s, n.key) then s else Inserted(s, n)
    case Del(k) => WithoutKey(s, k)
  }

  ghost function AppliedAll(s: seq<Node>, ops: seq<Op>): seq<Node> {
    if ops == [] then s else Applied(AppliedAll(s, ops[..|ops| - 1]), ops[|ops| - 1])
  }

  ghost function OpNodes(ops: seq<Op>): set<Node> {
    set op | op in ops && op.Ins? :: op.n
  }

  method Perform(h: Head, op: Op)
    requires h.Valid()
    modifies h, h.nodes, if op.Ins? then {op.n} else {}
    ensures h.Valid() && Contents(h) == Applied(old(Contents(h)), op)
    ensures h.nodes <= old(h.nodes) + if op.Ins? then {op.n} else {}
  {
    NodesInorder(h.tree);
    match op
    case Ins(n) =>
      var dup := h.Insert(n);
    case Del(k) =>
      var x := Find(h, k);
      if x != null {
        WithoutKeyIsWithout(Contents(h), x);
        x := h.Remove(x);
      } else {
        WithoutKeyAbsent(Contents(h), k);
      }
  }

  /** Every run of insertions and removals leaves a valid tree with the sorted-set contents,
      no higher than twice the binary logarithm of the number of nodes plus one. */
  method Run(h: Head, ops: seq<Op>)
    requires h.Valid()
    modifies h, h.nodes, OpNodes(ops)
    ensures h.Valid() && Contents(h) == AppliedAll(old(Contents(h)), ops)
    ensures Pow2(Height(h.tree)) <= (|Contents(h)| + 1) * (|Contents(h)| + 1)
  {
    ghost var s := Contents(h);
    for i := 0 to |ops|
      invariant h.Valid() && Contents(h) == AppliedAll(s, ops[..i])
      invariant h.nodes <= old(h.nodes) + OpNodes(ops)
    {
      assert ops[i] in ops;
      Perform(h, ops[i]);
      assert ops[..i + 1][..i] == ops[..i];
    }
    assert ops[..|ops|] == ops;
    HeightBound(h.tree);
  }

  // ---------- height ----------

  function Pow2(n: nat): nat {
    if n == 0 then 1 else 2 * Pow2(n - 1)
  }

  lemma {:induction false} Pow2Monotone(m: nat, n: nat)
    requires m <= n
    ensures Pow2(m) <= Pow2(n)
    decreases n
  {
    if m < n {
      Pow2Monotone(m, n - 1);
    }
  }

  lemma {:induction false} Pow2Double(n: nat)
    ensures Pow2(2 * n) == Pow2(n) * Pow2(n)
  {
    if n > 0 {
      Pow2Double(n - 1);
      assert Pow2(2 * n) == 2 * (2 * Pow2(2 * n - 2));
    }
  }

  lemma {:induction false} BlackCount(t: Tree)
    requires Balanced(t)
    ensures Pow2(BlackHeight(t)) <= |Inorder(t)| + 1
  {
    if t.T? {
      BlackCount(t.l);
      BlackCount(t.r);
    }
  }

  lemma {:induction false} RedAtMostHalf(t: Tree)
    requires Balanced(t) && NoRedRed(t)
    ensures Height(t) <= 2 * BlackHeight(t) + if IsRed(t) then 1 else 0
  {
    if t.T? {
      RedAtMostHalf(t.l);
      RedAtMostHalf(t.r);
    }
  }

  lemma SquareMonotone(a: nat, b: nat)
    requires a <= b
    ensures a * a <= b * b
  {
    assert a * a <= a * b;
  }

  /** The bound stated in the header: the height is at most 2 lg (n + 1). */
  lemma HeightBound(t: Tree)
    requires RedBlack(t)
    ensures Pow2(Height(t)) <= (|Inorder(t)| + 1) * (|Inorder(t)| + 1)
  {
    var b, n := BlackHeight(t), |Inorder(t)| + 1;
    RedAtMostHalf(t);
    BlackCount(t);
    Pow2Monotone(Height(t), 2 * b);
    Pow2Double(b);
    SquareMonotone(Pow2(b), n);
  }
}
