/**
 The red-black tree operations of compat/tree.h on heap nodes.
 */
module RedBlackTree {
  import opened TreeShape
  import opened RedBlackLinks
  import opened RedBlackBalance
  import opened TreeOrder

  /** What hanging a red leaf into its place establishes before the colours are repaired. */
  lemma InsertSpec(c: Ctx, elm: Node, tree: Tree)
    requires Plug(c, Leaf) == tree && RedBlack(tree) && Sorted(Inorder(tree))
    requires AllBelow(Before(c), elm.key) && AllAbove(elm.key, After(c))
    ensures var t := T(Leaf, elm, true, Leaf);
      Grown(c, t) && Nodes(Plug(c, t)) == Nodes(tree) + {elm} && Inorder(Plug(c, t)) == Inserted(Inorder(tree), elm)
    ensures Sorted(Inserted(Inorder(tree), elm))
    ensures forall n :: n in Nodes(tree) ==> n.key != elm.key
  {
    var t := T(Leaf, elm, true, Leaf);
    InsertedOrder(c, elm, true);
    InsertedSorted(c, elm);
    AbsentKey(c, elm.key);
    PlugRedBlack(c, Leaf);
    PlugNodes(c, t);
    PlugNodes(c, Leaf);
  }

  /** What is left for the loop of RB_REMOVE_COLOR to climb. */
  ghost function Work(c: Ctx, t: Tree): nat {
    if IsRed(t) then 0 else 1 + Depth(c)
  }

  /** The records RB_REMOVE writes when it splices out a node are those of different nodes. */
  lemma SplicePre(m: Mem, root: Node?, c: Ctx, t: Tree, u: Tree)
    requires At(m, root, c, t) && t.T? && (u == t.l || u == t.r)
    ensures m[t.n].parent == ParentOf(c) && t.n !in CtxNodes(c) && t.n !in Nodes(u)
    ensures u.T? ==> u.n in m && u.n in Nodes(u) && u.n !in CtxNodes(c) && u.n != t.n
    ensures c != Top ==> c.n in m && c.n != t.n && c.n in CtxNodes(c) && c.n !in Nodes(u)
    ensures c != Top ==> (c.InL? <==> m[c.n].left == t.n)
  {
    Children(m, t, ParentOf(c));
    assert u.T? ==> u.n in Nodes(u);
    if c != Top { Sides(m, root, c, t); }
  }

  /** The two ways of looking at a subtree of a right subtree. */
  lemma AppendAt(m: Mem, root: Node?, d: Ctx, base: Ctx, c: Ctx, x: Tree, u: Tree)
    requires base.InR? && base.up == c && u == T(base.l, base.n, base.red, Plug(d, x))
    ensures At(m, root, Append(d, base), x) <==> At(m, root, c, u)
    ensures Plug(Append(d, base), x) == Plug(c, u)
  {
    AppendFacts(d, base, x);
    PlugRep(m, root, Append(d, base), x);
    PlugRep(m, root, c, u);
  }

  /** The successor is not among the nodes that stay when it is spliced out. */
  lemma SuccessorApart(m: Mem, root: Node?, c: Ctx, t: Tree, d: Ctx, x: Tree)
    requires t.T? && x.T? && x.l == Leaf && t.r == Plug(d, x) && At(m, root, c, t)
    ensures x.n in m && x.n !in CtxNodes(c) + Nodes(T(t.l, t.n, t.red, Plug(d, x.r)))
    ensures d != Top ==> d.n != t.n
  {
    PlugNodes(d, x);
    PlugNodes(d, x.r);
    PlugDisjoint(d, x);
    RepNodes(m, t, ParentOf(c));
  }

  /** What relinking the successor `x` establishes before the colours are repaired. */
  lemma RemoveInnerSpec(c: Ctx, t: Tree, d: Ctx, x: Tree) returns (a: seq<Node>, b: seq<Node>)
    requires t.T? && x.T? && x.l == Leaf && Before(d) == [] && t.r == Plug(d, x) && RedBlack(Plug(c, t))
    ensures Inorder(Plug(c, t)) == a + [t.n] + b
    ensures var e := Append(d, InR(t.l, x.n, t.red, c));
      Inorder(Plug(e, x.r)) == a + b && if x.red then RedBlack(Plug(e, x.r)) else Short(e, x.r)
  {
    var f, f' := InR(t.l, t.n, t.red, c), InR(t.l, x.n, t.red, c);
    a, b := SuccessorOrder(c, t, d, x);
    AppendFacts(d, f, x);
    AppendFacts(d, f', x.r);
    SpliceBalance(Append(d, f), x, x.r);
    SwapFrame(d, f, f', x.r);
  }

  class Head {
    var root: Node?
    ghost var tree: Tree
    ghost var nodes: set<Node>

    ghost predicate Valid()
      reads this, nodes
    {
      nodes == Nodes(tree) && At(Snap(nodes), root, Top, tree) && RedBlack(tree) && Sorted(Inorder(tree))
    }

    constructor ()
      ensures Valid() && Inorder(tree) == []
    {
      root, tree, nodes := null, Leaf, {};
    }

    /** RB_COLOR(x) = red */
    method SetColor(x: Node, red: bool, ghost s: set<Node>, ghost c: Ctx, ghost t: Tree)
      requires t.T? && t.n == x && At(Snap(s), root, c, t)
      modifies x
      ensures At(Snap(s), root, c, t.(red := red))
    {
      ghost var m := Snap(s);
      x.field := x.field.(red := red);
      RepCtxFrame(m, Snap(s), c, x);
      RepFrame(m, Snap(s), t.l, x);
      RepFrame(m, Snap(s), t.r, x);
    }

    method RotateLeftLinks(x: Node, ghost s: set<Node>) returns (y: Node)
      requires CanRotateLeft(Snap(s), x)
      modifies `root, s
      ensures y == old(x.field.right) && RotateLeftStep(old(Snap(s)), Snap(s), x)
      ensures root == if old(x.field.parent) == null then y else old(root)
    {
      y := x.field.right;
      x.field := x.field.(right := y.field.left);
      if y.field.left != null {
        y.field.left.field := y.field.left.field.(parent := x);
      }
      y.field := y.field.(parent := x.field.parent);
      if x.field.parent != null {
        if x == x.field.parent.field.left {
          x.field.parent.field := x.field.parent.field.(left := y);
        } else {
          x.field.parent.field := x.field.parent.field.(right := y);
        }
      } else {
        root := y;
      }
      y.field := y.field.(left := x);
      x.field := x.field.(parent := y);
    }

    /** RB_ROTATE_LEFT */
    method RotateLeft(x: Node, ghost s: set<Node>, ghost c: Ctx, ghost t: Tree) returns (y: Node)
      requires t.T? && t.r.T? && t.n == x && At(Snap(s), root, c, t)
      modifies `root, s
      ensures y == t.r.n && At(Snap(s), root, c, RotatedLeft(t))
    {
      CanRotateLeftAt(Snap(s), root, c, t);
      ghost var m, root0 := Snap(s), root;
      y := RotateLeftLinks(x, s);
      RotateLeftRep(m, Snap(s), root0, c, t);
    }

    method RotateRightLinks(x: Node, ghost s: set<Node>) returns (y: Node)
      requires CanRotateRight(Snap(s), x)
      modifies `root, s
      ensures y == old(x.field.left) && RotateRightStep(old(Snap(s)), Snap(s), x)
      ensures root == if old(x.field.parent) == null then y else old(root)
    {
      y := x.field.left;
      x.field := x.field.(left := y.field.right);
      if y.field.right != null {
        y.field.right.field := y.field.right.field.(parent := x);
      }
      y.field := y.field.(parent := x.field.parent);
      if x.field.parent != null {
        if x == x.field.parent.field.left {
          x.field.parent.field := x.field.parent.field.(left := y);
        } else {
          x.field.parent.field := x.field.parent.field.(right := y);
        }
      } else {
        root := y;
      }
      y.field := y.field.(right := x);
      x.field := x.field.(parent := y);
    }

    /** RB_ROTATE_RIGHT */
    method RotateRight(x: Node, ghost s: set<Node>, ghost c: Ctx, ghost t: Tree) returns (y: Node)
      requires t.T? && t.l.T? && t.n == x && At(Snap(s), root, c, t)
      modifies `root, s
      ensures y == t.l.n && At(Snap(s), root, c, RotatedRight(t))
    {
      CanRotateRightAt(Snap(s), root, c, t);
      ghost var m, root0 := Snap(s), root;
      y := RotateRightLinks(x, s);
      RotateRightRep(m, Snap(s), root0, c, t);
    }

    // ---------- insertion ----------

    /** RB_INSERT_COLOR, parent a left child, red uncle: recolour and go two levels up. */
    method RecolourLeft(parent: Node, gparent: Node, tmp: Node, ghost s: set<Node>, ghost c: Ctx, ghost t: Tree)
      returns (ghost t': Tree)
      requires At(Snap(s), root, c, t) && Grown(c, t)
      requires c != Top && c.red && c.n == parent && c.up.InL? && c.up.n == gparent
      requires IsRed(c.up.r) && c.up.r.n == tmp
      modifies s
      ensures At(Snap(s), root, c.up.up, t') && Grown(c.up.up, t') && t'.n == gparent
      ensures Inorder(Plug(c.up.up, t')) == Inorder(Plug(c, t))
    {
      GrownRecolour(c, t);
      ghost var g, up, p := c.up, c.up.up, Fill(c, t);
      FillAt(Snap(s), root, c, t);
      FillAt(Snap(s), root, g, p);
      FillAt(Snap(s), root, InR(p, g.n, g.red, up), g.r);
      SetColor(tmp, false, s, InR(p, g.n, g.red, up), g.r);
      ghost var u := Painted(g.r, false);
      FillAt(Snap(s), root, InR(p, g.n, g.red, up), u);
      FillAt(Snap(s), root, InL(g.n, g.red, u, up), p);
      SetColor(parent, false, s, InL(g.n, g.red, u, up), p);
      FillAt(Snap(s), root, InL(g.n, g.red, u, up), Painted(p, false));
      SetColor(gparent, true, s, up, T(Painted(p, false), g.n, g.red, u));
      t' := T(Painted(p, false), g.n, true, u);
      SameInorder(up, Fill(g, p), t');
    }

    /** RB_INSERT_COLOR, parent a left child, inner grandchild: rotate at the parent. */
    method TurnOuterLeft(elm: Node, parent: Node, ghost s: set<Node>, ghost c: Ctx, ghost t: Tree)
      returns (ghost c': Ctx, ghost t': Tree)
      requires At(Snap(s), root, c, t) && Grown(c, t) && t.n == elm
      requires c.InR? && c.red && c.n == parent
      modifies `root, s
      ensures At(Snap(s), root, c', t') && Grown(c', t') && t'.n == parent
      ensures c'.InL? && c'.red && c'.n == elm && c'.up == c.up
      ensures Inorder(Plug(c', t')) == Inorder(Plug(c, t))
    {
      GrownInner(c, t);
      ghost var p := Fill(c, t);
      FillAt(Snap(s), root, c, t);
      var tmp := RotateLeft(parent, s, c.up, p);
      c', t' := InL(elm, true, t.r, c.up), T(c.l, parent, true, t.l);
      FillAt(Snap(s), root, c', t');
      RotatedLeftFacts(p);
      SameInorder(c.up, p, Fill(c', t'));
    }

    /** RB_INSERT_COLOR, parent a left child, outer grandchild: rotate at the grandparent. */
    method RaiseLeft(parent: Node, gparent: Node, ghost s: set<Node>, ghost c: Ctx, ghost t: Tree)
      returns (ghost c': Ctx)
      requires At(Snap(s), root, c, t) && Grown(c, t)
      requires c.InL? && c.red && c.n == parent && c.up.InL? && c.up.n == gparent && !IsRed(c.up.r)
      modifies `root, s
      ensures At(Snap(s), root, c', t) && Grown(c', t) && Depth(c') < Depth(c)
      ensures Inorder(Plug(c', t)) == Inorder(Plug(c, t))
    {
      GrownOuter(c, t);
      ghost var g, up, p := c.up, c.up.up, Fill(c, t);
      FillAt(Snap(s), root, c, t);
      SetColor(parent, false, s, g, p);
      p := Painted(p, false);
      FillAt(Snap(s), root, g, p);
      SetColor(gparent, true, s, up, Fill(g, p));
      ghost var q := Painted(Fill(g, p), true);
      var tmp := RotateRight(gparent, s, up, q);
      c' := InL(parent, false, T(c.r, gparent, true, g.r), up);
      FillAt(Snap(s), root, c', t);
      RotatedRightFacts(q);
      SameInorder(up, Fill(c', t), q);
      SameInorder(up, Fill(g, Fill(c, t)), q);
    }

    /** RB_INSERT_COLOR, parent a right child, red uncle: recolour and go two levels up. */
    method RecolourRight(parent: Node, gparent: Node, tmp: Node, ghost s: set<Node>, ghost c: Ctx, ghost t: Tree)
      returns (ghost t': Tree)
      requires At(Snap(s), root, c, t) && Grown(c, t)
      requires c != Top && c.red && c.n == parent && c.up.InR? && c.up.n == gparent
      requires IsRed(c.up.l) && c.up.l.n == tmp
      modifies s
      ensures At(Snap(s), root, c.up.up, t') && Grown(c.up.up, t') && t'.n == gparent
      ensures Inorder(Plug(c.up.up, t')) == Inorder(Plug(c, t))
    {
      GrownRecolour(c, t);
      ghost var g, up, p := c.up, c.up.up, Fill(c, t);
      FillAt(Snap(s), root, c, t);
      FillAt(Snap(s), root, g, p);
      FillAt(Snap(s), root, InL(g.n, g.red, p, up), g.l);
      SetColor(tmp, false, s, InL(g.n, g.red, p, up), g.l);
      ghost var u := Painted(g.l, false);
      FillAt(Snap(s), root, InL(g.n, g.red, p, up), u);
      FillAt(Snap(s), root, InR(u, g.n, g.red, up), p);
      SetColor(parent, false, s, InR(u, g.n, g.red, up), p);
      FillAt(Snap(s), root, InR(u, g.n, g.red, up), Painted(p, false));
      SetColor(gparent, true, s, up, T(u, g.n, g.red, Painted(p, false)));
      t' := T(u, g.n, true, Painted(p, false));
      SameInorder(up, Fill(g, p), t');
    }

    /** RB_INSERT_COLOR, parent a right child, inner grandchild: rotate at the parent. */
    method TurnOuterRight(elm: Node, parent: Node, ghost s: set<Node>, ghost c: Ctx, ghost t: Tree)
      returns (ghost c': Ctx, ghost t': Tree)
      requires At(Snap(s), root, c, t) && Grown(c, t) && t.n == elm
      requires c.InL? && c.red && c.n == parent
      modifies `root, s
      ensures At(Snap(s), root, c', t') && Grown(c', t') && t'.n == parent
      ensures c'.InR? && c'.red && c'.n == elm && c'.up == c.up
      ensures Inorder(Plug(c', t')) == Inorder(Plug(c, t))
    {
      GrownInner(c, t);
      ghost var p := Fill(c, t);
      FillAt(Snap(s), root, c, t);
      var tmp := RotateRight(parent, s, c.up, p);
      c', t' := InR(t.l, elm, true, c.up), T(t.r, parent, true, c.r);
      FillAt(Snap(s), root, c', t');
      RotatedRightFacts(p);
      SameInorder(c.up, p, Fill(c', t'));
    }

    /** RB_INSERT_COLOR, parent a right child, outer grandchild: rotate at the grandparent. */
    method RaiseRight(parent: Node, gparent: Node, ghost s: set<Node>, ghost c: Ctx, ghost t: Tree)
      returns (ghost c': Ctx)
      requires At(Snap(s), root, c, t) && Grown(c, t)
      requires c.InR? && c.red && c.n == parent && c.up.InR? && c.up.n == gparent && !IsRed(c.up.l)
      modifies `root, s
      ensures At(Snap(s), root, c', t) && Grown(c', t) && Depth(c') < Depth(c)
      ensures Inorder(Plug(c', t)) == Inorder(Plug(c, t))
    {
      GrownOuter(c, t);
      ghost var g, up, p := c.up, c.up.up, Fill(c, t);
      FillAt(Snap(s), root, c, t);
      SetColor(parent, false, s, g, p);
      p := Painted(p, false);
      FillAt(Snap(s), root, g, p);
      SetColor(gparent, true, s, up, Fill(g, p));
      ghost var q := Painted(Fill(g, p), true);
      var tmp := RotateLeft(gparent, s, up, q);
      c' := InR(T(g.l, gparent, true, c.l), parent, false, up);
      FillAt(Snap(s), root, c', t);
      RotatedLeftFacts(q);
      SameInorder(up, Fill(c', t), q);
      SameInorder(up, Fill(g, Fill(c, t)), q);
    }

    /** The loop body of RB_INSERT_COLOR when the parent is a left child. */
    method InsertFixLeft(elm: Node, parent: Node, gparent: Node, ghost s: set<Node>, ghost c: Ctx, ghost t: Tree)
      returns (next: Node, ghost c': Ctx, ghost t': Tree)
      requires At(Snap(s), root, c, t) && Grown(c, t) && t.n == elm
      requires c != Top && c.red && c.n == parent && c.up.InL? && c.up.n == gparent
      modifies `root, s
      ensures At(Snap(s), root, c', t') && Grown(c', t') && t'.n == next && Depth(c') < Depth(c)
      ensures Inorder(Plug(c', t')) == Inorder(Plug(c, t))
    {
      Sides(Snap(s), root, c, t);
      FillAt(Snap(s), root, c, t);
      FillAt(Snap(s), root, c.up, Fill(c, t));
      next, c', t' := elm, c, t;
      var tmp := gparent.field.right;
      if tmp != null && tmp.field.red {
        t' := RecolourLeft(parent, gparent, tmp, s, c, t);
        next, c' := gparent, c.up.up;
      } else {
        var p := parent;
        if parent.field.right == elm {
          c', t' := TurnOuterLeft(elm, parent, s, c, t);
          next, p := parent, elm;
        }
        c' := RaiseLeft(p, gparent, s, c', t');
      }
    }

    /** The loop body of RB_INSERT_COLOR when the parent is a right child. */
    method InsertFixRight(elm: Node, parent: Node, gparent: Node, ghost s: set<Node>, ghost c: Ctx, ghost t: Tree)
      returns (next: Node, ghost c': Ctx, ghost t': Tree)
      requires At(Snap(s), root, c, t) && Grown(c, t) && t.n == elm
      requires c != Top && c.red && c.n == parent && c.up.InR? && c.up.n == gparent
      modifies `root, s
      ensures At(Snap(s), root, c', t') && Grown(c', t') && t'.n == next && Depth(c') < Depth(c)
      ensures Inorder(Plug(c', t')) == Inorder(Plug(c, t))
    {
      Sides(Snap(s), root, c, t);
      FillAt(Snap(s), root, c, t);
      FillAt(Snap(s), root, c.up, Fill(c, t));
      next, c', t' := elm, c, t;
      var tmp := gparent.field.left;
      if tmp != null && tmp.field.red {
        t' := RecolourRight(parent, gparent, tmp, s, c, t);
        next, c' := gparent, c.up.up;
      } else {
        var p := parent;
        if parent.field.left == elm {
          c', t' := TurnOuterRight(elm, parent, s, c, t);
          next, p := parent, elm;
        }
        c' := RaiseRight(p, gparent, s, c', t');
      }
    }

    /** RB_INSERT_COLOR */
    method InsertColor(elm0: Node, ghost s: set<Node>, ghost c0: Ctx, ghost t0: Tree) returns (ghost tree': Tree)
      requires At(Snap(s), root, c0, t0) && Grown(c0, t0) && t0.n == elm0
      modifies `root, s
      ensures At(Snap(s), root, Top, tree') && RedBlack(tree')
      ensures Inorder(tree') == Inorder(Plug(c0, t0))
    {
      var elm := elm0;
      ghost var c, t := c0, t0;
      while elm.field.parent != null && elm.field.parent.field.red
        invariant At(Snap(s), root, c, t) && Grown(c, t) && t.n == elm
        invariant Inorder(Plug(c, t)) == Inorder(Plug(c0, t0))
        decreases Depth(c)
      {
        var parent := elm.field.parent;
        GrownGrandparent(c, t);
        FillAt(Snap(s), root, c, t);
        Sides(Snap(s), root, c.up, Fill(c, t));
        var gparent := parent.field.parent;
        if parent == gparent.field.left {
          elm, c, t := InsertFixLeft(elm, parent, gparent, s, c, t);
        } else {
          elm, c, t := InsertFixRight(elm, parent, gparent, s, c, t);
        }
      }
      GrownDone(c, t);
      PlugRep(Snap(s), root, c, t);
      PlugNodes(c, t);
      SetColor(root, false, s, Top, Plug(c, t));
      tree' := Painted(Plug(c, t), false);
    }

    /** Hangs the fresh red leaf `elm` into the empty hole of `c`. */
    method Link(elm: Node, parent: Node?, left: bool, ghost s: set<Node>, ghost c: Ctx)
      requires At(Snap(s), root, c, Leaf) && elm !in s
      requires parent == ParentOf(c) && (c != Top ==> left == c.InL?)
      modifies `root, s, elm
      ensures At(Snap(s + {elm}), root, c, T(Leaf, elm, true, Leaf))
    {
      ghost var m := Snap(s);
      assert c != Top ==> c.n in m;
      assert elm !in CtxNodes(c) by { RepCtxNodes(m, c, null); }
      elm.field := Entry(null, null, parent, true);
      if parent != null {
        if left {
          parent.field := parent.field.(left := elm);
        } else {
          parent.field := parent.field.(right := elm);
        }
      } else {
        root := elm;
      }
      RehungRep(m, Snap(s + {elm}), c, null, elm);
    }

    /** The search loop of RB_INSERT: an equal node, or the empty place where the key belongs. */
    method Descend(elm: Node) returns (dup: Node?, parent: Node?, left: bool, ghost c: Ctx)
      requires Valid()
      ensures dup != null ==> dup in nodes && dup.key == elm.key
      ensures dup == null ==> At(Snap(nodes), root, c, Leaf) && Plug(c, Leaf) == tree
      ensures dup == null ==> parent == ParentOf(c) && (c != Top ==> left == c.InL?)
      ensures dup == null ==> AllBelow(Before(c), elm.key) && AllAbove(elm.key, After(c))
    {
      var tmp := root;
      parent, left := null, false;
      ghost var t := tree;
      c := Top;
      while tmp != null
        invariant At(Snap(nodes), root, c, t) && Plug(c, t) == tree
        invariant tmp == RootOf(t) && parent == ParentOf(c) && (c != Top ==> left == c.InL?)
        invariant AllBelow(Before(c), elm.key) && AllAbove(elm.key, After(c))
        decreases t
      {
        parent := tmp;
        DescendOrder(c, t, elm.key);
        if elm.key < tmp.key {
          left, tmp := true, tmp.field.left;
          c, t := InL(t.n, t.red, t.r, c), t.l;
          FillAt(Snap(nodes), root, c, t);
        } else if elm.key > tmp.key {
          left, tmp := false, tmp.field.right;
          c, t := InR(t.l, t.n, t.red, c), t.r;
          FillAt(Snap(nodes), root, c, t);
        } else {
          PlugNodes(c, t);
          return tmp, parent, left, c;
        }
      }
      dup := null;
    }

    /** RB_INSERT once the search loop has found the empty place `c`. */
    method InsertAt(elm: Node, parent: Node?, left: bool, ghost c: Ctx)
      requires Valid() && At(Snap(nodes), root, c, Leaf) && Plug(c, Leaf) == tree
      requires parent == ParentOf(c) && (c != Top ==> left == c.InL?)
      requires AllBelow(Before(c), elm.key) && AllAbove(elm.key, After(c))
      modifies this, nodes, elm
      ensures Valid()
      ensures forall n :: n in old(nodes) ==> n.key != elm.key
      ensures Inorder(tree) == Inserted(old(Inorder(tree)), elm) && nodes == old(nodes) + {elm}
    {
      hide RedBlack;
      hide Sorted;
      hide Grown;
      hide At;
      hide Plug;
      hide Inserted;
      hide Nodes;
      hide Inorder;
      hide AllBelow;
      hide AllAbove;
      ghost var t := T(Leaf, elm, true, Leaf);
      InsertSpec(c, elm, tree);
      Link(elm, parent, left, nodes, c);
      ghost var s := nodes + {elm};
      tree := InsertColor(elm, s, c, t);
      InorderNodes(tree, Plug(c, t));
      nodes := s;
    }

    /** RB_INSERT */
    method Insert(elm: Node) returns (dup: Node?)
      requires Valid()
      modifies this, nodes, elm
      ensures Valid()
      ensures dup != null ==> dup in nodes && dup.key == elm.key
      ensures dup != null ==> unchanged(this) && unchanged(nodes) && unchanged(elm)
      ensures dup == null ==> forall n :: n in old(nodes) ==> n.key != elm.key
      ensures dup == null ==> Inorder(tree) == Inserted(old(Inorder(tree)), elm)
      ensures dup == null ==> nodes == old(nodes) + {elm}
    {
      var parent, left;
      ghost var c;
      dup, parent, left, c := Descend(elm);
      if dup == null {
        InsertAt(elm, parent, left, c);
      }
    }

    // ---------- removal ----------

    /** RB_REMOVE_COLOR, left side, red sibling: rotate the sibling above the parent. */
    method RaiseSiblingLeft(parent: Node, tmp: Node, ghost s: set<Node>, ghost c: Ctx, ghost t: Tree)
      returns (ghost c': Ctx)
      requires At(Snap(s), root, c, t) && Short(c, t)
      requires c.InL? && c.n == parent && IsRed(c.r) && c.r.n == tmp
      modifies `root, s
      ensures At(Snap(s), root, c', t) && Short(c', t)
      ensures c'.InL? && c'.red && c'.n == parent && !IsRed(c'.r) && Depth(c') == Depth(c) + 1
      ensures Inorder(Plug(c', t)) == Inorder(Plug(c, t))
    {
      SiblingExists(c, t);
      ShortRedSibling(c, t);
      FillAt(Snap(s), root, c, t);
      ghost var d := InR(t, c.n, c.red, c.up);
      FillAt(Snap(s), root, d, c.r);
      SetColor(tmp, false, s, d, c.r);
      ghost var r := Painted(c.r, false);
      FillAt(Snap(s), root, d, r);
      SetColor(parent, true, s, c.up, T(t, c.n, c.red, r));
      ghost var u := T(t, c.n, true, r);
      var y := RotateLeft(parent, s, c.up, u);
      RotatedLeftFacts(u);
      c' := InL(c.n, true, c.r.l, InL(c.r.n, false, c.r.r, c.up));
      FillAt(Snap(s), root, c', t);
      FillAt(Snap(s), root, c'.up, Fill(c', t));
      SameInorder(c.up, Fill(c, t), RotatedLeft(u));
    }

    /** RB_REMOVE_COLOR, left side, both nephews black: redden the sibling and go up. */
    method ReddenSiblingLeft(tmp: Node, ghost s: set<Node>, ghost c: Ctx, ghost t: Tree)
      returns (ghost t': Tree)
      requires At(Snap(s), root, c, t) && Short(c, t) && !IsRed(t)
      requires c.InL? && c.r.T? && c.r.n == tmp && !IsRed(c.r) && !IsRed(c.r.l) && !IsRed(c.r.r)
      modifies s
      ensures At(Snap(s), root, c.up, t') && Short(c.up, t') && t'.T? && t'.n == c.n && t'.red == c.red
      ensures Inorder(Plug(c.up, t')) == Inorder(Plug(c, t))
    {
      ShortBlackNephews(c, t);
      FillAt(Snap(s), root, c, t);
      ghost var d := InR(t, c.n, c.red, c.up);
      FillAt(Snap(s), root, d, c.r);
      SetColor(tmp, true, s, d, c.r);
      t' := T(t, c.n, c.red, Painted(c.r, true));
      FillAt(Snap(s), root, d, Painted(c.r, true));
      SameInorder(c.up, Fill(c, t), t');
    }

    /** RB_REMOVE_COLOR, left side, far nephew black: rotate at the sibling. */
    method TurnNephewLeft(tmp: Node, ghost s: set<Node>, ghost c: Ctx, ghost t: Tree)
      returns (ghost c': Ctx)
      requires At(Snap(s), root, c, t) && Short(c, t)
      requires c.InL? && c.r.T? && c.r.n == tmp && !IsRed(c.r) && IsRed(c.r.l) && !IsRed(c.r.r)
      modifies `root, s
      ensures At(Snap(s), root, c', t) && Short(c', t)
      ensures c'.InL? && c'.n == c.n && c'.up == c.up && c'.r.T? && !IsRed(c'.r) && IsRed(c'.r.r)
      ensures Inorder(Plug(c', t)) == Inorder(Plug(c, t))
    {
      ShortNearNephew(c, t);
      ghost var d, r := InR(t, c.n, c.red, c.up), c.r;
      ghost var e := InL(r.n, r.red, r.r, d);
      FillAt(Snap(s), root, c, t);
      FillAt(Snap(s), root, d, r);
      FillAt(Snap(s), root, e, r.l);
      var oleft := tmp.field.left;
      if oleft != null {
        SetColor(oleft, false, s, e, r.l);
      }
      FillAt(Snap(s), root, e, Painted(r.l, false));
      SetColor(tmp, true, s, d, T(Painted(r.l, false), r.n, r.red, r.r));
      ghost var u := T(Painted(r.l, false), r.n, true, r.r);
      oleft := RotateRight(tmp, s, d, u);
      RotatedRightFacts(u);
      c' := InL(c.n, c.red, RotatedRight(u), c.up);
      FillAt(Snap(s), root, d, RotatedRight(u));
      FillAt(Snap(s), root, c', t);
      SameInorder(d, r, RotatedRight(u));
    }

    /** The recolouring before the last rotation of RB_REMOVE_COLOR, left side. */
    method PaintFamilyLeft(parent: Node, tmp: Node, ghost s: set<Node>, ghost c: Ctx, ghost t: Tree)
      requires At(Snap(s), root, c, t)
      requires c.InL? && c.n == parent && c.r.T? && c.r.n == tmp && c.r.r.T?
      modifies s
      ensures At(Snap(s), root, c.up, T(t, c.n, false, T(c.r.l, tmp, c.red, Painted(c.r.r, false))))
    {
      ghost var d, r := InR(t, c.n, c.red, c.up), c.r;
      FillAt(Snap(s), root, c, t);
      FillAt(Snap(s), root, d, r);
      SetColor(tmp, parent.field.red, s, d, r);
      FillAt(Snap(s), root, d, Painted(r, c.red));
      SetColor(parent, false, s, c.up, T(t, c.n, c.red, Painted(r, c.red)));
      d, r := InR(t, c.n, false, c.up), Painted(r, c.red);
      FillAt(Snap(s), root, d, r);
      ghost var e := InR(r.l, r.n, c.red, d);
      FillAt(Snap(s), root, e, r.r);
      if tmp.field.right != null {
        SetColor(tmp.field.right, false, s, e, r.r);
      }
      FillAt(Snap(s), root, e, Painted(r.r, false));
      FillAt(Snap(s), root, d, T(r.l, r.n, c.red, Painted(r.r, false)));
    }

    /** RB_REMOVE_COLOR, left side, far nephew red: rotate at the parent and stop. */
    method RaiseNephewLeft(parent: Node, tmp: Node, ghost s: set<Node>, ghost c: Ctx, ghost t: Tree)
      returns (ghost tree': Tree)
      requires At(Snap(s), root, c, t) && Short(c, t) && !IsRed(t)
      requires c.InL? && c.n == parent && c.r.T? && c.r.n == tmp && !IsRed(c.r) && IsRed(c.r.r)
      modifies `root, s
      ensures At(Snap(s), root, Top, tree') && RedBlack(tree')
      ensures Inorder(tree') == Inorder(Plug(c, t))
    {
      ShortFarNephew(c, t);
      PaintFamilyLeft(parent, tmp, s, c, t);
      ghost var r := T(c.r.l, tmp, c.red, Painted(c.r.r, false));
      ghost var u := T(t, c.n, false, r);
      var y := RotateLeft(parent, s, c.up, u);
      RotatedLeftFacts(u);
      tree' := Plug(c.up, RotatedLeft(u));
      PlugRep(Snap(s), root, c.up, RotatedLeft(u));
      assert Inorder(r) == Inorder(c.r);
      SameInorder(c.up, Fill(c, t), RotatedLeft(u));
    }

    /** The loop body of RB_REMOVE_COLOR, left side, once the sibling is black. */
    method RemoveFixLeftBlack(parent: Node, ghost s: set<Node>, ghost c: Ctx, ghost t: Tree)
      returns (done: bool, ghost c': Ctx, ghost t': Tree)
      requires At(Snap(s), root, c, t) && Short(c, t) && !IsRed(t) && c.InL? && c.n == parent && !IsRed(c.r)
      modifies `root, s
      ensures done ==> c' == Top && At(Snap(s), root, Top, t') && RedBlack(t')
      ensures !done ==> c' == c.up && At(Snap(s), root, c', t') && Short(c', t')
      ensures !done ==> t'.T? && t'.n == parent && t'.red == c.red
      ensures Inorder(Plug(c', t')) == Inorder(Plug(c, t))
    {
      SiblingExists(c, t);
      Children(Snap(s), c.r, c.n);
      ghost var d := c;
      var tmp := parent.field.right;
      if (tmp.field.left == null || !tmp.field.left.field.red) &&
         (tmp.field.right == null || !tmp.field.right.field.red) {
        t' := ReddenSiblingLeft(tmp, s, c, t);
        done, c' := false, c.up;
      } else {
        if tmp.field.right == null || !tmp.field.right.field.red {
          d := TurnNephewLeft(tmp, s, d, t);
          tmp := parent.field.right;
        }
        t' := RaiseNephewLeft(parent, tmp, s, d, t);
        done, c' := true, Top;
      }
    }

    /** The loop body of RB_REMOVE_COLOR when the short subtree is a left child. */
    method RemoveFixLeft(parent: Node, ghost s: set<Node>, ghost c: Ctx, ghost t: Tree)
      returns (done: bool, ghost c': Ctx, ghost t': Tree)
      requires At(Snap(s), root, c, t) && Short(c, t) && !IsRed(t) && c.InL? && c.n == parent
      modifies `root, s
      ensures done ==> c' == Top && At(Snap(s), root, Top, t') && RedBlack(t')
      ensures !done ==> At(Snap(s), root, c', t') && Short(c', t') && t'.T? && t'.n == parent
      ensures !done ==> Work(c', t') < Work(c, t)
      ensures Inorder(Plug(c', t')) == Inorder(Plug(c, t))
    {
      SiblingExists(c, t);
      ghost var d := c;
      var tmp := parent.field.right;
      if tmp.field.red {
        d := RaiseSiblingLeft(parent, tmp, s, c, t);
      }
      done, c', t' := RemoveFixLeftBlack(parent, s, d, t);
    }

    /** RB_REMOVE_COLOR, right side, red sibling: rotate the sibling above the parent. */
    method RaiseSiblingRight(parent: Node, tmp: Node, ghost s: set<Node>, ghost c: Ctx, ghost t: Tree)
      returns (ghost c': Ctx)
      requires At(Snap(s), root, c, t) && Short(c, t)
      requires c.InR? && c.n == parent && IsRed(c.l) && c.l.n == tmp
      modifies `root, s
      ensures At(Snap(s), root, c', t) && Short(c', t)
      ensures c'.InR? && c'.red && c'.n == parent && !IsRed(c'.l) && Depth(c') == Depth(c) + 1
      ensures Inorder(Plug(c', t)) == Inorder(Plug(c, t))
    {
      SiblingExists(c, t);
      ShortRedSibling(c, t);
      FillAt(Snap(s), root, c, t);
      ghost var d := InL(c.n, c.red, t, c.up);
      FillAt(Snap(s), root, d, c.l);
      SetColor(tmp, false, s, d, c.l);
      ghost var r := Painted(c.l, false);
      FillAt(Snap(s), root, d, r);
      SetColor(parent, true, s, c.up, T(r, c.n, c.red, t));
      ghost var u := T(r, c.n, true, t);
      var y := RotateRight(parent, s, c.up, u);
      RotatedRightFacts(u);
      c' := InR(c.l.r, c.n, true, InR(c.l.l, c.l.n, false, c.up));
      FillAt(Snap(s), root, c', t);
      FillAt(Snap(s), root, c'.up, Fill(c', t));
      SameInorder(c.up, Fill(c, t), RotatedRight(u));
    }

    /** RB_REMOVE_COLOR, right side, both nephews black: redden the sibling and go up. */
    method ReddenSiblingRight(tmp: Node, ghost s: set<Node>, ghost c: Ctx, ghost t: Tree)
      returns (ghost t': Tree)
      requires At(Snap(s), root, c, t) && Short(c, t) && !IsRed(t)
      requires c.InR? && c.l.T? && c.l.n == tmp && !IsRed(c.l) && !IsRed(c.l.r) && !IsRed(c.l.l)
      modifies s
      ensures At(Snap(s), root, c.up, t') && Short(c.up, t') && t'.T? && t'.n == c.n && t'.red == c.red
      ensures Inorder(Plug(c.up, t')) == Inorder(Plug(c, t))
    {
      ShortBlackNephews(c, t);
      FillAt(Snap(s), root, c, t);
      ghost var d := InL(c.n, c.red, t, c.up);
      FillAt(Snap(s), root, d, c.l);
      SetColor(tmp, true, s, d, c.l);
      t' := T(Painted(c.l, true), c.n, c.red, t);
      FillAt(Snap(s), root, d, Painted(c.l, true));
      SameInorder(c.up, Fill(c, t), t');
    }

    /** RB_REMOVE_COLOR, right side, far nephew black: rotate at the sibling. */
    method TurnNephewRight(tmp: Node, ghost s: set<Node>, ghost c: Ctx, ghost t: Tree)
      returns (ghost c': Ctx)
      requires At(Snap(s), root, c, t) && Short(c, t)
      requires c.InR? && c.l.T? && c.l.n == tmp && !IsRed(c.l) && IsRed(c.l.r) && !IsRed(c.l.l)
      modifies `root, s
      ensures At(Snap(s), root, c', t) && Short(c', t)
      ensures c'.InR? && c'.n == c.n && c'.up == c.up && c'.l.T? && !IsRed(c'.l) && IsRed(c'.l.l)
      ensures Inorder(Plug(c', t)) == Inorder(Plug(c, t))
    {
      ShortNearNephew(c, t);
      ghost var d, r := InL(c.n, c.red, t, c.up), c.l;
      ghost var e := InR(r.l, r.n, r.red, d);
      FillAt(Snap(s), root, c, t);
      FillAt(Snap(s), root, d, r);
      FillAt(Snap(s), root, e, r.r);
      var oright := tmp.field.right;
      if oright != null {
        SetColor(oright, false, s, e, r.r);
      }
      FillAt(Snap(s), root, e, Painted(r.r, false));
      SetColor(tmp, true, s, d, T(r.l, r.n, r.red, Painted(r.r, false)));
      ghost var u := T(r.l, r.n, true, Painted(r.r, false));
      oright := RotateLeft(tmp, s, d, u);
      RotatedLeftFacts(u);
      c' := InR(RotatedLeft(u), c.n, c.red, c.up);
      FillAt(Snap(s), root, d, RotatedLeft(u));
      FillAt(Snap(s), root, c', t);
      SameInorder(d, r, RotatedLeft(u));
    }

    /** The recolouring before the last rotation of RB_REMOVE_COLOR, right side. */
    method PaintFamilyRight(parent: Node, tmp: Node, ghost s: set<Node>, ghost c: Ctx, ghost t: Tree)
      requires At(Snap(s), root, c, t)
      requires c.InR? && c.n == parent && c.l.T? && c.l.n == tmp && c.l.l.T?
      modifies s
      ensures At(Snap(s), root, c.up, T(T(Painted(c.l.l, false), tmp, c.red, c.l.r), c.n, false, t))
    {
      ghost var d, r := InL(c.n, c.red, t, c.up), c.l;
      FillAt(Snap(s), root, c, t);
      FillAt(Snap(s), root, d, r);
      SetColor(tmp, parent.field.red, s, d, r);
      FillAt(Snap(s), root, d, Painted(r, c.red));
      SetColor(parent, false, s, c.up, T(Painted(r, c.red), c.n, c.red, t));
      d, r := InL(c.n, false, t, c.up), Painted(r, c.red);
      FillAt(Snap(s), root, d, r);
      ghost var e := InL(r.n, c.red, r.r, d);
      FillAt(Snap(s), root, e, r.l);
      if tmp.field.left != null {
        SetColor(tmp.field.left, false, s, e, r.l);
      }
      FillAt(Snap(s), root, e, Painted(r.l, false));
      FillAt(Snap(s), root, d, T(Painted(r.l, false), r.n, c.red, r.r));
    }

    /** RB_REMOVE_COLOR, right side, far nephew red: rotate at the parent and stop. */
    method RaiseNephewRight(parent: Node, tmp: Node, ghost s: set<Node>, ghost c: Ctx, ghost t: Tree)
      returns (ghost tree': Tree)
      requires At(Snap(s), root, c, t) && Short(c, t) && !IsRed(t)
      requires c.InR? && c.n == parent && c.l.T? && c.l.n == tmp && !IsRed(c.l) && IsRed(c.l.l)
      modifies `root, s
      ensures At(Snap(s), root, Top, tree') && RedBlack(tree')
      ensures Inorder(tree') == Inorder(Plug(c, t))
    {
      ShortFarNephew(c, t);
      PaintFamilyRight(parent, tmp, s, c, t);
      ghost var r := T(Painted(c.l.l, false), tmp, c.red, c.l.r);
      ghost var u := T(r, c.n, false, t);
      var y := RotateRight(parent, s, c.up, u);
      RotatedRightFacts(u);
      tree' := Plug(c.up, RotatedRight(u));
      PlugRep(Snap(s), root, c.up, RotatedRight(u));
      assert Inorder(r) == Inorder(c.l);
      SameInorder(c.up, Fill(c, t), RotatedRight(u));
    }

    /** The loop body of RB_REMOVE_COLOR, right side, once the sibling is black. */
    method RemoveFixRightBlack(parent: Node, ghost s: set<Node>, ghost c: Ctx, ghost t: Tree)
      returns (done: bool, ghost c': Ctx, ghost t': Tree)
      requires At(Snap(s), root, c, t) && Short(c, t) && !IsRed(t) && c.InR? && c.n == parent && !IsRed(c.l)
      modifies `root, s
      ensures done ==> c' == Top && At(Snap(s), root, Top, t') && RedBlack(t')
      ensures !done ==> c' == c.up && At(Snap(s), root, c', t') && Short(c', t')
      ensures !done ==> t'.T? && t'.n == parent && t'.red == c.red
      ensures Inorder(Plug(c', t')) == Inorder(Plug(c, t))
    {
      SiblingExists(c, t);
      Children(Snap(s), c.l, c.n);
      ghost var d := c;
      var tmp := parent.field.left;
      if (tmp.field.right == null || !tmp.field.right.field.red) &&
         (tmp.field.left == null || !tmp.field.left.field.red) {
        t' := ReddenSiblingRight(tmp, s, c, t);
        done, c' := false, c.up;
      } else {
        if tmp.field.left == null || !tmp.field.left.field.red {
          d := TurnNephewRight(tmp, s, d, t);
          tmp := parent.field.left;
        }
        t' := RaiseNephewRight(parent, tmp, s, d, t);
        done, c' := true, Top;
      }
    }

    /** The loop body of RB_REMOVE_COLOR when the short subtree is a right child. */
    method RemoveFixRight(parent: Node, ghost s: set<Node>, ghost c: Ctx, ghost t: Tree)
      returns (done: bool, ghost c': Ctx, ghost t': Tree)
      requires At(Snap(s), root, c, t) && Short(c, t) && !IsRed(t) && c.InR? && c.n == parent
      modifies `root, s
      ensures done ==> c' == Top && At(Snap(s), root, Top, t') && RedBlack(t')
      ensures !done ==> At(Snap(s), root, c', t') && Short(c', t') && t'.T? && t'.n == parent
      ensures !done ==> Work(c', t') < Work(c, t)
      ensures Inorder(Plug(c', t')) == Inorder(Plug(c, t))
    {
      SiblingExists(c, t);
      ghost var d := c;
      var tmp := parent.field.left;
      if tmp.field.red {
        d := RaiseSiblingRight(parent, tmp, s, c, t);
      }
      done, c', t' := RemoveFixRightBlack(parent, s, d, t);
    }

    /** RB_REMOVE_COLOR */
    method RemoveColor(parent0: Node?, elm0: Node?, ghost s: set<Node>, ghost c0: Ctx, ghost t0: Tree)
      returns (ghost tree': Tree)
      requires At(Snap(s), root, c0, t0) && Short(c0, t0) && elm0 == RootOf(t0) && parent0 == ParentOf(c0)
      modifies `root, s
      ensures At(Snap(s), root, Top, tree') && RedBlack(tree')
      ensures Inorder(tree') == Inorder(Plug(c0, t0))
    {
      var parent, elm := parent0, elm0;
      ghost var c, t := c0, t0;
      RootIsTop(Snap(s), root, c, t);
      while (elm == null || !elm.field.red) && elm != root
        invariant At(Snap(s), root, c, t) && Short(c, t) && elm == RootOf(t) && parent == ParentOf(c)
        invariant elm == root <==> c == Top
        invariant Inorder(Plug(c, t)) == Inorder(Plug(c0, t0))
        decreases Work(c, t)
      {
        SiblingExists(c, t);
        Sides(Snap(s), root, c, t);
        var done;
        if parent.field.left == elm {
          done, c, t := RemoveFixLeft(parent, s, c, t);
        } else {
          done, c, t := RemoveFixRight(parent, s, c, t);
        }
        if done {
          elm := root;
          if elm != null {
            SetColor(elm, false, s, Top, t);
          }
          tree' := t;
          return;
        }
        elm := parent;
        parent := elm.field.parent;
        RootIsTop(Snap(s), root, c, t);
      }
      if elm != null {
        SetColor(elm, false, s, c, t);
      }
      tree' := Plug(c, Painted(t, false));
      ShortDone(c, t);
      PlugRep(Snap(s), root, c, Painted(t, false));
      SameInorder(c, t, Painted(t, false));
    }

    /** Takes `elm`, which has at most one child, out of the tree; the child takes its place. */
    method Splice(elm: Node, child: Node?, ghost s: set<Node>, ghost c: Ctx, ghost t: Tree, ghost u: Tree)
      requires At(Snap(s), root, c, t) && t.T? && t.n == elm && child == RootOf(u)
      requires (t.l == Leaf && u == t.r) || (t.r == Leaf && u == t.l)
      modifies `root, s
      ensures At(Snap(s), root, c, u)
      ensures elm.field == old(elm.field)
    {
      ghost var m, root0 := Snap(s), root;
      SplicePre(m, root, c, t, u);
      var parent := elm.field.parent;
      if child != null {
        child.field := child.field.(parent := parent);
      }
      if parent != null {
        if parent.field.left == elm {
          parent.field := parent.field.(left := child);
        } else {
          parent.field := parent.field.(right := child);
        }
      } else {
        root := child;
      }
      SpliceRep(m, Snap(s), root0, c, t, u);
    }

    method TakePlaceLinks(elm: Node, old_: Node, ghost s: set<Node>)
      requires CanTakePlace(Snap(s), old_, elm)
      modifies `root, s
      ensures TakePlaceStep(old(Snap(s)), Snap(s), old_, elm)
      ensures root == if old(old_.field.parent) == null then elm else old(root)
    {
      elm.field := old_.field;
      if old_.field.parent != null {
        if old_.field.parent.field.left == old_ {
          old_.field.parent.field := old_.field.parent.field.(left := elm);
        } else {
          old_.field.parent.field := old_.field.parent.field.(right := elm);
        }
      } else {
        root := elm;
      }
      old_.field.left.field := old_.field.left.field.(parent := elm);
      if old_.field.right != null {
        old_.field.right.field := old_.field.right.field.(parent := elm);
      }
    }

    /** Gives `elm` the links and the colour of `old_` and makes the neighbours point at it. */
    method TakePlace(elm: Node, old_: Node, ghost s: set<Node>, ghost c: Ctx, ghost t: Tree)
      requires At(Snap(s), root, c, t) && t.T? && t.n == old_ && t.l.T?
      requires elm in s && elm !in CtxNodes(c) + Nodes(t)
      modifies `root, s
      ensures At(Snap(s), root, c, t.(n := elm))
    {
      ghost var m, root0 := Snap(s), root;
      CanTakePlaceAt(m, root, c, t, elm);
      TakePlaceLinks(elm, old_, s);
      TakePlaceRep(m, Snap(s), root0, c, t, elm);
    }

    /** The descent of RB_REMOVE to the leftmost node of the right subtree. */
    method Successor(old_: Node, ghost s: set<Node>, ghost c: Ctx, ghost t: Tree)
      returns (elm: Node, ghost d: Ctx, ghost x: Tree)
      requires At(Snap(s), root, c, t) && t.T? && t.n == old_ && t.r.T?
      ensures x.T? && x.n == elm && x.l == Leaf && Before(d) == [] && Plug(d, x) == t.r
      ensures At(Snap(s), root, Append(d, InR(t.l, t.n, t.red, c)), x)
    {
      ghost var base := InR(t.l, t.n, t.red, c);
      FillAt(Snap(s), root, base, t.r);
      elm := old_.field.right;
      d, x := Top, t.r;
      while elm.field.left != null
        invariant x.T? && x.n == elm && Before(d) == [] && Plug(d, x) == t.r
        invariant At(Snap(s), root, Append(d, base), x)
        decreases x
      {
        elm := elm.field.left;
        d, x := InL(x.n, x.red, x.r, d), x.l;
        FillAt(Snap(s), root, Append(d, base), x);
      }
    }

    /** RB_REMOVE of a node with at most one child. */
    method RemoveOuter(elm: Node, child: Node?, ghost c: Ctx, ghost t: Tree, ghost u: Tree)
      requires Valid() && At(Snap(nodes), root, c, t) && Plug(c, t) == tree
      requires t.T? && t.n == elm && child == RootOf(u) && ((t.l == Leaf && u == t.r) || (t.r == Leaf && u == t.l))
      modifies this, nodes
      ensures Valid() && Inorder(tree) == Without(old(Inorder(tree)), elm) && nodes == old(nodes) - {elm}
    {
      SpliceBalance(c, t, u);
      ghost var a, b := SpliceOrder(c, t, u);
      ghost var s := nodes;
      var parent, red := elm.field.parent, elm.field.red;
      Splice(elm, child, s, c, t, u);
      ghost var t';
      if !red {
        t' := RemoveColor(parent, child, s, c, u);
      } else {
        t' := Plug(c, u);
        PlugRep(Snap(s), root, c, u);
      }
      Adopt(t', a, elm, b);
    }

    /** The ghost bookkeeping at the end of a removal. */
    ghost method Adopt(t: Tree, a: seq<Node>, elm: Node, b: seq<Node>)
      requires nodes == Nodes(tree) && At(Snap(nodes), root, Top, t) && RedBlack(t) && Sorted(Inorder(tree))
      requires Inorder(tree) == a + [elm] + b && Inorder(t) == a + b
      modifies `tree, `nodes
      ensures Valid() && tree == t && Inorder(tree) == Without(old(Inorder(tree)), elm) && nodes == old(nodes) - {elm}
    {
      RemovedOrder(tree, t, a, elm, b);
      ghost var m := Snap(nodes);
      tree, nodes := t, Nodes(t);
      AtFrame(m, Snap(nodes), root, Top, t);
    }

    /** The relinking of RB_REMOVE for a node with two children: its successor takes its place. */
    method Relink(old_: Node, ghost s: set<Node>, ghost c: Ctx, ghost t: Tree)
      returns (parent: Node, child: Node?, red: bool, ghost d: Ctx, ghost x: Tree)
      requires At(Snap(s), root, c, t) && t.T? && t.n == old_ && t.l.T? && t.r.T?
      modifies `root, s
      ensures x.T? && x.l == Leaf && x.red == red && Before(d) == [] && Plug(d, x) == t.r
      ensures At(Snap(s), root, Append(d, InR(t.l, x.n, t.red, c)), x.r)
      ensures child == RootOf(x.r) && parent == ParentOf(Append(d, InR(t.l, x.n, t.red, c)))
    {
      hide At;
      hide Plug;
      hide Nodes;
      hide CtxNodes;
      hide Before;
      var elm;
      elm, d, x := Successor(old_, s, c, t);
      TopNode(Snap(s), root, Append(d, InR(t.l, t.n, t.red, c)), x);
      SuccessorApart(Snap(s), root, c, t, d, x);
      ghost var base, u := InR(t.l, t.n, t.red, c), T(t.l, t.n, t.red, Plug(d, x.r));
      child, parent, red := elm.field.right, elm.field.parent, elm.field.red;
      Splice(elm, child, s, Append(d, base), x, x.r);
      if elm.field.parent == old_ {
        parent := elm;
      }
      AppendAt(Snap(s), root, d, base, c, x.r, u);
      TakePlace(elm, old_, s, c, u);
      AppendAt(Snap(s), root, d, InR(t.l, elm, t.red, c), c, x.r, u.(n := elm));
    }

    /** RB_REMOVE of a node with two children. */
    method RemoveInner(old_: Node, ghost c: Ctx, ghost t: Tree)
      requires Valid() && At(Snap(nodes), root, c, t) && Plug(c, t) == tree
      requires t.T? && t.n == old_ && t.l.T? && t.r.T?
      modifies this, nodes
      ensures Valid() && Inorder(tree) == Without(old(Inorder(tree)), old_) && nodes == old(nodes) - {old_}
    {
      hide At;
      hide RedBlack;
      hide Sorted;
      ghost var s := nodes;
      ghost var d, x;
      var parent, child, red;
      parent, child, red, d, x := Relink(old_, s, c, t);
      ghost var a, b := RemoveInnerSpec(c, t, d, x);
      ghost var e := Append(d, InR(t.l, x.n, t.red, c));
      ghost var t';
      if !red {
        t' := RemoveColor(parent, child, s, e, x.r);
      } else {
        t' := Plug(e, x.r);
        PlugRep(Snap(s), root, e, x.r);
      }
      Adopt(t', a, old_, b);
    }

    /** RB_REMOVE */
    method Remove(elm: Node) returns (old_: Node)
      requires Valid() && elm in nodes
      modifies this, nodes
      ensures Valid() && old_ == elm
      ensures Inorder(tree) == Without(old(Inorder(tree)), elm) && nodes == old(nodes) - {elm}
    {
      old_ := elm;
      ghost var c, t := Locate(Top, tree, elm);
      PlugRep(Snap(nodes), root, c, t);
      if elm.field.left == null {
        RemoveOuter(elm, elm.field.right, c, t, t.r);
      } else if elm.field.right == null {
        RemoveOuter(elm, elm.field.left, c, t, t.l);
      } else {
        RemoveInner(elm, c, t);
      }
    }
  }
}
