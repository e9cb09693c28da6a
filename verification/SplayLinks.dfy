/**
 Top-down splaying (compat/tree.h) on link records.  While a tree is splayed it is in three
 parts: a left tree with a hole at its right end, the middle tree, and a right tree with a hole
 at its left end.  The two outer trees hang at the temporary node `hdr`.  Only the left and
 right links of a record are used.
 */
module SplayLinks {
  import opened TreeShape
  import opened TreeOrder
  import opened RedBlackLinks

  ghost predicate SRep(m: Mem, t: Tree) {
    match t
    case Leaf => true
    case T(l, n, _, r) => n in m && m[n].left == RootOf(l) && m[n].right == RootOf(r) && SRep(m, l) && SRep(m, r)
  }

  lemma {:induction false} SRepFrame(m: Mem, m': Mem, t: Tree)
    requires SRep(m, t) && Same(m, m', Nodes(t))
    ensures SRep(m', t)
  {
    if t.T? {
      SRepFrame(m, m', t.l);
      SRepFrame(m, m', t.r);
    }
  }

  /** Only right turns: the left tree, whose hole is at the right end. */
  ghost predicate LeftTree(c: Ctx) {
    c == Top || (c.InR? && LeftTree(c.up))
  }

  /** Only left turns: the right tree, whose hole is at the left end. */
  ghost predicate RightTree(c: Ctx) {
    c == Top || (c.InL? && RightTree(c.up))
  }

  /** The node with the hole below it; `hdr` while the tree is empty. */
  ghost function Last(c: Ctx, hdr: Node): Node {
    if c == Top then hdr else c.n
  }

  /** The links of the left tree; the link at the hole itself may be stale. */
  ghost predicate RepL(m: Mem, hdr: Node, c: Ctx)
    requires LeftTree(c)
  {
    hdr in m &&
    (c != Top ==>
      c.n in m && m[c.n].left == RootOf(c.l) && SRep(m, c.l) && RepL(m, hdr, c.up) &&
      Last(c.up, hdr) in m && m[Last(c.up, hdr)].right == c.n)
  }

  ghost predicate RepR(m: Mem, hdr: Node, c: Ctx)
    requires RightTree(c)
  {
    hdr in m &&
    (c != Top ==>
      c.n in m && m[c.n].right == RootOf(c.r) && SRep(m, c.r) && RepR(m, hdr, c.up) &&
      Last(c.up, hdr) in m && m[Last(c.up, hdr)].left == c.n)
  }

  lemma {:induction false} RepLFrame(m: Mem, m': Mem, hdr: Node, c: Ctx)
    requires LeftTree(c) && RepL(m, hdr, c) && DisjointCtx(c) && hdr !in CtxNodes(c)
    requires hdr in m' && (c != Top ==> m'[hdr].right == m[hdr].right)
    requires c != Top ==> c.n in m' && m'[c.n].left == m[c.n].left && Same(m, m', CtxNodes(c) - {c.n})
    ensures RepL(m', hdr, c)
  {
    if c != Top {
      SRepFrame(m, m', c.l);
      RepLFrame(m, m', hdr, c.up);
    }
  }

  lemma {:induction false} RepRFrame(m: Mem, m': Mem, hdr: Node, c: Ctx)
    requires RightTree(c) && RepR(m, hdr, c) && DisjointCtx(c) && hdr !in CtxNodes(c)
    requires hdr in m' && (c != Top ==> m'[hdr].left == m[hdr].left)
    requires c != Top ==> c.n in m' && m'[c.n].right == m[c.n].right && Same(m, m', CtxNodes(c) - {c.n})
    ensures RepR(m', hdr, c)
  {
    if c != Top {
      SRepFrame(m, m', c.r);
      RepRFrame(m, m', hdr, c.up);
    }
  }

  /** The three parts and the temporary node share nothing. */
  ghost predicate Parts(hdr: Node, lc: Ctx, t: Tree, rc: Ctx) {
    LeftTree(lc) && RightTree(rc) && Apart(lc, t) && Apart(rc, t) && CtxNodes(lc) !! CtxNodes(rc) &&
    hdr !in CtxNodes(lc) + CtxNodes(rc) + Nodes(t)
  }

  /** The link records, with the middle tree at `root`, are the three parts. */
  ghost predicate Splaying(m: Mem, root: Node?, hdr: Node, lc: Ctx, t: Tree, rc: Ctx) {
    Parts(hdr, lc, t, rc) && RepL(m, hdr, lc) && RepR(m, hdr, rc) && SRep(m, t) && root == RootOf(t)
  }

  ghost function AllNodes(hdr: Node, lc: Ctx, t: Tree, rc: Ctx): set<Node> {
    {hdr} + CtxNodes(lc) + Nodes(t) + CtxNodes(rc)
  }

  /** The whole in-order sequence of the three parts. */
  ghost function Whole(lc: Ctx, t: Tree, rc: Ctx): seq<Node> {
    Before(lc) + Inorder(t) + After(rc)
  }

  // ---------- the steps ----------

  /** One record of `m` is replaced. */
  ghost predicate Put(m: Mem, m': Mem, x: Node, e: Entry) {
    x in m' && m'[x] == e && Same(m, m', m.Keys - {x})
  }

  lemma PartsRight(hdr: Node, lc: Ctx, t: Tree, rc: Ctx)
    requires Parts(hdr, lc, t, rc) && t.T?
    ensures Parts(hdr, InR(t.l, t.n, t.red, lc), t.r, rc)
    ensures Last(lc, hdr) !in Nodes(t) && Last(lc, hdr) !in CtxNodes(rc) && (lc != Top ==> hdr != lc.n)
  {
    assert lc != Top ==> lc.n in CtxNodes(lc);
  }

  lemma PartsLeft(hdr: Node, lc: Ctx, t: Tree, rc: Ctx)
    requires Parts(hdr, lc, t, rc) && t.T?
    ensures Parts(hdr, lc, t.l, InL(t.n, t.red, t.r, rc))
    ensures Last(rc, hdr) !in Nodes(t) && Last(rc, hdr) !in CtxNodes(lc) && (rc != Top ==> hdr != rc.n)
  {
    assert rc != Top ==> rc.n in CtxNodes(rc);
  }

  /** SPLAY_LINKRIGHT: the root and its left subtree join the left tree. */
  lemma LinkRightStep(m: Mem, m': Mem, root: Node?, hdr: Node, lc: Ctx, t: Tree, rc: Ctx)
    requires Splaying(m, root, hdr, lc, t, rc) && t.T?
    requires Last(lc, hdr) in m && Put(m, m', Last(lc, hdr), m[Last(lc, hdr)].(right := root))
    ensures Splaying(m', RootOf(t.r), hdr, InR(t.l, t.n, t.red, lc), t.r, rc)
  {
    PartsRight(hdr, lc, t, rc);
    hide Apart;
    SRepFrame(m, m', t);
    RepLFrame(m, m', hdr, lc);
    RepRFrame(m, m', hdr, rc);
  }

  /** SPLAY_LINKLEFT: the root and its right subtree join the right tree. */
  lemma LinkLeftStep(m: Mem, m': Mem, root: Node?, hdr: Node, lc: Ctx, t: Tree, rc: Ctx)
    requires Splaying(m, root, hdr, lc, t, rc) && t.T?
    requires Last(rc, hdr) in m && Put(m, m', Last(rc, hdr), m[Last(rc, hdr)].(left := root))
    ensures Splaying(m', RootOf(t.l), hdr, lc, t.l, InL(t.n, t.red, t.r, rc))
  {
    PartsLeft(hdr, lc, t, rc);
    hide Apart;
    SRepFrame(m, m', t);
    RepLFrame(m, m', hdr, lc);
    RepRFrame(m, m', hdr, rc);
  }

  /** The records at the root of the middle tree and at the two holes. */
  lemma TopLinks(m: Mem, root: Node?, hdr: Node, lc: Ctx, t: Tree, rc: Ctx)
    requires Splaying(m, root, hdr, lc, t, rc) && t.T?
    ensures root == t.n && t.n in m && m[t.n].left == RootOf(t.l) && m[t.n].right == RootOf(t.r)
    ensures t.l.T? ==> t.l.n in m && t.l.n != t.n
    ensures t.r.T? ==> t.r.n in m && t.r.n != t.n
    ensures hdr in m && Last(lc, hdr) in m && Last(rc, hdr) in m
    ensures hdr != t.n && Last(lc, hdr) != t.n && Last(rc, hdr) != t.n
  {
    PartsRight(hdr, lc, t, rc);
    PartsLeft(hdr, lc, t, rc);
    assert SRep(m, t.l) && SRep(m, t.r);
    assert t.l.T? ==> t.l.n in Nodes(t.l);
    assert t.r.T? ==> t.r.n in Nodes(t.r);
  }

  /** SPLAY_ROTATE_RIGHT: the left child becomes the root of the middle tree. */
  lemma MiddleRotateRight(m: Mem, m': Mem, root: Node?, hdr: Node, lc: Ctx, t: Tree, rc: Ctx)
    requires Splaying(m, root, hdr, lc, t, rc) && t.T? && t.l.T? && t.l.n in m
    requires t.n in m' && m'[t.n] == m[t.n].(left := m[t.l.n].right)
    requires t.l.n in m' && m'[t.l.n] == m[t.l.n].(right := t.n)
    requires Same(m, m', m.Keys - {t.n, t.l.n})
    ensures Splaying(m', t.l.n, hdr, lc, RotatedRight(t), rc)
  {
    hide RepL;
    hide RepR;
    hide DisjointCtx;
    hide LeftTree;
    hide RightTree;
    RotatedRightApart(lc, t);
    RotatedRightApart(rc, t);
    RotatedRightFacts(t);
    assert SRep(m, t.l);
    SRepFrame(m, m', t.l.l);
    SRepFrame(m, m', t.l.r);
    SRepFrame(m, m', t.r);
    assert SRep(m', RotatedRight(t).r);
    OuterFrame(m, m', hdr, lc, rc, {t.n, t.l.n});
  }

  /** SPLAY_ROTATE_LEFT: the right child becomes the root of the middle tree. */
  lemma MiddleRotateLeft(m: Mem, m': Mem, root: Node?, hdr: Node, lc: Ctx, t: Tree, rc: Ctx)
    requires Splaying(m, root, hdr, lc, t, rc) && t.T? && t.r.T? && t.r.n in m
    requires t.n in m' && m'[t.n] == m[t.n].(right := m[t.r.n].left)
    requires t.r.n in m' && m'[t.r.n] == m[t.r.n].(left := t.n)
    requires Same(m, m', m.Keys - {t.n, t.r.n})
    ensures Splaying(m', t.r.n, hdr, lc, RotatedLeft(t), rc)
  {
    hide RepL;
    hide RepR;
    hide DisjointCtx;
    hide LeftTree;
    hide RightTree;
    RotatedLeftApart(lc, t);
    RotatedLeftApart(rc, t);
    RotatedLeftFacts(t);
    assert SRep(m, t.r);
    SRepFrame(m, m', t.l);
    SRepFrame(m, m', t.r.l);
    SRepFrame(m, m', t.r.r);
    assert SRep(m', RotatedLeft(t).l);
    OuterFrame(m, m', hdr, lc, rc, {t.n, t.r.n});
  }

  /** Writes inside the middle tree leave the two outer trees alone. */
  lemma OuterFrame(m: Mem, m': Mem, hdr: Node, lc: Ctx, rc: Ctx, w: set<Node>)
    requires LeftTree(lc) && RightTree(rc) && RepL(m, hdr, lc) && RepR(m, hdr, rc)
    requires DisjointCtx(lc) && DisjointCtx(rc) && hdr !in CtxNodes(lc) + CtxNodes(rc)
    requires Same(m, m', m.Keys - w) && w !! CtxNodes(lc) + CtxNodes(rc) + {hdr}
    ensures RepL(m', hdr, lc) && RepR(m', hdr, rc)
  {
    assert lc != Top ==> lc.n in CtxNodes(lc);
    assert rc != Top ==> rc.n in CtxNodes(rc);
    RepLFrame(m, m', hdr, lc);
    RepRFrame(m, m', hdr, rc);
  }

  // ---------- putting the parts together again ----------

  lemma {:induction false} PlugLeft(m: Mem, hdr: Node, c: Ctx, x: Tree)
    requires LeftTree(c) && RepL(m, hdr, c) && SRep(m, x) && Last(c, hdr) in m && m[Last(c, hdr)].right == RootOf(x)
    ensures SRep(m, Plug(c, x)) && m[hdr].right == RootOf(Plug(c, x))
    decreases c
  {
    if c != Top {
      PlugLeft(m, hdr, c.up, T(c.l, c.n, c.red, x));
    }
  }

  lemma {:induction false} PlugRight(m: Mem, hdr: Node, c: Ctx, x: Tree)
    requires RightTree(c) && RepR(m, hdr, c) && SRep(m, x) && Last(c, hdr) in m && m[Last(c, hdr)].left == RootOf(x)
    ensures SRep(m, Plug(c, x)) && m[hdr].left == RootOf(Plug(c, x))
    decreases c
  {
    if c != Top {
      PlugRight(m, hdr, c.up, T(x, c.n, c.red, c.r));
    }
  }

  /** The tree that SPLAY_ASSEMBLE makes of the parts. */
  ghost function Assembled(lc: Ctx, t: Tree, rc: Ctx): Tree
    requires t.T?
  {
    T(Plug(lc, t.l), t.n, t.red, Plug(rc, t.r))
  }

  /** The two holes are filled with the subtrees of the root. */
  ghost predicate HolesFilled(m: Mem, m': Mem, hdr: Node, lc: Ctx, t: Tree, rc: Ctx)
    requires t.T?
  {
    m'.Keys == m.Keys &&
    (forall x :: x in m && x != Last(lc, hdr) && x != Last(rc, hdr) ==> m'[x] == m[x]) &&
    Last(lc, hdr) in m' && m'[Last(lc, hdr)].right == RootOf(t.l) &&
    Last(rc, hdr) in m' && m'[Last(rc, hdr)].left == RootOf(t.r) &&
    (Last(lc, hdr) != Last(rc, hdr) ==>
      m'[Last(lc, hdr)].left == m[Last(lc, hdr)].left && m'[Last(rc, hdr)].right == m[Last(rc, hdr)].right)
  }

  lemma AssembleStep(m: Mem, m1: Mem, m2: Mem, root: Node?, hdr: Node, lc: Ctx, t: Tree, rc: Ctx)
    requires Splaying(m, root, hdr, lc, t, rc) && t.T? && HolesFilled(m, m1, hdr, lc, t, rc)
    requires t.n in m && hdr in m1
    requires Put(m1, m2, t.n, m[t.n].(left := m1[hdr].right, right := m1[hdr].left))
    ensures SRep(m2, Assembled(lc, t, rc)) && Disjoint(Assembled(lc, t, rc))
  {
    PartsRight(hdr, lc, t, rc);
    PartsLeft(hdr, lc, t, rc);
    FillFrame(m, m1, hdr, lc, t, rc);
    PlugLeft(m1, hdr, lc, t.l);
    PlugRight(m1, hdr, rc, t.r);
    PlugNodes(lc, t.l);
    PlugNodes(rc, t.r);
    SRepFrame(m1, m2, Plug(lc, t.l));
    SRepFrame(m1, m2, Plug(rc, t.r));
    PlugDisjoint(lc, t.l);
    PlugDisjoint(rc, t.r);
  }

  lemma FillFrame(m: Mem, m1: Mem, hdr: Node, lc: Ctx, t: Tree, rc: Ctx)
    requires Parts(hdr, lc, t, rc) && RepL(m, hdr, lc) && RepR(m, hdr, rc) && SRep(m, t) && t.T?
    requires HolesFilled(m, m1, hdr, lc, t, rc)
    ensures RepL(m1, hdr, lc) && RepR(m1, hdr, rc) && SRep(m1, t.l) && SRep(m1, t.r)
  {
    PartsRight(hdr, lc, t, rc);
    PartsLeft(hdr, lc, t, rc);
    SRepFrame(m, m1, t.l);
    SRepFrame(m, m1, t.r);
    FillFrameLeft(m, m1, hdr, lc, t, rc);
    FillFrameRight(m, m1, hdr, lc, t, rc);
  }

  lemma FillFrameLeft(m: Mem, m1: Mem, hdr: Node, lc: Ctx, t: Tree, rc: Ctx)
    requires Parts(hdr, lc, t, rc) && RepL(m, hdr, lc) && t.T? && HolesFilled(m, m1, hdr, lc, t, rc)
    requires Last(rc, hdr) !in CtxNodes(lc) && (rc != Top ==> hdr != rc.n) && (lc != Top ==> hdr != lc.n)
    ensures RepL(m1, hdr, lc)
  {
    RepLFrame(m, m1, hdr, lc);
  }

  lemma FillFrameRight(m: Mem, m1: Mem, hdr: Node, lc: Ctx, t: Tree, rc: Ctx)
    requires Parts(hdr, lc, t, rc) && RepR(m, hdr, rc) && t.T? && HolesFilled(m, m1, hdr, lc, t, rc)
    requires Last(lc, hdr) !in CtxNodes(rc) && (rc != Top ==> hdr != rc.n) && (lc != Top ==> hdr != lc.n)
    ensures RepR(m1, hdr, rc)
  {
    RepRFrame(m, m1, hdr, rc);
  }

  /** Assembling keeps the in-order sequence and the nodes. */
  lemma AssembledOrder(hdr: Node, lc: Ctx, t: Tree, rc: Ctx)
    requires t.T? && LeftTree(lc) && RightTree(rc)
    ensures Inorder(Assembled(lc, t, rc)) == Whole(lc, t, rc)
    ensures Inorder(Plug(lc, t.l)) == Before(lc) + Inorder(t.l) && Inorder(Plug(rc, t.r)) == Inorder(t.r) + After(rc)
    ensures Nodes(Assembled(lc, t, rc)) == CtxNodes(lc) + Nodes(t) + CtxNodes(rc)
  {
    PlugNodes(lc, t.l);
    PlugNodes(rc, t.r);
    PlugInorder(lc, t.l);
    PlugInorder(rc, t.r);
    LeftTreeAfter(lc);
    RightTreeBefore(rc);
    NothingAfter(Before(lc), Inorder(t.l));
    NothingBefore(Inorder(t.r), After(rc));
    Around(Before(lc), Inorder(t.l), t.n, Inorder(t.r), After(rc));
  }

  lemma NothingAfter<X>(a: seq<X>, b: seq<X>)
    ensures a + b + [] == a + b
  {
  }

  lemma NothingBefore<X>(a: seq<X>, b: seq<X>)
    ensures [] + a + b == a + b
  {
  }

  lemma {:induction false} LeftTreeAfter(c: Ctx)
    requires LeftTree(c)
    ensures After(c) == []
  {
    if c != Top {
      LeftTreeAfter(c.up);
    }
  }

  lemma {:induction false} RightTreeBefore(c: Ctx)
    requires RightTree(c)
    ensures Before(c) == []
  {
    if c != Top {
      RightTreeBefore(c.up);
    }
  }
}
