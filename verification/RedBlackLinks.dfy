/**
 The elementary link updates of compat/tree.h: recolouring a node, the two rotations, and
 splicing.  Each is specified by the tree value it turns one tree value into.
 */
module RedBlackLinks {
  import opened TreeShape

  /** The tree after the right child of the root has been rotated up. */
  ghost function RotatedLeft(t: Tree): Tree
    requires t.T? && t.r.T?
  {
    T(T(t.l, t.n, t.red, t.r.l), t.r.n, t.r.red, t.r.r)
  }

  /** The tree after the left child of the root has been rotated up. */
  ghost function RotatedRight(t: Tree): Tree
    requires t.T? && t.l.T?
  {
    T(t.l.l, t.l.n, t.l.red, T(t.l.r, t.n, t.red, t.r))
  }

  lemma Reassociate<X>(a: seq<X>, x: X, b: seq<X>, y: X, c: seq<X>)
    ensures (a + [x] + b) + [y] + c == a + [x] + (b + [y] + c)
  {
  }

  lemma RotatedLeftFacts(t: Tree)
    requires t.T? && t.r.T?
    ensures Inorder(RotatedLeft(t)) == Inorder(t) && Nodes(RotatedLeft(t)) == Nodes(t)
  {
    Reassociate(Inorder(t.l), t.n, Inorder(t.r.l), t.r.n, Inorder(t.r.r));
  }

  lemma RotatedRightFacts(t: Tree)
    requires t.T? && t.l.T?
    ensures Inorder(RotatedRight(t)) == Inorder(t) && Nodes(RotatedRight(t)) == Nodes(t)
  {
    Reassociate(Inorder(t.l.l), t.l.n, Inorder(t.l.r), t.n, Inorder(t.r));
  }

  // ---------- the updates as relations between link records ----------

  /** The subtree `t` was given the parent `p` and did not change otherwise. */
  ghost predicate Reparented(m: Mem, m': Mem, t: Tree, p: Node?) {
    t.T? ==>
      (t.n in m ==> t.n in m' && m'[t.n] == m[t.n].(parent := p)) &&
      Same(m, m', Nodes(t) - {t.n})
  }

  lemma ReparentedRep(m: Mem, m': Mem, t: Tree, q: Node?, p: Node?)
    requires Rep(m, t, q) && Disjoint(t) && Reparented(m, m', t, p)
    ensures Rep(m', t, p)
  {
    if t.T? {
      RepFrame(m, m', t.l, t.n);
      RepFrame(m, m', t.r, t.n);
    }
  }

  /** The record of a parent whose link to `x` now leads to `y`. */
  function Redirected(e: Entry, x: Node?, y: Node?): Entry {
    if e.left == x then e.(left := y) else e.(right := y)
  }

  /** The record of a parent whose link on the side of the hole now leads to `y`. */
  ghost function Hung(e: Entry, c: Ctx, y: Node?): Entry {
    if c.InL? then e.(left := y) else e.(right := y)
  }

  /** The hole of the context `c` now holds `y`, and `c` did not change otherwise. */
  ghost predicate Rehung(m: Mem, m': Mem, c: Ctx, y: Node?) {
    c != Top ==>
      (c.n in m ==> c.n in m' && m'[c.n] == Hung(m[c.n], c, y)) &&
      Same(m, m', CtxNodes(c) - {c.n})
  }

  lemma RehungRep(m: Mem, m': Mem, c: Ctx, x: Node?, y: Node?)
    requires RepCtx(m, c, x) && DisjointCtx(c) && Rehung(m, m', c, y)
    ensures RepCtx(m', c, y)
  {
    match c
    case Top =>
    case InL(n, _, r, up) =>
      RepFrame(m, m', r, n);
      RepCtxFrame(m, m', up, n);
    case InR(l, n, _, up) =>
      RepFrame(m, m', l, n);
      RepCtxFrame(m, m', up, n);
  }

  /** Taking the root of `t` out of the tree, its only subtree `u` moving up. */
  lemma SpliceRep(m: Mem, m': Mem, root: Node?, c: Ctx, t: Tree, u: Tree)
    requires At(m, root, c, t) && t.T? && (u == t.l || u == t.r)
    requires Reparented(m, m', u, ParentOf(c)) && Rehung(m, m', c, RootOf(u))
    ensures At(m', RootAbove(c, RootOf(u)), c, u)
  {
    ReparentedRep(m, m', u, t.n, ParentOf(c));
    RehungRep(m, m', c, t.n, RootOf(u));
  }

  /** The node `x` can take the place of `o`: the records to write are those of different nodes. */
  ghost predicate CanTakePlace(m: Mem, o: Node, x: Node) {
    o in m && x in m && x != o && m[o].left != null &&
    var l, r, p := m[o].left, m[o].right, m[o].parent;
    l in m && l != x && l != o &&
    (r != null ==> r in m && r != x && r != o && r != l) &&
    (p != null ==> p in m && p != x && p != o && p != l && p != r)
  }

  /** What RB_REMOVE does to every link record when it puts the successor `x` in the place of `o`. */
  ghost predicate TakePlaceStep(m: Mem, m': Mem, o: Node, x: Node)
    requires CanTakePlace(m, o, x)
  {
    var l, r, p := m[o].left, m[o].right, m[o].parent;
    m'.Keys == m.Keys &&
    m'[x] == m[o] &&
    m'[l] == m[l].(parent := x) &&
    (r != null ==> m'[r] == m[r].(parent := x)) &&
    (p != null ==> m'[p] == Redirected(m[p], o, x)) &&
    Same(m, m', m.Keys - {x, l} - (if r == null then {} else {r}) - (if p == null then {} else {p}))
  }

  lemma CanTakePlaceAt(m: Mem, root: Node?, c: Ctx, t: Tree, x: Node)
    requires At(m, root, c, t) && t.T? && t.l.T? && x in m && x !in CtxNodes(c) + Nodes(t)
    ensures CanTakePlace(m, t.n, x) && m[t.n] == Entry(RootOf(t.l), RootOf(t.r), ParentOf(c), t.red)
  {
    Children(m, t, ParentOf(c));
    assert t.l.n in Nodes(t.l);
    assert t.r.T? ==> t.r.n in Nodes(t.r);
    if c != Top { Sides(m, root, c, t); }
  }

  lemma TakePlaceRep(m: Mem, m': Mem, root: Node?, c: Ctx, t: Tree, x: Node)
    requires At(m, root, c, t) && t.T? && t.l.T? && x in m && x !in CtxNodes(c) + Nodes(t)
    requires CanTakePlace(m, t.n, x) && TakePlaceStep(m, m', t.n, x)
    ensures At(m', RootAbove(c, x), c, t.(n := x))
  {
    CanTakePlaceAt(m, root, c, t, x);
    if c != Top { Sides(m, root, c, t); }
    assert t.l.n in Nodes(t.l);
    assert t.r.T? ==> t.r.n in Nodes(t.r);
    ReparentedRep(m, m', t.l, t.n, x);
    ReparentedRep(m, m', t.r, t.n, x);
    RehungRep(m, m', c, t.n, x);
  }

  lemma RotatedLeftApart(c: Ctx, t: Tree)
    requires t.T? && t.r.T? && Apart(c, t)
    ensures Apart(c, RotatedLeft(t)) && Disjoint(t.r.l)
    ensures t.n != t.r.n && {t.n, t.r.n} !! Nodes(t.l) + Nodes(t.r.l) + Nodes(t.r.r) + CtxNodes(c)
    ensures Nodes(t.l) !! Nodes(t.r.l) && Nodes(t.l) !! Nodes(t.r.r) && Nodes(t.r.l) !! Nodes(t.r.r)
    ensures CtxNodes(c) !! Nodes(t.l) + Nodes(t.r.l) + Nodes(t.r.r)
  {
    assert Disjoint(t.r);
  }

  /** RB_ROTATE_LEFT can run at `x`: the records it writes are those of different nodes. */
  ghost predicate CanRotateLeft(m: Mem, x: Node) {
    x in m && m[x].right != null &&
    var y, p := m[x].right, m[x].parent;
    y in m && y != x &&
    (m[y].left != null ==> m[y].left in m && m[y].left != x && m[y].left != y) &&
    (p != null ==> p in m && p != x && p != y && p != m[y].left)
  }

  /** What RB_ROTATE_LEFT at `x` does to every link record. */
  ghost predicate RotateLeftStep(m: Mem, m': Mem, x: Node)
    requires CanRotateLeft(m, x)
  {
    var y, p := m[x].right, m[x].parent;
    var b := m[y].left;
    m'.Keys == m.Keys &&
    m'[x] == Entry(m[x].left, b, y, m[x].red) &&
    m'[y] == Entry(x, m[y].right, p, m[y].red) &&
    (b != null ==> m'[b] == m[b].(parent := x)) &&
    (p != null ==> m'[p] == Redirected(m[p], x, y)) &&
    Same(m, m', m.Keys - {x, y} - (if b == null then {} else {b}) - (if p == null then {} else {p}))
  }

  lemma CanRotateLeftAt(m: Mem, root: Node?, c: Ctx, t: Tree)
    requires t.T? && t.r.T? && At(m, root, c, t)
    ensures CanRotateLeft(m, t.n) && m[t.n].right == t.r.n && m[t.n].parent == ParentOf(c)
    ensures m[t.r.n] == Entry(RootOf(t.r.l), RootOf(t.r.r), t.n, t.r.red) && Rep(m, t.r.l, t.r.n) && Rep(m, t.r.r, t.r.n)
  {
    RotatedLeftApart(c, t);
    assert Rep(m, t.r, t.n) && Rep(m, t.r.l, t.r.n);
  }

  lemma RotateLeftRep(m: Mem, m': Mem, root: Node?, c: Ctx, t: Tree)
    requires t.T? && t.r.T? && At(m, root, c, t)
    requires CanRotateLeft(m, t.n) && RotateLeftStep(m, m', t.n)
    ensures At(m', RootAbove(c, t.r.n), c, RotatedLeft(t))
  {
    hide CanRotateLeft;
    hide RootAbove;
    CanRotateLeftAt(m, root, c, t);
    RotatedLeftApart(c, t);
    RepFrame(m, m', t.l, t.n);
    ReparentedRep(m, m', t.r.l, t.r.n, t.n);
    RepFrame(m, m', t.r.r, t.r.n);
    if c != Top { Sides(m, root, c, t); }
    RehungRep(m, m', c, t.n, t.r.n);
    assert Rep(m', RotatedLeft(t).l, t.r.n);
  }

  lemma RotatedRightApart(c: Ctx, t: Tree)
    requires t.T? && t.l.T? && Apart(c, t)
    ensures Apart(c, RotatedRight(t)) && Disjoint(t.l.r)
    ensures t.n != t.l.n && {t.n, t.l.n} !! Nodes(t.r) + Nodes(t.l.r) + Nodes(t.l.l) + CtxNodes(c)
    ensures Nodes(t.r) !! Nodes(t.l.r) && Nodes(t.r) !! Nodes(t.l.l) && Nodes(t.l.r) !! Nodes(t.l.l)
    ensures CtxNodes(c) !! Nodes(t.r) + Nodes(t.l.r) + Nodes(t.l.l)
  {
    assert Disjoint(t.l);
  }

  /** RB_ROTATE_RIGHT can run at `x`: the records it writes are those of different nodes. */
  ghost predicate CanRotateRight(m: Mem, x: Node) {
    x in m && m[x].left != null &&
    var y, p := m[x].left, m[x].parent;
    y in m && y != x &&
    (m[y].right != null ==> m[y].right in m && m[y].right != x && m[y].right != y) &&
    (p != null ==> p in m && p != x && p != y && p != m[y].right)
  }

  /** What RB_ROTATE_RIGHT at `x` does to every link record. */
  ghost predicate RotateRightStep(m: Mem, m': Mem, x: Node)
    requires CanRotateRight(m, x)
  {
    var y, p := m[x].left, m[x].parent;
    var b := m[y].right;
    m'.Keys == m.Keys &&
    m'[x] == Entry(b, m[x].right, y, m[x].red) &&
    m'[y] == Entry(m[y].left, x, p, m[y].red) &&
    (b != null ==> m'[b] == m[b].(parent := x)) &&
    (p != null ==> m'[p] == Redirected(m[p], x, y)) &&
    Same(m, m', m.Keys - {x, y} - (if b == null then {} else {b}) - (if p == null then {} else {p}))
  }

  lemma CanRotateRightAt(m: Mem, root: Node?, c: Ctx, t: Tree)
    requires t.T? && t.l.T? && At(m, root, c, t)
    ensures CanRotateRight(m, t.n) && m[t.n].left == t.l.n && m[t.n].parent == ParentOf(c)
    ensures m[t.l.n] == Entry(RootOf(t.l.l), RootOf(t.l.r), t.n, t.l.red) && Rep(m, t.l.r, t.l.n) && Rep(m, t.l.l, t.l.n)
  {
    RotatedRightApart(c, t);
    assert Rep(m, t.l, t.n) && Rep(m, t.l.r, t.l.n);
  }

  lemma RotateRightRep(m: Mem, m': Mem, root: Node?, c: Ctx, t: Tree)
    requires t.T? && t.l.T? && At(m, root, c, t)
    requires CanRotateRight(m, t.n) && RotateRightStep(m, m', t.n)
    ensures At(m', RootAbove(c, t.l.n), c, RotatedRight(t))
  {
    hide CanRotateRight;
    hide RootAbove;
    CanRotateRightAt(m, root, c, t);
    RotatedRightApart(c, t);
    RepFrame(m, m', t.r, t.n);
    ReparentedRep(m, m', t.l.r, t.l.n, t.n);
    RepFrame(m, m', t.l.l, t.l.n);
    if c != Top { Sides(m, root, c, t); }
    RehungRep(m, m', c, t.n, t.l.n);
    assert Rep(m', RotatedRight(t).r, t.l.n);
  }
}
