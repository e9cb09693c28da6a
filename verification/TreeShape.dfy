/**
 Shapes of intrusive red-black trees (compat/tree.h).

 A `Node` is a heap object holding one link record.  A `Tree` is the value that a set of linked
 nodes stands for, and a `Ctx` is a tree with one subtree missing: the path from that hole up
 to the root, each frame carrying the other subtree.  `Rep` and `RepCtx` say that a snapshot of
 the link records spells out such a value.
 */
module TreeShape {

  /** RB_ENTRY: the links and the colour embedded in every element. */
  datatype Entry = Entry(left: Node?, right: Node?, parent: Node?, red: bool)

  class Node {
    const key: int
    var field: Entry

    constructor (k: int)
      ensures key == k
    {
      key := k;
      field := Entry(null, null, null, false);
    }
  }

  type Mem = map<Node, Entry>

  /** The link records of the nodes in `s`, as they are in the current heap. */
  ghost function Snap(s: set<Node>): (m: Mem)
    reads s
    ensures m.Keys == s
  {
    map n | n in s :: n.field
  }

  datatype Tree = Leaf | T(l: Tree, n: Node, red: bool, r: Tree)

  datatype Ctx =
    | Top
    | InL(n: Node, red: bool, r: Tree, up: Ctx)
    | InR(l: Tree, n: Node, red: bool, up: Ctx)

  // ---------- nodes, order and plugging ----------

  ghost function Nodes(t: Tree): set<Node> {
    match t
    case Leaf => {}
    case T(l, n, _, r) => Nodes(l) + {n} + Nodes(r)
  }

  ghost function CtxNodes(c: Ctx): set<Node> {
    match c
    case Top => {}
    case InL(n, _, r, up) => {n} + Nodes(r) + CtxNodes(up)
    case InR(l, n, _, up) => {n} + Nodes(l) + CtxNodes(up)
  }

  ghost function Inorder(t: Tree): seq<Node> {
    match t
    case Leaf => []
    case T(l, n, _, r) => Inorder(l) + [n] + Inorder(r)
  }

  /** What precedes the hole in order. */
  ghost function Before(c: Ctx): seq<Node> {
    match c
    case Top => []
    case InL(_, _, _, up) => Before(up)
    case InR(l, n, _, up) => Before(up) + Inorder(l) + [n]
  }

  /** What follows the hole in order. */
  ghost function After(c: Ctx): seq<Node> {
    match c
    case Top => []
    case InL(n, _, r, up) => [n] + Inorder(r) + After(up)
    case InR(_, _, _, up) => After(up)
  }

  ghost function Plug(c: Ctx, t: Tree): Tree
    decreases c
  {
    match c
    case Top => t
    case InL(n, red, r, up) => Plug(up, T(t, n, red, r))
    case InR(l, n, red, up) => Plug(up, T(l, n, red, t))
  }

  /** One step of plugging: the subtree at the parent of the hole. */
  ghost function Fill(c: Ctx, t: Tree): Tree
    requires c != Top
  {
    match c
    case InL(n, red, r, _) => T(t, n, red, r)
    case InR(l, n, red, _) => T(l, n, red, t)
  }

  ghost function Append(c: Ctx, d: Ctx): Ctx {
    match c
    case Top => d
    case InL(n, red, r, up) => InL(n, red, r, Append(up, d))
    case InR(l, n, red, up) => InR(l, n, red, Append(up, d))
  }

  ghost function Depth(c: Ctx): nat {
    match c
    case Top => 0
    case InL(_, _, _, up) => 1 + Depth(up)
    case InR(_, _, _, up) => 1 + Depth(up)
  }

  ghost function Height(t: Tree): nat {
    match t
    case Leaf => 0
    case T(l, _, _, r) => 1 + if Height(l) < Height(r) then Height(r) else Height(l)
  }

  ghost function RootOf(t: Tree): Node? {
    if t.Leaf? then null else t.n
  }

  ghost function ParentOf(c: Ctx): Node? {
    if c.Top? then null else c.n
  }

  /** The root of the whole tree whose hole holds `x`. */
  ghost function RootAbove(c: Ctx, x: Node?): Node? {
    match c
    case Top => x
    case InL(n, _, _, up) => RootAbove(up, n)
    case InR(_, n, _, up) => RootAbove(up, n)
  }

  // ---------- disjointness ----------

  ghost predicate Disjoint(t: Tree) {
    match t
    case Leaf => true
    case T(l, n, _, r) =>
      Disjoint(l) && Disjoint(r) && n !in Nodes(l) && n !in Nodes(r) && Nodes(l) !! Nodes(r)
  }

  ghost predicate DisjointCtx(c: Ctx) {
    match c
    case Top => true
    case InL(n, _, r, up) =>
      Disjoint(r) && n !in Nodes(r) && n !in CtxNodes(up) && Nodes(r) !! CtxNodes(up) && DisjointCtx(up)
    case InR(l, n, _, up) =>
      Disjoint(l) && n !in Nodes(l) && n !in CtxNodes(up) && Nodes(l) !! CtxNodes(up) && DisjointCtx(up)
  }

  ghost predicate Apart(c: Ctx, t: Tree) {
    DisjointCtx(c) && Disjoint(t) && CtxNodes(c) !! Nodes(t)
  }

  // ---------- the links spell out a shape ----------

  ghost predicate Rep(m: Mem, t: Tree, p: Node?) {
    match t
    case Leaf => true
    case T(l, n, red, r) =>
      n in m && m[n] == Entry(RootOf(l), RootOf(r), p, red) && Rep(m, l, n) && Rep(m, r, n)
  }

  ghost predicate RepCtx(m: Mem, c: Ctx, x: Node?) {
    match c
    case Top => true
    case InL(n, red, r, up) =>
      n in m && m[n] == Entry(x, RootOf(r), ParentOf(up), red) && Rep(m, r, n) && RepCtx(m, up, n)
    case InR(l, n, red, up) =>
      n in m && m[n] == Entry(RootOf(l), x, ParentOf(up), red) && Rep(m, l, n) && RepCtx(m, up, n)
  }

  /** The links, entered at `root`, are the tree `t` hanging in the context `c`. */
  ghost predicate At(m: Mem, root: Node?, c: Ctx, t: Tree) {
    Apart(c, t) && RepCtx(m, c, RootOf(t)) && Rep(m, t, ParentOf(c)) && root == RootAbove(c, RootOf(t))
  }

  ghost predicate Same(m: Mem, m': Mem, s: set<Node>) {
    forall n :: n in s && n in m ==> n in m' && m'[n] == m[n]
  }

  lemma {:induction false} RepFrame(m: Mem, m': Mem, t: Tree, p: Node?)
    requires Rep(m, t, p) && Same(m, m', Nodes(t))
    ensures Rep(m', t, p)
  {
    match t
    case Leaf =>
    case T(l, n, _, r) =>
      RepFrame(m, m', l, n);
      RepFrame(m, m', r, n);
  }

  lemma {:induction false} RepCtxFrame(m: Mem, m': Mem, c: Ctx, x: Node?)
    requires RepCtx(m, c, x) && Same(m, m', CtxNodes(c))
    ensures RepCtx(m', c, x)
  {
    match c
    case Top =>
    case InL(n, _, r, up) =>
      RepFrame(m, m', r, n);
      RepCtxFrame(m, m', up, n);
    case InR(l, n, _, up) =>
      RepFrame(m, m', l, n);
      RepCtxFrame(m, m', up, n);
  }

  // ---------- plugging lemmas ----------

  lemma Regroup<X>(a: seq<X>, b: seq<X>, c: seq<X>, d: seq<X>, e: seq<X>)
    ensures a + (b + c + d) + e == a + b + (c + d + e)
    ensures a + (b + c + d) + e == (a + b + c) + d + e
  {
  }

  lemma {:induction false} PlugNodes(c: Ctx, t: Tree)
    ensures Nodes(Plug(c, t)) == CtxNodes(c) + Nodes(t)
    ensures RootOf(Plug(c, t)) == RootAbove(c, RootOf(t))
    decreases c
  {
    match c
    case Top =>
    case InL(n, red, r, up) => PlugNodes(up, T(t, n, red, r));
    case InR(l, n, red, up) => PlugNodes(up, T(l, n, red, t));
  }

  lemma {:induction false} PlugInorder(c: Ctx, t: Tree)
    ensures Inorder(Plug(c, t)) == Before(c) + Inorder(t) + After(c)
    decreases c
  {
    match c
    case Top =>
    case InL(n, red, r, up) =>
      PlugInorder(up, T(t, n, red, r));
      Regroup(Before(up), Inorder(t), [n], Inorder(r), After(up));
    case InR(l, n, red, up) =>
      PlugInorder(up, T(l, n, red, t));
      Regroup(Before(up), Inorder(l), [n], Inorder(t), After(up));
  }

  lemma {:induction false} PlugDisjoint(c: Ctx, t: Tree)
    ensures Disjoint(Plug(c, t)) <==> Apart(c, t)
    decreases c
  {
    match c
    case Top =>
    case InL(n, red, r, up) => PlugDisjoint(up, T(t, n, red, r));
    case InR(l, n, red, up) => PlugDisjoint(up, T(l, n, red, t));
  }

  lemma {:induction false} RepNodes(m: Mem, t: Tree, p: Node?)
    requires Rep(m, t, p)
    ensures Nodes(t) <= m.Keys
  {
    if t.T? {
      RepNodes(m, t.l, t.n);
      RepNodes(m, t.r, t.n);
    }
  }

  lemma {:induction false} RepCtxNodes(m: Mem, c: Ctx, x: Node?)
    requires RepCtx(m, c, x)
    ensures CtxNodes(c) <= m.Keys
  {
    if c != Top {
      RepCtxNodes(m, c.up, c.n);
      RepNodes(m, if c.InL? then c.r else c.l, c.n);
    }
  }

  /** Only the records of the nodes involved matter. */
  lemma AtFrame(m: Mem, m': Mem, root: Node?, c: Ctx, t: Tree)
    requires At(m, root, c, t) && Same(m, m', CtxNodes(c) + Nodes(t))
    ensures At(m', root, c, t)
  {
    RepFrame(m, m', t, ParentOf(c));
    RepCtxFrame(m, m', c, RootOf(t));
  }

  /** Moving the focus from a child to its parent, or back. */
  lemma FillAt(m: Mem, root: Node?, c: Ctx, t: Tree)
    requires c != Top
    ensures At(m, root, c, t) <==> At(m, root, c.up, Fill(c, t))
    ensures Plug(c, t) == Plug(c.up, Fill(c, t))
  {
    assert c.InL? ==> Fill(c, t).l == t;
  }

  /** The record of the node at the top of a subtree. */
  lemma TopNode(m: Mem, root: Node?, c: Ctx, t: Tree)
    requires At(m, root, c, t) && t.T?
    ensures t.n in m && m[t.n] == Entry(RootOf(t.l), RootOf(t.r), ParentOf(c), t.red)
  {
  }

  /** A subtree is the whole tree exactly when its root node is the root of the head. */
  lemma RootIsTop(m: Mem, root: Node?, c: Ctx, t: Tree)
    requires At(m, root, c, t)
    ensures RootOf(t) == root <==> c == Top
  {
    if c != Top {
      RootInside(c.up, c.n);
    }
  }

  lemma {:induction false} RootInside(c: Ctx, x: Node)
    ensures RootAbove(c, x) != null && RootAbove(c, x) in CtxNodes(c) + {x}
  {
    if c != Top {
      RootInside(c.up, c.n);
    }
  }

  /** The records of a node and of its children. */
  lemma Children(m: Mem, t: Tree, p: Node?)
    requires Rep(m, t, p) && t.T?
    ensures t.n in m && m[t.n] == Entry(RootOf(t.l), RootOf(t.r), p, t.red)
    ensures t.l.T? ==> t.l.n in m && m[t.l.n].red == t.l.red
    ensures t.r.T? ==> t.r.n in m && m[t.r.n].red == t.r.red
  {
  }

  /** The test `RB_LEFT(parent) == elm` tells on which side of its parent a subtree hangs. */
  lemma Sides(m: Mem, root: Node?, c: Ctx, t: Tree)
    requires At(m, root, c, t) && c != Top
    ensures c.n in m && c.n in CtxNodes(c)
    ensures t.T? || (c.InL? && c.r.T?) || (c.InR? && c.l.T?) ==>
      (c.InL? <==> m[c.n].left == RootOf(t)) && (c.InR? <==> m[c.n].right == RootOf(t))
  {
    assert t.T? ==> t.n in Nodes(t);
    assert c.InL? && c.r.T? ==> c.r.n in Nodes(c.r);
    assert c.InR? && c.l.T? ==> c.l.n in Nodes(c.l);
  }

  lemma {:induction false} PlugRep(m: Mem, root: Node?, c: Ctx, t: Tree)
    ensures At(m, root, c, t) <==> At(m, root, Top, Plug(c, t))
    decreases c
  {
    if c != Top {
      FillAt(m, root, c, t);
      PlugRep(m, root, c.up, Fill(c, t));
    }
  }

  /** Trees with the same in-order sequence are interchangeable in a context. */
  lemma SameInorder(c: Ctx, t: Tree, u: Tree)
    requires Inorder(t) == Inorder(u)
    ensures Inorder(Plug(c, t)) == Inorder(Plug(c, u))
  {
    PlugInorder(c, t);
    PlugInorder(c, u);
  }

  lemma {:induction false} AppendFacts(c: Ctx, d: Ctx, t: Tree)
    ensures Plug(Append(c, d), t) == Plug(d, Plug(c, t))
    ensures Depth(Append(c, d)) == Depth(c) + Depth(d)
    decreases c
  {
    match c
    case Top =>
    case InL(n, red, r, up) => AppendFacts(up, d, T(t, n, red, r));
    case InR(l, n, red, up) => AppendFacts(up, d, T(l, n, red, t));
  }

  /** Every node of a tree is the root of a subtree hanging in some context. */
  lemma {:induction false} Locate(c0: Ctx, t: Tree, x: Node) returns (c: Ctx, s: Tree)
    requires x in Nodes(t)
    ensures s.T? && s.n == x && Plug(c, s) == Plug(c0, t)
    decreases t
  {
    if t.n == x {
      c, s := c0, t;
    } else if x in Nodes(t.l) {
      c, s := Locate(InL(t.n, t.red, t.r, c0), t.l, x);
    } else {
      c, s := Locate(InR(t.l, t.n, t.red, c0), t.r, x);
    }
  }

  ghost function Elems(s: seq<Node>): set<Node> {
    set n | n in s
  }

  lemma {:induction false} NodesInorder(t: Tree)
    ensures Nodes(t) == Elems(Inorder(t))
  {
    if t.T? {
      NodesInorder(t.l);
      NodesInorder(t.r);
      assert Elems(Inorder(t)) == Elems(Inorder(t.l)) + {t.n} + Elems(Inorder(t.r));
    }
  }
}
