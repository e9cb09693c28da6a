/**
 The splay tree operations of compat/tree.h on heap nodes.
 */
module SplayTree {
  import opened TreeShape
  import opened TreeOrder
  import opened RedBlackLinks
  import opened SplayLinks

  /** How a sought key compares with the keys of a tree: its sign falls along the order. */
  ghost predicate Falling(cmp: int -> int) {
    (forall a, b :: a < b && cmp(a) <= 0 ==> cmp(b) < 0) && (forall a, b :: a < b && cmp(b) >= 0 ==> cmp(a) > 0)
  }

  ghost predicate AllAfter(cmp: int -> int, s: seq<Node>) {
    forall n :: n in s ==> cmp(n.key) < 0
  }

  ghost predicate AllBefore(cmp: int -> int, s: seq<Node>) {
    forall n :: n in s ==> cmp(n.key) > 0
  }

  /** The root compares equal, or is the last node below or the first node above the sought key. */
  ghost predicate Nearest(cmp: int -> int, t: Tree) {
    t.T? &&
    (cmp(t.n.key) < 0 ==> AllBefore(cmp, Inorder(t.l))) &&
    (cmp(t.n.key) > 0 ==> AllAfter(cmp, Inorder(t.r)))
  }

  lemma StartSplaying(m: Mem, m': Mem, root: Node?, hdr: Node, t: Tree)
    requires SRep(m, t) && Disjoint(t) && root == RootOf(t) && hdr !in Nodes(t) && hdr in m' && Same(m, m', Nodes(t))
    ensures Splaying(m', root, hdr, Top, t, Top) && AllNodes(hdr, Top, t, Top) == Nodes(t) + {hdr}
    ensures Whole(Top, t, Top) == Inorder(t)
  {
    SRepFrame(m, m', t);
  }

  lemma SplayingSides(m: Mem, root: Node?, hdr: Node, lc: Ctx, t: Tree, rc: Ctx)
    requires Splaying(m, root, hdr, lc, t, rc)
    ensures LeftTree(lc) && RightTree(rc) && hdr !in CtxNodes(lc) + Nodes(t) + CtxNodes(rc) && root == RootOf(t)
  {
  }

  lemma FinishSpec(cmp: int -> int, hdr: Node, lc: Ctx, t: Tree, rc: Ctx, nodes: set<Node>)
    requires LeftTree(lc) && RightTree(rc) && t.T? && hdr !in CtxNodes(lc) + Nodes(t) + CtxNodes(rc) && hdr !in nodes
    requires AllNodes(hdr, lc, t, rc) == nodes + {hdr} && AllBefore(cmp, Before(lc)) && AllAfter(cmp, After(rc))
    requires cmp(t.n.key) == 0 || (cmp(t.n.key) < 0 && t.l == Leaf) || (cmp(t.n.key) > 0 && t.r == Leaf)
    ensures Assembled(lc, t, rc).T? && RootOf(Assembled(lc, t, rc)) == t.n
    ensures Inorder(Assembled(lc, t, rc)) == Whole(lc, t, rc) && Nodes(Assembled(lc, t, rc)) == nodes
    ensures Nearest(cmp, Assembled(lc, t, rc))
  {
    AssembledOrder(hdr, lc, t, rc);
    SameRest(CtxNodes(lc) + Nodes(t) + CtxNodes(rc), nodes, hdr);
  }

  lemma SameRest(a: set<Node>, b: set<Node>, x: Node)
    requires x !in a && x !in b && a + {x} == b + {x}
    ensures a == b
  {
    assert a == (a + {x}) - {x} && b == (b + {x}) - {x};
  }

  lemma AfterSeq(cmp: int -> int, p: seq<Node>, n: Node, rest: seq<Node>)
    requires Falling(cmp) && Sorted(p + [n] + rest) && cmp(n.key) < 0
    ensures AllAfter(cmp, [n] + rest)
  {
    hide Sorted;
    SortedSplit(p, n, rest);
  }

  lemma BeforeSeq(cmp: int -> int, p: seq<Node>, n: Node, rest: seq<Node>)
    requires Falling(cmp) && Sorted(p + [n] + rest) && cmp(n.key) > 0
    ensures AllBefore(cmp, p + [n])
  {
    hide Sorted;
    SortedSplit(p, n, rest);
  }

  lemma Cut(p: seq<Node>, n: Node, a: seq<Node>, b: seq<Node>)
    ensures p + ([n] + a + b) == p + [n] + (a + b) && [n] + a + b == [n] + (a + b)
  {
  }

  lemma Cut'(p: seq<Node>, n: Node, a: seq<Node>, b: seq<Node>)
    ensures (p + [n]) + a + b == p + [n] + (a + b)
  {
  }

  lemma NoneYet(cmp: int -> int)
    ensures AllBefore(cmp, Before(Top)) && AllAfter(cmp, After(Top))
  {
  }

  /** What joined the right tree lies above the sought key. */
  lemma AfterOrder(cmp: int -> int, lc: Ctx, t: Tree, rc: Ctx)
    requires Falling(cmp) && Sorted(Whole(lc, t, rc)) && rc.InL? && cmp(rc.n.key) < 0
    ensures AllAfter(cmp, After(rc))
  {
    hide Sorted;
    hide Falling;
    hide AllAfter;
    var rest := Inorder(rc.r) + After(rc.up);
    var p := Before(lc) + Inorder(t);
    Cut(p, rc.n, Inorder(rc.r), After(rc.up));
    AfterSeq(cmp, p, rc.n, rest);
    assert After(rc) == [rc.n] + rest;
  }

  lemma BeforeOrder(cmp: int -> int, lc: Ctx, t: Tree, rc: Ctx)
    requires Falling(cmp) && Sorted(Whole(lc, t, rc)) && lc.InR? && cmp(lc.n.key) > 0
    ensures AllBefore(cmp, Before(lc))
  {
    hide Sorted;
    hide Falling;
    hide AllBefore;
    var p := Before(lc.up) + Inorder(lc.l);
    var rest := Inorder(t) + After(rc);
    Cut'(p, lc.n, Inorder(t), After(rc));
    BeforeSeq(cmp, p, lc.n, rest);
    assert Before(lc) == p + [lc.n];
  }

  class SplayHead {
    var root: Node?
    ghost var tree: Tree
    ghost var nodes: set<Node>

    ghost predicate Valid()
      reads this, nodes
    {
      nodes == Nodes(tree) && Disjoint(tree) && SRep(Snap(nodes), tree) && root == RootOf(tree) && Sorted(Inorder(tree))
    }

    constructor ()
      ensures Valid() && Inorder(tree) == []
    {
      root, tree, nodes := null, Leaf, {};
    }

    /** SPLAY_ROTATE_RIGHT */
    method RotateRight(tmp: Node, ghost s: set<Node>, ghost hdr: Node, ghost lc: Ctx, ghost t: Tree, ghost rc: Ctx)
      requires Splaying(Snap(s), root, hdr, lc, t, rc) && t.T? && t.l.T? && t.l.n == tmp
      modifies `root, s
      ensures Splaying(Snap(s), root, hdr, lc, RotatedRight(t), rc)
    {
      hide Splaying;
      ghost var m, r := Snap(s), root;
      TopLinks(m, root, hdr, lc, t, rc);
      root.field := root.field.(left := tmp.field.right);
      tmp.field := tmp.field.(right := root);
      root := tmp;
      MiddleRotateRight(m, Snap(s), r, hdr, lc, t, rc);
    }

    /** SPLAY_ROTATE_LEFT */
    method RotateLeft(tmp: Node, ghost s: set<Node>, ghost hdr: Node, ghost lc: Ctx, ghost t: Tree, ghost rc: Ctx)
      requires Splaying(Snap(s), root, hdr, lc, t, rc) && t.T? && t.r.T? && t.r.n == tmp
      modifies `root, s
      ensures Splaying(Snap(s), root, hdr, lc, RotatedLeft(t), rc)
    {
      hide Splaying;
      ghost var m, r := Snap(s), root;
      TopLinks(m, root, hdr, lc, t, rc);
      root.field := root.field.(right := tmp.field.left);
      tmp.field := tmp.field.(left := root);
      root := tmp;
      MiddleRotateLeft(m, Snap(s), r, hdr, lc, t, rc);
    }

    /** SPLAY_LINKLEFT */
    method LinkLeft(right: Node, ghost s: set<Node>, ghost hdr: Node, ghost lc: Ctx, ghost t: Tree, ghost rc: Ctx)
      returns (right': Node)
      requires Splaying(Snap(s), root, hdr, lc, t, rc) && t.T? && right == Last(rc, hdr)
      modifies `root, s
      ensures Splaying(Snap(s), root, hdr, lc, t.l, InL(t.n, t.red, t.r, rc)) && right' == t.n
    {
      hide Splaying;
      ghost var m, r := Snap(s), root;
      TopLinks(m, root, hdr, lc, t, rc);
      right.field := right.field.(left := root);
      right' := root;
      root := root.field.left;
      LinkLeftStep(m, Snap(s), r, hdr, lc, t, rc);
    }

    /** SPLAY_LINKRIGHT */
    method LinkRight(left: Node, ghost s: set<Node>, ghost hdr: Node, ghost lc: Ctx, ghost t: Tree, ghost rc: Ctx)
      returns (left': Node)
      requires Splaying(Snap(s), root, hdr, lc, t, rc) && t.T? && left == Last(lc, hdr)
      modifies `root, s
      ensures Splaying(Snap(s), root, hdr, InR(t.l, t.n, t.red, lc), t.r, rc) && left' == t.n
    {
      hide Splaying;
      ghost var m, r := Snap(s), root;
      TopLinks(m, root, hdr, lc, t, rc);
      left.field := left.field.(right := root);
      left' := root;
      root := root.field.right;
      LinkRightStep(m, Snap(s), r, hdr, lc, t, rc);
    }

    /** SPLAY_ASSEMBLE */
    method Assemble(node: Node, left: Node, right: Node, ghost s: set<Node>, ghost lc: Ctx, ghost t: Tree, ghost rc: Ctx)
      requires Splaying(Snap(s), root, node, lc, t, rc) && t.T? && left == Last(lc, node) && right == Last(rc, node)
      modifies s
      ensures SRep(Snap(s), Assembled(lc, t, rc)) && Disjoint(Assembled(lc, t, rc))
    {
      hide Splaying;
      ghost var m := Snap(s);
      TopLinks(m, root, node, lc, t, rc);
      left.field := left.field.(right := root.field.left);
      right.field := right.field.(left := root.field.right);
      ghost var m1 := Snap(s);
      root.field := root.field.(left := node.field.right);
      root.field := root.field.(right := node.field.left);
      AssembleStep(m, m1, Snap(s), root, node, lc, t, rc);
    }

    /** One round of the splay loop when the sought key is below the root. */
    method GoLeft(cmp: int -> int, right: Node, ghost s: set<Node>, ghost hdr: Node, ghost lc: Ctx, ghost t: Tree,
                  ghost rc: Ctx)
      returns (done: bool, right': Node, ghost t': Tree, ghost rc': Ctx)
      requires Splaying(Snap(s), root, hdr, lc, t, rc) && t.T? && right == Last(rc, hdr) && cmp(t.n.key) < 0
      modifies `root, s
      ensures Splaying(Snap(s), root, hdr, lc, t', rc') && t'.T? && right' == Last(rc', hdr)
      ensures Whole(lc, t', rc') == Whole(lc, t, rc)
      ensures done ==> rc' == rc && t'.l == Leaf && cmp(t'.n.key) < 0
      ensures !done ==> |Inorder(t')| < |Inorder(t)|
      ensures !done ==> rc'.InL? && cmp(rc'.n.key) < 0
      ensures AllNodes(hdr, lc, t', rc') == AllNodes(hdr, lc, t, rc)
    {
      hide Splaying;
      hide SRep;
      hide Disjoint;
      hide Falling;
      TopLinks(Snap(s), root, hdr, lc, t, rc);
      right', t', rc' := right, t, rc;
      var tmp := root.field.left;
      if tmp == null {
        return true, right', t', rc';
      }
      if cmp(tmp.key) < 0 {
        RotateRight(tmp, s, hdr, lc, t, rc);
        RotatedRightFacts(t);
        t' := RotatedRight(t);
        TopLinks(Snap(s), root, hdr, lc, t', rc);
        if root.field.left == null {
          return true, right', t', rc';
        }
      }
      LinkLeftWhole(hdr, lc, t', rc);
      right' := LinkLeft(right, s, hdr, lc, t', rc);
      rc' := InL(t'.n, t'.red, t'.r, rc);
      t' := t'.l;
      return false, right', t', rc';
    }

    /** One round of the splay loop when the sought key is above the root. */
    method GoRight(cmp: int -> int, left: Node, ghost s: set<Node>, ghost hdr: Node, ghost lc: Ctx, ghost t: Tree,
                   ghost rc: Ctx)
      returns (done: bool, left': Node, ghost t': Tree, ghost lc': Ctx)
      requires Splaying(Snap(s), root, hdr, lc, t, rc) && t.T? && left == Last(lc, hdr) && cmp(t.n.key) > 0
      modifies `root, s
      ensures Splaying(Snap(s), root, hdr, lc', t', rc) && t'.T? && left' == Last(lc', hdr)
      ensures Whole(lc', t', rc) == Whole(lc, t, rc)
      ensures done ==> lc' == lc && t'.r == Leaf && cmp(t'.n.key) > 0
      ensures !done ==> |Inorder(t')| < |Inorder(t)|
      ensures !done ==> lc'.InR? && cmp(lc'.n.key) > 0
      ensures AllNodes(hdr, lc', t', rc) == AllNodes(hdr, lc, t, rc)
    {
      hide Splaying;
      hide SRep;
      hide Disjoint;
      hide Falling;
      TopLinks(Snap(s), root, hdr, lc, t, rc);
      left', t', lc' := left, t, lc;
      var tmp := root.field.right;
      if tmp == null {
        return true, left', t', lc';
      }
      if cmp(tmp.key) > 0 {
        RotateLeft(tmp, s, hdr, lc, t, rc);
        RotatedLeftFacts(t);
        t' := RotatedLeft(t);
        TopLinks(Snap(s), root, hdr, lc, t', rc);
        if root.field.right == null {
          return true, left', t', lc';
        }
      }
      LinkRightWhole(hdr, lc, t', rc);
      left' := LinkRight(left, s, hdr, lc, t', rc);
      lc' := InR(t'.l, t'.n, t'.red, lc);
      t' := t'.r;
      return false, left', t', lc';
    }

    /** SPLAY and SPLAY_MINMAX, which differ in the comparison only: the order of the nodes stays,
        and the root becomes a node that compares equal, or else a neighbour of the sought key. */
    method Splay(cmp: int -> int)
      requires Valid() && root != null && Falling(cmp)
      modifies this, nodes
      ensures Valid() && tree.T? && Inorder(tree) == old(Inorder(tree)) && nodes == old(nodes)
      ensures Nearest(cmp, tree)
    {
      hide Splaying;
      hide Disjoint;
      hide Nearest;
      hide AllBefore;
      hide AllAfter;
      hide Sorted;
      NoneYet(cmp);
      hide SRep;
      hide Falling;
      var node := new Node(0);
      ghost var s, all := nodes + {node}, Inorder(tree);
      ghost var lc, t, rc := Top, tree, Top;
      StartSplaying(Snap(nodes), Snap(s), root, node, tree);
      var left, right := node, node;
      while cmp(root.key) != 0
        invariant Splaying(Snap(s), root, node, lc, t, rc) && t.T? && root == t.n
        invariant left == Last(lc, node) && right == Last(rc, node) && nodes == old(nodes)
        invariant Whole(lc, t, rc) == all && AllNodes(node, lc, t, rc) == s
        invariant AllBefore(cmp, Before(lc)) && AllAfter(cmp, After(rc))
        decreases |Inorder(t)|
      {
        var done;
        if cmp(root.key) < 0 {
          done, right, t, rc := GoLeft(cmp, right, s, node, lc, t, rc);
          if done { break; }
          AfterOrder(cmp, lc, t, rc);
        } else {
          done, left, t, lc := GoRight(cmp, left, s, node, lc, t, rc);
          if done { break; }
          BeforeOrder(cmp, lc, t, rc);
        }
        TopLinks(Snap(s), root, node, lc, t, rc);
      }
      Finish(cmp, node, left, right, s, lc, t, rc);
    }

    /** The end of a splay: the parts are assembled. */
    method Finish(ghost cmp: int -> int, node: Node, left: Node, right: Node, ghost s: set<Node>, ghost lc: Ctx,
                  ghost t: Tree, ghost rc: Ctx)
      requires Splaying(Snap(s), root, node, lc, t, rc) && t.T? && left == Last(lc, node) && right == Last(rc, node)
      requires Sorted(Whole(lc, t, rc)) && AllNodes(node, lc, t, rc) == s && s == nodes + {node} && node !in nodes
      requires AllBefore(cmp, Before(lc)) && AllAfter(cmp, After(rc))
      requires cmp(t.n.key) == 0 || (cmp(t.n.key) < 0 && t.l == Leaf) || (cmp(t.n.key) > 0 && t.r == Leaf)
      modifies this, s
      ensures Valid() && tree.T? && Inorder(tree) == Whole(lc, t, rc) && nodes == old(nodes) && Nearest(cmp, tree)
    {
      hide Splaying;
      hide SRep;
      hide Nearest;
      hide AllBefore;
      hide AllAfter;
      hide AllNodes;
      hide Disjoint;
      hide Assembled;
      SplayingSides(Snap(s), root, node, lc, t, rc);
      FinishSpec(cmp, node, lc, t, rc, nodes);
      Assemble(node, left, right, s, lc, t, rc);
      tree := Assembled(lc, t, rc);
      SRepFrame(Snap(s), Snap(nodes), tree);
    }

    /** SPLAY_FIND */
    method Find(key: int) returns (res: Node?)
      requires Valid()
      modifies this, nodes
      ensures Valid() && Inorder(tree) == old(Inorder(tree)) && nodes == old(nodes)
      ensures res != null ==> res in nodes && res.key == key
      ensures res == null ==> forall n :: n in Inorder(tree) ==> n.key != key
    {
      hide SRep;
      if root == null {
        return null;
      }
      Splay(k => key - k);
      NearestSplit(key, tree);
      if key - root.key == 0 {
        return root;
      }
      return null;
    }

    /** SPLAY_MIN and SPLAY_MAX */
    method MinMax(val: int) returns (res: Node?)
      requires Valid() && val != 0
      modifies this, nodes
      ensures Valid() && Inorder(tree) == old(Inorder(tree)) && nodes == old(nodes)
      ensures Inorder(tree) == [] ==> res == null
      ensures Inorder(tree) != [] ==> res == if val < 0 then Inorder(tree)[0] else Inorder(tree)[|Inorder(tree)| - 1]
    {
      hide SRep;
      if root == null {
        return null;
      }
      Splay(k => val);
      EndOfTree(val, tree);
      return root;
    }

    /** SPLAY_INSERT */
    method Insert(elm: Node) returns (dup: Node?)
      requires Valid()
      modifies this, nodes, elm
      ensures Valid()
      ensures dup != null ==> dup in nodes && dup.key == elm.key && Inorder(tree) == old(Inorder(tree)) && nodes == old(nodes)
      ensures dup == null ==> forall n :: n in old(Inorder(tree)) ==> n.key != elm.key
      ensures dup == null ==> Inorder(tree) == Inserted(old(Inorder(tree)), elm) && nodes == old(nodes) + {elm}
    {
      hide SRep;
      if root == null {
        elm.field := elm.field.(left := null, right := null);
        root, nodes, tree := elm, {elm}, T(Leaf, elm, false, Leaf);
        SingleNode(Snap(nodes), elm);
        return null;
      }
      Splay(k => elm.key - k);
      ghost var t := tree;
      NearestSplit(elm.key, t);
      if elm.key == root.key {
        return root;
      }
      RootInsert(elm);
      return null;
    }

    /** The relinking of SPLAY_INSERT below the splayed root. */
    method RootInsert(elm: Node)
      requires Valid() && root != null && elm.key != root.key
      requires elm.key < tree.n.key ==> AllBelow(Inorder(tree.l), elm.key)
      requires elm.key > tree.n.key ==> AllAbove(elm.key, Inorder(tree.r))
      modifies this, nodes, elm
      ensures Valid() && Inorder(tree) == Inserted(old(Inorder(tree)), elm) && nodes == old(nodes) + {elm}
    {
      hide SRep;
      ghost var t, m := tree, Snap(nodes);
      RootInsertSpec(m, t, elm);
      if elm.key < root.key {
        elm.field := elm.field.(left := root.field.left);
        elm.field := elm.field.(right := root);
        root.field := root.field.(left := null);
        tree := T(t.l, elm, false, T(Leaf, t.n, t.red, t.r));
      } else {
        elm.field := elm.field.(right := root.field.right);
        elm.field := elm.field.(left := root);
        root.field := root.field.(right := null);
        tree := T(T(t.l, t.n, t.red, Leaf), elm, false, t.r);
      }
      root := elm;
      nodes := nodes + {elm};
      RootInsertRep(m, Snap(nodes), t, tree, elm);
    }

    /** SPLAY_REMOVE: takes out the node whose key equals that of `elm`, if there is one. */
    method Remove(elm: Node) returns (res: Node?, ghost removed: Node)
      requires Valid()
      modifies this, nodes
      ensures Valid() && (res == null || res == elm)
      ensures res == null <==> forall n :: n in old(Inorder(tree)) ==> n.key != elm.key
      ensures res == null ==> Inorder(tree) == old(Inorder(tree)) && nodes == old(nodes)
      ensures res != null ==> removed in old(Inorder(tree)) && removed.key == elm.key
      ensures res != null ==> Inorder(tree) == Without(old(Inorder(tree)), removed) && nodes == old(nodes) - {removed}
    {
      hide SRep;
      removed := elm;
      if root == null {
        return null, elm;
      }
      Splay(k => elm.key - k);
      NearestSplit(elm.key, tree);
      if elm.key == root.key {
        removed := root;
        RemoveRoot(elm.key);
        return elm, removed;
      }
      return null, elm;
    }

    /** SPLAY_REMOVE once the node to remove is the root. */
    method RemoveRoot(key: int)
      requires Valid() && root != null && root.key == key
      modifies this, nodes
      ensures Valid() && Inorder(tree) == Without(old(Inorder(tree)), old(root)) && nodes == old(nodes) - {old(root)}
    {
      hide SRep;
      hide Disjoint;
      hide Sorted;
      hide Inorder;
      hide Nodes;
      ghost var t, m, s := tree, Snap(nodes), nodes;
      RemoveRootPre(m, t);
      LeftRight(t);
      if root.field.left == null {
        root := root.field.right;
        tree, nodes := t.r, Nodes(t.r);
        SRepFrame(m, Snap(nodes), t.r);
      } else {
        var tmp := root.field.right;
        root := root.field.left;
        tree, nodes := t.l, Nodes(t.l);
        SRepFrame(m, Snap(nodes), t.l);
        JoinRight(key, tmp, t, s);
      }
    }

    /** The left subtree is splayed for the removed key, and the right one hung below its root. */
    method JoinRight(key: int, tmp: Node?, ghost t: Tree, ghost s: set<Node>)
      requires Valid() && root != null && t.T? && t.n.key == key && Sorted(Inorder(t)) && Disjoint(t) && s == Nodes(t)
      requires tree == t.l && SRep(Snap(s), t.r) && tmp == RootOf(t.r)
      modifies this, s
      ensures Valid() && Inorder(tree) == Inorder(t.l) + Inorder(t.r) && nodes == s - {t.n}
    {
      hide SRep;
      hide Sorted;
      hide Disjoint;
      hide Inorder;
      hide Nodes;
      hide Nearest;
      ghost var m := Snap(s);
      LeftRight(t);
      Splay(k => key - k);
      ghost var u := tree;
      RemoveRootJoin(key, t, u);
      SRepFrame(m, Snap(s), t.r);
      SRepFrame(Snap(nodes), Snap(s), u);
      ghost var m1 := Snap(s);
      root.field := root.field.(right := tmp);
      tree, nodes := T(u.l, u.n, u.red, t.r), s - {t.n};
      JoinRep(m1, Snap(nodes), t, u);
    }
  }

  lemma LeftRight(t: Tree)
    requires t.T? && Disjoint(t)
    ensures t.n !in Nodes(t.l) && t.n !in Nodes(t.r) && Nodes(t.l) !! Nodes(t.r) && Nodes(t.l) + Nodes(t.r) + {t.n} == Nodes(t)
    ensures Disjoint(t.l) && Disjoint(t.r)
  {
  }

  lemma RemoveRootPre(m: Mem, t: Tree)
    requires t.T? && SRep(m, t) && Disjoint(t) && Sorted(Inorder(t))
    ensures t.n in m && m[t.n].left == RootOf(t.l) && m[t.n].right == RootOf(t.r) && SRep(m, t.l) && SRep(m, t.r)
    ensures Sorted(Inorder(t.l)) && Sorted(Inorder(t.r)) && Inorder(t.l) + Inorder(t.r) == Without(Inorder(t), t.n)
    ensures Sorted(Inorder(t.l) + Inorder(t.r)) && Disjoint(t.l) && Disjoint(t.r)
    ensures t.l == Leaf ==> Inorder(t.r) == Without(Inorder(t), t.n) && Nodes(t.r) == Nodes(t) - {t.n}
  {
    WithoutAt(Inorder(t.l), t.n, Inorder(t.r));
    SortedSkip(Inorder(t.l), t.n, Inorder(t.r));
    SortedSplit(Inorder(t.l), t.n, Inorder(t.r));
    assert [] + Inorder(t.r) == Inorder(t.r);
  }

  /** Splaying the left subtree for a key above all of it leaves its root without a right child. */
  lemma RemoveRootJoin(key: int, t: Tree, u: Tree)
    requires t.T? && t.n.key == key && Sorted(Inorder(t)) && Disjoint(t) && u.T? && Disjoint(u)
    requires Inorder(u) == Inorder(t.l) && Nearest(k => key - k, u)
    ensures u.r == Leaf && Nodes(u) == Nodes(t.l)
    ensures Nodes(u) == Nodes(u.l) + {u.n} && Inorder(T(u.l, u.n, u.red, t.r)) == Inorder(t.l) + Inorder(t.r)
    ensures Disjoint(T(u.l, u.n, u.red, t.r)) && Nodes(T(u.l, u.n, u.red, t.r)) == Nodes(t) - {t.n}
    ensures Sorted(Inorder(t.l) + Inorder(t.r)) && u.n !in Nodes(t.r) && u.n !in Nodes(u.l) && Nodes(u.l) + Nodes(t.r) <= Nodes(t) - {t.n}
  {
    SortedSkip(Inorder(t.l), t.n, Inorder(t.r));
    SortedSplit(Inorder(t.l), t.n, Inorder(t.r));
    InorderNodes(u, t.l);
    assert u.n in Inorder(u);
    AboveNone(key, Inorder(u.r));
    EmptyTree(u.r);
    assert Inorder(u.l) + [u.n] + [] == Inorder(u.l) + [u.n];
  }

  lemma AboveNone(key: int, s: seq<Node>)
    ensures AllBelow(s, key) && AllAfter(k => key - k, s) ==> s == []
  {
    assert s != [] ==> s[0] in s;
  }

  lemma EmptyTree(t: Tree)
    ensures Inorder(t) == [] ==> t == Leaf
  {
  }

  lemma JoinRep(m: Mem, m': Mem, t: Tree, u: Tree)
    requires t.T? && u.T? && u.r == Leaf && SRep(m, u) && SRep(m, t.r) && Disjoint(T(u.l, u.n, u.red, t.r))
    requires u.n in m && u.n in m' && m'[u.n] == m[u.n].(right := RootOf(t.r))
    requires Same(m, m', Nodes(u.l) + Nodes(t.r))
    ensures SRep(m', T(u.l, u.n, u.red, t.r))
  {
    SRepFrame(m, m', u.l);
    SRepFrame(m, m', t.r);
  }

  /** Splitting the contents at a root that is nearest to a key. */
  lemma NearestSplit(key: int, t: Tree)
    requires Nearest(k => key - k, t) && Sorted(Inorder(t))
    ensures key < t.n.key ==> AllBelow(Inorder(t.l), key)
    ensures key > t.n.key ==> AllAbove(key, Inorder(t.r))
    ensures key != t.n.key ==> forall n :: n in Inorder(t) ==> n.key != key
    ensures t.n in Nodes(t)
  {
    SortedSplit(Inorder(t.l), t.n, Inorder(t.r));
  }

  /** Nothing lies before a key below everything, or after one above everything. */
  lemma NoneSide(val: int, s: seq<Node>)
    ensures val < 0 && AllBefore(k => val, s) ==> s == []
    ensures val > 0 && AllAfter(k => val, s) ==> s == []
  {
    assert s != [] ==> s[0] in s;
  }

  lemma EndOfTree(val: int, t: Tree)
    requires val != 0 && Nearest(k => val, t)
    ensures val < 0 ==> Inorder(t)[0] == t.n
    ensures val > 0 ==> Inorder(t)[|Inorder(t)| - 1] == t.n
  {
    NoneSide(val, Inorder(t.l));
    NoneSide(val, Inorder(t.r));
  }

  lemma SingleNode(m: Mem, x: Node)
    requires x in m && m[x].left == null && m[x].right == null
    ensures SRep(m, T(Leaf, x, false, Leaf)) && Inorder(T(Leaf, x, false, Leaf)) == [x]
    ensures Inserted([], x) == [x] && Disjoint(T(Leaf, x, false, Leaf)) && Sorted([x])
  {
    assert [] + [x] + [] == [x];
  }

  /** The two trees that SPLAY_INSERT makes, as sorted-set insertion. */
  lemma RootInsertSpec(m: Mem, t: Tree, x: Node)
    requires t.T? && SRep(m, t) && Disjoint(t) && Sorted(Inorder(t)) && x.key != t.n.key
    requires x.key < t.n.key ==> AllBelow(Inorder(t.l), x.key)
    requires x.key > t.n.key ==> AllAbove(x.key, Inorder(t.r))
    ensures t.n in m && m[t.n].left == RootOf(t.l) && m[t.n].right == RootOf(t.r)
    ensures t.n in Nodes(t) && x !in Nodes(t)
    ensures x.key < t.n.key ==> var u := T(t.l, x, false, T(Leaf, t.n, t.red, t.r));
      Inorder(u) == Inserted(Inorder(t), x) && Sorted(Inorder(u))
    ensures x.key > t.n.key ==> var u := T(T(t.l, t.n, t.red, Leaf), x, false, t.r);
      Inorder(u) == Inserted(Inorder(t), x) && Sorted(Inorder(u))
  {
    var a, b := Inorder(t.l), Inorder(t.r);
    NodesInorder(t);
    if x.key < t.n.key {
      InsertBelow(a, t.n, b, x);
      assert Inorder(T(Leaf, t.n, t.red, t.r)) == [] + [t.n] + b;
    } else {
      InsertAbove(a, t.n, b, x);
      assert Inorder(T(t.l, t.n, t.red, Leaf)) == a + [t.n] + [];
    }
  }

  lemma InsertBelow(a: seq<Node>, n: Node, b: seq<Node>, x: Node)
    requires Sorted(a + [n] + b) && x.key < n.key && AllBelow(a, x.key)
    ensures var s := a + [x] + ([] + [n] + b);
      s == Inserted(a + [n] + b, x) && Sorted(s) && x !in a + [n] + b
  {
    SortedSplit(a, n, b);
    Tail(a, n, b);
    InsertedAt(a, x, [] + [n] + b);
    SortedSplit([], n, b);
    SortedSplit(a, x, [] + [n] + b);
  }

  lemma InsertAbove(a: seq<Node>, n: Node, b: seq<Node>, x: Node)
    requires Sorted(a + [n] + b) && x.key > n.key && AllAbove(x.key, b)
    ensures var s := (a + [n] + []) + [x] + b;
      s == Inserted(a + [n] + b, x) && Sorted(s) && x !in a + [n] + b
  {
    SortedSplit(a, n, b);
    Tail(a, n, b);
    InsertedAt(a + [n] + [], x, b);
    SortedSplit(a, n, []);
    SortedSplit(a + [n] + [], x, b);
  }

  lemma Tail<X>(a: seq<X>, n: X, b: seq<X>)
    ensures a + ([] + [n] + b) == a + [n] + b && (a + [n] + []) + b == a + [n] + b
  {
  }

  lemma Union(a: set<Node>, b: set<Node>, n: Node, x: Node)
    ensures a + {x} + ({n} + b) == a + {n} + b + {x} && (a + {n}) + {x} + b == a + {n} + b + {x}
  {
  }

  lemma RootInsertDisjoint(t: Tree, u: Tree, x: Node)
    requires t.T? && Disjoint(t) && x !in Nodes(t)
    requires u == T(t.l, x, false, T(Leaf, t.n, t.red, t.r)) || u == T(T(t.l, t.n, t.red, Leaf), x, false, t.r)
    ensures Disjoint(u) && Nodes(u) == Nodes(t) + {x}
  {
    var a, b := Nodes(t.l), Nodes(t.r);
    if u.l == t.l {
      Union(a, b, t.n, x);
      assert Nodes(u.r) == {t.n} + b;
    } else {
      Union(a, b, t.n, x);
      assert Nodes(u.l) == a + {t.n};
    }
  }

  lemma RootInsertRep(m: Mem, m': Mem, t: Tree, u: Tree, x: Node)
    requires t.T? && SRep(m, t) && Disjoint(t) && x !in Nodes(t) && x in m' && t.n in m'
    requires Same(m, m', Nodes(t) - {t.n})
    requires u == T(t.l, x, false, T(Leaf, t.n, t.red, t.r)) || u == T(T(t.l, t.n, t.red, Leaf), x, false, t.r)
    requires m'[x].left == RootOf(u.l) && m'[x].right == RootOf(u.r)
    requires u.l == t.l ==> m'[t.n].left == null && m'[t.n].right == RootOf(t.r)
    requires u.r == t.r ==> m'[t.n].right == null && m'[t.n].left == RootOf(t.l)
    ensures SRep(m', u) && Disjoint(u) && Nodes(u) == Nodes(t) + {x}
  {
    RootInsertDisjoint(t, u, x);
    SRepFrame(m, m', t.l);
    SRepFrame(m, m', t.r);
    hide Disjoint;
    hide Nodes;
    if u.l == t.l {
      assert SRep(m', T(Leaf, t.n, t.red, t.r));
    } else {
      assert SRep(m', T(t.l, t.n, t.red, Leaf));
    }
  }

  lemma LinkLeftWhole(hdr: Node, lc: Ctx, t: Tree, rc: Ctx)
    requires t.T?
    ensures Whole(lc, t.l, InL(t.n, t.red, t.r, rc)) == Whole(lc, t, rc)
    ensures AllNodes(hdr, lc, t.l, InL(t.n, t.red, t.r, rc)) == AllNodes(hdr, lc, t, rc)
  {
    Regroup(Before(lc), Inorder(t.l), [t.n], Inorder(t.r), After(rc));
  }

  lemma LinkRightWhole(hdr: Node, lc: Ctx, t: Tree, rc: Ctx)
    requires t.T?
    ensures Whole(InR(t.l, t.n, t.red, lc), t.r, rc) == Whole(lc, t, rc)
    ensures AllNodes(hdr, InR(t.l, t.n, t.red, lc), t.r, rc) == AllNodes(hdr, lc, t, rc)
  {
    Regroup(Before(lc), Inorder(t.l), [t.n], Inorder(t.r), After(rc));
  }
}
