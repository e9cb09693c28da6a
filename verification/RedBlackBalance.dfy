/**
 The balance conditions of a red-black tree (compat/tree.h:46-54) on tree values and on
 contexts, and what each rebalancing case does to them.
 */
module RedBlackBalance {
  import opened TreeShape
  import opened RedBlackLinks

  ghost predicate IsRed(t: Tree) { t.T? && t.red }

  /** The number of black nodes on the leftmost path; on every path when `Balanced`. */
  ghost function BlackHeight(t: Tree): nat {
    match t
    case Leaf => 0
    case T(l, _, red, _) => BlackHeight(l) + if red then 0 else 1
  }

  ghost predicate Balanced(t: Tree) {
    match t
    case Leaf => true
    case T(l, _, _, r) => Balanced(l) && Balanced(r) && BlackHeight(l) == BlackHeight(r)
  }

  ghost predicate NoRedRed(t: Tree) {
    match t
    case Leaf => true
    case T(l, _, red, r) => NoRedRed(l) && NoRedRed(r) && (red ==> !IsRed(l) && !IsRed(r))
  }

  ghost predicate RedBlack(t: Tree) {
    Balanced(t) && NoRedRed(t) && !IsRed(t)
  }

  /** A subtree of black height `h` in the hole leaves every path with the same black count. */
  ghost predicate HoleBalanced(c: Ctx, h: nat) {
    match c
    case Top => true
    case InL(_, red, r, up) => Balanced(r) && BlackHeight(r) == h && HoleBalanced(up, if red then h else h + 1)
    case InR(l, _, red, up) => Balanced(l) && BlackHeight(l) == h && HoleBalanced(up, if red then h else h + 1)
  }

  ghost predicate HoleNoRedRed(c: Ctx, holeRed: bool) {
    match c
    case Top => true
    case InL(_, red, r, up) => NoRedRed(r) && (red ==> !holeRed && !IsRed(r)) && HoleNoRedRed(up, red)
    case InR(l, _, red, up) => NoRedRed(l) && (red ==> !holeRed && !IsRed(l)) && HoleNoRedRed(up, red)
  }

  ghost predicate BlackTop(c: Ctx) {
    c != Top ==> if c.up == Top then !c.red else BlackTop(c.up)
  }

  lemma {:induction false} PlugRedBlack(c: Ctx, t: Tree)
    ensures Balanced(Plug(c, t)) <==> Balanced(t) && HoleBalanced(c, BlackHeight(t))
    ensures NoRedRed(Plug(c, t)) <==> NoRedRed(t) && HoleNoRedRed(c, IsRed(t))
    ensures IsRed(Plug(c, t)) <==> if c == Top then IsRed(t) else !BlackTop(c)
    decreases c
  {
    if c != Top {
      PlugRedBlack(c.up, Fill(c, t));
    }
  }

  // ---------- insertion ----------

  /** Only the red root of `t` and its parent may both be red. */
  ghost predicate Grown(c: Ctx, t: Tree) {
    IsRed(t) && Balanced(t) && NoRedRed(t) &&
    HoleBalanced(c, BlackHeight(t)) && HoleNoRedRed(c, false) && BlackTop(c)
  }

  ghost function Painted(t: Tree, red: bool): Tree {
    if t.T? then t.(red := red) else Leaf
  }

  lemma GrownGrandparent(c: Ctx, t: Tree)
    requires Grown(c, t) && c != Top && c.red
    ensures c.up != Top && !c.up.red
  {
    assert HoleNoRedRed(c.up, true);
  }

  /** Red uncle: recolouring moves the violation two levels up. */
  lemma GrownRecolour(c: Ctx, t: Tree)
    requires Grown(c, t) && c != Top && c.red && c.up != Top
    ensures c.up.InL? && IsRed(c.up.r) ==>
              Grown(c.up.up, T(Painted(Fill(c, t), false), c.up.n, true, Painted(c.up.r, false)))
    ensures c.up.InR? && IsRed(c.up.l) ==>
              Grown(c.up.up, T(Painted(c.up.l, false), c.up.n, true, Painted(Fill(c, t), false)))
  {
    var h := BlackHeight(t);
    assert HoleBalanced(c.up, h) && HoleNoRedRed(c.up, true) && BlackTop(c.up);
    assert Balanced(Painted(Fill(c, t), false)) && NoRedRed(Painted(Fill(c, t), false));
    assert HoleBalanced(c.up.up, h + 1) && HoleNoRedRed(c.up.up, false);
  }

  /** Inner grandchild: rotating at the parent exchanges parent and child. */
  lemma GrownInner(c: Ctx, t: Tree)
    requires Grown(c, t) && c != Top && c.red
    ensures c.InR? ==> Grown(InL(t.n, true, t.r, c.up), T(c.l, c.n, true, t.l))
    ensures c.InL? ==> Grown(InR(t.l, t.n, true, c.up), T(t.r, c.n, true, c.r))
  {
    assert HoleBalanced(c.up, BlackHeight(t)) && HoleNoRedRed(c.up, true);
  }

  /** Outer grandchild with a black uncle: one rotation at the grandparent ends the repair. */
  lemma GrownOuter(c: Ctx, t: Tree)
    requires Grown(c, t) && c != Top && c.red && c.up != Top
    ensures c.InL? && c.up.InL? && !IsRed(c.up.r) ==>
              Grown(InL(c.n, false, T(c.r, c.up.n, true, c.up.r), c.up.up), t)
    ensures c.InR? && c.up.InR? && !IsRed(c.up.l) ==>
              Grown(InR(T(c.up.l, c.up.n, true, c.l), c.n, false, c.up.up), t)
  {
    var h := BlackHeight(t);
    assert HoleBalanced(c.up, h) && HoleNoRedRed(c.up, true) && BlackTop(c.up);
    assert HoleBalanced(c.up.up, h + 1) && HoleNoRedRed(c.up.up, false);
  }

  /** When the loop stops, blackening the root leaves a red-black tree. */
  lemma GrownDone(c: Ctx, t: Tree)
    requires Grown(c, t) && (c != Top ==> !c.red)
    ensures RedBlack(Painted(Plug(c, t), false))
  {
    if c != Top {
      PlugRedBlack(c, t);
      assert HoleNoRedRed(c, true);
      assert Painted(Plug(c, t), false) == Plug(c, t);
    }
  }

  // ---------- removal ----------

  /** The hole needs one more black node than `t` has; a red root of `t` will be blackened. */
  ghost predicate Short(c: Ctx, t: Tree) {
    Balanced(t) && NoRedRed(Painted(t, false)) &&
    HoleBalanced(c, BlackHeight(t) + 1) && HoleNoRedRed(c, false) && BlackTop(c)
  }

  ghost function Sibling(c: Ctx): Tree
    requires c != Top
  {
    if c.InL? then c.r else c.l
  }

  /** The sibling that RB_REMOVE_COLOR dereferences without a test is never null. */
  lemma SiblingExists(c: Ctx, t: Tree)
    requires Short(c, t) && c != Top
    ensures Sibling(c).T?
    ensures IsRed(Sibling(c)) ==> Sibling(c).l.T? && Sibling(c).r.T? && !c.red
  {
  }

  /** Red sibling: rotating it up leaves the same shortage below a red parent with a black sibling. */
  lemma ShortRedSibling(c: Ctx, t: Tree)
    requires Short(c, t) && c != Top && IsRed(Sibling(c))
    ensures c.InL? ==> !IsRed(c.r.l) && Short(InL(c.n, true, c.r.l, InL(c.r.n, false, c.r.r, c.up)), t)
    ensures c.InR? ==> !IsRed(c.l.r) && Short(InR(c.l.r, c.n, true, InR(c.l.l, c.l.n, false, c.up)), t)
  {
    assert HoleBalanced(c.up, BlackHeight(t) + 2) && HoleNoRedRed(c.up, false);
  }

  lemma HoleWeaken(c: Ctx, red: bool)
    requires HoleNoRedRed(c, red)
    ensures HoleNoRedRed(c, false)
  {
  }

  /** Black sibling with two black children: reddening it moves the shortage to the parent. */
  lemma ShortBlackNephews(c: Ctx, t: Tree)
    requires Short(c, t) && c != Top && !IsRed(t) && Sibling(c).T? && !IsRed(Sibling(c))
    requires !IsRed(Sibling(c).l) && !IsRed(Sibling(c).r)
    ensures c.InL? ==> Short(c.up, T(t, c.n, c.red, Painted(c.r, true)))
    ensures c.InR? ==> Short(c.up, T(Painted(c.l, true), c.n, c.red, t))
  {
    HoleWeaken(c.up, c.red);
  }

  /** Red near nephew: rotating at the sibling makes the far nephew red. */
  lemma ShortNearNephew(c: Ctx, t: Tree)
    requires Short(c, t) && c != Top && Sibling(c).T? && !IsRed(Sibling(c))
    ensures c.InL? && IsRed(c.r.l) && !IsRed(c.r.r) ==>
      var s := c.r;
      Short(InL(c.n, c.red, T(s.l.l, s.l.n, false, T(s.l.r, s.n, true, s.r)), c.up), t)
    ensures c.InR? && IsRed(c.l.r) && !IsRed(c.l.l) ==>
      var s := c.l;
      Short(InR(T(T(s.l, s.n, true, s.r.l), s.r.n, false, s.r.r), c.n, c.red, c.up), t)
  {
    assert c.InL? ==> Balanced(c.r.l) && NoRedRed(c.r.l);
    assert c.InR? ==> Balanced(c.l.r) && NoRedRed(c.l.r);
  }

  /** Red far nephew: one rotation at the parent supplies the missing black node. */
  lemma ShortFarNephew(c: Ctx, t: Tree)
    requires Short(c, t) && c != Top && !IsRed(t) && Sibling(c).T? && !IsRed(Sibling(c))
    ensures c.InL? && IsRed(c.r.r) ==>
      RedBlack(Plug(c.up, T(T(t, c.n, false, c.r.l), c.r.n, c.red, Painted(c.r.r, false))))
    ensures c.InR? && IsRed(c.l.l) ==>
      RedBlack(Plug(c.up, T(Painted(c.l.l, false), c.l.n, c.red, T(c.l.r, c.n, false, t))))
  {
    assert Painted(t, false) == t;
    if c.InL? && IsRed(c.r.r) {
      var a, d := T(t, c.n, false, c.r.l), Painted(c.r.r, false);
      assert Balanced(c.r.l) && Balanced(c.r.r) && NoRedRed(c.r.l) && NoRedRed(c.r.r);
      assert Balanced(a) && Balanced(d) && NoRedRed(a) && NoRedRed(d);
      PlugRedBlack(c.up, T(a, c.r.n, c.red, d));
    } else if c.InR? && IsRed(c.l.l) {
      var a, d := Painted(c.l.l, false), T(c.l.r, c.n, false, t);
      assert Balanced(c.l.l) && Balanced(c.l.r) && NoRedRed(c.l.l) && NoRedRed(c.l.r);
      assert Balanced(a) && Balanced(d) && NoRedRed(a) && NoRedRed(d);
      PlugRedBlack(c.up, T(a, c.l.n, c.red, d));
    }
  }

  /** When the loop stops at a red node or at the root, blackening it leaves a red-black tree. */
  lemma ShortDone(c: Ctx, t: Tree)
    requires Short(c, t) && (c == Top || IsRed(t))
    ensures RedBlack(Plug(c, Painted(t, false)))
  {
    PlugRedBlack(c, Painted(t, false));
  }

  /** Splicing out a node with at most one child: harmless if it was red, one black short if not. */
  lemma SpliceBalance(c: Ctx, t: Tree, u: Tree)
    requires RedBlack(Plug(c, t)) && t.T? && ((t.l == Leaf && u == t.r) || (t.r == Leaf && u == t.l))
    ensures if t.red then RedBlack(Plug(c, u)) else Short(c, u)
  {
    hide Plug;
    hide HoleBalanced;
    hide HoleNoRedRed;
    PlugRedBlack(c, t);
    PlugRedBlack(c, u);
    HoleWeaken(c, t.red);
  }

  /** The balance conditions do not depend on which node sits in a frame. */
  lemma {:induction false} SwapHole(c: Ctx, d: Ctx, d': Ctx, h: nat, holeRed: bool)
    requires d.InR? && d'.InR? && d.l == d'.l && d.red == d'.red && d.up == d'.up
    ensures HoleBalanced(Append(c, d), h) <==> HoleBalanced(Append(c, d'), h)
    ensures HoleNoRedRed(Append(c, d), holeRed) <==> HoleNoRedRed(Append(c, d'), holeRed)
    ensures BlackTop(Append(c, d)) <==> BlackTop(Append(c, d'))
    decreases c
  {
    if c != Top {
      SwapHole(c.up, d, d', if c.red then h else h + 1, c.red);
      assert Append(c.up, d) != Top && Append(c.up, d') != Top;
    }
  }

  lemma SwapFrame(c: Ctx, d: Ctx, d': Ctx, t: Tree)
    requires d.InR? && d'.InR? && d.l == d'.l && d.red == d'.red && d.up == d'.up
    ensures Short(Append(c, d), t) ==> Short(Append(c, d'), t)
    ensures RedBlack(Plug(Append(c, d), t)) ==> RedBlack(Plug(Append(c, d'), t))
  {
    SwapHole(c, d, d', BlackHeight(t) + 1, false);
    SwapHole(c, d, d', BlackHeight(t), IsRed(t));
    PlugRedBlack(Append(c, d), t);
    PlugRedBlack(Append(c, d'), t);
    assert c == Top ==> Append(c, d) == d && Append(c, d') == d';
  }
}
