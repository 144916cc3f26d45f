/** RB_REMOVE_COLOR and RB_REMOVE of include/tree.h on tree values.
    While the fix-up loop runs, every path through one node is one black node short and
    nothing else is wrong: that is `DelInv`. Each branch of the loop gets a lemma saying where
    the shortage is afterwards, for one side; the other side follows by reflection.
    The rest shows that taking a node out leaves such a shortage and no other damage. */
module RedBlackRemove {
  import opened RedBlackModel

  /** The paths through `x`, a child of `p`, are one black node short. */
  ghost predicate Deficit(g: Graph, x: RBNode?, p: RBNode)
    requires p in g
  {
    var s := Sibling(g, x, p);
    && (g[p].left == x || g[p].right == x)
    && 0 <= Bh(g, x) && Bh(g, s) == Bh(g, x) + 1 && g[p].bh == Bh(g, s) + Own(g[p].red)
  }

  ghost function Sibling(g: Graph, x: RBNode?, p: RBNode): RBNode?
    requires p in g
  {
    if g[p].left == x then g[p].right else g[p].left
  }

  /** Balanced except at `p`; coloured except at and right below `x`. */
  ghost predicate DelNode(g: Graph, n: RBNode, x: RBNode?, p: RBNode?)
    requires n in g && LinkOk(g, n)
  {
    && (n == p || BalOk(g, n))
    && (ColOk(g, n) || n == x || (x != null && g[n].parent == x))
  }

  ghost predicate DelInv(t: Tree, x: RBNode?, p: RBNode?) {
    && Shape(t) && (x == null || x in t.g)
    && (forall n {:trigger DelNode(t.g, n, x, p)} | n in t.g :: NodeOk(t, n) && DelNode(t.g, n, x, p))
    && (if p == null then x == t.root else p in t.g && Deficit(t.g, x, p))
    && (t.root != x ==> !IsRed(t.g, t.root))
  }

  lemma DelAt(t: Tree, x: RBNode?, p: RBNode?, n: RBNode)
    requires DelInv(t, x, p) && n in t.g
    ensures NodeOk(t, n) && LinkOk(t.g, n) && DelNode(t.g, n, x, p)
  {
  }

  lemma MirrorDelInv(t: Tree, x: RBNode?, p: RBNode?)
    requires DelInv(t, x, p)
    ensures DelInv(Mirror(t), x, p)
  {
    hide NodeOk, Shape;
    MirrorShape(t);
    var m := Mirror(t);
    forall n | n in m.g
      ensures NodeOk(m, n) && LinkOk(m.g, n) && DelNode(m.g, n, x, p)
    {
      DelAt(t, x, p, n);
      MirrorNode(t, n);
      ShapeAt(m, n);
    }
    if p != null {
      MirrorDeficit(t, x, p);
    }
    MirrorRed(t, t.root);
  }

  lemma MirrorRed(t: Tree, n: RBNode?)
    ensures IsRed(Mirror(t).g, n) == IsRed(t.g, n)
  {
  }

  lemma MirrorDeficit(t: Tree, x: RBNode?, p: RBNode)
    requires p in t.g && Deficit(t.g, x, p)
    ensures p in Mirror(t).g && Deficit(Mirror(t).g, x, p)
  {
  }

  /** While the loop runs: `x` is black, and so is everything it needs to be. */
  lemma Running(t: Tree, x: RBNode?, p: RBNode, n: RBNode)
    requires DelInv(t, x, p) && !IsRed(t.g, x) && n in t.g
    ensures NodeOk(t, n) && LinkOk(t.g, n) && ColOk(t.g, n) && (n != p ==> BalOk(t.g, n))
  {
    DelAt(t, x, p, n);
  }

  /** The sibling exists, hangs under `p`, and is another node. */
  lemma SiblingFacts(t: Tree, x: RBNode?, p: RBNode)
    requires DelInv(t, x, p)
    ensures p in t.g
    ensures var s := Sibling(t.g, x, p);
            && s != null && s in t.g && s != x && s != p && x != p && t.g[s].parent == p && Apart(t.g, p, s)
            && (x != null ==> x in t.g && t.g[x].parent == p)
            && (t.g[p].left == x <==> t.g[p].right == s) && (t.g[p].left == s <==> t.g[p].right == x)
            && t.root != x && t.root != s
  {
    DelAt(t, x, p, p);
    var s := Sibling(t.g, x, p);
    if s == null {
    } else {
      Near(t, p, s);
    }
    if x != null {
      Near(t, p, x);
    }
  }

  /** A red sibling on the right: after the rotation the new sibling is black and
      `p` is red. */
  lemma RedSibling(t: Tree, x: RBNode?, p: RBNode, s: RBNode)
    requires DelInv(t, x, p) && !IsRed(t.g, x) && t.g[p].left == x && t.g[p].right == s && s in t.g && t.g[s].red
    ensures p in t.g && Settle(t, s, p).g[p].right == s && Shape(Settle(t, s, p))
    ensures var r := RotL(Settle(t, s, p), p);
            DelInv(r, x, p) && r.g[p].left == x && r.g[p].red && !IsRed(r.g, r.g[p].right)
  {
    hide NodeOk, DelNode, Shape, Deficit;
    SiblingFacts(t, x, p);
    var m := Settle(t, s, p);
    Running(t, x, p, p);
    Running(t, x, p, s);
    RedSiblingLinks(t, p, s);
    DelShape(t, x, p);
    RepaintedShape(t, m);
    RotLShape(m, p);
    var r := RotL(m, p);
    forall n | n in r.g
      ensures NodeOk(r, n) && LinkOk(r.g, n) && DelNode(r.g, n, x, p)
    {
      Running(t, x, p, n);
      ShapeAt(r, n);
      RedSiblingNode(t, x, p, s, n);
    }
    if t.g[s].left != null {
      Running(t, x, p, t.g[s].left);
    }
    RedSiblingDeficit(t, x, p, s);
  }

  lemma DelShape(t: Tree, x: RBNode?, p: RBNode?)
    requires DelInv(t, x, p)
    ensures Shape(t)
  {
  }

  lemma RedSiblingLinks(t: Tree, p: RBNode, s: RBNode)
    requires p in t.g && s in t.g && p != s && t.g[p].right == s && LinkOk(t.g, s)
    ensures Repainted(t, Settle(t, s, p)) && Settle(t, s, p).g[p].right == s
  {
  }

  lemma RedSiblingNode(t: Tree, x: RBNode?, p: RBNode, s: RBNode, n: RBNode)
    requires p in t.g && s in t.g && n in t.g && t.g[p].right == s && t.g[s].parent == p && t.g[s].red
    requires Apart(t.g, p, s) && (x != null ==> x in t.g && t.g[x].parent == p && x != p && x != s)
    requires LinkOk(t.g, n) && ColOk(t.g, n) && (n != p ==> BalOk(t.g, n))
    requires LinkOk(t.g, p) && ColOk(t.g, p) && LinkOk(t.g, s) && BalOk(t.g, s) && ColOk(t.g, s)
    requires Deficit(t.g, x, p) && t.g[p].left == x && !IsRed(t.g, x)
    requires LinkOk(RotL(Settle(t, s, p), p).g, n)
    ensures DelNode(RotL(Settle(t, s, p), p).g, n, x, p)
  {
  }

  lemma RedSiblingDeficit(t: Tree, x: RBNode?, p: RBNode, s: RBNode)
    requires p in t.g && s in t.g && t.g[p].right == s && t.g[s].parent == p && t.g[s].red
    requires Apart(t.g, p, s) && (x != null ==> x in t.g && t.g[x].parent == p && x != p && x != s)
    requires LinkOk(t.g, s) && BalOk(t.g, s) && LinkOk(t.g, p) && ColOk(t.g, s) && ColOk(t.g, p)
    requires !IsRed(t.g, t.g[s].left)
    requires Deficit(t.g, x, p) && t.g[p].left == x && !IsRed(t.g, x)
    ensures var r := RotL(Settle(t, s, p), p);
            Deficit(r.g, x, p) && r.g[p].left == x && r.g[p].red && !IsRed(r.g, r.g[p].right)
  {
  }

  /** Both nephews black: the sibling turns red and the shortage moves up to `p`. */
  ghost function Lower(t: Tree, s: RBNode, p: RBNode): Tree
    requires s in t.g && p in t.g
  {
    Paint(Paint(t, s, true, t.g[s].bh - 1), p, t.g[p].red, t.g[p].bh - 1)
  }

  lemma BlackNephews(t: Tree, x: RBNode?, p: RBNode, s: RBNode)
    requires DelInv(t, x, p) && !IsRed(t.g, x) && p in t.g && Sibling(t.g, x, p) == s && s in t.g && !t.g[s].red
    requires !IsRed(t.g, t.g[s].left) && !IsRed(t.g, t.g[s].right)
    ensures DelInv(Lower(t, s, p), p, t.g[p].parent)
  {
    hide NodeOk, DelNode, Shape, Deficit, Sibling;
    SiblingFacts(t, x, p);
    var r := Lower(t, s, p);
    DelShape(t, x, p);
    assert Repainted(t, r);
    RepaintedShape(t, r);
    Running(t, x, p, s);
    DelDeficit(t, x, p);
    var q := t.g[p].parent;
    forall n | n in r.g
      ensures NodeOk(r, n) && LinkOk(r.g, n) && DelNode(r.g, n, p, q)
    {
      Running(t, x, p, n);
      ShapeAt(r, n);
      LowerNode(t, x, p, s, n);
    }
    ParentFacts(t, p);
    if q != null {
      Running(t, x, p, q);
    }
    LowerDeficit(t, x, p, s);
  }

  lemma DelDeficit(t: Tree, x: RBNode?, p: RBNode)
    requires DelInv(t, x, p)
    ensures p in t.g && Deficit(t.g, x, p)
  {
  }

  lemma ParentFacts(t: Tree, p: RBNode)
    requires Shape(t) && p in t.g
    ensures var q := t.g[p].parent;
            && (q == null <==> p == t.root)
            && (q != null ==> q in t.g && Apart(t.g, q, p) && (t.g[q].left == p <==> t.g[q].right != p))
  {
    ShapeAt(t, p);
    var q := t.g[p].parent;
    if q != null {
      Near(t, q, p);
    }
  }

  lemma LowerNode(t: Tree, x: RBNode?, p: RBNode, s: RBNode, n: RBNode)
    requires p in t.g && s in t.g && n in t.g && t.g[s].parent == p && p != s && Sibling(t.g, x, p) == s
    requires (t.g[p].left == x <==> t.g[p].right == s) && (t.g[p].left == s <==> t.g[p].right == x)
    requires x != p && x != s && Apart(t.g, p, s)
    requires LinkOk(t.g, n) && ColOk(t.g, n) && (n != p ==> BalOk(t.g, n)) && LinkOk(t.g, s) && BalOk(t.g, s)
    requires Deficit(t.g, x, p) && !t.g[s].red && !IsRed(t.g, t.g[s].left) && !IsRed(t.g, t.g[s].right)
    requires LinkOk(Lower(t, s, p).g, n)
    ensures DelNode(Lower(t, s, p).g, n, p, t.g[p].parent)
  {
  }

  lemma LowerDeficit(t: Tree, x: RBNode?, p: RBNode, s: RBNode)
    requires p in t.g && s in t.g && p != s && Deficit(t.g, x, p) && Sibling(t.g, x, p) == s
    requires var q := t.g[p].parent;
             && (q == null <==> p == t.root) && q != s
             && (q != null ==> q in t.g && q != p && (t.g[q].left == p <==> t.g[q].right != p)
                               && LinkOk(t.g, q) && BalOk(t.g, q) && t.g[q].left != s && t.g[q].right != s)
    ensures var q := t.g[p].parent;
            if q == null then p == Lower(t, s, p).root else q in Lower(t, s, p).g && Deficit(Lower(t, s, p).g, p, q)
  {
  }

  /** Only the inner nephew red, the sibling on the right: a rotation at the sibling
      makes the outer nephew of the new sibling red. */
  lemma InnerNephew(t: Tree, x: RBNode?, p: RBNode, s: RBNode, l: RBNode)
    requires DelInv(t, x, p) && !IsRed(t.g, x) && p in t.g && t.g[p].left == x && t.g[p].right == s && s in t.g
    requires !t.g[s].red && t.g[s].left == l && l in t.g && t.g[l].red && !IsRed(t.g, t.g[s].right)
    ensures Shape(Settle(t, l, s)) && Settle(t, l, s).g[s].left == l
    ensures var r := RotR(Settle(t, l, s), s);
            && DelInv(r, x, p) && r.g[p].left == x && r.g[p].right == l && !r.g[l].red
            && r.g[l].right == s && r.g[s].red
  {
    hide NodeOk, DelNode, Shape, Deficit;
    SiblingFacts(t, x, p);
    var m := Settle(t, l, s);
    DelShape(t, x, p);
    Running(t, x, p, s);
    Running(t, x, p, l);
    Near(t, s, l);
    assert Repainted(t, m);
    RepaintedShape(t, m);
    RotRShape(m, s);
    var r := RotR(m, s);
    DelDeficit(t, x, p);
    forall n | n in r.g
      ensures NodeOk(r, n) && LinkOk(r.g, n) && DelNode(r.g, n, x, p)
    {
      Running(t, x, p, n);
      ShapeAt(r, n);
      InnerNephewNode(t, x, p, s, l, n);
    }
    InnerNephewDeficit(t, x, p, s, l);
  }

  lemma InnerNephewNode(t: Tree, x: RBNode?, p: RBNode, s: RBNode, l: RBNode, n: RBNode)
    requires p in t.g && s in t.g && l in t.g && n in t.g && t.g[p].left == x && t.g[p].right == s && t.g[s].parent == p
    requires t.g[s].left == l && t.g[l].parent == s && !t.g[s].red && t.g[l].red && !IsRed(t.g, t.g[s].right)
    requires Apart(t.g, p, s) && Apart(t.g, s, l)
    requires LinkOk(t.g, n) && ColOk(t.g, n) && (n != p ==> BalOk(t.g, n))
    requires LinkOk(t.g, s) && BalOk(t.g, s) && LinkOk(t.g, l) && BalOk(t.g, l)
    requires LinkOk(RotR(Settle(t, l, s), s).g, n)
    ensures DelNode(RotR(Settle(t, l, s), s).g, n, x, p)
  {
  }

  lemma InnerNephewDeficit(t: Tree, x: RBNode?, p: RBNode, s: RBNode, l: RBNode)
    requires p in t.g && s in t.g && l in t.g && t.g[p].left == x && t.g[p].right == s && t.g[s].parent == p
    requires t.g[s].left == l && t.g[l].parent == s && !t.g[s].red && t.g[l].red
    requires Apart(t.g, p, s) && Apart(t.g, s, l) && x != p && x != s && (x != null ==> x in t.g && t.g[x].parent == p)
    requires LinkOk(t.g, s) && BalOk(t.g, s) && LinkOk(t.g, l) && BalOk(t.g, l)
    requires Deficit(t.g, x, p)
    ensures var r := RotR(Settle(t, l, s), s);
            && Deficit(r.g, x, p) && r.g[p].left == x && r.g[p].right == l && !r.g[l].red
            && r.g[l].right == s && r.g[s].red
  {
  }

  /** The outer nephew red, the sibling on the right: repaint, rotate at `p`, done. */
  ghost function Repay(t: Tree, p: RBNode, s: RBNode, o: RBNode): Tree
    requires p in t.g && s in t.g && o in t.g
  {
    Paint(Paint(Paint(t, s, t.g[p].red, t.g[p].bh), p, false, t.g[s].bh), o, false, t.g[o].bh + 1)
  }

  lemma OuterNephew(t: Tree, x: RBNode?, p: RBNode, s: RBNode, o: RBNode)
    requires DelInv(t, x, p) && !IsRed(t.g, x) && p in t.g && t.g[p].left == x && t.g[p].right == s && s in t.g
    requires !t.g[s].red && t.g[s].right == o && o in t.g && t.g[o].red
    ensures Shape(Repay(t, p, s, o)) && Repay(t, p, s, o).g[p].right == s
    ensures var r := RotL(Repay(t, p, s, o), p); DelInv(r, r.root, null)
  {
    hide NodeOk, DelNode, Shape, Deficit;
    SiblingFacts(t, x, p);
    var m := Repay(t, p, s, o);
    DelShape(t, x, p);
    Running(t, x, p, p);
    Running(t, x, p, s);
    Running(t, x, p, o);
    Near(t, s, o);
    assert Repainted(t, m);
    RepaintedShape(t, m);
    RotLShape(m, p);
    var r := RotL(m, p);
    DelDeficit(t, x, p);
    forall n | n in r.g
      ensures NodeOk(r, n) && LinkOk(r.g, n) && DelNode(r.g, n, r.root, null)
    {
      Running(t, x, p, n);
      ShapeAt(r, n);
      OuterNephewNode(t, x, p, s, o, n);
    }
    RootIn(r, p);
  }

  lemma RootIn(t: Tree, n: RBNode)
    requires Shape(t) && n in t.g
    ensures t.root in t.g
  {
    ShapeAt(t, n);
  }

  /** What is around `p`, with the missing black on its left and the red nephew on the outside. */
  ghost predicate Repayable(t: Tree, x: RBNode?, p: RBNode, s: RBNode, o: RBNode) {
    && p in t.g && s in t.g && o in t.g && t.g[p].left == x && t.g[p].right == s && t.g[s].parent == p
    && t.g[s].right == o && t.g[o].parent == s && !t.g[s].red && t.g[o].red
    && Apart(t.g, p, s) && Apart(t.g, s, o) && x != p && x != s && (x != null ==> x in t.g && t.g[x].parent == p)
    && LinkOk(t.g, s) && BalOk(t.g, s) && LinkOk(t.g, o) && BalOk(t.g, o) && LinkOk(t.g, p) && ColOk(t.g, p)
    && Deficit(t.g, x, p) && !IsRed(t.g, x)
  }

  /** A node of that tree, well linked before and after. */
  ghost predicate RepayNode(t: Tree, p: RBNode, s: RBNode, o: RBNode, n: RBNode)
    requires p in t.g && s in t.g && o in t.g && t.g[p].right == s
  {
    && n in t.g && LinkOk(t.g, n) && ColOk(t.g, n) && (n != p ==> BalOk(t.g, n))
    && LinkOk(RotL(Repay(t, p, s, o), p).g, n)
  }

  lemma OuterNephewNode(t: Tree, x: RBNode?, p: RBNode, s: RBNode, o: RBNode, n: RBNode)
    requires Repayable(t, x, p, s, o) && RepayNode(t, p, s, o, n)
    ensures DelNode(RotL(Repay(t, p, s, o), p).g, n, RotL(Repay(t, p, s, o), p).root, null)
  {
    OuterNephewBal(t, x, p, s, o, n);
    OuterNephewCol(t, x, p, s, o, n);
    hide BalOk, ColOk, RotL, Repay;
  }

  lemma OuterNephewBal(t: Tree, x: RBNode?, p: RBNode, s: RBNode, o: RBNode, n: RBNode)
    requires Repayable(t, x, p, s, o) && RepayNode(t, p, s, o, n)
    ensures BalOk(RotL(Repay(t, p, s, o), p).g, n)
  {
    hide ColOk, IsRed;
    if n == p || n == s || n == o {
      OuterNephewBalMoved(t, x, p, s, o, n);
    } else {
      OuterNephewBalOther(t, x, p, s, o, n);
    }
  }

  lemma OuterNephewBalMoved(t: Tree, x: RBNode?, p: RBNode, s: RBNode, o: RBNode, n: RBNode)
    requires Repayable(t, x, p, s, o) && RepayNode(t, p, s, o, n)
    requires n == p || n == s || n == o
    ensures BalOk(RotL(Repay(t, p, s, o), p).g, n)
  {
    hide ColOk, IsRed;
  }

  lemma OuterNephewBalOther(t: Tree, x: RBNode?, p: RBNode, s: RBNode, o: RBNode, n: RBNode)
    requires Repayable(t, x, p, s, o) && RepayNode(t, p, s, o, n)
    requires n != p && n != s && n != o
    ensures BalOk(RotL(Repay(t, p, s, o), p).g, n)
  {
    hide ColOk, IsRed;
  }

  lemma OuterNephewCol(t: Tree, x: RBNode?, p: RBNode, s: RBNode, o: RBNode, n: RBNode)
    requires Repayable(t, x, p, s, o) && RepayNode(t, p, s, o, n)
    ensures ColOk(RotL(Repay(t, p, s, o), p).g, n)
  {
    hide BalOk, Deficit;
  }

  /** The loop has ended: painting `x`, if there is one, black leaves a red-black tree. */
  lemma Finish(t: Tree, x: RBNode?, p: RBNode?, bh: int)
    requires DelInv(t, x, p) && Sorted(t.nodes) && (p == null || IsRed(t.g, x))
    requires x != null ==> bh == t.g[x].bh + (1 - Own(t.g[x].red))
    ensures Valid(if x == null then t else Paint(t, x, false, bh))
  {
    hide NodeOk, SpanOk;
    DelShape(t, x, p);
    if x == null {
      NoNodes(t);
    } else {
      var r := Paint(t, x, false, bh);
      assert Repainted(t, r);
      RepaintedShape(t, r);
      forall n | n in r.g
        ensures NodeOk(r, n) && LinkOk(r.g, n) && Good(r.g, n)
      {
        DelAt(t, x, p, n);
        DelAt(t, x, p, x);
        ShapeAt(r, n);
        if p != null {
          SiblingFacts(t, x, p);
        }
        FinishNode(t, x, p, bh, n);
      }
    }
  }

  lemma NoNodes(t: Tree)
    requires Shape(t) && t.root == null
    ensures t.g.Keys == {}
  {
  }

  lemma FinishNode(t: Tree, x: RBNode, p: RBNode?, bh: int, n: RBNode)
    requires x in t.g && n in t.g && LinkOk(t.g, n) && LinkOk(t.g, x) && DelNode(t.g, n, x, p) && DelNode(t.g, x, x, p)
    requires if p == null then t.g[x].parent == null else p in t.g && Deficit(t.g, x, p) && IsRed(t.g, x) && x != p
    requires p != null ==> t.g[x].parent == p && (t.g[p].left == x <==> t.g[p].right != x)
    requires bh == t.g[x].bh + (1 - Own(t.g[x].red))
    requires LinkOk(Paint(t, x, false, bh).g, n)
    ensures Good(Paint(t, x, false, bh).g, n)
  {
  }

  /** The same cases with the sibling on the left. */
  lemma RedSiblingLeft(t: Tree, x: RBNode?, p: RBNode, s: RBNode)
    requires DelInv(t, x, p) && !IsRed(t.g, x) && t.g[p].right == x && t.g[p].left == s && s in t.g && t.g[s].red
    ensures p in t.g && Settle(t, s, p).g[p].left == s && Shape(Settle(t, s, p))
    ensures var r := RotR(Settle(t, s, p), p);
            DelInv(r, x, p) && r.g[p].right == x && r.g[p].red && !IsRed(r.g, r.g[p].left)
  {
    hide DelInv, RotL, Shape;
    DelDeficit(t, x, p);
    MirrorDelInv(t, x, p);
    MirrorRed(t, x);
    MirrorPaints(t, s, p);
    RedSibling(Mirror(t), x, p, s);
    var m := Settle(t, s, p);
    MirrorTwice(m);
    MirrorShape(Mirror(m));
    MirrorRotate(m, p);
    MirrorDelInv(RotL(Mirror(m), p), x, p);
    MirrorTwice(RotR(m, p));
    MirrorRed(RotR(m, p), RotR(m, p).g[p].left);
  }

  lemma InnerNephewLeft(t: Tree, x: RBNode?, p: RBNode, s: RBNode, l: RBNode)
    requires DelInv(t, x, p) && !IsRed(t.g, x) && p in t.g && t.g[p].right == x && t.g[p].left == s && s in t.g
    requires !t.g[s].red && t.g[s].right == l && l in t.g && t.g[l].red && !IsRed(t.g, t.g[s].left)
    ensures Shape(Settle(t, l, s)) && Settle(t, l, s).g[s].right == l
    ensures var r := RotL(Settle(t, l, s), s);
            && DelInv(r, x, p) && r.g[p].right == x && r.g[p].left == l && !r.g[l].red
            && r.g[l].left == s && r.g[s].red
  {
    hide DelInv, RotR, Shape;
    MirrorDelInv(t, x, p);
    MirrorRed(t, x);
    MirrorRed(t, t.g[s].left);
    MirrorPaints(t, l, s);
    InnerNephew(Mirror(t), x, p, s, l);
    var m := Settle(t, l, s);
    MirrorTwice(m);
    MirrorShape(Mirror(m));
    MirrorRotateBack(m, s);
    MirrorDelInv(RotR(Mirror(m), s), x, p);
  }

  lemma OuterNephewLeft(t: Tree, x: RBNode?, p: RBNode, s: RBNode, o: RBNode)
    requires DelInv(t, x, p) && !IsRed(t.g, x) && p in t.g && t.g[p].right == x && t.g[p].left == s && s in t.g
    requires !t.g[s].red && t.g[s].left == o && o in t.g && t.g[o].red
    ensures Shape(Repay(t, p, s, o)) && Repay(t, p, s, o).g[p].left == s
    ensures var r := RotR(Repay(t, p, s, o), p); DelInv(r, r.root, null)
  {
    hide DelInv, RotL, Shape;
    MirrorDelInv(t, x, p);
    MirrorRed(t, x);
    MirrorRepay(t, p, s, o);
    OuterNephew(Mirror(t), x, p, s, o);
    var m := Repay(t, p, s, o);
    MirrorTwice(m);
    MirrorShape(Mirror(m));
    MirrorRotate(m, p);
    MirrorDelInv(RotL(Mirror(m), p), RotL(Mirror(m), p).root, null);
    MirrorTwice(RotR(m, p));
  }

  lemma MirrorRepay(t: Tree, p: RBNode, s: RBNode, o: RBNode)
    requires p in t.g && s in t.g && o in t.g
    ensures p in Mirror(t).g && s in Mirror(t).g && o in Mirror(t).g
    ensures Repay(Mirror(t), p, s, o) == Mirror(Repay(t, p, s, o))
  {
    hide Paint, Mirror;
    var a := Paint(t, s, t.g[p].red, t.g[p].bh);
    MirrorPaint(t, s, t.g[p].red, t.g[p].bh);
    var b := Paint(a, p, false, t.g[s].bh);
    MirrorPaint(a, p, false, t.g[s].bh);
    MirrorPaint(b, o, false, t.g[o].bh + 1);
  }

  /** What is left of a node's place when the node at place `k` goes. */
  ghost function Closed(c: Cell, k: int): Cell {
    c.(pos := if c.pos > k then c.pos - 1 else c.pos,
       lo := if c.lo > k then c.lo - 1 else c.lo,
       hi := if c.hi > k then c.hi - 1 else c.hi)
  }

  /** `e` has at most one child. */
  ghost predicate Thin(g: Graph, e: RBNode)
    requires e in g
  {
    g[e].left == null || g[e].right == null
  }

  ghost function OnlyChild(g: Graph, e: RBNode): RBNode?
    requires e in g
  {
    if g[e].left == null then g[e].right else g[e].left
  }

  ghost function SpliceCell(g: Graph, e: RBNode, n: RBNode): Cell
    requires e in g && n in g
  {
    var c := Closed(g[n], g[e].pos);
    var d := OnlyChild(g, e);
    c.(left := Sub(c.left, e, d), right := Sub(c.right, e, d), parent := if n == d then g[e].parent else c.parent)
  }

  /** `ns` without its element at `k`. */
  function Without(ns: seq<RBNode>, k: int): seq<RBNode>
    requires 0 <= k < |ns|
  {
    ns[..k] + ns[k + 1..]
  }

  /** `t` without `e`, whose child, if any, takes its place. */
  ghost function Splice(t: Tree, e: RBNode): Tree
    requires e in t.g && 0 <= t.g[e].pos < |t.nodes|
  {
    var k := t.g[e].pos;
    Tree(map n | n in t.g.Keys - {e} :: SpliceCell(t.g, e, n),
         Sub(t.root, e, OnlyChild(t.g, e)),
         Without(t.nodes, k))
  }

  lemma SpliceLink(t: Tree, e: RBNode, n: RBNode)
    requires e in t.g && n in t.g && n != e && NodeOk(t, e) && NodeOk(t, n) && Thin(t.g, e)
    ensures LinkOk(Splice(t, e).g, n)
    ensures Splice(t, e).g[n].parent == null <==> n == Splice(t, e).root
  {
    hide SpanOk;
  }

  lemma SpliceSpan(t: Tree, e: RBNode, n: RBNode)
    requires e in t.g && n in t.g && n != e && NodeOk(t, e) && NodeOk(t, n) && Thin(t.g, e)
    requires OnlyChild(t.g, e) != null ==> OnlyChild(t.g, e) in t.g && NodeOk(t, OnlyChild(t.g, e))
    requires t.g[n].pos != t.g[e].pos
    requires LinkOk(Splice(t, e).g, n)
    ensures SpanOk(Splice(t, e).g, n)
  {
  }

  lemma SpliceShape(t: Tree, e: RBNode)
    requires Shape(t) && e in t.g && Thin(t.g, e)
    ensures 0 <= t.g[e].pos < |t.nodes| && Shape(Splice(t, e))
  {
    hide NodeOk, LinkOk, SpanOk, Splice;
    SplicePlaces(t, e);
    var r := Splice(t, e);
    var d := OnlyChild(t.g, e);
    ShapeAt(t, e);
    ChildIn(t, e);
    if d != null {
      ShapeAt(t, d);
    }
    SpliceKeys(t, e);
    forall n | n in r.g
      ensures NodeOk(r, n)
    {
      ShapeAt(t, n);
      OwnPlace(t, e, n);
      SpliceLink(t, e, n);
      SpliceSpan(t, e, n);
      SplicePos(t, e, n);
    }
    forall i | 0 <= i < |r.nodes|
      ensures PlaceOk(r, i)
    {
      var j := if i < t.g[e].pos then i else i + 1;
      assert PlaceOk(t, j);
      SplicePlace(t, e, i, j);
    }
    SpliceRoot(t, e);
  }

  lemma ChildIn(t: Tree, e: RBNode)
    requires e in t.g && LinkOk(t.g, e)
    ensures OnlyChild(t.g, e) != null ==> OnlyChild(t.g, e) in t.g
  {
  }

  lemma OwnPlace(t: Tree, e: RBNode, n: RBNode)
    requires e in t.g && n in t.g && n != e && NodeOk(t, e) && NodeOk(t, n)
    ensures t.g[n].pos != t.g[e].pos
  {
  }

  lemma SpliceKeys(t: Tree, e: RBNode)
    requires e in t.g && 0 <= t.g[e].pos < |t.nodes|
    ensures Splice(t, e).g.Keys == t.g.Keys - {e} && |Splice(t, e).nodes| == |t.nodes| - 1
  {
  }

  lemma SplicePos(t: Tree, e: RBNode, n: RBNode)
    requires e in t.g && n in t.g && n != e && NodeOk(t, e) && NodeOk(t, n) && t.g[n].pos != t.g[e].pos
    requires LinkOk(Splice(t, e).g, n) && SpanOk(Splice(t, e).g, n)
    requires Splice(t, e).g[n].parent == null <==> n == Splice(t, e).root
    ensures NodeOk(Splice(t, e), n)
  {
    hide LinkOk;
  }

  lemma SplicePlace(t: Tree, e: RBNode, i: nat, j: nat)
    requires e in t.g && 0 <= t.g[e].pos < |t.nodes| && i + 1 < |t.nodes|
    requires j == (if i < t.g[e].pos then i else i + 1) && PlaceOk(t, j)
    ensures i < |Splice(t, e).nodes| && PlaceOk(Splice(t, e), i)
  {
  }

  lemma SpliceRoot(t: Tree, e: RBNode)
    requires Shape(t) && e in t.g && Thin(t.g, e) && 0 <= t.g[e].pos < |t.nodes|
    ensures var r := Splice(t, e);
            if r.root == null then r.nodes == []
            else r.root in r.g && r.g[r.root].lo == 0 && r.g[r.root].hi == |r.nodes|
  {
    ShapeAt(t, e);
    var d := OnlyChild(t.g, e);
    if d != null {
      ShapeAt(t, d);
    }
  }

  lemma SplicePlaces(t: Tree, e: RBNode)
    requires Shape(t) && e in t.g
    ensures 0 <= t.g[e].pos < |t.nodes|
    ensures (set n | n in Splice(t, e).nodes) == t.g.Keys - {e}
  {
    hide LinkOk, SpanOk;
    ShapeAt(t, e);
    SpliceNodes(t, e);
    hide Splice, NodeOk;
    var k := t.g[e].pos;
    var r := t.nodes[..k] + t.nodes[k + 1..];
    forall n | n in t.nodes && n != e
      ensures n in r
    {
      var i :| 0 <= i < |t.nodes| && t.nodes[i] == n;
      assert if i < k then r[i] == n else r[i - 1] == n;
    }
    forall i | 0 <= i < |r|
      ensures r[i] in t.nodes && r[i] != e
    {
      assert PlaceOk(t, if i < k then i else i + 1);
    }
  }

  lemma DropSorted(ns: seq<RBNode>, k: nat)
    requires Sorted(ns) && k < |ns|
    ensures Sorted(Without(ns, k))
  {
  }

  /** Taking out a red node with at most one child disturbs nothing. */
  lemma SpliceRed(t: Tree, e: RBNode)
    requires Valid(t) && e in t.g && Thin(t.g, e) && t.g[e].red
    ensures 0 <= t.g[e].pos < |t.nodes| && Valid(Splice(t, e))
  {
    hide NodeOk, LinkOk, SpanOk, Good, Splice;
    SpliceShape(t, e);
    DropSorted(t.nodes, t.g[e].pos);
    SpliceNodes(t, e);
    var r := Splice(t, e);
    SpliceKeys(t, e);
    ValidAt(t, e);
    ChildIn(t, e);
    var d := OnlyChild(t.g, e);
    if d != null {
      ValidAt(t, d);
    }
    RedLeaf(t, e);
    forall n | n in r.g
      ensures NodeOk(r, n) && LinkOk(r.g, n) && Good(r.g, n)
    {
      ValidAt(t, n);
      ShapeAt(r, n);
      SpliceRedNode(t, e, n);
    }
    SpliceRedRoot(t, e);
  }

  lemma SpliceNodes(t: Tree, e: RBNode)
    requires e in t.g && 0 <= t.g[e].pos < |t.nodes|
    ensures Splice(t, e).nodes == Without(t.nodes, t.g[e].pos)
    ensures Splice(t, e).root == Sub(t.root, e, OnlyChild(t.g, e))
  {
  }

  lemma RedLeaf(t: Tree, e: RBNode)
    requires e in t.g && Thin(t.g, e) && t.g[e].red && LinkOk(t.g, e) && Good(t.g, e)
    requires OnlyChild(t.g, e) != null ==> OnlyChild(t.g, e) in t.g
    requires var d := OnlyChild(t.g, e); d != null ==> LinkOk(t.g, d) && Good(t.g, d)
    ensures OnlyChild(t.g, e) == null && t.g[e].bh == 0
  {
  }

  lemma SpliceRedNode(t: Tree, e: RBNode, n: RBNode)
    requires e in t.g && n in t.g && n != e && 0 <= t.g[e].pos < |t.nodes| && t.g[e].red
    requires LinkOk(t.g, n) && LinkOk(t.g, e) && Good(t.g, n) && OnlyChild(t.g, e) == null && t.g[e].bh == 0
    requires LinkOk(Splice(t, e).g, n)
    ensures Good(Splice(t, e).g, n)
  {
  }

  lemma SpliceRedRoot(t: Tree, e: RBNode)
    requires e in t.g && 0 <= t.g[e].pos < |t.nodes| && !IsRed(t.g, t.root)
    requires OnlyChild(t.g, e) == null
    ensures !IsRed(Splice(t, e).g, Splice(t, e).root)
  {
  }

  /** Taking out a black node with at most one child leaves its child short. */
  lemma SpliceBlack(t: Tree, e: RBNode)
    requires Valid(t) && e in t.g && Thin(t.g, e) && !t.g[e].red
    ensures 0 <= t.g[e].pos < |t.nodes|
    ensures DelInv(Splice(t, e), OnlyChild(t.g, e), t.g[e].parent) && Sorted(Splice(t, e).nodes)
  {
    hide NodeOk, LinkOk, SpanOk, Good, Splice, DelNode, Deficit;
    SpliceShape(t, e);
    DropSorted(t.nodes, t.g[e].pos);
    SpliceNodes(t, e);
    var r := Splice(t, e);
    SpliceKeys(t, e);
    ValidAt(t, e);
    ChildIn(t, e);
    var d, p := OnlyChild(t.g, e), t.g[e].parent;
    NotOwnChild(t, e);
    BlackEdge(t, e);
    if d != null {
      ValidAt(t, d);
    }
    forall n | n in r.g
      ensures NodeOk(r, n) && LinkOk(r.g, n) && DelNode(r.g, n, d, p)
    {
      ValidAt(t, n);
      ShapeAt(r, n);
      SpliceBlackNode(t, e, n);
    }
    ParentFacts(t, e);
    if p != null {
      ValidAt(t, p);
      if d != null {
        Near(t, e, d);
      }
      SpliceDeficit(t, e, p);
    }
    SpliceBlackRoot(t, e);
  }

  lemma NotOwnChild(t: Tree, e: RBNode)
    requires Shape(t) && e in t.g
    ensures OnlyChild(t.g, e) != e
    ensures OnlyChild(t.g, e) != null ==> OnlyChild(t.g, e) in t.g && t.g[OnlyChild(t.g, e)].parent == e
  {
    ShapeAt(t, e);
    var d := OnlyChild(t.g, e);
    if d != null {
      ShapeAt(t, d);
    }
  }

  lemma BlackEdge(t: Tree, e: RBNode)
    requires e in t.g && Thin(t.g, e) && !t.g[e].red && LinkOk(t.g, e) && Good(t.g, e)
    ensures t.g[e].bh == 1 && Bh(t.g, OnlyChild(t.g, e)) == 0
  {
  }

  lemma SpliceBlackNode(t: Tree, e: RBNode, n: RBNode)
    requires e in t.g && n in t.g && n != e && 0 <= t.g[e].pos < |t.nodes| && OnlyChild(t.g, e) != e
    requires LinkOk(t.g, n) && LinkOk(t.g, e) && Good(t.g, n)
    requires LinkOk(Splice(t, e).g, n)
    ensures DelNode(Splice(t, e).g, n, OnlyChild(t.g, e), t.g[e].parent)
  {
  }

  lemma SpliceDeficit(t: Tree, e: RBNode, p: RBNode)
    requires e in t.g && p in t.g && t.g[e].parent == p && p != e && 0 <= t.g[e].pos < |t.nodes|
    requires t.g[p].left == e <==> t.g[p].right != e
    requires LinkOk(t.g, p) && Good(t.g, p) && t.g[e].bh == 1 && Bh(t.g, OnlyChild(t.g, e)) == 0
    requires OnlyChild(t.g, e) != e
    requires OnlyChild(t.g, e) != null ==> OnlyChild(t.g, e) in t.g && t.g[OnlyChild(t.g, e)].parent == e && OnlyChild(t.g, e) != p
    ensures p in Splice(t, e).g && Deficit(Splice(t, e).g, OnlyChild(t.g, e), p)
  {
  }

  lemma SpliceBlackRoot(t: Tree, e: RBNode)
    requires e in t.g && 0 <= t.g[e].pos < |t.nodes| && !IsRed(t.g, t.root)
    requires (t.g[e].parent == null <==> e == t.root) && OnlyChild(t.g, e) != e
    requires OnlyChild(t.g, e) != null ==> OnlyChild(t.g, e) in t.g
    ensures var r := Splice(t, e);
            && (t.g[e].parent == null ==> OnlyChild(t.g, e) == r.root)
            && (r.root != OnlyChild(t.g, e) ==> !IsRed(r.g, r.root))
            && (OnlyChild(t.g, e) != null ==> OnlyChild(t.g, e) in r.g)
  {
  }

  ghost function Renamed(c: Cell, o: RBNode, e: RBNode): Cell {
    c.(left := Sub(c.left, o, e), right := Sub(c.right, o, e), parent := Sub(c.parent, o, e))
  }

  /** `e`, a node outside the tree, gets the place and the contents of `o`. */
  ghost function Put(t: Tree, o: RBNode, e: RBNode): Tree
    requires o in t.g && 0 <= t.g[o].pos < |t.nodes|
  {
    Tree(map n | n in t.g.Keys - {o} + {e} :: Renamed(t.g[if n == e then o else n], o, e),
         Sub(t.root, o, e),
         t.nodes[t.g[o].pos := e])
  }

  /** Who plays the part of `w` afterwards, and who played the part of `n` before. */
  ghost function Now(o: RBNode, e: RBNode, w: RBNode): RBNode {
    if w == o then e else w
  }

  ghost function Was(o: RBNode, e: RBNode, n: RBNode): RBNode {
    if n == e then o else n
  }

  /** The cell of whoever plays the part of `w`, a node or null. */
  lemma PutAt(t: Tree, o: RBNode, e: RBNode, w: RBNode?)
    requires o in t.g && 0 <= t.g[o].pos < |t.nodes| && e !in t.g
    ensures w != null && w in t.g ==> w != e && Sub(w, o, e) in Put(t, o, e).g && Put(t, o, e).g[Sub(w, o, e)] == Renamed(t.g[w], o, e)
    ensures Sub(w, o, e) == null <==> w == null
    ensures IsRed(Put(t, o, e).g, Sub(w, o, e)) == IsRed(t.g, w) || w == e
    ensures Bh(Put(t, o, e).g, Sub(w, o, e)) == Bh(t.g, w) || w == e
  {
  }

  lemma PutFamily(t: Tree, o: RBNode, e: RBNode, w: RBNode)
    requires o in t.g && 0 <= t.g[o].pos < |t.nodes| && e !in t.g && w in t.g
    ensures w != e && Now(o, e, w) in Put(t, o, e).g && Put(t, o, e).g[Now(o, e, w)] == Renamed(t.g[w], o, e)
  {
    PutAt(t, o, e, w);
  }

  lemma PutLink(t: Tree, o: RBNode, e: RBNode, w: RBNode)
    requires o in t.g && 0 <= t.g[o].pos < |t.nodes| && e !in t.g && w in t.g && NodeOk(t, w) && t.root != e
    ensures Now(o, e, w) in Put(t, o, e).g && LinkOk(Put(t, o, e).g, Now(o, e, w))
    ensures Put(t, o, e).g[Now(o, e, w)].parent == null <==> Now(o, e, w) == Sub(t.root, o, e)
  {
    hide SpanOk, Put;
    PutFamily(t, o, e, w);
    PutAt(t, o, e, t.g[w].left);
    PutAt(t, o, e, t.g[w].right);
    PutAt(t, o, e, t.g[w].parent);
  }

  lemma PutSpan(t: Tree, o: RBNode, e: RBNode, w: RBNode)
    requires o in t.g && 0 <= t.g[o].pos < |t.nodes| && e !in t.g && w in t.g && NodeOk(t, w)
    requires Now(o, e, w) in Put(t, o, e).g && LinkOk(Put(t, o, e).g, Now(o, e, w))
    ensures SpanOk(Put(t, o, e).g, Now(o, e, w))
  {
    hide Put;
    PutFamily(t, o, e, w);
    PutAt(t, o, e, t.g[w].left);
    PutAt(t, o, e, t.g[w].right);
  }

  lemma PutPos(t: Tree, o: RBNode, e: RBNode, w: RBNode)
    requires o in t.g && e !in t.g && w in t.g && NodeOk(t, w) && NodeOk(t, o)
    ensures Now(o, e, w) in Put(t, o, e).g
    ensures var c := Put(t, o, e).g[Now(o, e, w)]; 0 <= c.lo && c.hi <= |t.nodes| && 0 <= c.pos < |t.nodes|
    ensures Put(t, o, e).nodes[Put(t, o, e).g[Now(o, e, w)].pos] == Now(o, e, w)
  {
    PutFamily(t, o, e, w);
  }

  lemma PutKeys(t: Tree, o: RBNode, e: RBNode)
    requires Shape(t) && o in t.g && e !in t.g
    ensures 0 <= t.g[o].pos < |t.nodes| && Put(t, o, e).g.Keys == t.g.Keys - {o} + {e}
    ensures (set n | n in Put(t, o, e).nodes) == t.g.Keys - {o} + {e}
  {
    ShapeAt(t, o);
    var k := t.g[o].pos;
    var r := t.nodes[k := e];
    assert PlaceOk(t, k);
    forall n | n in t.nodes && n != o
      ensures n in r
    {
      var i :| 0 <= i < |t.nodes| && t.nodes[i] == n;
      assert r[i] == n;
    }
    assert r[k] == e;
    forall i | 0 <= i < |r|
      ensures r[i] in t.g.Keys - {o} + {e}
    {
      assert PlaceOk(t, i);
    }
  }

  lemma PutShape(t: Tree, o: RBNode, e: RBNode)
    requires Shape(t) && o in t.g && e !in t.g
    ensures 0 <= t.g[o].pos < |t.nodes| && Shape(Put(t, o, e))
  {
    hide NodeOk, LinkOk, SpanOk;
    PutKeys(t, o, e);
    NotRoot(t, e);
    ShapeAt(t, o);
    var r := Put(t, o, e);
    forall n | n in r.g
      ensures NodeOk(r, n)
    {
      var w := Was(o, e, n);
      ShapeAt(t, w);
      PutLink(t, o, e, w);
      PutSpan(t, o, e, w);
      PutPos(t, o, e, w);
      assert Now(o, e, w) == n;
      IsNodeOk(r, n);
    }
    forall i | 0 <= i < |r.nodes|
      ensures PlaceOk(r, i)
    {
      PutPlace(t, o, e, i);
    }
    PutRootSpan(t, o, e);
  }

  lemma PutRootSpan(t: Tree, o: RBNode, e: RBNode)
    requires Shape(t) && o in t.g && e !in t.g && 0 <= t.g[o].pos < |t.nodes|
    ensures var r := Put(t, o, e);
            r.root != null && r.root in r.g && r.g[r.root].lo == 0 && r.g[r.root].hi == |r.nodes|
  {
    hide NodeOk;
    ShapeAt(t, o);
    PutAt(t, o, e, t.root);
  }

  lemma PutPlace(t: Tree, o: RBNode, e: RBNode, i: nat)
    requires Shape(t) && o in t.g && e !in t.g && 0 <= t.g[o].pos < |t.nodes| && i < |t.nodes|
    ensures PlaceOk(Put(t, o, e), i)
  {
    hide NodeOk, Put;
    assert PlaceOk(t, i);
    ShapeAt(t, o);
    AtPlace(t, o);
    PutFamily(t, o, e, t.nodes[i]);
    PutNodes(t, o, e);
  }

  lemma AtPlace(t: Tree, n: RBNode)
    requires n in t.g && NodeOk(t, n)
    ensures 0 <= t.g[n].pos < |t.nodes| && t.nodes[t.g[n].pos] == n
  {
  }

  lemma PutNodes(t: Tree, o: RBNode, e: RBNode)
    requires o in t.g && 0 <= t.g[o].pos < |t.nodes|
    ensures Put(t, o, e).nodes == t.nodes[t.g[o].pos := e]
  {
  }

  lemma IsNodeOk(t: Tree, n: RBNode)
    requires n in t.g && LinkOk(t.g, n) && SpanOk(t.g, n) && (t.g[n].parent == null <==> n == t.root)
    requires 0 <= t.g[n].lo && t.g[n].hi <= |t.nodes| && 0 <= t.g[n].pos < |t.nodes| && t.nodes[t.g[n].pos] == n
    ensures NodeOk(t, n)
  {
  }

  lemma PutGood(t: Tree, o: RBNode, e: RBNode, w: RBNode)
    requires o in t.g && 0 <= t.g[o].pos < |t.nodes| && e !in t.g && w in t.g
    requires LinkOk(t.g, w) && Good(t.g, w)
    requires Now(o, e, w) in Put(t, o, e).g && LinkOk(Put(t, o, e).g, Now(o, e, w))
    ensures Good(Put(t, o, e).g, Now(o, e, w))
  {
    hide Put, Bh, IsRed;
    PutFamily(t, o, e, w);
    PutAt(t, o, e, t.g[w].left);
    PutAt(t, o, e, t.g[w].right);
    PutAt(t, o, e, t.g[w].parent);
  }

  lemma PutDel(t: Tree, o: RBNode, e: RBNode, w: RBNode, x: RBNode?, p: RBNode?)
    requires o in t.g && 0 <= t.g[o].pos < |t.nodes| && e !in t.g && w in t.g
    requires x != o && x != e && p != e
    requires LinkOk(t.g, w) && DelNode(t.g, w, x, p)
    requires Now(o, e, w) in Put(t, o, e).g && LinkOk(Put(t, o, e).g, Now(o, e, w))
    ensures DelNode(Put(t, o, e).g, Now(o, e, w), x, Sub(p, o, e))
  {
    hide Put, Bh, IsRed;
    PutFamily(t, o, e, w);
    PutAt(t, o, e, t.g[w].left);
    PutAt(t, o, e, t.g[w].right);
    PutAt(t, o, e, t.g[w].parent);
  }

  lemma PutDeficit(t: Tree, o: RBNode, e: RBNode, x: RBNode?, p: RBNode)
    requires o in t.g && 0 <= t.g[o].pos < |t.nodes| && e !in t.g && p in t.g && LinkOk(t.g, p)
    requires x != o && x != e && Deficit(t.g, x, p)
    ensures Sub(p, o, e) in Put(t, o, e).g && Deficit(Put(t, o, e).g, x, Sub(p, o, e))
  {
    hide Put, Bh, IsRed;
    PutFamily(t, o, e, p);
    PutAt(t, o, e, t.g[p].left);
    PutAt(t, o, e, t.g[p].right);
    PutAt(t, o, e, x);
  }

  lemma PutRoot(t: Tree, o: RBNode, e: RBNode)
    requires o in t.g && 0 <= t.g[o].pos < |t.nodes| && e !in t.g && t.root != e
    ensures IsRed(Put(t, o, e).g, Sub(t.root, o, e)) == IsRed(t.g, t.root)
    ensures Put(t, o, e).root == Sub(t.root, o, e) && Put(t, o, e).nodes == t.nodes[t.g[o].pos := e]
  {
    PutAt(t, o, e, t.root);
  }

  lemma PutValid(t: Tree, o: RBNode, e: RBNode)
    requires Valid(t) && o in t.g && e !in t.g && 0 <= t.g[o].pos < |t.nodes| && Sorted(t.nodes[t.g[o].pos := e])
    ensures Valid(Put(t, o, e))
  {
    hide NodeOk, LinkOk, SpanOk, Good, Put;
    PutShape(t, o, e);
    PutKeys(t, o, e);
    NotRoot(t, e);
    PutRoot(t, o, e);
    var r := Put(t, o, e);
    forall n | n in r.g
      ensures NodeOk(r, n) && LinkOk(r.g, n) && Good(r.g, n)
    {
      var w := Was(o, e, n);
      assert Now(o, e, w) == n;
      ValidAt(t, w);
      ShapeAt(r, n);
      PutGood(t, o, e, w);
    }
  }

  lemma NotRoot(t: Tree, e: RBNode)
    requires Shape(t) && e !in t.g
    ensures t.root != e
  {
  }

  lemma PutDelInv(t: Tree, o: RBNode, e: RBNode, x: RBNode?, p: RBNode?)
    requires DelInv(t, x, p) && o in t.g && e !in t.g && x != o && 0 <= t.g[o].pos < |t.nodes|
    ensures DelInv(Put(t, o, e), x, Sub(p, o, e))
  {
    hide NodeOk, LinkOk, SpanOk, DelNode, Deficit, Put;
    DelShape(t, x, p);
    PutShape(t, o, e);
    PutKeys(t, o, e);
    NotRoot(t, e);
    PutRoot(t, o, e);
    var r := Put(t, o, e);
    forall n | n in r.g
      ensures NodeOk(r, n) && LinkOk(r.g, n) && DelNode(r.g, n, x, Sub(p, o, e))
    {
      var w := Was(o, e, n);
      assert Now(o, e, w) == n;
      DelAt(t, x, p, w);
      ShapeAt(r, n);
      PutDel(t, o, e, w, x, p);
    }
    if p != null {
      ShapeAt(t, p);
      PutDeficit(t, o, e, x, p);
    }
  }

  /** How much of the tree lies outside the parent of the short side; 0 when the loop ends. */
  ghost function Short(t: Tree, x: RBNode?, p: RBNode?): int {
    if p in t.g && !IsRed(t.g, x) then |t.nodes| - (t.g[p].hi - t.g[p].lo) + 1 else 0
  }

  lemma ShortBound(t: Tree, x: RBNode?, p: RBNode)
    requires DelInv(t, x, p) && !IsRed(t.g, x)
    ensures Short(t, x, p) > 0
  {
    ShapeAt(t, p);
  }

  lemma LowerProgress(t: Tree, x: RBNode?, p: RBNode, s: RBNode)
    requires DelInv(t, x, p) && !IsRed(t.g, x) && p in t.g && s in t.g && s != p
    ensures Short(Lower(t, s, p), p, t.g[p].parent) < Short(t, x, p)
    ensures t.g[p].red ==> Short(Lower(t, s, p), p, t.g[p].parent) == 0
  {
    ShortBound(t, x, p);
    ShapeAt(t, p);
    var q := t.g[p].parent;
    if q != null {
      ShapeAt(t, q);
    }
  }

  /** What the running loop may dereference. */
  lemma DelLinks(t: Tree, x: RBNode?, p: RBNode)
    requires DelInv(t, x, p)
    ensures p in t.g && Shape(t)
    ensures var s := Sibling(t.g, x, p);
            && s != null && s in t.g && s != x && s != p && x != p
            && (t.g[p].left == x <==> t.g[p].right == s) && (t.g[p].left == s <==> t.g[p].right == x)
            && (t.g[s].left != null ==> t.g[s].left in t.g && t.g[s].left != p && t.g[s].left != s)
            && (t.g[s].right != null ==> t.g[s].right in t.g && t.g[s].right != p && t.g[s].right != s)
            && (t.g[p].parent != null ==> t.g[p].parent in t.g)
  {
    SiblingFacts(t, x, p);
    ShapeAt(t, p);
    var s: RBNode := Sibling(t.g, x, p);
    ShapeAt(t, s);
    if t.g[s].left != null {
      Near(t, s, t.g[s].left);
    }
    if t.g[s].right != null {
      Near(t, s, t.g[s].right);
    }
  }

  /** The running loop has a parent to work on. */
  lemma StillShort(t: Tree, x: RBNode?, p: RBNode?)
    requires DelInv(t, x, p)
    ensures p == null <==> x == t.root
    ensures x != null ==> x in t.g
    ensures p != null ==> p in t.g && (t.g[p].left == x || t.g[p].right == x)
  {
    if p != null {
      SiblingFacts(t, x, p);
    }
  }

  /** After a node of the given colour has been taken out: nothing to mend, or a shortage. */
  ghost predicate TakenOut(t: Tree, red: bool, x: RBNode?, p: RBNode?) {
    if red then Valid(t) else DelInv(t, x, p) && Sorted(t.nodes)
  }

  lemma SpliceAny(t: Tree, e: RBNode)
    requires Valid(t) && e in t.g && Thin(t.g, e)
    ensures 0 <= t.g[e].pos < |t.nodes|
    ensures TakenOut(Splice(t, e), t.g[e].red, OnlyChild(t.g, e), t.g[e].parent)
  {
    hide Valid, DelInv, Splice;
    if t.g[e].red {
      SpliceRed(t, e);
    } else {
      SpliceBlack(t, e);
    }
  }

  /** The successor `e` of a node `o` with two children has no left child; taking it
      out leaves `o` with its place and a left child. */
  lemma SuccessorFacts(t: Tree, o: RBNode, e: RBNode)
    requires Shape(t) && o in t.g && e in t.g && t.g[e].left == null && t.g[e].pos == t.g[o].pos + 1 && t.g[o].left != null
    ensures o != e && Thin(t.g, e) && OnlyChild(t.g, e) == t.g[e].right && OnlyChild(t.g, e) != o
    ensures 0 <= t.g[e].pos < |t.nodes| && 0 <= t.g[o].pos < |t.nodes|
    ensures t.nodes[t.g[e].pos] == e && t.nodes[t.g[o].pos] == o
    ensures var r := Splice(t, e);
            o in r.g && e !in r.g && r.g[o].pos == t.g[o].pos && r.g[o].left != null
  {
    ShapeAt(t, o);
    ShapeAt(t, e);
    ShapeAt(t, t.g[o].left);
    if t.g[e].right != null {
      ShapeAt(t, t.g[e].right);
    }
  }

  lemma DropNext(ns: seq<RBNode>, i: nat)
    requires i + 1 < |ns|
    ensures |Without(ns, i + 1)| == |ns| - 1 && Without(ns, i + 1)[i := ns[i + 1]] == Without(ns, i)
    ensures forall n | n in Without(ns, i + 1) :: n in ns
  {
  }

  /** Putting the successor where the removed node was. */
  lemma PutTaken(t: Tree, o: RBNode, e: RBNode, red: bool, x: RBNode?, p: RBNode?)
    requires TakenOut(t, red, x, p) && o in t.g && e !in t.g && x != o
    requires 0 <= t.g[o].pos < |t.nodes| && Sorted(t.nodes[t.g[o].pos := e])
    ensures TakenOut(Put(t, o, e), red, x, Sub(p, o, e))
  {
    hide Valid, DelInv, Put;
    PutNodes(t, o, e);
    if red {
      PutValid(t, o, e);
    } else {
      PutDelInv(t, o, e, x, p);
    }
  }

  /** Taking out a node with two children by way of its successor. */
  lemma InnerRemoval(t: Tree, o: RBNode, e: RBNode)
    requires Valid(t) && o in t.g && e in t.g && t.g[e].left == null && t.g[e].pos == t.g[o].pos + 1 && t.g[o].left != null
    ensures 0 <= t.g[e].pos < |t.nodes| && 0 <= t.g[o].pos < |t.nodes|
    ensures var s := Splice(t, e);
            && Shape(s) && o in s.g && e !in s.g && 0 <= s.g[o].pos < |s.nodes|
            && (forall n | n in s.nodes :: n in t.nodes)
            && Put(s, o, e).nodes == Without(t.nodes, t.g[o].pos)
            && TakenOut(Put(s, o, e), t.g[e].red, t.g[e].right, Sub(t.g[e].parent, o, e))
  {
    SpliceParts(t);
    SuccessorFacts(t, o, e);
    hide NodeOk, Valid, Shape, Splice, TakenOut, Put, DelInv, Thin, OnlyChild, Sorted, Without;
    var s := Splice(t, e);
    SpliceAny(t, e);
    SpliceShape(t, e);
    SpliceNodes(t, e);
    DropNext(t.nodes, t.g[o].pos);
    DropSorted(t.nodes, t.g[o].pos);
    PutTaken(s, o, e, t.g[e].red, t.g[e].right, t.g[e].parent);
    PutNodes(s, o, e);
  }

  lemma SpliceParts(t: Tree)
    requires Valid(t)
    ensures Shape(t) && Sorted(t.nodes)
  {
  }
}
