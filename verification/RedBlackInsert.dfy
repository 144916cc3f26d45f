/** RB_INSERT_COLOR on tree values.
    While the fix-up loop runs, the one possible fault is that the node in hand and its
    parent are both red, or that the node in hand is a red root. Each branch of the loop gets
    a lemma saying where that fault is afterwards, for one side; the other side follows by
    reflection. */
module RedBlackInsert {
  import opened RedBlackModel

  /** Balanced and coloured, except that `x`, which is red, may have a red parent. */
  ghost predicate InsNode(g: Graph, n: RBNode, x: RBNode)
    requires n in g && LinkOk(g, n)
  {
    BalOk(g, n) && (n != x ==> ColOk(g, n))
  }

  ghost predicate InsInv(t: Tree, x: RBNode) {
    && Shape(t) && x in t.g && t.g[x].red
    && (forall n {:trigger InsNode(t.g, n, x)} | n in t.g :: NodeOk(t, n) && InsNode(t.g, n, x))
    && (t.root != x ==> !IsRed(t.g, t.root))
  }

  lemma InsAt(t: Tree, x: RBNode, n: RBNode)
    requires InsInv(t, x) && n in t.g
    ensures NodeOk(t, n) && LinkOk(t.g, n) && InsNode(t.g, n, x)
  {
  }

  lemma MirrorInsInv(t: Tree, x: RBNode)
    requires InsInv(t, x)
    ensures InsInv(Mirror(t), x)
  {
    MirrorShape(t);
    var m := Mirror(t);
    forall n | n in m.g
      ensures NodeOk(m, n) && InsNode(m.g, n, x)
    {
      InsAt(t, x, n);
      MirrorNode(t, n);
    }
  }

  /** A red node's red parent has a parent, which is black. */
  lemma Grandparent(t: Tree, x: RBNode)
    requires InsInv(t, x) && IsRed(t.g, t.g[x].parent)
    ensures t.g[x].parent in t.g
    ensures var p := t.g[x].parent;
            var q := t.g[p].parent;
            q != null && q in t.g && !t.g[q].red && p != x && q != x && q != p && t.root != x
  {
    InsAt(t, x, x);
    var p: RBNode := t.g[x].parent;
    Near(t, p, x);
    InsAt(t, x, p);
    var q := t.g[p].parent;
    if q != null {
      Near(t, q, p);
    }
  }

  /** The uncle is red: three nodes are repainted and the trouble moves up. */
  ghost function Recolor(t: Tree, p: RBNode, u: RBNode, q: RBNode): Tree
    requires p in t.g && u in t.g && q in t.g
  {
    Paint(Paint(Paint(t, u, false, t.g[u].bh + 1), p, false, t.g[p].bh + 1), q, true, t.g[q].bh)
  }

  lemma RecolorCase(t: Tree, x: RBNode, p: RBNode, u: RBNode, q: RBNode)
    requires InsInv(t, x) && t.g[x].parent == p && p in t.g && t.g[p].red && t.g[p].parent == q && q in t.g
    requires u in t.g && t.g[u].red && u != p && (t.g[q].left == u || t.g[q].right == u)
    ensures InsInv(Recolor(t, p, u, q), q)
  {
    hide NodeOk, InsNode;
    var r := Recolor(t, p, u, q);
    Grandparent(t, x);
    InsAt(t, x, q);
    Near(t, q, p);
    RecolorUncle(t, p, u, q);
    RepaintedShape(t, r);
    forall n | n in r.g
      ensures NodeOk(r, n) && LinkOk(r.g, n) && InsNode(r.g, n, q)
    {
      InsAt(t, x, n);
      InsAt(t, x, p);
      InsAt(t, x, u);
      RepaintedNode(t, r, n);
      RecolorNode(t, x, p, u, q, n);
    }
  }

  lemma RecolorUncle(t: Tree, p: RBNode, u: RBNode, q: RBNode)
    requires p in t.g && u in t.g && q in t.g && u != p && NodeOk(t, q) && NodeOk(t, p) && Apart(t.g, q, p)
    requires t.g[p].parent == q && (t.g[q].left == u || t.g[q].right == u)
    ensures t.g[u].parent == q
    ensures (t.g[q].left == p && t.g[q].right == u) || (t.g[q].left == u && t.g[q].right == p)
    ensures Repainted(t, Recolor(t, p, u, q))
  {
  }

  lemma RecolorNode(t: Tree, x: RBNode, p: RBNode, u: RBNode, q: RBNode, n: RBNode)
    requires x in t.g && p in t.g && u in t.g && q in t.g && n in t.g
    requires x != p && p != u && u != q && p != q && x != q
    requires NodeOk(t, n) && NodeOk(t, p) && NodeOk(t, u) && NodeOk(t, q)
    requires InsNode(t.g, n, x) && InsNode(t.g, p, x) && InsNode(t.g, u, x) && InsNode(t.g, q, x)
    requires t.g[x].parent == p && t.g[p].parent == q && t.g[u].parent == q
    requires t.g[p].red && t.g[u].red && !t.g[q].red
    requires (t.g[q].left == p && t.g[q].right == u) || (t.g[q].left == u && t.g[q].right == p)
    requires LinkOk(Recolor(t, p, u, q).g, n)
    ensures InsNode(Recolor(t, p, u, q).g, n, q)
  {
    hide SpanOk;
  }

  /** `x` is the right child of the left child of `q`: after rotating at `p` the two
      red nodes are a left child and its left child. */
  lemma InnerCase(t: Tree, x: RBNode, p: RBNode, q: RBNode)
    requires InsInv(t, x) && p in t.g && q in t.g && t.g[p].red && t.g[p].right == x && t.g[q].left == p
    ensures InsInv(RotL(t, p), p)
    ensures var g := RotL(t, p).g;
            && g[p].parent == x && g[x].parent == q && g[q].left == x && g[x].left == p
            && g[q].right == t.g[q].right && g[x].red && IsRed(g, g[q].right) == IsRed(t.g, t.g[q].right)
  {
    hide NodeOk, InsNode;
    RotLShape(t, p);
    InnerLinks(t, x, p, q);
    Grandparent(t, x);
    var r := RotL(t, p);
    forall n | n in r.g
      ensures NodeOk(r, n) && LinkOk(r.g, n) && InsNode(r.g, n, p)
    {
      InsAt(t, x, n);
      InsAt(t, x, p);
      InsAt(t, x, x);
      ShapeAt(r, n);
      InnerNode(t, x, p, q, n);
    }
  }

  lemma InnerLinks(t: Tree, x: RBNode, p: RBNode, q: RBNode)
    requires InsInv(t, x) && p in t.g && q in t.g && t.g[p].right == x && t.g[q].left == p
    ensures t.g[x].parent == p && t.g[p].parent == q && Apart(t.g, q, p) && Apart(t.g, p, x)
    ensures var g := RotL(t, p).g;
            && g[p].parent == x && g[x].parent == q && g[q].left == x && g[x].left == p
            && g[q].right == t.g[q].right && g[x].red && IsRed(g, g[q].right) == IsRed(t.g, t.g[q].right)
  {
    hide InsNode;
    ShapeAt(t, q);
    ShapeAt(t, p);
    Near(t, q, p);
    Near(t, p, x);
  }

  lemma InnerNode(t: Tree, x: RBNode, p: RBNode, q: RBNode, n: RBNode)
    requires x in t.g && p in t.g && q in t.g && n in t.g
    requires NodeOk(t, n) && NodeOk(t, p) && NodeOk(t, x)
    requires InsNode(t.g, n, x) && InsNode(t.g, p, x) && InsNode(t.g, x, x)
    requires t.g[p].right == x && t.g[p].parent == q && t.g[x].red && t.g[p].red && !t.g[q].red
    requires Apart(t.g, p, x)
    requires LinkOk(RotL(t, p).g, n)
    ensures InsNode(RotL(t, p).g, n, p)
  {
    hide SpanOk;
  }

  /** `x` is the left child of the left child of `q` and the uncle is black. */
  lemma OuterCase(t: Tree, x: RBNode, p: RBNode, q: RBNode)
    requires InsInv(t, x) && p in t.g && q in t.g && t.g[p].red && t.g[p].left == x && t.g[q].left == p
    requires !IsRed(t.g, t.g[q].right)
    ensures p != q && Settle(t, p, q).g[q].left == p && InsInv(RotR(Settle(t, p, q), q), x)
    ensures RotR(Settle(t, p, q), q).g[x].parent == p && !RotR(Settle(t, p, q), q).g[p].red
  {
    hide NodeOk, InsNode;
    OuterLinks(t, x, p, q);
    Grandparent(t, x);
    var m := Settle(t, p, q);
    RepaintedShape(t, m);
    RotRShape(m, q);
    var r := RotR(m, q);
    forall n | n in r.g
      ensures NodeOk(r, n) && LinkOk(r.g, n) && InsNode(r.g, n, x)
    {
      InsAt(t, x, n);
      InsAt(t, x, p);
      InsAt(t, x, q);
      InsAt(t, x, x);
      ShapeAt(r, n);
      OuterNode(t, x, p, q, n);
    }
  }

  lemma OuterLinks(t: Tree, x: RBNode, p: RBNode, q: RBNode)
    requires InsInv(t, x) && p in t.g && q in t.g && t.g[p].left == x && t.g[q].left == p
    ensures t.g[x].parent == p && t.g[p].parent == q && Apart(t.g, q, p) && Apart(t.g, p, x)
    ensures Repainted(t, Settle(t, p, q)) && Settle(t, p, q).g[q].left == p
    ensures var g := RotR(Settle(t, p, q), q).g;
            g[x].parent == p && !g[p].red
  {
    hide InsNode;
    ShapeAt(t, q);
    ShapeAt(t, p);
    Near(t, q, p);
    Near(t, p, x);
  }

  lemma OuterNode(t: Tree, x: RBNode, p: RBNode, q: RBNode, n: RBNode)
    requires x in t.g && p in t.g && q in t.g && n in t.g
    requires NodeOk(t, n) && NodeOk(t, p) && NodeOk(t, q) && NodeOk(t, x)
    requires InsNode(t.g, n, x) && InsNode(t.g, p, x) && InsNode(t.g, q, x) && InsNode(t.g, x, x)
    requires t.g[p].left == x && t.g[q].left == p && t.g[x].red && t.g[p].red && !t.g[q].red
    requires Apart(t.g, q, p) && Apart(t.g, p, x) && !IsRed(t.g, t.g[q].right)
    requires LinkOk(RotR(Settle(t, p, q), q).g, n)
    ensures InsNode(RotR(Settle(t, p, q), q).g, n, x)
  {
    hide SpanOk;
  }

  /** The same two cases on the other side. */
  lemma InnerCaseRight(t: Tree, x: RBNode, p: RBNode, q: RBNode)
    requires InsInv(t, x) && p in t.g && q in t.g && t.g[p].red && t.g[p].left == x && t.g[q].right == p
    ensures InsInv(RotR(t, p), p)
    ensures var g := RotR(t, p).g;
            && g[p].parent == x && g[x].parent == q && g[q].right == x && g[x].right == p
            && g[q].left == t.g[q].left && g[x].red && IsRed(g, g[q].left) == IsRed(t.g, t.g[q].left)
  {
    hide InsInv, RotL;
    MirrorInsInv(t, x);
    MirrorRotate(t, p);
    InnerCase(Mirror(t), x, p, q);
    MirrorInsInv(RotL(Mirror(t), p), p);
    MirrorTwice(RotR(t, p));
  }

  lemma OuterCaseRight(t: Tree, x: RBNode, p: RBNode, q: RBNode)
    requires InsInv(t, x) && p in t.g && q in t.g && t.g[p].red && t.g[p].right == x && t.g[q].right == p
    requires !IsRed(t.g, t.g[q].left)
    ensures p != q && Settle(t, p, q).g[q].right == p && InsInv(RotL(Settle(t, p, q), q), x)
    ensures RotL(Settle(t, p, q), q).g[x].parent == p && !RotL(Settle(t, p, q), q).g[p].red
  {
    hide InsInv, RotL;
    MirrorInsInv(t, x);
    OuterCase(Mirror(t), x, p, q);
    MirrorSettle(t, p, q);
    MirrorRotateBack(Settle(t, p, q), q);
    MirrorInsInv(RotR(Mirror(Settle(t, p, q)), q), x);
  }

  lemma MirrorSettle(t: Tree, p: RBNode, q: RBNode)
    requires p in t.g && q in t.g && t.g[q].right == p
    ensures Settle(Mirror(t), p, q) == Mirror(Settle(t, p, q))
    ensures Settle(t, p, q).g[q].right == p
  {
    MirrorPaints(t, p, q);
  }

  lemma InsShape(t: Tree, x: RBNode)
    requires InsInv(t, x)
    ensures Shape(t) && x in t.g
  {
  }

  lemma InsLinks(t: Tree, n: RBNode, x: RBNode)
    requires InsInv(t, x) && n in t.g
    ensures LinkOk(t.g, n) && t.root != null && t.root in t.g
    ensures t.g[n].left != null ==> t.g[n].left != t.g[n].right
  {
    ShapeAt(t, n);
    if t.g[n].left != null {
      Near(t, n, t.g[n].left);
    }
  }

  lemma SettleShape(t: Tree, x: RBNode, p: RBNode, q: RBNode)
    requires InsInv(t, x) && p in t.g && q in t.g && p != q
    ensures Shape(Settle(t, p, q))
    ensures Settle(t, p, q).g[q].left == t.g[q].left && Settle(t, p, q).g[q].right == t.g[q].right
  {
    assert Repainted(t, Settle(t, p, q));
    RepaintedShape(t, Settle(t, p, q));
  }

  /** How much of the tree lies outside the red parent of `x`; 0 when it has none. */
  ghost function Trouble(t: Tree, x: RBNode): int
    requires x in t.g
  {
    if IsRed(t.g, t.g[x].parent) then |t.nodes| - (t.g[t.g[x].parent].hi - t.g[t.g[x].parent].lo) + 1 else 0
  }

  lemma NoTrouble(t: Tree, x: RBNode, p: RBNode)
    requires x in t.g && t.g[x].parent == p && p in t.g && !t.g[p].red
    ensures Trouble(t, x) == 0
  {
  }

  lemma TroubleBound(t: Tree, x: RBNode)
    requires InsInv(t, x) && x in t.g && IsRed(t.g, t.g[x].parent)
    ensures Trouble(t, x) > 0
  {
    ShapeAt(t, t.g[x].parent);
  }

  /** After repainting, the trouble is higher up or gone. */
  lemma RecolorProgress(t: Tree, x: RBNode, p: RBNode, u: RBNode, q: RBNode)
    requires InsInv(t, x) && t.g[x].parent == p && p in t.g && t.g[p].red && t.g[p].parent == q && q in t.g && u in t.g
    ensures Trouble(Recolor(t, p, u, q), q) < Trouble(t, x)
  {
    TroubleBound(t, x);
    ShapeAt(t, p);
    ShapeAt(t, q);
    var w := t.g[q].parent;
    if w != null {
      ShapeAt(t, w);
    }
  }

  /** The place a new child of `p` takes in key order. */
  ghost function LeafPlace(t: Tree, p: RBNode?, left: bool): int {
    if p !in t.g then 0 else if left then t.g[p].pos else t.g[p].pos + 1
  }

  /** Places from `k` on move up by one; a left child's place is where its parent's was. */
  ghost function Shifted(c: Cell, k: int, left: bool): Cell {
    c.(pos := if c.pos >= k then c.pos + 1 else c.pos,
       lo := if c.lo > k || (c.lo == k && !left) then c.lo + 1 else c.lo,
       hi := if c.hi > k || (c.hi == k && !left) then c.hi + 1 else c.hi)
  }

  ghost function LeafCell(t: Tree, e: RBNode, p: RBNode?, left: bool, n: RBNode): Cell
    requires n == e || n in t.g
  {
    var k := LeafPlace(t, p, left);
    if n == e then Cell(null, null, p, true, k, k, k + 1, 0)
    else
      var c := Shifted(t.g[n], k, left);
      if n != p then c else if left then c.(left := e) else c.(right := e)
  }

  /** `ns` with `e` put in at place `k`. */
  function With(ns: seq<RBNode>, k: int, e: RBNode): seq<RBNode>
    requires 0 <= k <= |ns|
  {
    ns[..k] + [e] + ns[k..]
  }

  /** `t` with the red leaf `e` hung under `p`, or alone in an empty tree. */
  ghost function AddLeaf(t: Tree, e: RBNode, p: RBNode?, left: bool): Tree
    requires 0 <= LeafPlace(t, p, left) <= |t.nodes|
  {
    var k := LeafPlace(t, p, left);
    Tree(map n | n in t.g.Keys + {e} :: LeafCell(t, e, p, left, n),
         if p == null then e else t.root,
         With(t.nodes, k, e))
  }

  /** The place under `p` is free. */
  ghost predicate FreePlace(t: Tree, p: RBNode?, left: bool) {
    if p == null then t.root == null
    else p in t.g && (if left then t.g[p].left else t.g[p].right) == null
  }

  lemma LeafNode(t: Tree, e: RBNode, p: RBNode?, left: bool, n: RBNode)
    requires n in t.g && NodeOk(t, n) && (p != null ==> p in t.g && NodeOk(t, p)) && e !in t.g && FreePlace(t, p, left)
    requires p == null ==> t.nodes == []
    ensures NodeOk(AddLeaf(t, e, p, left), n)
  {
    LeafLink(t, e, p, left, n);
    LeafSpan(t, e, p, left, n);
    hide LinkOk, SpanOk;
  }

  lemma LeafLink(t: Tree, e: RBNode, p: RBNode?, left: bool, n: RBNode)
    requires n in t.g && NodeOk(t, n) && (p != null ==> p in t.g && NodeOk(t, p)) && e !in t.g && FreePlace(t, p, left)
    requires p == null ==> t.nodes == []
    ensures LinkOk(AddLeaf(t, e, p, left).g, n)
  {
    hide SpanOk;
  }

  lemma LeafSpan(t: Tree, e: RBNode, p: RBNode?, left: bool, n: RBNode)
    requires n in t.g && NodeOk(t, n) && (p != null ==> p in t.g && NodeOk(t, p)) && e !in t.g && FreePlace(t, p, left)
    requires p == null ==> t.nodes == []
    requires LinkOk(AddLeaf(t, e, p, left).g, n)
    ensures SpanOk(AddLeaf(t, e, p, left).g, n)
  {
  }

  lemma LeafItself(t: Tree, e: RBNode, p: RBNode?, left: bool)
    requires (p != null ==> p in t.g && NodeOk(t, p)) && e !in t.g && FreePlace(t, p, left)
    requires p == null ==> t.nodes == []
    requires p != null ==> t.root != null && t.root in t.g
    ensures NodeOk(AddLeaf(t, e, p, left), e)
  {
  }

  lemma AddLeafShape(t: Tree, e: RBNode, p: RBNode?, left: bool)
    requires Shape(t) && e !in t.g && FreePlace(t, p, left)
    ensures 0 <= LeafPlace(t, p, left) <= |t.nodes| && Shape(AddLeaf(t, e, p, left))
  {
    hide NodeOk, LinkOk, SpanOk;
    if p != null {
      PlaceBound(t, p);
    }
    var r := AddLeaf(t, e, p, left);
    forall n | n in r.g
      ensures NodeOk(r, n)
    {
      if p != null {
        ShapeAt(t, p);
      }
      if n == e {
        LeafItself(t, e, p, left);
      } else {
        ShapeAt(t, n);
        LeafNode(t, e, p, left, n);
      }
    }
    var k := LeafPlace(t, p, left);
    forall i | 0 <= i < |r.nodes|
      ensures PlaceOk(r, i)
    {
      assert i < k ==> PlaceOk(t, i);
      assert i > k ==> PlaceOk(t, i - 1);
    }
    assert forall n | n in t.nodes :: n in t.nodes[..k] || n in t.nodes[k..];
  }

  lemma PlaceBound(t: Tree, p: RBNode)
    requires Shape(t) && p in t.g
    ensures 0 <= t.g[p].pos < |t.nodes|
  {
    ShapeAt(t, p);
  }

  lemma LeafSorted(ns: seq<RBNode>, e: RBNode, k: nat)
    requires Sorted(ns) && k <= |ns|
    requires forall i | 0 <= i < k :: ns[i].key < e.key
    requires forall i | k <= i < |ns| :: e.key < ns[i].key
    ensures Sorted(With(ns, k, e))
  {
  }

  /** A new red leaf in its place: a search tree, with trouble at most at the leaf. */
  lemma AddLeafInv(t: Tree, e: RBNode, p: RBNode?, left: bool)
    requires Valid(t) && e !in t.g && FreePlace(t, p, left)
    ensures 0 <= LeafPlace(t, p, left) <= |t.nodes| && InsInv(AddLeaf(t, e, p, left), e)
  {
    hide NodeOk, LinkOk, SpanOk, InsNode, Good;
    AddLeafShape(t, e, p, left);
    var r := AddLeaf(t, e, p, left);
    forall n | n in r.g
      ensures NodeOk(r, n) && LinkOk(r.g, n) && InsNode(r.g, n, e)
    {
      ShapeAt(r, n);
      if n != e {
        ValidAt(t, n);
      }
      LeafBalanced(t, e, p, left, n);
    }
    LeafRoot(t, e, p, left);
  }

  lemma LeafBalanced(t: Tree, e: RBNode, p: RBNode?, left: bool, n: RBNode)
    requires e !in t.g && FreePlace(t, p, left) && 0 <= LeafPlace(t, p, left) <= |t.nodes|
    requires n in AddLeaf(t, e, p, left).g && LinkOk(AddLeaf(t, e, p, left).g, n)
    requires n != e ==> n in t.g && LinkOk(t.g, n) && Good(t.g, n)
    ensures InsNode(AddLeaf(t, e, p, left).g, n, e)
  {
  }

  lemma LeafRoot(t: Tree, e: RBNode, p: RBNode?, left: bool)
    requires e !in t.g && 0 <= LeafPlace(t, p, left) <= |t.nodes| && !IsRed(t.g, t.root) && (p != null ==> t.root in t.g)
    ensures var r := AddLeaf(t, e, p, left); r.g[e].red && (r.root != e ==> !IsRed(r.g, r.root))
  {
  }

  /** The loop has ended: painting the root black leaves a red-black tree. */
  lemma Finish(t: Tree, x: RBNode, bh: int)
    requires InsInv(t, x) && Sorted(t.nodes) && !IsRed(t.g, t.g[x].parent) && t.root in t.g
    requires bh == t.g[t.root].bh + (1 - Own(t.g[t.root].red))
    ensures Valid(Paint(t, t.root, false, bh))
  {
    hide NodeOk, SpanOk;
    var r := Paint(t, t.root, false, bh);
    assert Repainted(t, r);
    RepaintedShape(t, r);
    forall n | n in r.g
      ensures NodeOk(r, n) && LinkOk(r.g, n) && Good(r.g, n)
    {
      InsAt(t, x, n);
      RepaintedNode(t, r, n);
      RootHasNoParent(t, n);
    }
  }

  lemma RootHasNoParent(t: Tree, n: RBNode)
    requires Shape(t) && n in t.g && LinkOk(t.g, n)
    ensures t.g[n].left == null || t.g[n].left != t.root
    ensures t.g[n].right == null || t.g[n].right != t.root
  {
    if t.root != null {
      ShapeAt(t, t.root);
    }
  }
}
