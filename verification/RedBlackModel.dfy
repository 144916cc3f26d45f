/** The red-black tree of tree.h as a value: what every node's fields hold, and
    which arrangements of them are red-black trees. */
module RedBlackModel {

  class RBNode {
    var left: RBNode?
    var right: RBNode?
    var parent: RBNode?
    var red: bool
    /** What the caller's comparison function looks at. */
    const key: int
    /** The node's place in key order, and the range of places its subtree takes. */
    ghost var pos: int
    ghost var lo: int
    ghost var hi: int
    /** The number of black nodes on every path from here down, this one included. */
    ghost var bh: int

    constructor (key: int)
      ensures this.key == key
    {
      this.key := key;
    }
  }

  /** The contents of one node. */
  datatype Cell = Cell(left: RBNode?, right: RBNode?, parent: RBNode?, red: bool, pos: int, lo: int, hi: int, bh: int)

  type Graph = map<RBNode, Cell>

  /** A whole tree: its nodes' contents, its root pointer, its nodes in key order. */
  datatype Tree = Tree(g: Graph, root: RBNode?, nodes: seq<RBNode>)

  /** The links of `n` lead to nodes that link back. */
  ghost predicate LinkOk(g: Graph, n: RBNode)
    requires n in g
  {
    var c := g[n];
    && (c.left != null ==> c.left in g && g[c.left].parent == n)
    && (c.right != null ==> c.right in g && g[c.right].parent == n)
    && (c.parent != null ==> c.parent in g && (g[c.parent].left == n || g[c.parent].right == n))
  }

  /** The left subtree takes the places before the node, the right one those after. */
  ghost predicate SpanOk(g: Graph, n: RBNode)
    requires n in g && LinkOk(g, n)
  {
    var c := g[n];
    && c.lo <= c.pos < c.hi
    && (if c.left == null then c.lo == c.pos else g[c.left].lo == c.lo && g[c.left].hi == c.pos)
    && (if c.right == null then c.hi == c.pos + 1 else g[c.right].lo == c.pos + 1 && g[c.right].hi == c.hi)
  }

  /** `n` is linked and placed as a node of one tree in key order must be. */
  ghost predicate NodeOk(t: Tree, n: RBNode)
    requires n in t.g
  {
    && LinkOk(t.g, n) && SpanOk(t.g, n)
    && (t.g[n].parent == null <==> n == t.root)
    && 0 <= t.g[n].lo && t.g[n].hi <= |t.nodes|
    && 0 <= t.g[n].pos < |t.nodes| && t.nodes[t.g[n].pos] == n
  }

  /** The links form one tree whose in-order traversal is `nodes`. */
  ghost predicate Shape(t: Tree) {
    && t.g.Keys == (set n | n in t.nodes)
    && (forall n {:trigger NodeOk(t, n)} | n in t.g :: NodeOk(t, n))
    && (forall i | 0 <= i < |t.nodes| :: PlaceOk(t, i))
    && (if t.root == null then t.nodes == []
        else t.root in t.g && t.g[t.root].lo == 0 && t.g[t.root].hi == |t.nodes|)
  }

  ghost predicate PlaceOk(t: Tree, i: nat)
    requires i < |t.nodes|
  {
    t.nodes[i] in t.g && t.g[t.nodes[i]].pos == i
  }

  function Sub(n: RBNode?, a: RBNode, b: RBNode?): RBNode? {
    if n == a then b else n
  }

  /** The cell of `n` after a left rotation at `elm`, whose right child is `tmp`. */
  ghost function LeftCell(g: Graph, elm: RBNode, tmp: RBNode, n: RBNode): Cell
    requires elm in g && tmp in g && n in g
  {
    var c := g[n];
    if n == elm then c.(right := g[tmp].left, parent := tmp, hi := g[tmp].pos)
    else if n == tmp then c.(left := elm, parent := g[elm].parent, lo := g[elm].lo)
    else c.(left := Sub(c.left, elm, tmp), right := Sub(c.right, elm, tmp),
            parent := if n == g[tmp].left then elm else c.parent)
  }

  ghost function RightCell(g: Graph, elm: RBNode, tmp: RBNode, n: RBNode): Cell
    requires elm in g && tmp in g && n in g
  {
    var c := g[n];
    if n == elm then c.(left := g[tmp].right, parent := tmp, lo := g[tmp].pos + 1)
    else if n == tmp then c.(right := elm, parent := g[elm].parent, hi := g[elm].hi)
    else c.(left := Sub(c.left, elm, tmp), right := Sub(c.right, elm, tmp),
            parent := if n == g[tmp].right then elm else c.parent)
  }

  /** The tree after a left rotation at `elm`. */
  ghost function RotL(t: Tree, elm: RBNode): Tree
    requires elm in t.g && t.g[elm].right in t.g
  {
    var tmp: RBNode := t.g[elm].right;
    t.(g := map n | n in t.g :: LeftCell(t.g, elm, tmp, n), root := Sub(t.root, elm, tmp))
  }

  ghost function RotR(t: Tree, elm: RBNode): Tree
    requires elm in t.g && t.g[elm].left in t.g
  {
    var tmp: RBNode := t.g[elm].left;
    t.(g := map n | n in t.g :: RightCell(t.g, elm, tmp, n), root := Sub(t.root, elm, tmp))
  }

  /** A node, its parent, its grandparent and its children are different nodes. */
  ghost predicate Apart(g: Graph, p: RBNode, c: RBNode)
    requires p in g && c in g
  {
    && p != c && (g[p].left == c <==> g[p].right != c)
    && g[p].parent != p && g[p].parent != c && g[c].left != p && g[c].right != p
    && g[c].left != c && g[c].right != c
    && (g[p].parent != null ==> g[c].left != g[p].parent && g[c].right != g[p].parent)
    && (g[c].left != null ==> g[c].left != g[c].right)
  }

  lemma Near(t: Tree, p: RBNode, c: RBNode)
    requires Shape(t) && p in t.g && c in t.g && t.g[c].parent == p
    ensures Apart(t.g, p, c) && NodeOk(t, p) && NodeOk(t, c)
  {
    assert NodeOk(t, p) && NodeOk(t, c);
    var q := t.g[p].parent;
    if q != null {
      assert NodeOk(t, q);
    }
  }

  lemma RotLShape(t: Tree, elm: RBNode)
    requires Shape(t) && elm in t.g && t.g[elm].right != null
    ensures t.g[elm].right in t.g && Shape(RotL(t, elm))
  {
    assert NodeOk(t, elm);
    var tmp: RBNode := t.g[elm].right;
    Near(t, elm, tmp);
    var r := RotL(t, elm);
    forall n | n in t.g
      ensures NodeOk(r, n)
    {
      assert NodeOk(t, n);
      RotLLink(t, elm, tmp, n);
      RotLSpan(t, elm, tmp, n);
    }
    forall i | 0 <= i < |t.nodes|
      ensures PlaceOk(r, i)
    {
      assert PlaceOk(t, i);
    }
  }

  lemma RotLLink(t: Tree, elm: RBNode, tmp: RBNode, n: RBNode)
    requires elm in t.g && tmp in t.g && n in t.g && t.g[elm].right == tmp
    requires NodeOk(t, elm) && NodeOk(t, tmp) && NodeOk(t, n) && Apart(t.g, elm, tmp)
    ensures LinkOk(RotL(t, elm).g, n)
    ensures RotL(t, elm).g[n].parent == null <==> n == RotL(t, elm).root
  {
    hide SpanOk;
    if n == elm || n == tmp {
      RotLLinkMoved(t, elm, tmp, n);
    } else {
      RotLLinkOther(t, elm, tmp, n);
    }
  }

  lemma RotLLinkMoved(t: Tree, elm: RBNode, tmp: RBNode, n: RBNode)
    requires elm in t.g && tmp in t.g && n in t.g && t.g[elm].right == tmp
    requires NodeOk(t, elm) && NodeOk(t, tmp) && NodeOk(t, n) && Apart(t.g, elm, tmp)
    requires n == elm || n == tmp
    ensures LinkOk(RotL(t, elm).g, n)
    ensures RotL(t, elm).g[n].parent == null <==> n == RotL(t, elm).root
  {
    hide SpanOk;
  }

  lemma RotLLinkOther(t: Tree, elm: RBNode, tmp: RBNode, n: RBNode)
    requires elm in t.g && tmp in t.g && n in t.g && t.g[elm].right == tmp
    requires NodeOk(t, elm) && NodeOk(t, tmp) && NodeOk(t, n) && Apart(t.g, elm, tmp)
    requires n != elm && n != tmp
    ensures LinkOk(RotL(t, elm).g, n)
    ensures RotL(t, elm).g[n].parent == null <==> n == RotL(t, elm).root
  {
    hide SpanOk;
  }

  lemma RotLSpan(t: Tree, elm: RBNode, tmp: RBNode, n: RBNode)
    requires elm in t.g && tmp in t.g && n in t.g && t.g[elm].right == tmp
    requires NodeOk(t, elm) && NodeOk(t, tmp) && NodeOk(t, n) && Apart(t.g, elm, tmp)
    requires LinkOk(RotL(t, elm).g, n)
    ensures SpanOk(RotL(t, elm).g, n)
  {
    if n == elm || n == tmp {
      RotLSpanMoved(t, elm, tmp, n);
    } else {
      RotLSpanOther(t, elm, tmp, n);
    }
  }

  lemma RotLSpanMoved(t: Tree, elm: RBNode, tmp: RBNode, n: RBNode)
    requires elm in t.g && tmp in t.g && n in t.g && t.g[elm].right == tmp
    requires NodeOk(t, elm) && NodeOk(t, tmp) && NodeOk(t, n) && Apart(t.g, elm, tmp)
    requires LinkOk(RotL(t, elm).g, n) && (n == elm || n == tmp)
    ensures SpanOk(RotL(t, elm).g, n)
  {
  }

  lemma RotLSpanOther(t: Tree, elm: RBNode, tmp: RBNode, n: RBNode)
    requires elm in t.g && tmp in t.g && n in t.g && t.g[elm].right == tmp
    requires NodeOk(t, elm) && NodeOk(t, tmp) && NodeOk(t, n) && Apart(t.g, elm, tmp)
    requires LinkOk(RotL(t, elm).g, n) && n != elm && n != tmp
    ensures SpanOk(RotL(t, elm).g, n)
  {
  }

  /** Left and right exchanged everywhere. */
  ghost function MirrorCell(c: Cell, len: int): Cell {
    c.(left := c.right, right := c.left, pos := len - 1 - c.pos, lo := len - c.hi, hi := len - c.lo)
  }

  function Reverse(ns: seq<RBNode>): (r: seq<RBNode>)
    ensures |r| == |ns| && forall i | 0 <= i < |ns| :: r[i] == ns[|ns| - 1 - i]
  {
    seq(|ns|, i requires 0 <= i < |ns| => ns[|ns| - 1 - i])
  }

  ghost function Mirror(t: Tree): Tree {
    Tree(map n | n in t.g :: MirrorCell(t.g[n], |t.nodes|), t.root, Reverse(t.nodes))
  }

  lemma MirrorTwice(t: Tree)
    ensures Mirror(Mirror(t)) == t
  {
    assert Reverse(Reverse(t.nodes)) == t.nodes;
    assert Mirror(Mirror(t)).g == t.g;
  }

  lemma MirrorShape(t: Tree)
    requires Shape(t)
    ensures Shape(Mirror(t))
  {
    hide NodeOk, LinkOk, SpanOk;
    var m := Mirror(t);
    ReverseSame(t.nodes);
    if t.root != null {
      MirrorRoot(t);
    }
    forall n | n in m.g
      ensures NodeOk(m, n)
    {
      assert NodeOk(t, n);
      MirrorNode(t, n);
    }
    forall i | 0 <= i < |m.nodes|
      ensures PlaceOk(m, i)
    {
      assert PlaceOk(t, |m.nodes| - 1 - i);
    }
  }

  lemma MirrorRoot(t: Tree)
    requires t.root in t.g && t.g[t.root].lo == 0 && t.g[t.root].hi == |t.nodes|
    ensures Mirror(t).root in Mirror(t).g
    ensures Mirror(t).g[t.root].lo == 0 && Mirror(t).g[t.root].hi == |t.nodes|
  {
  }

  lemma ReverseSame(ns: seq<RBNode>)
    ensures (set n | n in Reverse(ns)) == (set n | n in ns)
  {
    var r := Reverse(ns);
    forall n | n in ns
      ensures n in r
    {
      var i :| 0 <= i < |ns| && ns[i] == n;
      assert r[|ns| - 1 - i] == n;
    }
  }

  lemma MirrorNode(t: Tree, n: RBNode)
    requires n in t.g && NodeOk(t, n)
    ensures NodeOk(Mirror(t), n)
  {
  }

  /** A right rotation is a left rotation in the mirror. */
  lemma MirrorRotate(t: Tree, elm: RBNode)
    requires elm in t.g && t.g[elm].left in t.g
    ensures elm in Mirror(t).g && Mirror(t).g[elm].right in Mirror(t).g
    ensures Mirror(RotR(t, elm)) == RotL(Mirror(t), elm)
  {
    var m := Mirror(t);
    var tmp: RBNode := t.g[elm].left;
    forall n | n in t.g
      ensures Mirror(RotR(t, elm)).g[n] == RotL(m, elm).g[n]
    {
    }
  }

  lemma MirrorRotateBack(t: Tree, elm: RBNode)
    requires elm in t.g && t.g[elm].right in t.g
    ensures elm in Mirror(t).g && Mirror(t).g[elm].left in Mirror(t).g
    ensures RotL(t, elm) == Mirror(RotR(Mirror(t), elm))
  {
    MirrorRotate(Mirror(t), elm);
    MirrorTwice(t);
  }

  lemma RotRShape(t: Tree, elm: RBNode)
    requires Shape(t) && elm in t.g && t.g[elm].left != null
    ensures t.g[elm].left in t.g && Shape(RotR(t, elm))
  {
    assert NodeOk(t, elm);
    MirrorShape(t);
    MirrorRotate(t, elm);
    RotLShape(Mirror(t), elm);
    MirrorShape(RotL(Mirror(t), elm));
    MirrorTwice(RotR(t, elm));
  }

  ghost function Bh(g: Graph, n: RBNode?): int {
    if n in g then g[n].bh else 0
  }

  ghost predicate IsRed(g: Graph, n: RBNode?) {
    n in g && g[n].red
  }

  function Own(red: bool): int {
    if red then 0 else 1
  }

  /** Both sides of `n` have the same number of black nodes. */
  ghost predicate BalOk(g: Graph, n: RBNode)
    requires n in g && LinkOk(g, n)
  {
    var c := g[n];
    0 <= Bh(g, c.left) == Bh(g, c.right) && c.bh == Bh(g, c.left) + Own(c.red)
  }

  /** No red node under a red node. */
  ghost predicate ColOk(g: Graph, n: RBNode)
    requires n in g && LinkOk(g, n)
  {
    !(g[n].red && IsRed(g, g[n].parent))
  }

  /** `n` repainted, with its new black count. */
  ghost function Paint(t: Tree, n: RBNode, red: bool, bh: int): Tree
    requires n in t.g
  {
    t.(g := t.g[n := t.g[n].(red := red, bh := bh)])
  }

  /** RB_SET_BLACKRED before a rotation that puts `p` above `q`. */
  ghost function Settle(t: Tree, p: RBNode, q: RBNode): Tree
    requires p in t.g && q in t.g
  {
    Paint(Paint(t, p, false, t.g[p].bh + 1), q, true, t.g[q].bh - 1)
  }

  /** Only colours and black counts differ. */
  ghost predicate Repainted(t: Tree, r: Tree) {
    && r.root == t.root && r.nodes == t.nodes && r.g.Keys == t.g.Keys
    && forall n {:trigger r.g[n]} | n in t.g :: r.g[n] == t.g[n].(red := r.g[n].red, bh := r.g[n].bh)
  }

  lemma RepaintedShape(t: Tree, r: Tree)
    requires Shape(t) && Repainted(t, r)
    ensures Shape(r)
  {
    hide NodeOk, LinkOk, SpanOk;
    forall n | n in r.g
      ensures NodeOk(r, n)
    {
      assert NodeOk(t, n);
      RepaintedNode(t, r, n);
    }
    forall i | 0 <= i < |t.nodes|
      ensures PlaceOk(r, i)
    {
      assert PlaceOk(t, i);
    }
  }

  lemma RepaintedNode(t: Tree, r: Tree, n: RBNode)
    requires Repainted(t, r) && n in t.g && NodeOk(t, n)
    ensures NodeOk(r, n) && LinkOk(r.g, n)
  {
    RepaintedLink(t, r, n);
  }

  lemma RepaintedLink(t: Tree, r: Tree, n: RBNode)
    requires Repainted(t, r) && n in t.g && LinkOk(t.g, n)
    ensures LinkOk(r.g, n)
  {
  }

  ghost predicate Sorted(ns: seq<RBNode>) {
    forall i, j | 0 <= i < j < |ns| :: ns[i].key < ns[j].key
  }

  ghost predicate Good(g: Graph, n: RBNode)
    requires n in g && LinkOk(g, n)
  {
    BalOk(g, n) && ColOk(g, n)
  }

  /** A red-black search tree: linked, in key order, balanced, coloured, black at the root. */
  ghost predicate Valid(t: Tree) {
    && Shape(t) && Sorted(t.nodes)
    && (forall n {:trigger Good(t.g, n)} | n in t.g :: NodeOk(t, n) && Good(t.g, n))
    && !IsRed(t.g, t.root)
  }

  lemma ValidAt(t: Tree, n: RBNode)
    requires Valid(t) && n in t.g
    ensures NodeOk(t, n) && LinkOk(t.g, n) && Good(t.g, n)
  {
  }

  lemma ShapeAt(t: Tree, n: RBNode)
    requires Shape(t) && n in t.g
    ensures NodeOk(t, n) && LinkOk(t.g, n)
  {
  }

  lemma MirrorPaints(t: Tree, a: RBNode, b: RBNode)
    requires a in t.g && b in t.g
    ensures a in Mirror(t).g && b in Mirror(t).g && Settle(Mirror(t), a, b) == Mirror(Settle(t, a, b))
  {
    hide Paint, Mirror;
    MirrorPaint(t, a, false, t.g[a].bh + 1);
    MirrorPaint(Paint(t, a, false, t.g[a].bh + 1), b, true, t.g[b].bh - 1);
  }

  lemma MirrorPaint(t: Tree, n: RBNode, red: bool, bh: int)
    requires n in t.g
    ensures n in Mirror(t).g && Paint(Mirror(t), n, red, bh) == Mirror(Paint(t, n, red, bh))
    ensures Mirror(t).g.Keys == t.g.Keys == Paint(t, n, red, bh).g.Keys
    ensures forall k | k in t.g :: Mirror(t).g[k].red == t.g[k].red && Mirror(t).g[k].bh == t.g[k].bh
  {
    assert Paint(Mirror(t), n, red, bh).g == Mirror(Paint(t, n, red, bh)).g;
  }
}
