/** The pointers of a splay tree while it is taken apart and joined again: nodes' fields as a
    map of cells, and what each write does to the three trees linked by them. */
module SplayLinks {
  import opened Basics
  import opened SplayModel

  datatype Cell = Cell(left: SplayNode?, right: SplayNode?)

  type Graph = map<SplayNode, Cell>

  /** From `p` the cells form `t`. */
  ghost predicate Shape(g: Graph, p: SplayNode?, t: Tree) {
    match t
    case Leaf => p == null
    case Node(l, n, r) => p == n && n in g && Shape(g, g[n].left, l) && Shape(g, g[n].right, r)
  }

  /** The end of a spine below the header `top`. */
  function Last(top: SplayNode, fs: seq<Frame>): SplayNode {
    if fs == [] then top else fs[|fs| - 1].n
  }

  /** From `top` the frames' nodes hang on each other's right, their subtrees on their left. */
  ghost predicate LeftSpine(g: Graph, top: SplayNode, fs: seq<Frame>)
    decreases |fs|
  {
    fs == [] ||
    var f, front := fs[|fs| - 1], fs[..|fs| - 1];
    && f.n in g && Shape(g, g[f.n].left, f.sub)
    && Last(top, front) in g && g[Last(top, front)].right == f.n
    && LeftSpine(g, top, front)
  }

  ghost predicate RightSpine(g: Graph, top: SplayNode, fs: seq<Frame>)
    decreases |fs|
  {
    fs == [] ||
    var f, front := fs[|fs| - 1], fs[..|fs| - 1];
    && f.n in g && Shape(g, g[f.n].right, f.sub)
    && Last(top, front) in g && g[Last(top, front)].left == f.n
    && RightSpine(g, top, front)
  }

  /** The three trees in the heap, on nodes all different and different from the header. */
  ghost predicate Linked(g: Graph, root: SplayNode?, top: SplayNode, z: Zip) {
    && z.mid.Node? && Shape(g, root, z.mid)
    && top in g && LeftSpine(g, top, z.left) && RightSpine(g, top, z.right)
    && top !in ZipOrder(z) && Distinct(ZipOrder(z))
  }

  lemma ShapeNode(g: Graph, p: SplayNode?, t: Tree)
    requires Shape(g, p, t) && t.Node?
    ensures p == t.n && t.n in g && Shape(g, g[t.n].left, t.left) && Shape(g, g[t.n].right, t.right)
  {
  }

  lemma {:induction false} ShapeFrame(g: Graph, p: SplayNode?, t: Tree, x: SplayNode, c: Cell)
    requires Shape(g, p, t) && x !in InOrder(t)
    ensures Shape(g[x := c], p, t)
  {
    match t
    case Leaf =>
    case Node(l, n, r) =>
      ShapeFrame(g, g[n].left, l, x, c);
      ShapeFrame(g, g[n].right, r, x, c);
  }

  /** A write outside the frames, or to the other field of the header. */
  lemma {:induction false} LeftFrame(g: Graph, top: SplayNode, fs: seq<Frame>, x: SplayNode, c: Cell)
    requires LeftSpine(g, top, fs) && x !in LeftOrder(fs) && (x == top && x in g ==> c.right == g[x].right)
    ensures LeftSpine(g[x := c], top, fs)
    decreases |fs|
  {
    if fs != [] {
      var f, front := fs[|fs| - 1], fs[..|fs| - 1];
      ShapeFrame(g, g[f.n].left, f.sub, x, c);
      LeftFrame(g, top, front, x, c);
      LastIn(top, front);
    }
  }

  lemma {:induction false} RightFrame(g: Graph, top: SplayNode, fs: seq<Frame>, x: SplayNode, c: Cell)
    requires RightSpine(g, top, fs) && x !in RightOrder(fs) && (x == top && x in g ==> c.left == g[x].left)
    ensures RightSpine(g[x := c], top, fs)
    decreases |fs|
  {
    if fs != [] {
      var f, front := fs[|fs| - 1], fs[..|fs| - 1];
      ShapeFrame(g, g[f.n].right, f.sub, x, c);
      RightFrame(g, top, front, x, c);
      LastIn(top, front);
    }
  }

  lemma LastIn(top: SplayNode, fs: seq<Frame>)
    ensures fs != [] ==> Last(top, fs) in LeftOrder(fs) && Last(top, fs) in RightOrder(fs)
    ensures fs == [] ==> Last(top, fs) == top
  {
  }

  /** What distinctness says of a spine's last node. */
  lemma LastApart(top: SplayNode, fs: seq<Frame>)
    requires fs != []
    ensures Distinct(LeftOrder(fs)) ==>
      Last(top, fs) !in LeftOrder(fs[..|fs| - 1]) && Last(top, fs) !in InOrder(fs[|fs| - 1].sub)
    ensures Distinct(RightOrder(fs)) ==>
      Last(top, fs) !in RightOrder(fs[..|fs| - 1]) && Last(top, fs) !in InOrder(fs[|fs| - 1].sub)
  {
    hide Distinct, InOrder;
    var f, front := fs[|fs| - 1], fs[..|fs| - 1];
    var a, b, c := LeftOrder(front), InOrder(f.sub), RightOrder(front);
    SpineOrders(fs);
    hide LeftOrder, RightOrder;
    EndOf(a, b, f.n);
    StartOf(f.n, b, c);
  }

  lemma SpineOrders(fs: seq<Frame>)
    requires fs != []
    ensures var f, front := fs[|fs| - 1], fs[..|fs| - 1];
      && LeftOrder(fs) == LeftOrder(front) + (InOrder(f.sub) + [f.n])
      && RightOrder(fs) == [f.n] + InOrder(f.sub) + RightOrder(front)
  {
    hide InOrder;
  }

  lemma EndOf(a: seq<SplayNode>, b: seq<SplayNode>, x: SplayNode)
    ensures Distinct(a + (b + [x])) ==> x !in a && x !in b
  {
    if Distinct(a + (b + [x])) {
      assert a + (b + [x]) == (a + b) + [x] + [];
      Middle(a + b, x, []);
    }
  }

  lemma StartOf(x: SplayNode, b: seq<SplayNode>, c: seq<SplayNode>)
    ensures Distinct([x] + b + c) ==> x !in c && x !in b
  {
    if Distinct([x] + b + c) {
      assert [x] + b + c == [] + [x] + (b + c);
      Middle([], x, b + c);
    }
  }

  lemma Middle(a: seq<SplayNode>, x: SplayNode, b: seq<SplayNode>)
    requires Distinct(a + [x] + b)
    ensures x !in a && x !in b && Distinct(a) && Distinct(b)
    ensures forall y :: y in a ==> y !in b
  {
    var s := a + [x] + b;
    assert s[|a|] == x;
    forall i | 0 <= i < |a| ensures a[i] != x && a[i] !in b {
      assert s[i] == a[i];
      forall j | 0 <= j < |b| ensures a[i] != b[j] { assert s[|a| + 1 + j] == b[j]; }
    }
    forall j | 0 <= j < |b| ensures b[j] != x { assert s[|a| + 1 + j] == b[j]; }
    assert forall i :: 0 <= i < |a| ==> a[i] == s[i];
    assert forall j :: 0 <= j < |b| ==> b[j] == s[|a| + 1 + j];
  }

  /** A write to the open end of the spine. */
  lemma LeftEnd(g: Graph, top: SplayNode, fs: seq<Frame>, c: Cell)
    requires LeftSpine(g, top, fs) && top !in LeftOrder(fs) && Distinct(LeftOrder(fs))
    requires Last(top, fs) in g && c.left == g[Last(top, fs)].left
    ensures LeftSpine(g[Last(top, fs) := c], top, fs)
  {
    if fs != [] {
      var f, front := fs[|fs| - 1], fs[..|fs| - 1];
      LastApart(top, fs);
      LastIn(top, front);
      LastIn(top, fs);
      ShapeFrame(g, g[f.n].left, f.sub, f.n, c);
      LeftFrame(g, top, front, f.n, c);
    }
  }

  lemma RightEnd(g: Graph, top: SplayNode, fs: seq<Frame>, c: Cell)
    requires RightSpine(g, top, fs) && top !in RightOrder(fs) && Distinct(RightOrder(fs))
    requires Last(top, fs) in g && c.right == g[Last(top, fs)].right
    ensures RightSpine(g[Last(top, fs) := c], top, fs)
  {
    if fs != [] {
      var f, front := fs[|fs| - 1], fs[..|fs| - 1];
      LastApart(top, fs);
      LastIn(top, front);
      LastIn(top, fs);
      ShapeFrame(g, g[f.n].right, f.sub, f.n, c);
      RightFrame(g, top, front, f.n, c);
    }
  }

  /** A spine whose open end holds a tree is a tree itself. */
  lemma {:induction false} LeftJoined(g: Graph, top: SplayNode, fs: seq<Frame>, hole: Tree)
    requires LeftSpine(g, top, fs) && Last(top, fs) in g && top in g && Shape(g, g[Last(top, fs)].right, hole)
    ensures Shape(g, g[top].right, LeftTree(fs, hole))
    decreases |fs|
  {
    if fs != [] {
      var f, front := fs[|fs| - 1], fs[..|fs| - 1];
      LeftJoined(g, top, front, Node(f.sub, f.n, hole));
    }
  }

  lemma {:induction false} RightJoined(g: Graph, top: SplayNode, fs: seq<Frame>, hole: Tree)
    requires RightSpine(g, top, fs) && Last(top, fs) in g && top in g && Shape(g, g[Last(top, fs)].left, hole)
    ensures Shape(g, g[top].left, RightTree(fs, hole))
    decreases |fs|
  {
    if fs != [] {
      var f, front := fs[|fs| - 1], fs[..|fs| - 1];
      RightJoined(g, top, front, Node(hole, f.n, f.sub));
    }
  }

  /** Which nodes are apart from which. */
  lemma Apart(z: Zip)
    requires z.mid.Node? && Distinct(ZipOrder(z))
    ensures var l, m, r, n := LeftOrder(z.left), InOrder(z.mid), RightOrder(z.right), z.mid.n;
      && Distinct(l) && Distinct(r) && Distinct(m)
      && n !in l && n !in r && n !in InOrder(z.mid.left) && n !in InOrder(z.mid.right)
      && (forall x :: x in l ==> x !in m && x !in r) && (forall x :: x in r ==> x !in m)
      && (forall x :: x in InOrder(z.mid.left) ==> x !in InOrder(z.mid.right))
      && (forall x :: x in l || x in m || x in r <==> x in ZipOrder(z))
  {
    hide Distinct, InOrder, LeftOrder, RightOrder;
    var l, a, b, r, n := LeftOrder(z.left), InOrder(z.mid.left), InOrder(z.mid.right), RightOrder(z.right), z.mid.n;
    NodeOrder(z.mid.left, n, z.mid.right);
    Around(l, a, n, b, r);
    Middle(l + a, n, b + r);
    Halves(l, a);
    Halves(b, r);
    Halves(l + (a + [n] + b), r);
    Halves(l, a + [n] + b);
    assert forall x :: x in a ==> x in l + a;
    assert forall x :: x in b ==> x in b + r;
  }

  lemma Halves(a: seq<SplayNode>, b: seq<SplayNode>)
    requires Distinct(a + b)
    ensures Distinct(a) && Distinct(b) && forall y :: y in a ==> y !in b
  {
    assert forall i :: 0 <= i < |a| ==> a[i] == (a + b)[i];
    assert forall j :: 0 <= j < |b| ==> b[j] == (a + b)[|a| + j];
  }

  function SetLeft(g: Graph, n: SplayNode, x: SplayNode?): Graph
    requires n in g
  {
    g[n := Cell(x, g[n].right)]
  }

  function SetRight(g: Graph, n: SplayNode, x: SplayNode?): Graph
    requires n in g
  {
    g[n := Cell(g[n].left, x)]
  }

  /** The two nodes that a rotation writes to are not in the subtrees it moves. */
  lemma Inner(t: Tree)
    requires t.Node? && Distinct(InOrder(t))
    ensures t.left.Node? ==>
      var y := t.left.n;
      && y in InOrder(t) && t.n in InOrder(t) && y != t.n
      && y !in InOrder(t.left.left) && y !in InOrder(t.left.right) && y !in InOrder(t.right)
      && t.n !in InOrder(t.left.left) && t.n !in InOrder(t.left.right) && t.n !in InOrder(t.right)
    ensures t.right.Node? ==>
      var y := t.right.n;
      && y in InOrder(t) && t.n in InOrder(t) && y != t.n
      && y !in InOrder(t.right.left) && y !in InOrder(t.right.right) && y !in InOrder(t.left)
      && t.n !in InOrder(t.right.left) && t.n !in InOrder(t.right.right) && t.n !in InOrder(t.left)
  {
    hide InOrder, Distinct;
    NodeOrder(t.left, t.n, t.right);
    Middle(InOrder(t.left), t.n, InOrder(t.right));
    if t.left.Node? {
      NodeOrder(t.left.left, t.left.n, t.left.right);
      Middle(InOrder(t.left.left), t.left.n, InOrder(t.left.right));
      assert t.left.n in InOrder(t.left);
    }
    if t.right.Node? {
      NodeOrder(t.right.left, t.right.n, t.right.right);
      Middle(InOrder(t.right.left), t.right.n, InOrder(t.right.right));
      assert t.right.n in InOrder(t.right);
    }
  }

  /** SPLAY_ROTATE_RIGHT on the tree. */
  lemma RotateRightShape(g: Graph, root: SplayNode, t: Tree)
    requires Shape(g, root, t) && t.Node? && t.left.Node? && Distinct(InOrder(t))
    ensures root in g && g[root].left == t.left.n && t.left.n in g
    ensures var y := t.left.n; Shape(SetRight(SetLeft(g, root, g[y].right), y, root), y, RotateRight(t))
  {
    hide Distinct, InOrder;
    var y := t.left.n;
    Inner(t);
    ShapeNode(g, root, t);
    ShapeNode(g, g[root].left, t.left);
    var c := Cell(g[y].right, g[root].right);
    var g1 := g[root := c];
    ShapeFrame(g, g[y].left, t.left.left, root, c);
    ShapeFrame(g, g[y].right, t.left.right, root, c);
    ShapeFrame(g, g[root].right, t.right, root, c);
    var d := Cell(g1[y].left, root);
    ShapeFrame(g1, g1[y].left, t.left.left, y, d);
    ShapeFrame(g1, g1[root].left, t.left.right, y, d);
    ShapeFrame(g1, g1[root].right, t.right, y, d);
    assert Shape(g1[y := d], root, Node(t.left.right, root, t.right));
  }

  lemma RotateLeftShape(g: Graph, root: SplayNode, t: Tree)
    requires Shape(g, root, t) && t.Node? && t.right.Node? && Distinct(InOrder(t))
    ensures root in g && g[root].right == t.right.n && t.right.n in g
    ensures var y := t.right.n; Shape(SetLeft(SetRight(g, root, g[y].left), y, root), y, RotateLeft(t))
  {
    hide Distinct, InOrder;
    var y := t.right.n;
    Inner(t);
    ShapeNode(g, root, t);
    ShapeNode(g, g[root].right, t.right);
    var c := Cell(g[root].left, g[y].left);
    var g1 := g[root := c];
    ShapeFrame(g, g[y].left, t.right.left, root, c);
    ShapeFrame(g, g[y].right, t.right.right, root, c);
    ShapeFrame(g, g[root].left, t.left, root, c);
    var d := Cell(root, g1[y].right);
    ShapeFrame(g1, g1[y].right, t.right.right, y, d);
    ShapeFrame(g1, g1[root].right, t.right.left, y, d);
    ShapeFrame(g1, g1[root].left, t.left, y, d);
    assert Shape(g1[y := d], root, Node(t.left, root, t.right.left));
  }

  /** A rotation of the tree in hand leaves the spines alone. */
  lemma RotateLinked(g: Graph, root: SplayNode, top: SplayNode, z: Zip, x: SplayNode, y: SplayNode, c: Cell, d: Cell, u: Tree)
    requires Linked(g, root, top, z) && x in InOrder(z.mid) && y in InOrder(z.mid)
    requires u.Node? && InOrder(u) == InOrder(z.mid) && Shape(g[x := c][y := d], y, u)
    ensures Linked(g[x := c][y := d], y, top, z.(mid := u))
  {
    hide Shape, Distinct, LeftSpine, RightSpine;
    SameOrder(z, z.(mid := u));
    Apart(z);
    assert x != top && y != top;
    LeftFrame(g, top, z.left, x, c);
    RightFrame(g, top, z.right, x, c);
    LeftFrame(g[x := c], top, z.left, y, d);
    RightFrame(g[x := c], top, z.right, y, d);
  }

  lemma RotateRightLinked(g: Graph, root: SplayNode, top: SplayNode, z: Zip)
    requires Linked(g, root, top, z) && z.mid.left.Node?
    ensures root in g && g[root].left != null && g[root].left in g
    ensures var y := g[root].left;
      Linked(SetRight(SetLeft(g, root, g[y].right), y, root), y, top, z.(mid := RotateRight(z.mid)))
  {
    hide LeftSpine, RightSpine, Distinct;
    RotateOrder(z.mid);
    Apart(z);
    Inner(z.mid);
    RotateRightShape(g, root, z.mid);
    hide Shape, InOrder;
    var y := z.mid.left.n;
    var c := Cell(g[y].right, g[root].right);
    RotateLinked(g, root, top, z, root, y, c, Cell(g[root := c][y].left, root), RotateRight(z.mid));
  }

  lemma RotateLeftLinked(g: Graph, root: SplayNode, top: SplayNode, z: Zip)
    requires Linked(g, root, top, z) && z.mid.right.Node?
    ensures root in g && g[root].right != null && g[root].right in g
    ensures var y := g[root].right;
      Linked(SetLeft(SetRight(g, root, g[y].left), y, root), y, top, z.(mid := RotateLeft(z.mid)))
  {
    hide LeftSpine, RightSpine, Distinct;
    RotateOrder(z.mid);
    Apart(z);
    Inner(z.mid);
    RotateLeftShape(g, root, z.mid);
    hide Shape, InOrder;
    var y := z.mid.right.n;
    var c := Cell(g[root].left, g[y].left);
    RotateLinked(g, root, top, z, root, y, c, Cell(root, g[root := c][y].right), RotateLeft(z.mid));
  }

  /** SPLAY_LINKLEFT */
  lemma LinkLeftLinked(g: Graph, root: SplayNode, top: SplayNode, z: Zip)
    requires Linked(g, root, top, z) && z.mid.left.Node?
    ensures root in g && Last(top, z.right) in g
    ensures Linked(SetLeft(g, Last(top, z.right), root), g[root].left, top, LinkLeft(z))
    ensures Last(top, LinkLeft(z).right) == root
  {
    hide LeftSpine, Distinct, LeftOrder, RightOrder, ZipOrder, InOrder;
    Apart(z);
    LinkLeftOrder(z);
    LastIn(top, z.right);
    LastLinked(g, top, z);
    var e := Last(top, z.right);
    var c := Cell(root, g[e].right);
    EndApart(top, z, e);
    ShapeFrame(g, g[root].left, z.mid.left, e, c);
    ShapeFrame(g, g[root].right, z.mid.right, e, c);
    RightEnd(g, top, z.right, c);
    LeftFrame(g, top, z.left, e, c);
    var f := Frame(z.mid.n, z.mid.right);
    assert (z.right + [f])[..|z.right|] == z.right;
  }

  /** SPLAY_LINKRIGHT */
  lemma LinkRightLinked(g: Graph, root: SplayNode, top: SplayNode, z: Zip)
    requires Linked(g, root, top, z) && z.mid.right.Node?
    ensures root in g && Last(top, z.left) in g
    ensures Linked(SetRight(g, Last(top, z.left), root), g[root].right, top, LinkRight(z))
    ensures Last(top, LinkRight(z).left) == root
  {
    hide RightSpine, Distinct, LeftOrder, RightOrder, ZipOrder, InOrder;
    Apart(z);
    LinkRightOrder(z);
    LastIn(top, z.left);
    LastLinked(g, top, z);
    var e := Last(top, z.left);
    var c := Cell(g[e].left, root);
    EndApart(top, z, e);
    ShapeFrame(g, g[root].left, z.mid.left, e, c);
    ShapeFrame(g, g[root].right, z.mid.right, e, c);
    LeftEnd(g, top, z.left, c);
    RightFrame(g, top, z.right, e, c);
    var f := Frame(z.mid.n, z.mid.left);
    assert (z.left + [f])[..|z.left|] == z.left;
  }

  lemma LastLinked(g: Graph, top: SplayNode, z: Zip)
    requires top in g && LeftSpine(g, top, z.left) && RightSpine(g, top, z.right)
    ensures Last(top, z.left) in g && Last(top, z.right) in g
  {
  }

  /** The end of a spine is not in the tree in hand. */
  lemma EndApart(top: SplayNode, z: Zip, e: SplayNode)
    requires z.mid.Node? && top !in ZipOrder(z) && Distinct(ZipOrder(z))
    requires e == top || e in LeftOrder(z.left) || e in RightOrder(z.right)
    ensures e != z.mid.n && e !in InOrder(z.mid.left) && e !in InOrder(z.mid.right)
    ensures top !in LeftOrder(z.left) && top !in RightOrder(z.right)
    ensures e in LeftOrder(z.left) ==> e !in RightOrder(z.right)
  {
    Apart(z);
    assert forall x :: x in InOrder(z.mid.left) || x == z.mid.n || x in InOrder(z.mid.right) ==> x in InOrder(z.mid);
  }

  /** SPLAY_ASSEMBLE: the four writes, in their order. */
  function Assembled(g: Graph, root: SplayNode, top: SplayNode, left: SplayNode, right: SplayNode): Graph
    requires {root, top, left, right} <= g.Keys
  {
    var g1 := SetRight(g, left, g[root].left);
    var g2 := SetLeft(g1, right, g1[root].right);
    var g3 := SetLeft(g2, root, g2[top].right);
    SetRight(g3, root, g3[top].left)
  }

  lemma AssembleLinked(g: Graph, root: SplayNode, top: SplayNode, z: Zip)
    requires Linked(g, root, top, z)
    ensures {root, top, Last(top, z.left), Last(top, z.right)} <= g.Keys
    ensures Shape(Assembled(g, root, top, Last(top, z.left), Last(top, z.right)), root, Assemble(z))
  {
    hide LeftSpine, RightSpine, Distinct, LeftOrder, RightOrder, ZipOrder, InOrder, LeftTree, RightTree;
    Apart(z);
    LastIn(top, z.left);
    LastIn(top, z.right);
    LastLinked(g, top, z);
    var l, r := Last(top, z.left), Last(top, z.right);
    EndApart(top, z, l);
    EndApart(top, z, r);
    EndApart(top, z, top);
    InTree(z.mid);
    assert root in ZipOrder(z) && root != top;
    var lt, rt := LeftTree(z.left, z.mid.left), RightTree(z.right, z.mid.right);
    // left.right := root.left
    var c1 := Cell(g[l].left, g[root].left);
    var g1 := g[l := c1];
    ShapeFrame(g, g[root].left, z.mid.left, l, c1);
    ShapeFrame(g, g[root].right, z.mid.right, l, c1);
    LeftEnd(g, top, z.left, c1);
    RightFrame(g, top, z.right, l, c1);
    LeftJoined(g1, top, z.left, z.mid.left);
    // right.left := root.right
    var c2 := Cell(g1[root].right, g1[r].right);
    var g2 := g1[r := c2];
    LeftTreeOrder(z.left, z.mid.left);
    RightTreeOrder(z.right, z.mid.right);
    ShapeFrame(g1, g1[top].right, lt, r, c2);
    ShapeFrame(g1, g1[root].right, z.mid.right, r, c2);
    RightEnd(g1, top, z.right, c2);
    RightJoined(g2, top, z.right, z.mid.right);
    // root.left, root.right := top.right, top.left
    var c3 := Cell(g2[top].right, g2[root].right);
    var g3 := g2[root := c3];
    ShapeFrame(g2, g2[top].right, lt, root, c3);
    ShapeFrame(g2, g2[top].left, rt, root, c3);
    var c4 := Cell(g3[root].left, g3[top].left);
    ShapeFrame(g3, g3[root].left, lt, root, c4);
    ShapeFrame(g3, g3[top].left, rt, root, c4);
  }

  lemma InTree(t: Tree)
    requires t.Node?
    ensures t.n in InOrder(t)
  {
  }

  /** A tree's shape depends on its own nodes' cells only. */
  lemma {:induction false} ShapeAgree(g: Graph, h: Graph, p: SplayNode?, t: Tree)
    requires Shape(g, p, t) && forall n :: n in InOrder(t) ==> n in g && n in h && g[n] == h[n]
    ensures Shape(h, p, t)
  {
    match t
    case Leaf =>
    case Node(l, n, r) =>
      ShapeAgree(g, h, g[n].left, l);
      ShapeAgree(g, h, g[n].right, r);
  }

  lemma SortedDistinct(s: seq<SplayNode>)
    requires Sorted(s)
    ensures Distinct(s)
  {
  }

  lemma Begin(g: Graph, root: SplayNode?, t: Tree, top: SplayNode)
    requires Shape(g, root, t) && t.Node? && Sorted(InOrder(t)) && top in g && top !in InOrder(t)
    ensures Linked(g, root, top, Zip([], t, []))
  {
    SortedDistinct(InOrder(t));
    assert ZipOrder(Zip([], t, [])) == [] + InOrder(t) + [] == InOrder(t);
  }
}
