/** The splay tree macros of include/tree.h on linked nodes.
    The fields of all nodes together are looked at as one map from nodes to cells. The
    splay loop keeps three trees in it: the one in hand and the two spines hanging on the
    dummy node, to which each turn links what it passes by. Module SplayLinks says what
    each write does to the three, module SplayModel what splaying does to the order of the
    nodes; the methods here join the two. */
module SplayTrees {
  import opened Basics
  import opened SplayModel
  import opened SplayLinks
  import opened SplayCost

  ghost function Cells(ns: set<SplayNode>): Graph
    reads ns
  {
    map n | n in ns :: Cell(n.left, n.right)
  }

  ghost function NodesOf(t: Tree): set<SplayNode> {
    set n | n in InOrder(t)
  }

  /** What SPLAY_REMOVE makes of a splayed tree whose root goes. */
  ghost function Rest(r: Tree, k: int): Tree
    requires r.Node?
  {
    if r.left.Leaf? then r.right
    else
      var l := Splay(r.left, k);
      Node(l.left, l.n, r.right)
  }

  class SplayHead {
    var root: SplayNode?
    /** The tree that hangs below the root. */
    ghost var tree: Tree
    ghost var nodes: set<SplayNode>
    /** The turns that the splay loop has taken since the tree was made. */
    ghost var turns: nat

    ghost predicate Valid()
      reads this, nodes
    {
      nodes == NodesOf(tree) && Shape(Cells(nodes), root, tree) && Sorted(InOrder(tree))
    }

    /** The tree is what the operation makes of `t`, and the turns are those it costs. */
    ghost predicate Did(op: Op, t: Tree, before: nat)
      reads this
    {
      tree == Do(t, op) && turns == before + TurnsOf(t, op)
    }

    constructor ()
      ensures Valid() && tree == Leaf && turns == 0
    {
      root, tree, nodes, turns := null, Leaf, {}, 0;
    }

    method PutLeft(n: SplayNode, x: SplayNode?, ghost ns: set<SplayNode>)
      requires n in ns
      modifies n`left
      ensures Cells(ns) == SetLeft(old(Cells(ns)), n, x)
    {
      n.left := x;
    }

    method PutRight(n: SplayNode, x: SplayNode?, ghost ns: set<SplayNode>)
      requires n in ns
      modifies n`right
      ensures Cells(ns) == SetRight(old(Cells(ns)), n, x)
    {
      n.right := x;
    }

    method RotateRight(tmp: SplayNode, ghost ns: set<SplayNode>)
      requires root != null && root in ns && tmp in ns && tmp != root
      modifies this`root, root`left, tmp`right
      ensures root == tmp
      ensures Cells(ns) == var g := old(Cells(ns)); SetRight(SetLeft(g, old(root), g[tmp].right), tmp, old(root))
    {
      PutLeft(root, tmp.right, ns);
      PutRight(tmp, root, ns);
      root := tmp;
    }

    method RotateLeft(tmp: SplayNode, ghost ns: set<SplayNode>)
      requires root != null && root in ns && tmp in ns && tmp != root
      modifies this`root, root`right, tmp`left
      ensures root == tmp
      ensures Cells(ns) == var g := old(Cells(ns)); SetLeft(SetRight(g, old(root), g[tmp].left), tmp, old(root))
    {
      PutRight(root, tmp.left, ns);
      PutLeft(tmp, root, ns);
      root := tmp;
    }

    /** One turn of the loop of SPLAY towards smaller keys; `done` if it breaks. */
    method TurnLeft(k: int, top: SplayNode, right: SplayNode, ghost ns: set<SplayNode>, ghost z: Zip)
      returns (done: bool, right1: SplayNode, ghost y: Zip)
      requires root != null && Linked(Cells(ns), root, top, z) && right == Last(top, z.right) && k < root.key
      modifies this`root, ns
      ensures root != null && Linked(Cells(ns), root, top, y) && right1 == Last(top, y.right) && y.left == z.left
      ensures Descend(z, k) == if done then y else Descend(y, k)
      ensures Turns(z.mid, k) == 1 + if done then 0 else Turns(y.mid, k)
      ensures tree == old(tree) && nodes == old(nodes) && Size(y.mid) <= Size(z.mid) && (!done ==> Size(y.mid) < Size(z.mid))
    {
      hide Linked, LeftTree, RightTree, ZipOrder;
      RootOf(Cells(ns), root, top, z);
      done, right1, y := true, right, z;
      var tmp := root.left;
      if tmp == null {
        return;
      }
      if k < tmp.key {
        RotateRightLinked(Cells(ns), root, top, z);
        RotateRight(tmp, ns);
        y := z.(mid := SplayModel.RotateRight(z.mid));
        RootOf(Cells(ns), root, top, y);
        if root.left == null {
          return;
        }
      }
      LinkLeftLinked(Cells(ns), root, top, y);
      PutLeft(right, root, ns);
      right1 := root;
      root := root.left;
      y := LinkLeft(y);
      RootOf(Cells(ns), root, top, y);
      done := false;
    }

    method TurnRight(k: int, top: SplayNode, left: SplayNode, ghost ns: set<SplayNode>, ghost z: Zip)
      returns (done: bool, left1: SplayNode, ghost y: Zip)
      requires root != null && Linked(Cells(ns), root, top, z) && left == Last(top, z.left) && k > root.key
      modifies this`root, ns
      ensures root != null && Linked(Cells(ns), root, top, y) && left1 == Last(top, y.left) && y.right == z.right
      ensures Descend(z, k) == if done then y else Descend(y, k)
      ensures Turns(z.mid, k) == 1 + if done then 0 else Turns(y.mid, k)
      ensures tree == old(tree) && nodes == old(nodes) && Size(y.mid) <= Size(z.mid) && (!done ==> Size(y.mid) < Size(z.mid))
    {
      hide Linked, LeftTree, RightTree, ZipOrder;
      RootOf(Cells(ns), root, top, z);
      done, left1, y := true, left, z;
      var tmp := root.right;
      if tmp == null {
        return;
      }
      if k > tmp.key {
        RotateLeftLinked(Cells(ns), root, top, z);
        RotateLeft(tmp, ns);
        y := z.(mid := SplayModel.RotateLeft(z.mid));
        RootOf(Cells(ns), root, top, y);
        if root.right == null {
          return;
        }
      }
      LinkRightLinked(Cells(ns), root, top, y);
      PutRight(left, root, ns);
      left1 := root;
      root := root.right;
      y := LinkRight(y);
      RootOf(Cells(ns), root, top, y);
      done := false;
    }

    /** The loop of SPLAY. */
    method Descent(k: int, node: SplayNode, ghost ns: set<SplayNode>, ghost z0: Zip)
      returns (left: SplayNode, right: SplayNode, ghost z: Zip, ghost count: nat)
      requires root != null && Linked(Cells(ns), root, node, z0) && z0.left == z0.right == [] && z0.mid.Node?
      modifies this`root, ns
      ensures root != null && Linked(Cells(ns), root, node, z) && z == Descend(z0, k)
      ensures left == Last(node, z.left) && right == Last(node, z.right)
      ensures count == Turns(z0.mid, k)
    {
      hide Linked, Descend, Turns;
      z, count := z0, 0;
      left, right := node, node;
      var done := false;
      RootOf(Cells(ns), root, node, z);
      while !done && k != root.key
        invariant root != null && z.mid.Node? && root == z.mid.n && Linked(Cells(ns), root, node, z)
        invariant left == Last(node, z.left) && right == Last(node, z.right)
        invariant Descend(z0, k) == if done then z else Descend(z, k)
        invariant Turns(z0.mid, k) == count + if done then 0 else Turns(z.mid, k)
        decreases Size(z.mid), !done
      {
        if k < root.key {
          done, right, z := TurnLeft(k, node, right, ns, z);
        } else {
          done, left, z := TurnRight(k, node, left, ns, z);
        }
        RootOf(Cells(ns), root, node, z);
        count := count + 1;
      }
      if !done {
        DescendStops(z, k);
        NoTurns(z.mid, k);
      }
    }

    /** SPLAY_ASSEMBLE */
    method JoinUp(node: SplayNode, left: SplayNode, right: SplayNode, ghost ns: set<SplayNode>, ghost z: Zip)
      requires root != null && Linked(Cells(ns), root, node, z)
      requires left == Last(node, z.left) && right == Last(node, z.right)
      modifies ns
      ensures Shape(Cells(ns), root, Assemble(z))
    {
      hide Linked, Assemble, Shape;
      ghost var g := Cells(ns);
      AssembleLinked(g, root, node, z);
      PutRight(left, root.left, ns);
      PutLeft(right, root.right, ns);
      PutLeft(root, node.right, ns);
      PutRight(root, node.left, ns);
      assert Cells(ns) == Assembled(g, root, node, left, right);
    }

    /** SPLAY: the tree becomes the splayed one. */
    method SplayTo(k: int)
      requires root != null && Valid()
      modifies this, nodes
      ensures root != null && Valid() && tree == Splay(old(tree), k) && nodes == old(nodes)
      ensures turns == old(turns) + Turns(old(tree), k)
    {
      hide Linked, Descend, Turns, Assemble, Shape, Sorted, InOrder, Below, Above;
      RootNode(Cells(nodes), root, tree);
      var node := new SplayNode(0);
      ghost var ns := nodes + {node};
      ghost var z := Zip([], tree, []);
      ShapeAgree(Cells(nodes), Cells(ns), root, tree);
      Begin(Cells(ns), root, tree, node);
      var left, right;
      ghost var count;
      left, right, z, count := Descent(k, node, ns, z);
      turns := turns + count;
      JoinUp(node, left, right, ns, z);
      SplayRoot(tree, k);
      SplayOrder(tree, k);
      tree := Splay(tree, k);
      ShapeAgree(Cells(ns), Cells(nodes), root, tree);
    }

    /** SPLAY_FIND */
    method Find(k: int) returns (n: SplayNode?)
      requires Valid()
      modifies this, nodes
      ensures Valid() && nodes == old(nodes) && Did(Op.Find(k), old(tree), old(turns))
      ensures n == null ==> forall x :: x in nodes ==> x.key != k
      ensures n != null ==> n in nodes && n.key == k && n == root
    {
      hide Shape, Sorted, Splay, Turns;
      RootNode(Cells(nodes), root, tree);
      if root == null {
        LeafOrder();
        return null;
      }
      SplayRoot(tree, k);
      SplayOrder(tree, k);
      SplayTo(k);
      RootNode(Cells(nodes), root, tree);
      Inhabited(tree);
      if k == root.key {
        return root;
      }
      return null;
    }

    /** The links of SPLAY_INSERT once the tree is splayed. */
    method Hang(elm: SplayNode, ghost ns: set<SplayNode>)
      requires root != null && Shape(Cells(ns), root, tree) && tree.Node? && tree.n == root
      requires Distinct(InOrder(tree)) && elm in ns && root in ns && elm !in InOrder(tree) && elm.key != root.key
      modifies elm, root
      ensures Shape(Cells(ns), elm, Hung(tree, elm))
    {
      hide Shape, Distinct, InOrder;
      if elm.key < root.key {
        HangLeft(Cells(ns), root, tree, elm);
        PutLeft(elm, root.left, ns);
        PutRight(elm, root, ns);
        PutLeft(root, null, ns);
      } else {
        HangRight(Cells(ns), root, tree, elm);
        PutRight(elm, root.right, ns);
        PutLeft(elm, root, ns);
        PutRight(root, null, ns);
      }
    }

    /** SPLAY_INSERT: null, or the node that has the key already. */
    method Insert(elm: SplayNode) returns (present: SplayNode?)
      requires Valid()
      modifies this, nodes, elm
      ensures Valid() && tree == SplayModel.Insert(old(tree), elm) && Did(Add(elm), old(tree), old(turns))
      ensures present == null ==> elm !in old(nodes) && nodes == old(nodes) + {elm}
      ensures elm in old(nodes) ==> present == elm
      ensures present != null ==> nodes == old(nodes) && present in nodes && present.key == elm.key
    {
      hide Shape, Sorted, Splay, Turns, Hung, InOrder, Below, Above;
      InsertIs(tree, elm);
      InsertNodes(tree, elm);
      RootNode(Cells(nodes), root, tree);
      if root == null {
        elm.left, elm.right := null, null;
        SingleShape(Cells({elm}), elm);
        assert NodesOf(Node(Leaf, elm, Leaf)) == {elm} by { SingleOrder(elm); }
        LeafOrder();
        root := elm;
        tree := Node(Leaf, elm, Leaf);
        nodes := NodesOf(tree);
      } else {
        SplayOrder(tree, elm.key);
        MemberRises(tree, elm);
        SplayTo(elm.key);
        RootNode(Cells(nodes), root, tree);
        Inhabited(tree);
        if elm.key == root.key {
          SameKey(tree, elm);
          return root;
        }
        PutAbove(elm);
      }
      return null;
    }

    /** The part of SPLAY_INSERT behind the comparison: `elm` becomes the root. */
    method PutAbove(elm: SplayNode)
      requires root != null && Valid() && tree.Node? && elm !in nodes && elm.key != root.key
      requires Sorted(InOrder(Hung(tree, elm)))
      modifies this, nodes, elm
      ensures Valid() && tree == Hung(old(tree), elm) && nodes == old(nodes) + {elm} && turns == old(turns)
    {
      hide Shape, Sorted, Hung, InOrder;
      RootNode(Cells(nodes), root, tree);
      ghost var ns := nodes + {elm};
      SortedDistinct(InOrder(tree));
      ShapeAgree(Cells(nodes), Cells(ns), root, tree);
      Hang(elm, ns);
      HungNodes(tree, elm);
      assert NodesOf(Hung(tree, elm)) == ns;
      root := elm;
      tree := Hung(tree, elm);
      nodes := NodesOf(tree);
    }

    /** SPLAY_REMOVE of the node with that key: whether there was one. */
    method Remove(k: int) returns (removed: bool)
      requires Valid()
      modifies this, nodes
      ensures Valid() && tree == SplayModel.Remove(old(tree), k) && Did(Take(k), old(tree), old(turns))
      ensures removed <==> exists n :: n in old(nodes) && n.key == k
      ensures nodes == set n | n in old(nodes) && n.key != k
    {
      hide Shape, Sorted, Splay, Turns, InOrder, Above;
      RemoveIs(tree, k);
      RemoveNodes(tree, k);
      RootNode(Cells(nodes), root, tree);
      if root == null {
        LeafOrder();
        return false;
      }
      SplayRoot(tree, k);
      SplayOrder(tree, k);
      SplayTo(k);
      RootNode(Cells(nodes), root, tree);
      if k != root.key {
        return false;
      }
      Inhabited(tree);
      TakeRoot(k);
      return true;
    }

    /** The part of SPLAY_REMOVE behind the comparison: the root goes. */
    method TakeRoot(k: int)
      requires root != null && Valid() && tree.Node? && root.key == k
      modifies this, nodes
      ensures Valid() && tree == Rest(old(tree), k)
      ensures var left := old(tree).left; turns == old(turns) + if left.Node? then Turns(left, k) else 0
    {
      hide Shape, Sorted, Splay, Turns, InOrder, Below;
      RootNode(Cells(nodes), root, tree);
      ghost var r, all := tree, nodes;
      Parts(Cells(nodes), root, r);
      if root.left == null {
        root := root.right;
        tree := r.right;
        nodes := NodesOf(tree);
        ShapeAgree(Cells(all), Cells(nodes), root, tree);
      } else {
        var tmp := root.right;
        root := root.left;
        tree := r.left;
        nodes := NodesOf(tree);
        ShapeAgree(Cells(all), Cells(nodes), root, tree);
        ghost var rest := NodesOf(r.right);
        ShapeAgree(Cells(all), Cells(rest), tmp, r.right);
        JoinRight(k, tmp, r.right, rest);
      }
    }

    /** The last part of SPLAY_REMOVE: the left side is splayed and takes the right one. */
    method JoinRight(k: int, tmp: SplayNode?, ghost rt: Tree, ghost rest: set<SplayNode>)
      requires root != null && Valid() && Below(InOrder(tree), k)
      requires rest == NodesOf(rt) && rest !! nodes && Shape(Cells(rest), tmp, rt)
      requires Sorted(InOrder(tree) + InOrder(rt))
      modifies this, nodes
      ensures var l := Splay(old(tree), k);
        Valid() && tree == Node(l.left, l.n, rt) && nodes == old(nodes) + rest
      ensures turns == old(turns) + Turns(old(tree), k)
    {
      hide Shape, Sorted, Splay, Turns, InOrder, Below, Above;
      RootNode(Cells(nodes), root, tree);
      NothingRight(tree, k);
      SplayOrder(tree, k);
      SplayTo(k);
      RootNode(Cells(nodes), root, tree);
      AttachRight(tmp, rt, rest);
    }

    /** `SPLAY_RIGHT((head)->sph_root, field) = __tmp` where there was nothing. */
    method AttachRight(tmp: SplayNode?, ghost rt: Tree, ghost rest: set<SplayNode>)
      requires root != null && Valid() && tree.Node? && tree.n == root && tree.right.Leaf?
      requires rest == NodesOf(rt) && rest !! nodes && Shape(Cells(rest), tmp, rt)
      requires Sorted(InOrder(tree) + InOrder(rt))
      modifies this, nodes
      ensures Valid() && root == old(root) && nodes == old(nodes) + rest && turns == old(turns)
      ensures tree == Node(old(tree).left, old(tree).n, rt)
    {
      hide Shape, Sorted, InOrder;
      ghost var all := nodes + rest;
      SortedDistinct(InOrder(tree));
      Inhabited(tree);
      Widen(root, tree, nodes, all);
      Widen(tmp, rt, rest, all);
      HangBehind(Cells(all), root, tree, tmp, rt);
      PutRight(root, tmp, all);
      JoinedNodes(tree, rt);
      tree := Node(tree.left, tree.n, rt);
      nodes := all;
    }
  }

  lemma NoTurns(t: Tree, k: int)
    requires t.Node? && t.n.key == k
    ensures Turns(t, k) == 0
  {
  }

  lemma RootOf(g: Graph, root: SplayNode?, top: SplayNode, z: Zip)
    requires Linked(g, root, top, z)
    ensures z.mid.Node? && root == z.mid.n && root in g && top in g
    ensures (g[root].left == null <==> z.mid.left.Leaf?) && (z.mid.left.Node? ==> g[root].left == z.mid.left.n)
    ensures (g[root].right == null <==> z.mid.right.Leaf?) && (z.mid.right.Node? ==> g[root].right == z.mid.right.n)
    ensures z.mid.left.Node? ==> z.mid.left.n != root && z.mid.left.n in g
    ensures z.mid.right.Node? ==> z.mid.right.n != root && z.mid.right.n in g
    ensures Last(top, z.left) in g && Last(top, z.right) in g
    ensures Last(top, z.left) != root && Last(top, z.right) != root
  {
    hide LeftOrder, RightOrder, Distinct, Shape, ZipOrder;
    ShapeNode(g, root, z.mid);
    RootNode(g, g[root].left, z.mid.left);
    RootNode(g, g[root].right, z.mid.right);
    Apart(z);
    Inner(z.mid);
    LastLinked(g, top, z);
    LastIn(top, z.left);
    LastIn(top, z.right);
    EndApart(top, z, Last(top, z.left));
    EndApart(top, z, Last(top, z.right));
  }

  lemma DescendStops(z: Zip, k: int)
    requires z.mid.Node? && k == z.mid.n.key
    ensures Descend(z, k) == z
  {
  }

  lemma RootNode(g: Graph, p: SplayNode?, t: Tree)
    requires Shape(g, p, t)
    ensures p == null <==> t.Leaf?
    ensures t.Node? ==> p == t.n && t.n in g
  {
  }

  lemma SingleOrder(n: SplayNode)
    ensures InOrder(Node(Leaf, n, Leaf)) == [n]
  {
  }

  lemma SingleShape(g: Graph, n: SplayNode)
    requires n in g && g[n] == Cell(null, null)
    ensures Shape(g, n, Node(Leaf, n, Leaf))
  {
  }

  /** The nodes after an insertion. */
  lemma InsertNodes(t: Tree, e: SplayNode)
    requires Sorted(InOrder(t))
    ensures if exists n :: n in NodesOf(t) && n.key == e.key then NodesOf(SplayModel.Insert(t, e)) == NodesOf(t)
      else NodesOf(SplayModel.Insert(t, e)) == NodesOf(t) + {e}
  {
    hide Splay, InOrder, Sorted;
    InsertIs(t, e);
    if forall n :: n in InOrder(t) ==> n.key != e.key {
      var a, b :| InOrder(t) == a + b && InOrder(SplayModel.Insert(t, e)) == a + [e] + b && Below(a, e.key) && Above(b, e.key);
    }
  }

  /** The new node above the root, which keeps its right side. */
  lemma HangLeft(g: Graph, root: SplayNode, t: Tree, e: SplayNode)
    requires Shape(g, root, t) && t.Node? && Distinct(InOrder(t)) && e in g && e !in InOrder(t)
    ensures root in g && root != e
    ensures var h := SetRight(SetLeft(g, e, g[root].left), e, root);
      Shape(SetLeft(h, root, null), e, Node(t.left, e, Node(Leaf, t.n, t.right)))
  {
    hide Distinct, InOrder;
    ShapeNode(g, root, t);
    NodeOrder(t.left, t.n, t.right);
    Middle(InOrder(t.left), t.n, InOrder(t.right));
    var c := Cell(g[root].left, root);
    ShapeFrame(g, g[root].left, t.left, e, c);
    ShapeFrame(g, g[root].right, t.right, e, c);
    var g1 := g[e := c];
    var d := Cell(null, g1[root].right);
    ShapeFrame(g1, g1[e].left, t.left, root, d);
    ShapeFrame(g1, g1[root].right, t.right, root, d);
    assert SetRight(SetLeft(g, e, g[root].left), e, root) == g1;
    assert Shape(g1[root := d], root, Node(Leaf, root, t.right));
  }

  lemma HangRight(g: Graph, root: SplayNode, t: Tree, e: SplayNode)
    requires Shape(g, root, t) && t.Node? && Distinct(InOrder(t)) && e in g && e !in InOrder(t)
    ensures root in g && root != e
    ensures var h := SetLeft(SetRight(g, e, g[root].right), e, root);
      Shape(SetRight(h, root, null), e, Node(Node(t.left, t.n, Leaf), e, t.right))
  {
    hide Distinct, InOrder;
    ShapeNode(g, root, t);
    NodeOrder(t.left, t.n, t.right);
    Middle(InOrder(t.left), t.n, InOrder(t.right));
    var c := Cell(root, g[root].right);
    ShapeFrame(g, g[root].left, t.left, e, c);
    ShapeFrame(g, g[root].right, t.right, e, c);
    var g1 := g[e := c];
    var d := Cell(g1[root].left, null);
    ShapeFrame(g1, g1[e].right, t.right, root, d);
    ShapeFrame(g1, g1[root].left, t.left, root, d);
    assert SetLeft(SetRight(g, e, g[root].right), e, root) == g1;
    assert Shape(g1[root := d], root, Node(t.left, root, Leaf));
  }

  /** A tree's shape seen among more nodes. */
  lemma Widen(p: SplayNode?, t: Tree, ns: set<SplayNode>, all: set<SplayNode>)
    requires Shape(Cells(ns), p, t) && ns == NodesOf(t) && ns <= all
    ensures Shape(Cells(all), p, t)
  {
    ShapeAgree(Cells(ns), Cells(all), p, t);
  }

  /** A node of the tree is its root after a splay for its key. */
  lemma MemberRises(t: Tree, e: SplayNode)
    requires t.Node? && Sorted(InOrder(t))
    ensures e in InOrder(t) ==> Splay(t, e.key).n == e
    ensures e in NodesOf(t) <==> e in InOrder(t)
  {
    hide Splay, InOrder;
    SplayRoot(t, e.key);
    SplayOrder(t, e.key);
    var r := Splay(t, e.key);
    NodeOrder(r.left, r.n, r.right);
    assert (InOrder(r.left) + [r.n] + InOrder(r.right))[|InOrder(r.left)|] == r.n;
  }

  lemma SameKey(r: Tree, e: SplayNode)
    requires r.Node? && e.key == r.n.key
    ensures Hung(r, e) == r
  {
  }

  lemma HungNodes(r: Tree, e: SplayNode)
    requires r.Node? && e.key != r.n.key
    ensures NodesOf(Hung(r, e)) == NodesOf(r) + {e}
  {
    hide InOrder;
    LeafOrder();
    NodeOrder(r.left, r.n, r.right);
    if e.key < r.n.key {
      NodeOrder(Leaf, r.n, r.right);
      NodeOrder(r.left, e, Node(Leaf, r.n, r.right));
    } else {
      NodeOrder(r.left, r.n, Leaf);
      NodeOrder(Node(r.left, r.n, Leaf), e, r.right);
    }
  }

  /** What a removal leaves: all nodes but that of the key. */
  lemma RemoveNodes(t: Tree, k: int)
    requires Sorted(InOrder(t))
    ensures NodesOf(SplayModel.Remove(t, k)) == set n | n in NodesOf(t) && n.key != k
  {
    hide Splay, InOrder, Sorted, SplayModel.Remove;
    RemoveIs(t, k);
    if exists n :: n in InOrder(t) && n.key == k {
      var a, x, b :| InOrder(t) == a + [x] + b && x.key == k && InOrder(SplayModel.Remove(t, k)) == a + b;
      SortedParts(a, x, b);
    }
  }

  /** The two sides of a root. */
  lemma Parts(g: Graph, root: SplayNode, t: Tree)
    requires Shape(g, root, t) && t.Node? && Sorted(InOrder(t))
    ensures root in g && Shape(g, g[root].left, t.left) && Shape(g, g[root].right, t.right)
    ensures g[root].left == null <==> t.left.Leaf?
    ensures Sorted(InOrder(t.left)) && Sorted(InOrder(t.right)) && Sorted(InOrder(t.left) + InOrder(t.right))
    ensures NodesOf(t.left) <= NodesOf(t) && NodesOf(t.right) <= NodesOf(t) && NodesOf(t.left) !! NodesOf(t.right)
    ensures Below(InOrder(t.left), t.n.key)
  {
    hide Shape, InOrder, Sorted;
    NodeOrder(t.left, t.n, t.right);
    SortedParts(InOrder(t.left), t.n, InOrder(t.right));
    Without(InOrder(t.left), t.n, InOrder(t.right));
    ShapeNode(g, root, t);
    RootNode(g, g[root].left, t.left);
  }

  /** A tree without a right side gets one. */
  lemma HangBehind(g: Graph, root: SplayNode, t: Tree, p: SplayNode?, rt: Tree)
    requires Shape(g, root, t) && t.Node? && t.right.Leaf? && Distinct(InOrder(t))
    requires Shape(g, p, rt) && t.n !in InOrder(rt)
    ensures root in g && Shape(SetRight(g, root, p), root, Node(t.left, t.n, rt))
  {
    hide Distinct, InOrder;
    ShapeNode(g, root, t);
    NodeOrder(t.left, t.n, t.right);
    Middle(InOrder(t.left), t.n, InOrder(t.right));
    ShapeFrame(g, g[root].left, t.left, root, Cell(g[root].left, p));
    ShapeFrame(g, p, rt, root, Cell(g[root].left, p));
  }

  lemma JoinedNodes(l: Tree, rt: Tree)
    requires l.Node? && l.right.Leaf?
    ensures InOrder(Node(l.left, l.n, rt)) == InOrder(l) + InOrder(rt)
    ensures NodesOf(Node(l.left, l.n, rt)) == NodesOf(l) + NodesOf(rt)
  {
    assert InOrder(l) == InOrder(l.left) + [l.n] + [];
    assert InOrder(Node(l.left, l.n, rt)) == InOrder(l) + InOrder(rt);
  }
}
