/** Top-down splaying on tree values (include/tree.h:87-117, 163-242): the tree being taken
    apart, the two trees being built from what was passed, and what comes of joining them. */
module SplayModel {

  class SplayNode {
    const key: int
    var left: SplayNode?
    var right: SplayNode?

    constructor (k: int)
      ensures key == k && left == null && right == null
    {
      key, left, right := k, null, null;
    }
  }

  datatype Tree = Leaf | Node(left: Tree, n: SplayNode, right: Tree)

  /** A node passed on the way, with the subtree that stays with it. */
  datatype Frame = Frame(n: SplayNode, sub: Tree)

  /** The tree in hand, and those of smaller keys and of greater keys being built: their
      right-going and left-going spines from the root. */
  datatype Zip = Zip(left: seq<Frame>, mid: Tree, right: seq<Frame>)

  function Size(t: Tree): nat {
    match t case Leaf => 0 case Node(l, _, r) => Size(l) + 1 + Size(r)
  }

  function InOrder(t: Tree): seq<SplayNode> {
    match t case Leaf => [] case Node(l, n, r) => InOrder(l) + [n] + InOrder(r)
  }

  function LeftOrder(fs: seq<Frame>): seq<SplayNode> {
    if fs == [] then [] else LeftOrder(fs[..|fs| - 1]) + (InOrder(fs[|fs| - 1].sub) + [fs[|fs| - 1].n])
  }

  function RightOrder(fs: seq<Frame>): seq<SplayNode> {
    if fs == [] then [] else ([fs[|fs| - 1].n] + InOrder(fs[|fs| - 1].sub)) + RightOrder(fs[..|fs| - 1])
  }

  function ZipOrder(z: Zip): seq<SplayNode> {
    LeftOrder(z.left) + InOrder(z.mid) + RightOrder(z.right)
  }

  function RotateRight(t: Tree): (u: Tree)
    requires t.Node? && t.left.Node?
    ensures u.Node? && Size(u.left) < Size(t) - 1
  {
    Node(t.left.left, t.left.n, Node(t.left.right, t.n, t.right))
  }

  function RotateLeft(t: Tree): (u: Tree)
    requires t.Node? && t.right.Node?
    ensures u.Node? && Size(u.right) < Size(t) - 1
  {
    Node(Node(t.left, t.n, t.right.left), t.right.n, t.right.right)
  }

  /** SPLAY_LINKLEFT: the root and what is right of it go to the tree of greater keys. */
  function LinkLeft(z: Zip): Zip
    requires z.mid.Node?
  {
    Zip(z.left, z.mid.left, z.right + [Frame(z.mid.n, z.mid.right)])
  }

  function LinkRight(z: Zip): Zip
    requires z.mid.Node?
  {
    Zip(z.left + [Frame(z.mid.n, z.mid.left)], z.mid.right, z.right)
  }

  /** The loop of SPLAY. */
  function Descend(z: Zip, k: int): (r: Zip)
    requires z.mid.Node?
    ensures r.mid.Node?
    decreases Size(z.mid)
  {
    var t := z.mid;
    if k < t.n.key then
      if t.left.Leaf? then z
      else if k < t.left.n.key then
        var u := RotateRight(t);
        if u.left.Leaf? then z.(mid := u) else Descend(LinkLeft(z.(mid := u)), k)
      else Descend(LinkLeft(z), k)
    else if k > t.n.key then
      if t.right.Leaf? then z
      else if k > t.right.n.key then
        var u := RotateLeft(t);
        if u.right.Leaf? then z.(mid := u) else Descend(LinkRight(z.(mid := u)), k)
      else Descend(LinkRight(z), k)
    else z
  }

  function LeftTree(fs: seq<Frame>, hole: Tree): Tree
    decreases |fs|
  {
    if fs == [] then hole
    else LeftTree(fs[..|fs| - 1], Node(fs[|fs| - 1].sub, fs[|fs| - 1].n, hole))
  }

  function RightTree(fs: seq<Frame>, hole: Tree): Tree
    decreases |fs|
  {
    if fs == [] then hole
    else RightTree(fs[..|fs| - 1], Node(hole, fs[|fs| - 1].n, fs[|fs| - 1].sub))
  }

  /** SPLAY_ASSEMBLE */
  function Assemble(z: Zip): (t: Tree)
    requires z.mid.Node?
    ensures t.Node?
  {
    Node(LeftTree(z.left, z.mid.left), z.mid.n, RightTree(z.right, z.mid.right))
  }

  function Splay(t: Tree, k: int): (r: Tree)
    requires t.Node?
    ensures r.Node?
  {
    Assemble(Descend(Zip([], t, []), k))
  }

  // The in-order sequence.

  lemma {:induction false} LeftTreeOrder(fs: seq<Frame>, hole: Tree)
    ensures InOrder(LeftTree(fs, hole)) == LeftOrder(fs) + InOrder(hole)
    decreases |fs|
  {
    if fs != [] {
      var front, f := fs[..|fs| - 1], fs[|fs| - 1];
      LeftTreeOrder(front, Node(f.sub, f.n, hole));
      assert LeftOrder(front) + (InOrder(f.sub) + [f.n] + InOrder(hole))
          == LeftOrder(front) + (InOrder(f.sub) + [f.n]) + InOrder(hole);
    }
  }

  lemma {:induction false} RightTreeOrder(fs: seq<Frame>, hole: Tree)
    ensures InOrder(RightTree(fs, hole)) == InOrder(hole) + RightOrder(fs)
    decreases |fs|
  {
    if fs != [] {
      var front, f := fs[..|fs| - 1], fs[|fs| - 1];
      RightTreeOrder(front, Node(hole, f.n, f.sub));
      assert InOrder(hole) + [f.n] + InOrder(f.sub) + RightOrder(front)
          == InOrder(hole) + ([f.n] + InOrder(f.sub) + RightOrder(front));
    }
  }

  lemma LinkLeftOrder(z: Zip)
    requires z.mid.Node?
    ensures ZipOrder(LinkLeft(z)) == ZipOrder(z)
  {
    var f := Frame(z.mid.n, z.mid.right);
    assert (z.right + [f])[..|z.right|] == z.right;
    var a, b, c, d := LeftOrder(z.left), InOrder(z.mid.left), [z.mid.n] + InOrder(z.mid.right), RightOrder(z.right);
    assert a + (b + [z.mid.n] + InOrder(z.mid.right)) + d == a + b + (c + d);
  }

  lemma LinkRightOrder(z: Zip)
    requires z.mid.Node?
    ensures ZipOrder(LinkRight(z)) == ZipOrder(z)
  {
    var f := Frame(z.mid.n, z.mid.left);
    assert (z.left + [f])[..|z.left|] == z.left;
    var a, b, c, d := LeftOrder(z.left), InOrder(z.mid.left) + [z.mid.n], InOrder(z.mid.right), RightOrder(z.right);
    assert a + (InOrder(z.mid.left) + [z.mid.n] + c) + d == (a + b) + c + d;
  }

  lemma Regroup<T>(a: seq<T>, x: T, b: seq<T>, y: T, c: seq<T>)
    ensures a + [x] + (b + [y] + c) == a + [x] + b + [y] + c
  {
  }

  lemma NodeOrder(l: Tree, n: SplayNode, r: Tree)
    ensures InOrder(Node(l, n, r)) == InOrder(l) + [n] + InOrder(r)
  {
  }

  lemma RotateOrder(t: Tree)
    requires t.Node?
    ensures t.left.Node? ==> InOrder(RotateRight(t)) == InOrder(t)
    ensures t.right.Node? ==> InOrder(RotateLeft(t)) == InOrder(t)
  {
    hide InOrder;
    if t.left.Node? {
      TwoRight(t.left.left, t.left.n, t.left.right, t.n, t.right);
    }
    if t.right.Node? {
      TwoRight(t.left, t.n, t.right.left, t.right.n, t.right.right);
    }
  }

  lemma TwoRight(a: Tree, x: SplayNode, b: Tree, y: SplayNode, c: Tree)
    ensures InOrder(Node(a, x, Node(b, y, c))) == InOrder(Node(Node(a, x, b), y, c))
  {
    hide InOrder;
    NodeOrder(a, x, Node(b, y, c));
    NodeOrder(b, y, c);
    NodeOrder(Node(a, x, b), y, c);
    NodeOrder(a, x, b);
    Regroup(InOrder(a), x, InOrder(b), y, InOrder(c));
  }

  lemma {:induction false} DescendOrder(z: Zip, k: int)
    requires z.mid.Node?
    ensures ZipOrder(Descend(z, k)) == ZipOrder(z)
    decreases Size(z.mid)
  {
    hide ZipOrder, InOrder;
    var t := z.mid;
    RotateOrder(t);
    if k < t.n.key && t.left.Node? {
      var y := if k < t.left.n.key then z.(mid := RotateRight(t)) else z;
      SameOrder(z, y);
      if y.mid.left.Node? {
        LinkLeftOrder(y);
        DescendOrder(LinkLeft(y), k);
      }
    } else if k > t.n.key && t.right.Node? {
      var y := if k > t.right.n.key then z.(mid := RotateLeft(t)) else z;
      SameOrder(z, y);
      if y.mid.right.Node? {
        LinkRightOrder(y);
        DescendOrder(LinkRight(y), k);
      }
    }
  }

  lemma SameOrder(z: Zip, y: Zip)
    requires y == z.(mid := y.mid) && InOrder(y.mid) == InOrder(z.mid)
    ensures ZipOrder(y) == ZipOrder(z)
  {
  }

  /** Splaying keeps the in-order sequence of the whole tree. */
  lemma SplayOrder(t: Tree, k: int)
    requires t.Node?
    ensures InOrder(Splay(t, k)) == InOrder(t)
  {
    hide Descend, InOrder;
    var z := Zip([], t, []);
    DescendOrder(z, k);
    assert ZipOrder(z) == [] + InOrder(t) + [] == InOrder(t);
    AssembleOrder(Descend(z, k));
  }

  lemma AssembleOrder(z: Zip)
    requires z.mid.Node?
    ensures InOrder(Assemble(z)) == ZipOrder(z)
    ensures InOrder(Assemble(z).left) == LeftOrder(z.left) + InOrder(z.mid.left)
    ensures InOrder(Assemble(z).right) == InOrder(z.mid.right) + RightOrder(z.right)
  {
    hide InOrder, LeftTree, RightTree, LeftOrder, RightOrder;
    LeftTreeOrder(z.left, z.mid.left);
    RightTreeOrder(z.right, z.mid.right);
    NodeOrder(z.mid.left, z.mid.n, z.mid.right);
    NodeOrder(LeftTree(z.left, z.mid.left), z.mid.n, RightTree(z.right, z.mid.right));
    Around(LeftOrder(z.left), InOrder(z.mid.left), z.mid.n, InOrder(z.mid.right), RightOrder(z.right));
  }

  lemma Around<T>(a: seq<T>, b: seq<T>, x: T, c: seq<T>, d: seq<T>)
    ensures (a + b) + [x] + (c + d) == a + (b + [x] + c) + d
  {
  }

  // The key at the root.

  predicate Sorted(s: seq<SplayNode>) {
    forall i, j :: 0 <= i < j < |s| ==> s[i].key < s[j].key
  }

  predicate Below(s: seq<SplayNode>, k: int) {
    forall n :: n in s ==> n.key < k
  }

  predicate Above(s: seq<SplayNode>, k: int) {
    forall n :: n in s ==> n.key > k
  }

  lemma SortedParts(a: seq<SplayNode>, n: SplayNode, b: seq<SplayNode>)
    requires Sorted(a + [n] + b)
    ensures Below(a, n.key) && Above(b, n.key) && Sorted(a) && Sorted(b)
  {
    var s := a + [n] + b;
    assert s[|a|] == n;
    forall x | x in a ensures x.key < n.key {
      var i :| 0 <= i < |a| && a[i] == x;
      assert s[i] == x;
    }
    forall x | x in b ensures x.key > n.key {
      var i :| 0 <= i < |b| && b[i] == x;
      assert s[|a| + 1 + i] == x;
    }
    assert forall i :: 0 <= i < |a| ==> a[i] == s[i];
    assert forall i :: 0 <= i < |b| ==> b[i] == s[|a| + 1 + i];
  }

  lemma {:induction false} DescendSides(z: Zip, k: int)
    requires z.mid.Node? && Sorted(InOrder(z.mid)) && Below(LeftOrder(z.left), k) && Above(RightOrder(z.right), k)
    ensures var y := Descend(z, k);
      && Sorted(InOrder(y.mid)) && Below(LeftOrder(y.left), k) && Above(RightOrder(y.right), k)
      && (k < y.mid.n.key ==> y.mid.left.Leaf?) && (k > y.mid.n.key ==> y.mid.right.Leaf?)
    decreases Size(z.mid)
  {
    hide Sorted, InOrder, LeftOrder, RightOrder;
    var t := z.mid;
    RotateOrder(t);
    if k < t.n.key && t.left.Node? {
      var y := if k < t.left.n.key then z.(mid := RotateRight(t)) else z;
      if y.mid.left.Node? {
        LinkLeftSides(y, k);
        DescendSides(LinkLeft(y), k);
      }
    } else if k > t.n.key && t.right.Node? {
      var y := if k > t.right.n.key then z.(mid := RotateLeft(t)) else z;
      if y.mid.right.Node? {
        LinkRightSides(y, k);
        DescendSides(LinkRight(y), k);
      }
    }
  }

  lemma LinkLeftSides(z: Zip, k: int)
    requires z.mid.Node? && Sorted(InOrder(z.mid)) && Above(RightOrder(z.right), k) && k < z.mid.n.key
    ensures Sorted(InOrder(z.mid.left)) && Above(RightOrder(LinkLeft(z).right), k)
  {
    SortedParts(InOrder(z.mid.left), z.mid.n, InOrder(z.mid.right));
    var f := Frame(z.mid.n, z.mid.right);
    assert (z.right + [f])[..|z.right|] == z.right;
  }

  lemma LinkRightSides(z: Zip, k: int)
    requires z.mid.Node? && Sorted(InOrder(z.mid)) && Below(LeftOrder(z.left), k) && k > z.mid.n.key
    ensures Sorted(InOrder(z.mid.right)) && Below(LeftOrder(LinkRight(z).left), k)
  {
    SortedParts(InOrder(z.mid.left), z.mid.n, InOrder(z.mid.right));
    var f := Frame(z.mid.n, z.mid.left);
    assert (z.left + [f])[..|z.left|] == z.left;
  }

  /** Splaying a search tree leaves at the root the key sought, if it is there, and else an
      in-order neighbour of its place: all keys left of the root are below `k` and all right
      of it above. */
  lemma SplayRoot(t: Tree, k: int)
    requires t.Node? && Sorted(InOrder(t))
    ensures var r := Splay(t, k);
      && Below(InOrder(r.left), k) && Above(InOrder(r.right), k)
      && ((exists n :: n in InOrder(t) && n.key == k) <==> r.n.key == k)
      && Sorted(InOrder(r))
  {
    hide Descend, InOrder, Sorted;
    var z := Zip([], t, []);
    var y := Descend(z, k);
    DescendSides(z, k);
    SplayOrder(t, k);
    AssembleOrder(y);
    NodeOrder(y.mid.left, y.mid.n, y.mid.right);
    SortedParts(InOrder(y.mid.left), y.mid.n, InOrder(y.mid.right));
    LeafOrder();
    var r := Splay(t, k);
    NodeOrder(r.left, r.n, r.right);
    assert r.n in InOrder(r);
  }

  lemma LeafOrder()
    ensures InOrder(Leaf) == []
  {
  }

  // Insertion and removal.

  /** A node put above a splayed tree, which keeps what is on the other side of its root. */
  function Hung(r: Tree, e: SplayNode): Tree
    requires r.Node?
  {
    if e.key < r.n.key then Node(r.left, e, Node(Leaf, r.n, r.right))
    else if e.key > r.n.key then Node(Node(r.left, r.n, Leaf), e, r.right)
    else r
  }

  /** SPLAY_INSERT */
  function Insert(t: Tree, e: SplayNode): Tree {
    if t.Leaf? then Node(Leaf, e, Leaf) else Hung(Splay(t, e.key), e)
  }

  /** SPLAY_REMOVE */
  function Remove(t: Tree, k: int): Tree {
    if t.Leaf? then t
    else
      var r := Splay(t, k);
      if r.n.key != k then r
      else if r.left.Leaf? then r.right
      else
        var l := Splay(r.left, k);
        Node(l.left, l.n, r.right)
  }

  /** Insertion refines insertion into a sorted sequence: the new node goes between the
      smaller and the greater keys, and an equal key keeps it out. */
  lemma InsertIs(t: Tree, e: SplayNode)
    requires Sorted(InOrder(t))
    ensures if exists n :: n in InOrder(t) && n.key == e.key then InOrder(Insert(t, e)) == InOrder(t)
      else exists a, b :: InOrder(t) == a + b && InOrder(Insert(t, e)) == a + [e] + b && Below(a, e.key) && Above(b, e.key)
    ensures Sorted(InOrder(Insert(t, e)))
  {
    hide Splay, InOrder, Sorted;
    LeafOrder();
    if t.Leaf? {
      NodeOrder(Leaf, e, Leaf);
      assert InOrder(t) == [] + [] && InOrder(Insert(t, e)) == [] + [e] + [];
      assert Below([], e.key) && Above([], e.key);
      Joined([], e, []);
    } else {
      SplayRoot(t, e.key);
      SplayOrder(t, e.key);
      var r := Splay(t, e.key);
      var l, g := InOrder(r.left), InOrder(r.right);
      NodeOrder(r.left, r.n, r.right);
      if e.key < r.n.key {
        NodeOrder(Leaf, r.n, r.right);
        NodeOrder(r.left, e, Node(Leaf, r.n, r.right));
        assert [] + [r.n] + g == [r.n] + g;
        assert InOrder(t) == l + ([r.n] + g);
        Joined(l, e, [r.n] + g);
      } else if e.key > r.n.key {
        NodeOrder(r.left, r.n, Leaf);
        NodeOrder(Node(r.left, r.n, Leaf), e, r.right);
        assert l + [r.n] + [] == l + [r.n];
        assert InOrder(t) == (l + [r.n]) + g;
        Joined(l + [r.n], e, g);
      }
    }
  }

  lemma Joined(a: seq<SplayNode>, e: SplayNode, b: seq<SplayNode>)
    requires Sorted(a + b) && Below(a, e.key) && Above(b, e.key)
    ensures Sorted(a + [e] + b)
  {
    var s, t := a + b, a + [e] + b;
    forall i, j | 0 <= i < j < |t| ensures t[i].key < t[j].key {
      var i1 := if i <= |a| then i else i - 1;
      var j1 := if j <= |a| then j else j - 1;
      assert i != |a| ==> t[i] == s[i1];
      assert j != |a| ==> t[j] == s[j1];
      assert i < |a| ==> t[i] in a;
      assert j > |a| ==> t[j] in b;
    }
  }

  /** Removal takes out exactly the node of that key, if there is one. */
  lemma RemoveIs(t: Tree, k: int)
    requires Sorted(InOrder(t))
    ensures if exists n :: n in InOrder(t) && n.key == k
      then exists a, x, b :: InOrder(t) == a + [x] + b && x.key == k && InOrder(Remove(t, k)) == a + b
      else InOrder(Remove(t, k)) == InOrder(t)
    ensures Sorted(InOrder(Remove(t, k)))
  {
    hide Splay;
    if t.Node? {
      SplayRoot(t, k);
      SplayOrder(t, k);
      var r := Splay(t, k);
      var a, b := InOrder(r.left), InOrder(r.right);
      if r.n.key == k {
        SortedParts(a, r.n, b);
        assert InOrder(t) == a + [r.n] + b;
        Without(a, r.n, b);
        if r.left.Leaf? {
          assert a + b == b;
        } else {
          SplayRoot(r.left, k);
          SplayOrder(r.left, k);
          NothingRight(r.left, k);
          var l := Splay(r.left, k);
          assert a == InOrder(l.left) + [l.n] + [];
          assert InOrder(Remove(t, k)) == InOrder(l.left) + [l.n] + b;
          assert InOrder(l.left) + [l.n] + [] + b == InOrder(l.left) + [l.n] + b;
        }
      }
    }
  }

  lemma Without(a: seq<SplayNode>, n: SplayNode, b: seq<SplayNode>)
    requires Sorted(a + [n] + b)
    ensures Sorted(a + b)
  {
    var s, t := a + [n] + b, a + b;
    assert forall i :: 0 <= i < |t| ==> t[i] == s[if i < |a| then i else i + 1];
  }

  /** Splayed for a key above all its own, a tree has its greatest node at the root. */
  lemma NothingRight(t: Tree, k: int)
    requires t.Node? && Sorted(InOrder(t)) && Below(InOrder(t), k)
    ensures Splay(t, k).right.Leaf?
  {
    hide Splay;
    SplayRoot(t, k);
    SplayOrder(t, k);
    var r := Splay(t, k);
    NodeOrder(r.left, r.n, r.right);
    assert forall n :: n in InOrder(r.right) ==> n in InOrder(r);
    NoneLeft(r.right, k);
  }

  lemma NoneLeft(t: Tree, k: int)
    requires Below(InOrder(t), k) && Above(InOrder(t), k)
    ensures t.Leaf?
  {
    if t.Node? {
      Inhabited(t);
    }
  }

  lemma Inhabited(t: Tree)
    requires t.Node?
    ensures t.n in InOrder(t)
  {
  }
}
