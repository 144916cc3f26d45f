/** A valid tree value in textbook terms: a binary search tree with no red under red and equal
    black counts on all paths, hence of at most twice the logarithm of its size in height. */
module RedBlackReading {
  import opened Powers
  import opened RedBlackModel

  datatype Form = Leaf | Fork(left: Form, key: int, red: bool, right: Form)

  /** The tree one sees by following child links down from `n`. */
  ghost function FormOf(t: Tree, n: RBNode?): Form
    requires Shape(t) && (n == null || n in t.g)
    decreases if n == null then 0 else t.g[n].hi - t.g[n].lo + 1
  {
    if n == null then Leaf
    else
      DownFacts(t, n);
      Fork(FormOf(t, t.g[n].left), n.key, t.g[n].red, FormOf(t, t.g[n].right))
  }

  lemma DownFacts(t: Tree, n: RBNode)
    requires Shape(t) && n in t.g
    ensures var c := t.g[n];
            && 0 <= c.lo <= c.pos < c.hi <= |t.nodes| && t.nodes[c.pos] == n
            && (if c.left == null then c.lo == c.pos else c.left in t.g && t.g[c.left].lo == c.lo && t.g[c.left].hi == c.pos)
            && (if c.right == null then c.hi == c.pos + 1 else c.right in t.g && t.g[c.right].lo == c.pos + 1 && t.g[c.right].hi == c.hi)
            && (c.left != null ==> t.g[c.left].parent == n && t.g[c.left].lo < t.g[c.left].hi)
            && (c.right != null ==> t.g[c.right].parent == n && t.g[c.right].lo < t.g[c.right].hi)
  {
    ShapeAt(t, n);
    if t.g[n].left != null {
      ShapeAt(t, t.g[n].left);
    }
    if t.g[n].right != null {
      ShapeAt(t, t.g[n].right);
    }
  }

  function InOrder(f: Form): seq<int> {
    match f
    case Leaf => []
    case Fork(l, k, _, r) => InOrder(l) + [k] + InOrder(r)
  }

  /** Every path from the top to a leaf meets exactly `k` black nodes. */
  predicate AllPaths(f: Form, k: nat) {
    match f
    case Leaf => k == 0
    case Fork(l, _, red, r) =>
      if red then AllPaths(l, k) && AllPaths(r, k) else k > 0 && AllPaths(l, k - 1) && AllPaths(r, k - 1)
  }

  predicate RedTop(f: Form) {
    f.Fork? && f.red
  }

  predicate NoRedUnderRed(f: Form) {
    match f
    case Leaf => true
    case Fork(l, _, red, r) => (red ==> !RedTop(l) && !RedTop(r)) && NoRedUnderRed(l) && NoRedUnderRed(r)
  }

  function Height(f: Form): nat {
    match f
    case Leaf => 0
    case Fork(l, _, _, r) => 1 + if Height(l) >= Height(r) then Height(l) else Height(r)
  }

  function Keys(ns: seq<RBNode>): seq<int> {
    seq(|ns|, i requires 0 <= i < |ns| => ns[i].key)
  }

  /** Following links down from `n` in order meets exactly the nodes of its range. */
  lemma {:induction false} ReadsItsRange(t: Tree, n: RBNode)
    requires Shape(t) && n in t.g
    ensures 0 <= t.g[n].lo < t.g[n].hi <= |t.nodes|
    ensures InOrder(FormOf(t, n)) == Keys(t.nodes)[t.g[n].lo..t.g[n].hi]
    decreases t.g[n].hi - t.g[n].lo
  {
    DownFacts(t, n);
    hide Shape, NodeOk;
    var c, ks := t.g[n], Keys(t.nodes);
    if c.left != null {
      ReadsItsRange(t, c.left);
    }
    if c.right != null {
      ReadsItsRange(t, c.right);
    }
    assert InOrder(FormOf(t, c.left)) == ks[c.lo..c.pos];
    assert InOrder(FormOf(t, c.right)) == ks[c.pos + 1..c.hi];
    assert ks[c.lo..c.hi] == ks[c.lo..c.pos] + [ks[c.pos]] + ks[c.pos + 1..c.hi];
  }

  lemma {:induction false} ReadsBalanced(t: Tree, n: RBNode)
    requires Valid(t) && n in t.g
    ensures t.g[n].bh >= 0 && AllPaths(FormOf(t, n), t.g[n].bh) && NoRedUnderRed(FormOf(t, n))
    decreases t.g[n].hi - t.g[n].lo
  {
    SoundParts(t, n);
    hide Shape, NodeOk, Valid, Good;
    DownFacts(t, n);
    var c := t.g[n];
    if c.left != null {
      ReadsBalanced(t, c.left);
      SoundParts(t, c.left);
      TopColour(t, c.left);
    }
    if c.right != null {
      ReadsBalanced(t, c.right);
      SoundParts(t, c.right);
      TopColour(t, c.right);
    }
  }

  lemma SoundParts(t: Tree, n: RBNode)
    requires Valid(t) && n in t.g
    ensures Shape(t)
    ensures var c := t.g[n];
            && 0 <= Bh(t.g, c.left) == Bh(t.g, c.right) && c.bh == Bh(t.g, c.left) + Own(c.red)
            && (c.red && c.parent in t.g ==> !t.g[c.parent].red)
  {
    ValidAt(t, n);
  }

  lemma TopColour(t: Tree, n: RBNode)
    requires Shape(t) && n in t.g
    ensures RedTop(FormOf(t, n)) == t.g[n].red
  {
  }

  /** Equal black counts make a tree wide. */
  lemma {:induction false} Wide(f: Form, k: nat)
    requires AllPaths(f, k)
    ensures |InOrder(f)| + 1 >= Pow2(k)
  {
    match f
    case Leaf =>
    case Fork(l, _, red, r) =>
      Wide(l, if red then k else k - 1);
      Wide(r, if red then k else k - 1);
  }

  /** Alternating colours keep a tree low. */
  lemma {:induction false} Low(f: Form, k: nat)
    requires AllPaths(f, k) && NoRedUnderRed(f)
    ensures Height(f) <= 2 * k + (if RedTop(f) then 1 else 0)
  {
    match f
    case Leaf =>
    case Fork(l, _, red, r) =>
      Low(l, if red then k else k - 1);
      Low(r, if red then k else k - 1);
  }

  lemma SquareMono(a: nat, b: nat)
    requires a <= b
    ensures a * a <= b * b
  {
    assert a * a <= a * b <= b * b;
  }

  /** A valid tree value, read from its root pointer: its in-order keys are those of
      all its nodes, strictly increasing; it is a red-black tree; and with `n` nodes
      its height is at most 2*log2(n+1). */
  lemma ValidMeansRedBlack(t: Tree) returns (k: nat)
    requires Valid(t)
    ensures t.root == null || t.root in t.g
    ensures var f := FormOf(t, t.root);
            && InOrder(f) == Keys(t.nodes) && (forall i, j | 0 <= i < j < |InOrder(f)| :: InOrder(f)[i] < InOrder(f)[j])
            && AllPaths(f, k) && NoRedUnderRed(f) && !RedTop(f)
            && Pow2(Height(f)) <= (|t.nodes| + 1) * (|t.nodes| + 1)
  {
    if t.root == null {
      k := 0;
    } else {
      ReadsItsRange(t, t.root);
      ReadsBalanced(t, t.root);
      TopColour(t, t.root);
      var f := FormOf(t, t.root);
      k := t.g[t.root].bh;
      Wide(f, k);
      Low(f, k);
      PowUp(Height(f), 2 * k);
      PowSum(k, k);
      SquareMono(Pow2(k), |t.nodes| + 1);
    }
  }
}
