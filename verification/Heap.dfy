/** The pointer-linked binary min heap of heap-inl.h.
    The nodes in breadth-first order are a ghost sequence, and `Linked` ties every left,
    right and parent pointer to the positions 2k + 1, 2k + 2 and (k - 1) / 2 in it. So the
    walk by the bits of a position finds the slot of that number, swapping two nodes by
    their links is swapping two entries of the sequence, and the order of the keys is
    module HeapOrder's statement about an ordinary sequence. */
module Heaps {
  import opened Basics
  import opened HeapOrder

  class HeapNode {
    var left: HeapNode?
    var right: HeapNode?
    var parent: HeapNode?
    /** What the caller's comparison function looks at. */
    const key: int

    constructor (key: int)
      ensures this.key == key
    {
      this.key := key;
    }
  }

  function Keys(ns: seq<HeapNode>): (ks: seq<int>)
    ensures |ks| == |ns| && forall i | 0 <= i < |ns| :: ks[i] == ns[i].key
  {
    seq(|ns|, i requires 0 <= i < |ns| => ns[i].key)
  }

  /** The nodes of a heap, whatever their order. */
  function Members(ns: seq<HeapNode>): set<HeapNode> {
    set n | n in ns
  }

  function At(ns: seq<HeapNode>, i: nat): HeapNode? {
    if i < |ns| then ns[i] else null
  }

  /** The node at breadth-first index `i` is linked to exactly the nodes at the
      indices of its children and of its parent. */
  ghost predicate Linked(ns: seq<HeapNode>, i: nat)
    requires i < |ns|
    reads ns
  {
    && ns[i].left == At(ns, 2 * i + 1)
    && ns[i].right == At(ns, 2 * i + 2)
    && ns[i].parent == if i == 0 then null else ns[Par(i)]
  }

  ghost predicate AllLinked(ns: seq<HeapNode>)
    reads ns
  {
    forall i | 0 <= i < |ns| :: Linked(ns, i)
  }

  function SwapNodes(ns: seq<HeapNode>, i: nat, j: nat): (r: seq<HeapNode>)
    requires i < |ns| && j < |ns|
    ensures |r| == |ns| && Keys(r) == Swap(Keys(ns), i, j)
  {
    ns[i := ns[j]][j := ns[i]]
  }

  /** A `struct heap_node**`: a place that holds a node pointer. */
  datatype Slot = MinSlot | LeftSlot(owner: HeapNode) | RightSlot(owner: HeapNode) {
    function Owner(): set<HeapNode> {
      if MinSlot? then {} else {owner}
    }
  }

  /** The slot that holds, or will hold, the node at position `m`, counting from 1. */
  ghost function SlotAt(ns: seq<HeapNode>, m: nat): Slot
    requires 1 <= m <= |ns| + 1
  {
    if m == 1 then MinSlot else if m % 2 == 0 then LeftSlot(ns[m / 2 - 1]) else RightSlot(ns[m / 2 - 1])
  }

  class Heap {
    var min: HeapNode?
    var nelts: nat
    /** The nodes in breadth-first order. */
    ghost var nodes: seq<HeapNode>

    /** The links form a complete tree with `nodes` in breadth-first order. */
    ghost predicate Shape()
      reads this, nodes
    {
      nelts == |nodes| && min == At(nodes, 0) && Distinct(nodes) && AllLinked(nodes)
    }

    ghost predicate Valid()
      reads this, nodes
    {
      Shape() && Ordered(Keys(nodes))
    }

    constructor ()
      ensures Valid() && nodes == []
    {
      min, nelts, nodes := null, 0, [];
    }

    /** heap_min. */
    method Min() returns (m: HeapNode?)
      requires Valid()
      ensures m == min && (m == null <==> nodes == [])
      ensures m != null ==> m in nodes && forall n | n in nodes :: m.key <= n.key
    {
      m := min;
      if m != null {
        forall n | n in nodes
          ensures m.key <= n.key
        {
          var i :| 0 <= i < |nodes| && nodes[i] == n;
          RootIsLeast(Keys(nodes), i);
        }
      }
    }

    /** heap_insert. */
    method Insert(newnode: HeapNode)
      requires Valid() && newnode !in nodes
      modifies this, Members(nodes), newnode
      ensures Valid() && Members(nodes) == old(Members(nodes)) + {newnode}
    {
      newnode.left, newnode.right, newnode.parent := null, null, null;
      var path, k := PathTo(1 + nelts);
      var slot := SlotTo(path, k, 1 + nelts);
      ghost var ns := nodes;
      Attach(newnode, slot);
      Append(Keys(ns), newnode.key);
      assert Keys(nodes) == Keys(ns) + [newnode.key];
      ghost var i := SiftUp(newnode, |ns|);
    }

    /** Reads the pointer a slot holds. */
    function Load(s: Slot): HeapNode?
      reads this, s.Owner()
    {
      match s
      case MinSlot => min
      case LeftSlot(n) => n.left
      case RightSlot(n) => n.right
    }

    /** Follows `k` bits of `path` from the root to the slot for position `target`. */
    method SlotTo(path0: nat, k0: nat, target: nat) returns (slot: Slot)
      requires Shape() && 1 <= Walk(1, path0, k0) == target <= |nodes| + 1
      ensures slot == SlotAt(nodes, target)
    {
      var path, k := path0, k0;
      slot := MinSlot;
      ghost var m := 1;
      while k > 0
        invariant m >= 1 && Walk(m, path, k) == target
        invariant m <= |nodes| + 1 && slot == SlotAt(nodes, m)
      {
        WalkGrows(m, path, k);
        WalkGrows(2 * m + path % 2, path / 2, k - 1);
        assert m > 1 ==> Linked(nodes, m / 2 - 1);
        assert Load(slot) == nodes[m - 1];
        slot := if path % 2 == 1 then RightSlot(Load(slot)) else LeftSlot(Load(slot));
        m := 2 * m + path % 2;
        path, k := path / 2, k - 1;
      }
    }

    /** Puts a new last node into the slot found for it. */
    method Attach(newnode: HeapNode, slot: Slot)
      requires Shape() && slot == SlotAt(nodes, 1 + nelts) && newnode !in nodes
      requires newnode.left == null && newnode.right == null
      modifies this, slot.Owner(), newnode
      ensures Shape() && nodes == old(nodes) + [newnode]
    {
      newnode.parent := if slot.MinSlot? then null else slot.owner;
      match slot {
        case MinSlot => min := newnode;
        case LeftSlot(n) => n.left := newnode;
        case RightSlot(n) => n.right := newnode;
      }
      ghost var ns, n := nodes, |nodes|;
      nelts := nelts + 1;
      nodes := nodes + [newnode];
      forall j | 0 <= j < |nodes|
        ensures Linked(nodes, j)
      {
        if j < n {
          assert old(Linked(ns, j));
        }
      }
    }

    lemma ShapeAt(i: nat)
      requires Shape() && i < |nodes|
      ensures nodes[i].left == At(nodes, 2 * i + 1) && nodes[i].right == At(nodes, 2 * i + 2)
      ensures nodes[i].parent == ParentAt(nodes, i)
    {
      assert Linked(nodes, i);
    }

    /** Walks a node up while it is less than its parent. */
    method SiftUp(n: HeapNode, ghost i0: nat) returns (ghost i: nat)
      requires Shape() && i0 < |nodes| && nodes[i0] == n
      requires OrderedExcept(Keys(nodes), i0) && Below(Keys(nodes), i0)
      modifies `min, `nodes, Members(nodes)
      ensures Valid() && Members(nodes) == old(Members(nodes))
    {
      hide Ordered, OrderedExcept, Below, SwapNodes, AllLinked, Distinct;
      i := i0;
      ShapeAt(i);
      while n.parent != null && n.key < n.parent.key
        invariant Shape() && i < |nodes| && nodes[i] == n
        invariant OrderedExcept(Keys(nodes), i) && Below(Keys(nodes), i)
        invariant n.parent == ParentAt(nodes, i)
        invariant Members(nodes) == old(Members(nodes))
        decreases i
      {
        ParIs(Par(i), i);
        SwapUp(Keys(nodes), i);
        SwapMembers(nodes, Par(i), i);
        NodeSwap(n.parent, n, i);
        i := Par(i);
        ShapeAt(i);
      }
      Settled(Keys(nodes), i);
    }

    /** heap_remove, of any node of the heap; nothing happens to an empty heap. */
    method Remove(node: HeapNode?)
      requires Valid() && (nelts > 0 ==> node in nodes)
      modifies this, Members(nodes)
      ensures Valid() && Members(nodes) == old(Members(nodes)) - {node}
      ensures nelts == if old(nelts) == 0 then 0 else old(nelts) - 1
    {
      hide Ordered, OrderedExcept, Below, AllLinked, Members, SlotAt, Walk, Linked;
      if nelts == 0 {
        NoMembers(node);
        return;
      }
      var path, k := PathTo(nelts);
      var max := SlotTo(path, k, nelts);
      ghost var ns := nodes;
      LastMember(ns);
      OwnerIsMember(ns, nelts);
      nelts := nelts - 1;
      var child := Detach(max);
      Shorten(Keys(ns), |ns| - 1);
      assert Keys(nodes) == Keys(ns)[..|ns| - 1];
      if child == node {
        // The slot just cleared was the only one that held `child`, so this keeps `min`.
        min := if child == min then null else min;
        return;
      }
      ghost var ms := nodes;
      ghost var i := TakePlace(child, node);
      PutMembers(ms, i, child);
      Replace(Keys(ms), i, child.key);
      assert Keys(nodes) == Keys(ms)[i := child.key];
      i := SiftDown(child, i);
      i := SiftUp(child, i);
    }

    /** heap_dequeue. */
    method Dequeue()
      requires Valid()
      modifies this, Members(nodes)
      ensures Valid() && Members(nodes) == old(Members(nodes)) - {old(min)}
      ensures forall n | n in old(nodes) :: old(min) != null && old(min).key <= n.key
    {
      var m := Min();
      Remove(m);
    }

    /** Clears the slot of the last node and returns that node. */
    method Detach(max: Slot) returns (child: HeapNode)
      requires nelts + 1 == |nodes| && min == At(nodes, 0) && Distinct(nodes) && AllLinked(nodes)
      requires max == SlotAt(nodes, |nodes|)
      modifies `min, `nodes, max.Owner()
      ensures Shape() && nodes == old(nodes)[..nelts] && child == old(nodes)[nelts]
    {
      ghost var ns := nodes;
      assert nelts > 0 ==> Linked(ns, Par(nelts));
      child := Load(max);
      match max {
        case MinSlot => min := null;
        case LeftSlot(n) => n.left := null;
        case RightSlot(n) => n.right := null;
      }
      nodes := ns[..nelts];
      forall j | 0 <= j < |nodes|
        ensures Linked(nodes, j)
      {
        assert old(Linked(ns, j));
      }
    }

    /** `child`, which is not in the heap, takes the links and the place of `node`. */
    method TakePlace(child: HeapNode, node: HeapNode) returns (ghost i: nat)
      requires Shape() && node in nodes && child !in nodes
      modifies `min, `nodes, Members(nodes), child
      ensures Shape() && i < |nodes| && old(nodes)[i] == node && nodes == old(nodes)[i := child]
    {
      hide Mutual, LocalLinks, Plays;
      ghost var ns := nodes;
      i :| 0 <= i < |nodes| && nodes[i] == node;
      LinkedMutual(ns);
      assert old(Linked(ns, i)) && node.parent == ParentAt(ns, i);
      RootAlone(ns, i);
      StandIn(child, node);
      ghost var r := ns[i := child];
      forall j | 0 <= j < |r|
        ensures Linked(r, j)
      {
        assert old(Linked(ns, j));
        PlaysPut(ns, i, child, j);
      }
      PutAt(ns, i, child, 0);
      nodes := r;
    }

    /** The assignments that make `child` stand in for `node`. */
    method StandIn(child: HeapNode, node: HeapNode)
      requires Mutual(nodes) && node in nodes && child !in nodes && (node.parent == null <==> node == min)
      modifies `min, Members(nodes), child
      ensures forall n | n in nodes :: Plays(n, node, child, old(n.left), old(n.right), old(n.parent))
      ensures min == if old(min) == node then child else old(min)
    {
      assert LocalLinks(node, nodes) && (node.parent != null ==> LocalLinks(node.parent, nodes));
      TakeLinks(child, node);
      Rehang(node, child);
      forall n | n in nodes
        ensures Plays(n, node, child, old(n.left), old(n.right), old(n.parent))
      {
        assert old(LocalLinks(n, nodes));
      }
    }

    /** `child` gets the links of `node`, and the children learn their new parent. */
    method TakeLinks(child: HeapNode, node: HeapNode)
      requires node != child && node.left != node && node.right != node && node.left != child && node.right != child
      modifies child, node.left, node.right
      ensures child.left == node.left && child.right == node.right && child.parent == node.parent
      ensures forall n: HeapNode | n in {node.left, node.right} ::
                n.left == old(n.left) && n.right == old(n.right) && n.parent == child
    {
      child.left := node.left;
      child.right := node.right;
      child.parent := node.parent;
      if child.left != null {
        child.left.parent := child;
      }
      if child.right != null {
        child.right.parent := child;
      }
    }

    /** Walks a node down while it is greater than its smaller child. */
    method SiftDown(child: HeapNode, ghost i0: nat) returns (ghost i: nat)
      requires Shape() && i0 < |nodes| && nodes[i0] == child
      requires OrderedExcept(Keys(nodes), i0)
      modifies `min, `nodes, Members(nodes)
      ensures Shape() && i < |nodes| && nodes[i] == child && Members(nodes) == old(Members(nodes))
      ensures OrderedExcept(Keys(nodes), i) && Below(Keys(nodes), i)
    {
      hide Ordered, OrderedExcept, Below, SwapNodes, AllLinked, Distinct;
      i := i0;
      while true
        invariant Shape() && i < |nodes| && nodes[i] == child
        invariant OrderedExcept(Keys(nodes), i)
        invariant Members(nodes) == old(Members(nodes))
        decreases |nodes| - i
      {
        var smallest, c := Smallest(child, i);
        if smallest == child {
          break;
        }
        ParIs(i, c);
        SwapDown(Keys(nodes), i, c);
        SwapMembers(nodes, i, c);
        NodeSwap(child, smallest, c);
        i := c;
      }
    }

    /** The least of a node and its children, and its index. */
    method Smallest(child: HeapNode, ghost i: nat) returns (smallest: HeapNode, ghost c: nat)
      requires Shape() && i < |nodes| && nodes[i] == child
      ensures c < |nodes| && nodes[c] == smallest
      ensures smallest == child ==> Below(Keys(nodes), i)
      ensures smallest != child ==> 0 < c && Par(c) == i && smallest.key < child.key
      ensures smallest != child ==> forall j | 0 < j < |nodes| && Par(j) == i :: smallest.key <= nodes[j].key
    {
      ShapeAt(i);
      smallest, c := child, i;
      if child.left != null && child.left.key < smallest.key {
        smallest, c := child.left, 2 * i + 1;
      }
      if child.right != null && child.right.key < smallest.key {
        smallest, c := child.right, 2 * i + 2;
      }
      forall j | 0 < j < |nodes| && Par(j) == i
        ensures smallest.key <= nodes[j].key
      {
        ParIs(i, j);
      }
    }

    /** heap_node_swap: the child at index `i` changes places with its parent. */
    method NodeSwap(parent: HeapNode, child: HeapNode, ghost i: nat)
      requires Shape() && 0 < i < |nodes| && nodes[i] == child && nodes[Par(i)] == parent
      modifies `min, `nodes, Members(nodes)
      ensures Shape() && nodes == SwapNodes(old(nodes), Par(i), i)
    {
      hide Mutual, LocalLinks, Plays, SwapNodes;
      LinkedMutual(nodes);
      FamilyFacts(nodes, i);
      ghost var ns := nodes;
      Exchange(parent, child);
      forall j | 0 <= j < |ns|
        ensures Linked(SwapNodes(ns, Par(i), i), j)
      {
        assert old(Linked(ns, j));
        PlaysLinked(ns, Par(i), i, j);
      }
      SwapDistinct(ns, Par(i), i);
      SwapAt(ns, Par(i), i, 0);
      nodes := SwapNodes(ns, Par(i), i);
    }

    /** The assignments of heap_node_swap, on any mutually linked nodes. */
    method Exchange(parent: HeapNode, child: HeapNode)
      requires Mutual(nodes) && child in nodes && child.parent == parent && parent in nodes
      requires parent.parent != child && child.left != parent && child.right != parent
      requires child != min && (parent.parent == null <==> parent == min)
      modifies `min, Members(nodes)
      ensures forall n | n in nodes :: Plays(n, parent, child, old(n.left), old(n.right), old(n.parent))
      ensures min == Ren(old(min), parent, child)
    {
      assert LocalLinks(parent, nodes) && LocalLinks(child, nodes);
      var sibling := SwapContents(parent, child);
      AdoptNeighbours(parent, child, sibling);
      Rehang(parent, child);
      assert Plays(parent, parent, child, old(parent.left), old(parent.right), old(parent.parent));
      assert Plays(child, parent, child, old(child.left), old(child.right), old(child.parent));
      forall n | n in nodes && n != parent && n != child
        ensures Plays(n, parent, child, old(n.left), old(n.right), old(n.parent))
      {
        assert old(LocalLinks(n, nodes));
      }
    }

    /** Exchanges the contents of the two structs and turns the link between them around. */
    method SwapContents(parent: HeapNode, child: HeapNode) returns (sibling: HeapNode?)
      requires parent != child && child.parent == parent && parent.left != parent.right
      requires parent.left == child || parent.right == child
      modifies parent, child
      ensures parent.left == old(child.left) && parent.right == old(child.right) && parent.parent == child
      ensures child.parent == old(parent.parent)
      ensures if old(parent.left) == child then child.left == parent && child.right == sibling == old(parent.right)
              else child.right == parent && child.left == sibling == old(parent.left)
    {
      parent.left, parent.right, parent.parent, child.left, child.right, child.parent :=
        child.left, child.right, child.parent, parent.left, parent.right, parent.parent;
      parent.parent := child;
      if child.left == child {
        child.left := parent;
        sibling := child.right;
      } else {
        child.right := parent;
        sibling := child.left;
      }
    }

    /** The sibling and the old grandchildren learn who their parent is now. */
    method AdoptNeighbours(parent: HeapNode, child: HeapNode, sibling: HeapNode?)
      requires parent != child
      requires parent.left != parent && parent.left != child && parent.right != parent && parent.right != child
      requires sibling != parent && sibling != child
      requires sibling == null || (sibling != parent.left && sibling != parent.right)
      modifies sibling, parent.left, parent.right
      ensures sibling != null ==> sibling.parent == child
      ensures parent.left != null ==> parent.left.parent == parent
      ensures parent.right != null ==> parent.right.parent == parent
      ensures forall n: HeapNode | n in {sibling, parent.left, parent.right} :: n.left == old(n.left) && n.right == old(n.right)
    {
      if sibling != null {
        sibling.parent := child;
      }
      if parent.left != null {
        parent.left.parent := parent;
      }
      if parent.right != null {
        parent.right.parent := parent;
      }
    }

    /** The link that led down to the parent now leads to the child. */
    method Rehang(parent: HeapNode, child: HeapNode)
      requires child.parent != parent && child.parent != child
      requires child.parent != null ==> child.parent.left != child.parent.right
      requires child.parent != null ==> child.parent.left == parent || child.parent.right == parent
      modifies `min, child.parent
      ensures if child.parent == null then min == child else min == old(min)
      ensures child.parent != null ==>
                && child.parent.left == (if old(child.parent.left) == parent then child else old(child.parent.left))
                && child.parent.right == (if old(child.parent.right) == parent then child else old(child.parent.right))
                && child.parent.parent == old(child.parent.parent)
    {
      if child.parent == null {
        min := child;
      } else if child.parent.left == parent {
        child.parent.left := child;
      } else {
        child.parent.right := child;
      }
    }
  }

  /** The link of the node at `j` to its parent. */
  function ParentAt(ns: seq<HeapNode>, j: nat): HeapNode? {
    if 0 < j < |ns| then ns[Par(j)] else null
  }

  lemma FamilyFacts(ns: seq<HeapNode>, i: nat)
    requires AllLinked(ns) && Distinct(ns) && 0 < i < |ns|
    ensures var c, p := ns[i], ns[Par(i)];
            && c.parent == p && p.parent != c && c.left != p && c.right != p
            && c != ns[0] && (p.parent == null <==> p == ns[0])
  {
    ParIs(Par(i), i);
    assert Linked(ns, i) && Linked(ns, Par(i));
  }

  lemma PlaysLinked(ns: seq<HeapNode>, p: nat, i: nat, j: nat)
    requires Distinct(ns) && p < |ns| && i < |ns| && p != i && j < |ns|
    requires Plays(ns[j], ns[p], ns[i], At(ns, 2 * j + 1), At(ns, 2 * j + 2), ParentAt(ns, j))
    ensures Linked(SwapNodes(ns, p, i), j)
  {
    SwapAt(ns, p, i, j);
    SwapAt(ns, p, i, 2 * j + 1);
    SwapAt(ns, p, i, 2 * j + 2);
    if j > 0 {
      SwapAt(ns, p, i, Par(j));
    }
  }

  lemma SwapAt(ns: seq<HeapNode>, p: nat, i: nat, k: nat)
    requires Distinct(ns) && p < |ns| && i < |ns| && p != i
    ensures At(SwapNodes(ns, p, i), k) == Ren(At(ns, k), ns[p], ns[i])
  {
  }

  lemma PlaysPut(ns: seq<HeapNode>, i: nat, child: HeapNode, j: nat)
    requires Distinct(ns) && i < |ns| && child !in ns && j < |ns|
    requires Plays(ns[j], ns[i], child, At(ns, 2 * j + 1), At(ns, 2 * j + 2), ParentAt(ns, j))
    ensures Linked(ns[i := child], j)
  {
    PutAt(ns, i, child, j);
    PutAt(ns, i, child, 2 * j + 1);
    PutAt(ns, i, child, 2 * j + 2);
    if j > 0 {
      PutAt(ns, i, child, Par(j));
    }
  }

  lemma PutAt(ns: seq<HeapNode>, i: nat, child: HeapNode, k: nat)
    requires Distinct(ns) && i < |ns| && child !in ns
    ensures At(ns[i := child], k) == Ren(At(ns, k), ns[i], child)
  {
    if k < |ns| {
      assert ns[k] != child;
    }
  }

  lemma RootAlone(ns: seq<HeapNode>, i: nat)
    requires Distinct(ns) && i < |ns|
    ensures ParentAt(ns, i) == null <==> ns[i] == ns[0]
  {
    if i > 0 {
      ParIs(Par(i), i);
    }
  }

  lemma NoMembers(n: HeapNode?)
    ensures Members([]) - {n} == Members([])
  {
  }

  lemma PutMembers(ns: seq<HeapNode>, i: nat, child: HeapNode)
    requires Distinct(ns) && i < |ns| && child !in ns
    ensures Members(ns[i := child]) == Members(ns) - {ns[i]} + {child}
    ensures child !in Members(ns)
  {
    var r := ns[i := child];
    assert r[i] == child;
    assert forall k | 0 <= k < |ns| && k != i :: r[k] == ns[k];
  }

  lemma OwnerIsMember(ns: seq<HeapNode>, m: nat)
    requires 1 <= m <= |ns| + 1
    ensures SlotAt(ns, m).Owner() <= Members(ns)
  {
  }

  lemma LastMember(ns: seq<HeapNode>)
    requires Distinct(ns) && |ns| > 0
    ensures ns[|ns| - 1] !in ns[..|ns| - 1] && ns[|ns| - 1] in Members(ns)
    ensures Members(ns[..|ns| - 1]) == Members(ns) - {ns[|ns| - 1]}
  {
    var r := ns[..|ns| - 1];
    forall n | n in Members(ns) - {ns[|ns| - 1]}
      ensures n in r
    {
      var i :| 0 <= i < |ns| && ns[i] == n;
      assert r[i] == n;
    }
  }

  lemma SwapMembers(ns: seq<HeapNode>, p: nat, i: nat)
    requires p < |ns| && i < |ns|
    ensures Members(SwapNodes(ns, p, i)) == Members(ns)
    ensures SwapNodes(ns, p, i)[p] == ns[i] && (p != i ==> SwapNodes(ns, p, i)[i] == ns[p])
  {
    var r := SwapNodes(ns, p, i);
    assert r[p] == ns[i] && r[i] == ns[p];
    assert forall k | 0 <= k < |ns| && k != p && k != i :: r[k] == ns[k];
  }

  lemma SwapDistinct(ns: seq<HeapNode>, p: nat, i: nat)
    requires Distinct(ns) && p < |ns| && i < |ns|
    ensures Distinct(SwapNodes(ns, p, i))
  {
  }

  /** `n`, with `a` and `b` exchanged. */
  function Ren(n: HeapNode?, a: HeapNode, b: HeapNode): HeapNode? {
    if n == a then b else if n == b then a else n
  }

  /** The node that plays the part of `n` once `a` and `b` are exchanged has the
      links `l`, `r`, `p`, with `a` and `b` exchanged in them too. */
  ghost predicate Plays(n: HeapNode, a: HeapNode, b: HeapNode, l: HeapNode?, r: HeapNode?, p: HeapNode?)
    reads Ren(n, a, b)
  {
    var m: HeapNode := Ren(n, a, b);
    m.left == Ren(l, a, b) && m.right == Ren(r, a, b) && m.parent == Ren(p, a, b)
  }

  /** Child links and parent links agree, and lead to distinct nodes. */
  ghost predicate Mutual(ns: seq<HeapNode>)
    reads ns
  {
    forall n | n in ns :: LocalLinks(n, ns)
  }

  ghost predicate LocalLinks(n: HeapNode, ns: seq<HeapNode>)
    requires n in ns
    reads ns
  {
    && (n.left != null ==> n.left in ns && n.left.parent == n)
    && (n.right != null ==> n.right in ns && n.right.parent == n && n.left != n.right)
    && (n.parent != null ==> n.parent in ns && (n.parent.left == n || n.parent.right == n))
    && n.left != n && n.right != n && n.parent != n
  }

  lemma LinkedMutual(ns: seq<HeapNode>)
    requires AllLinked(ns) && Distinct(ns)
    ensures Mutual(ns)
  {
    forall n | n in ns
      ensures LocalLinks(n, ns)
    {
      var i :| 0 <= i < |ns| && ns[i] == n;
      assert Linked(ns, i);
      assert 2 * i + 1 < |ns| ==> Linked(ns, 2 * i + 1);
      assert 2 * i + 2 < |ns| ==> Linked(ns, 2 * i + 2);
      if i > 0 {
        ParIs(Par(i), i);
        assert Linked(ns, Par(i));
      }
    }
  }
}
