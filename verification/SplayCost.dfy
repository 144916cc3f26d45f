/** What splaying costs: the Balance Theorem of include/tree.h:50-52, by the potential argument
    of Sleator and Tarjan with whole-number ranks, for the top-down loop of the source. */
module SplayCost {
  import opened SplayModel

  /** Turns of the loop of SPLAY, the one that breaks off included. */
  function Turns(t: Tree, k: int): nat
    requires t.Node?
    decreases t
  {
    if k < t.n.key then
      if t.left.Leaf? then 1
      else if k < t.left.n.key then
        if t.left.left.Leaf? then 1 else 1 + Turns(t.left.left, k)
      else 1 + Turns(t.left, k)
    else if k > t.n.key then
      if t.right.Leaf? then 1
      else if k > t.right.n.key then
        if t.right.right.Leaf? then 1 else 1 + Turns(t.right.right, k)
      else 1 + Turns(t.right, k)
    else 0
  }

  /** The splayed tree by recursion on the part of the tree that the loop goes on with. */
  function Split(t: Tree, k: int): (r: Tree)
    requires t.Node?
    ensures r.Node?
    decreases Size(t)
  {
    if k < t.n.key then
      if t.left.Leaf? then t
      else
        var u := if k < t.left.n.key then RotateRight(t) else t;
        if u.left.Leaf? then u
        else
          var s := Split(u.left, k);
          Node(s.left, s.n, Node(s.right, u.n, u.right))
    else if k > t.n.key then
      if t.right.Leaf? then t
      else
        var u := if k > t.right.n.key then RotateLeft(t) else t;
        if u.right.Leaf? then u
        else
          var s := Split(u.right, k);
          Node(Node(u.left, u.n, s.left), s.n, s.right)
    else t
  }

  lemma {:induction false} DescendSplits(z: Zip, k: int)
    requires z.mid.Node?
    ensures var s := Split(z.mid, k);
      Assemble(Descend(z, k)) == Node(LeftTree(z.left, s.left), s.n, RightTree(z.right, s.right))
    decreases Size(z.mid)
  {
    var t := z.mid;
    if k < t.n.key && t.left.Node? {
      var y := if k < t.left.n.key then z.(mid := RotateRight(t)) else z;
      if y.mid.left.Node? {
        DescendSplits(LinkLeft(y), k);
        assert LinkLeft(y).right[..|z.right|] == z.right;
      }
    } else if k > t.n.key && t.right.Node? {
      var y := if k > t.right.n.key then z.(mid := RotateLeft(t)) else z;
      if y.mid.right.Node? {
        DescendSplits(LinkRight(y), k);
        assert LinkRight(y).left[..|z.left|] == z.left;
      }
    }
  }

  lemma SplayIsSplit(t: Tree, k: int)
    requires t.Node?
    ensures Splay(t, k) == Split(t, k)
  {
    hide Descend, Split;
    DescendSplits(Zip([], t, []), k);
  }

  // Ranks.

  /** The logarithm to base 2, rounded down. */
  function Rank(n: nat): nat {
    if n < 2 then 0 else 1 + Rank(n / 2)
  }

  lemma {:induction false} RankGrows(a: nat, b: nat)
    requires a <= b
    ensures Rank(a) <= Rank(b)
    decreases b
  {
    if a >= 2 {
      RankGrows(a / 2, b / 2);
    }
  }

  /** Of two parts one has a smaller rank than the whole. */
  lemma {:induction false} RankOfParts(a: nat, b: nat, n: nat)
    requires a + b <= n && n >= 2
    ensures Rank(a) < Rank(n) || Rank(b) < Rank(n)
    decreases n
  {
    if a >= 2 && b >= 2 {
      RankOfParts(a / 2, b / 2, n / 2);
    }
  }

  /** The sum of the ranks of all subtrees. */
  function Potential(t: Tree): nat {
    match t case Leaf => 0 case Node(l, _, r) => Potential(l) + Rank(Size(t)) + Potential(r)
  }

  // One splay.

  /** The loop ends in this turn. */
  predicate Stops(t: Tree, k: int)
    requires t.Node?
  {
    if k < t.n.key then t.left.Leaf? || (k < t.left.n.key && t.left.left.Leaf?)
    else if k > t.n.key then t.right.Leaf? || (k > t.right.n.key && t.right.right.Leaf?)
    else true
  }

  /** What the first node set aside will have lost in rank. A turn without a rotation is paid by
      this loss or by that of the next turn, which sets a node aside on the other side. */
  function Credit(t: Tree, k: int): int
    requires t.Node?
  {
    if Stops(t, k) then -1
    else Rank(Size(if k < t.n.key then Split(t, k).right else Split(t, k).left)) - Rank(Size(t))
  }

  function Paid(t: Tree, k: int): int
    requires t.Node?
  {
    2 * Potential(t) + 3 * Rank(Size(t)) + 2 + Credit(t, k)
  }

  function Spent(t: Tree, k: int): int
    requires t.Node?
  {
    Turns(t, k) + 2 * Potential(Split(t, k).left) + 2 * Potential(Split(t, k).right)
  }

  lemma Sums(l: Tree, n: SplayNode, r: Tree)
    ensures var t := Node(l, n, r);
      Size(t) == Size(l) + 1 + Size(r) && Potential(t) == Potential(l) + Rank(Size(t)) + Potential(r)
  {
  }

  lemma RotateSize(t: Tree)
    requires t.Node?
    ensures t.left.Node? ==> Size(RotateRight(t)) == Size(t)
    ensures t.right.Node? ==> Size(RotateLeft(t)) == Size(t)
  {
    if t.left.Node? { Sums(t.left.right, t.n, t.right); }
    if t.right.Node? { Sums(t.left, t.n, t.right.left); }
  }

  lemma {:induction false} SplitSize(t: Tree, k: int)
    requires t.Node?
    ensures Size(Split(t, k)) == Size(t)
    ensures Size(Split(t, k).left) + Size(Split(t, k).right) + 1 == Size(t)
    decreases t
  {
    if k < t.n.key && t.left.Node? {
      var u := if k < t.left.n.key then RotateRight(t) else t;
      RotateSize(t);
      if u.left.Node? {
        SplitSize(u.left, k);
        Sums(Split(u.left, k).right, u.n, u.right);
      }
    } else if k > t.n.key && t.right.Node? {
      var u := if k > t.right.n.key then RotateLeft(t) else t;
      RotateSize(t);
      if u.right.Node? {
        SplitSize(u.right, k);
        Sums(u.left, u.n, Split(u.right, k).left);
      }
    }
  }

  lemma CreditBound(t: Tree, k: int)
    requires t.Node?
    ensures Credit(t, k) <= 0
  {
    hide Split, Rank;
    SplitSize(t, k);
    RankGrows(Size(Split(t, k).left), Size(t));
    RankGrows(Size(Split(t, k).right), Size(t));
  }

  lemma {:induction false} Amortized(t: Tree, k: int)
    requires t.Node?
    ensures Spent(t, k) <= Paid(t, k)
    decreases t
  {
    hide Spent, Paid;
    if Stops(t, k) {
      LastTurn(t, k);
    } else if k < t.n.key {
      if k < t.left.n.key {
        Amortized(t.left.left, k);
        DoubleTurnRight(t, k);
      } else {
        Amortized(t.left, k);
        SingleTurnRight(t, k);
      }
    } else if k > t.right.n.key {
      Amortized(t.right.right, k);
      DoubleTurnLeft(t, k);
    } else {
      Amortized(t.right, k);
      SingleTurnLeft(t, k);
    }
  }

  lemma LastTurn(t: Tree, k: int)
    requires t.Node? && Stops(t, k)
    ensures Spent(t, k) <= Paid(t, k)
  {
    hide Rank;
    Sums(t.left, t.n, t.right);
    Sums(Leaf, t.n, Leaf);
    if k < t.n.key && t.left.Node? {
      Sums(t.left.left, t.left.n, t.left.right);
      Sums(t.left.right, t.n, t.right);
      RankGrows(Size(Node(t.left.right, t.n, t.right)), Size(t));
    } else if k > t.n.key && t.right.Node? {
      Sums(t.right.left, t.right.n, t.right.right);
      Sums(t.left, t.n, t.right.left);
      RankGrows(Size(Node(t.left, t.n, t.right.left)), Size(t));
    }
  }

  lemma SingleTurnRight(t: Tree, k: int)
    requires t.Node? && !Stops(t, k) && k < t.n.key && k >= t.left.n.key && Spent(t.left, k) <= Paid(t.left, k)
    ensures Spent(t, k) <= Paid(t, k)
  {
    hide Rank;
    var x := t.left;
    SplitSize(x, k);
    SplitSize(t, k);
    RankGrows(Size(x), Size(t));
    RankGrows(Size(Split(t, k).right), Size(t));
    RankGrows(Size(Split(x, k).left), Size(x));
    RankOfParts(Size(Split(t, k).left), Size(Split(t, k).right), Size(t));
    CreditBound(x, k);
    hide Split;
    SingleParts(t, k);
  }

  lemma SingleParts(t: Tree, k: int)
    requires t.Node? && !Stops(t, k)
    ensures k < t.n.key && k >= t.left.n.key ==> var s := Split(t.left, k);
      Split(t, k) == Node(s.left, s.n, Node(s.right, t.n, t.right)) && Turns(t, k) == 1 + Turns(t.left, k)
    ensures k > t.n.key && k <= t.right.n.key ==> var s := Split(t.right, k);
      Split(t, k) == Node(Node(t.left, t.n, s.left), s.n, s.right) && Turns(t, k) == 1 + Turns(t.right, k)
  {
  }

  lemma SingleTurnLeft(t: Tree, k: int)
    requires t.Node? && !Stops(t, k) && k > t.n.key && k <= t.right.n.key && Spent(t.right, k) <= Paid(t.right, k)
    ensures Spent(t, k) <= Paid(t, k)
  {
    hide Rank;
    var x := t.right;
    SplitSize(x, k);
    SplitSize(t, k);
    RankGrows(Size(x), Size(t));
    RankGrows(Size(Split(t, k).left), Size(t));
    RankGrows(Size(Split(x, k).right), Size(x));
    RankOfParts(Size(Split(t, k).left), Size(Split(t, k).right), Size(t));
    CreditBound(x, k);
    hide Split;
    SingleParts(t, k);
  }

  lemma DoubleTurnRight(t: Tree, k: int)
    requires t.Node? && !Stops(t, k) && k < t.n.key && k < t.left.n.key && Spent(t.left.left, k) <= Paid(t.left.left, k)
    ensures Spent(t, k) <= Paid(t, k)
  {
    hide Rank;
    var x, a := t.left, t.left.left;
    var rest := Node(x.right, t.n, t.right);
    Sums(x.left, x.n, x.right);
    Sums(x.right, t.n, t.right);
    Sums(Split(a, k).right, x.n, rest);
    SplitSize(t, k);
    RankGrows(Size(a), Size(x));
    RankGrows(Size(x), Size(t));
    RankGrows(Size(rest), Size(t));
    RankGrows(Size(Split(t, k).right), Size(t));
    RankOfParts(Size(a), Size(rest), Size(t));
    CreditBound(a, k);
    DoubleParts(t, k);
    hide Split;
  }

  lemma DoubleParts(t: Tree, k: int)
    requires t.Node? && !Stops(t, k)
    ensures k < t.n.key && k < t.left.n.key ==> var s := Split(t.left.left, k);
      && Split(t, k) == Node(s.left, s.n, Node(s.right, t.left.n, Node(t.left.right, t.n, t.right)))
      && Turns(t, k) == 1 + Turns(t.left.left, k)
    ensures k > t.n.key && k > t.right.n.key ==> var s := Split(t.right.right, k);
      && Split(t, k) == Node(Node(Node(t.left, t.n, t.right.left), t.right.n, s.left), s.n, s.right)
      && Turns(t, k) == 1 + Turns(t.right.right, k)
  {
  }

  lemma DoubleTurnLeft(t: Tree, k: int)
    requires t.Node? && !Stops(t, k) && k > t.n.key && k > t.right.n.key && Spent(t.right.right, k) <= Paid(t.right.right, k)
    ensures Spent(t, k) <= Paid(t, k)
  {
    hide Rank;
    var x, a := t.right, t.right.right;
    var rest := Node(t.left, t.n, x.left);
    Sums(x.left, x.n, x.right);
    Sums(t.left, t.n, x.left);
    Sums(rest, x.n, Split(a, k).left);
    SplitSize(t, k);
    RankGrows(Size(a), Size(x));
    RankGrows(Size(x), Size(t));
    RankGrows(Size(rest), Size(t));
    RankGrows(Size(Split(t, k).left), Size(t));
    RankOfParts(Size(a), Size(rest), Size(t));
    CreditBound(a, k);
    DoubleParts(t, k);
    hide Split;
  }

  /** A splay costs, in turns and twice the growth of the potential, at most five times the
      logarithm of the size, and two. */
  lemma SplayCosts(t: Tree, k: int)
    requires t.Node?
    ensures Turns(t, k) + 2 * Potential(Splay(t, k)) <= 2 * Potential(t) + 5 * Rank(Size(t)) + 2
    ensures Size(Splay(t, k)) == Size(t)
  {
    hide Splay, Split, Turns, Rank;
    SplayIsSplit(t, k);
    SplitSize(t, k);
    Amortized(t, k);
    CreditBound(t, k);
  }

  // Runs of operations.

  datatype Op = Find(k: int) | Add(e: SplayNode) | Take(k: int)

  function Do(t: Tree, op: Op): Tree {
    match op
    case Find(k) => if t.Leaf? then t else Splay(t, k)
    case Add(e) => Insert(t, e)
    case Take(k) => Remove(t, k)
  }

  /** The turns of all splays of an operation; a removal splays what is left of the root too. */
  function TurnsOf(t: Tree, op: Op): nat {
    if t.Leaf? then 0
    else match op
      case Find(k) => Turns(t, k)
      case Add(e) => Turns(t, e.key)
      case Take(k) =>
        var r := Splay(t, k);
        Turns(t, k) + if r.n.key == k && r.left.Node? then Turns(r.left, k) else 0
  }

  function TotalTurns(t: Tree, ops: seq<Op>): nat
    decreases |ops|
  {
    if ops == [] then 0 else TurnsOf(t, ops[0]) + TotalTurns(Do(t, ops[0]), ops[1..])
  }

  function Adds(ops: seq<Op>): nat {
    if ops == [] then 0 else (if ops[0].Add? then 1 else 0) + Adds(ops[1..])
  }

  lemma HungCosts(r: Tree, e: SplayNode)
    requires r.Node?
    ensures Size(r) <= Size(Hung(r, e)) <= Size(r) + 1
    ensures Potential(Hung(r, e)) <= Potential(r) + Rank(Size(r) + 1)
  {
    hide Rank;
    RankGrows(Size(r.right) + 1, Size(r));
    RankGrows(Size(r.left) + 1, Size(r));
    Sums(Leaf, r.n, r.right);
    Sums(r.left, r.n, Leaf);
    Sums(r.left, e, Node(Leaf, r.n, r.right));
    Sums(Node(r.left, r.n, Leaf), e, r.right);
  }

  lemma JoinCosts(r: Tree, k: int)
    requires r.Node? && r.left.Node?
    ensures var l := Splay(r.left, k); var j := Node(l.left, l.n, r.right);
      Size(j) <= Size(r) && Turns(r.left, k) + 2 * Potential(j) <= 2 * Potential(r) + 5 * Rank(Size(r)) + 2
  {
    hide Rank, Splay, Turns;
    var l := Splay(r.left, k);
    SplayCosts(r.left, k);
    RankGrows(Size(r.left), Size(r));
    RankGrows(Size(Node(l.left, l.n, r.right)), Size(r));
    assert l.right.Leaf? || l.right.Node?;
  }

  lemma OpCosts(t: Tree, op: Op)
    ensures Size(Do(t, op)) <= Size(t) + (if op.Add? then 1 else 0)
    ensures TurnsOf(t, op) + 2 * Potential(Do(t, op))
         <= 2 * Potential(t) + 10 * Rank(Size(t) + (if op.Add? then 1 else 0)) + 4
  {
    hide Splay, Turns, Hung, Rank, Potential;
    NoPotential();
    RankGrows(Size(t), Size(t) + 1);
    if t.Node? {
      match op
      case Find(k) => SplayCosts(t, k);
      case Add(e) =>
        SplayCosts(t, e.key);
        HungCosts(Splay(t, e.key), e);
      case Take(k) =>
        SplayCosts(t, k);
        var r := Splay(t, k);
        PartCosts(r);
        if r.n.key == k && r.left.Node? {
          JoinCosts(r, k);
        }
    }
  }

  lemma NoPotential()
    ensures Potential(Leaf) == 0 && Rank(1) == 0
    ensures forall e :: Potential(Node(Leaf, e, Leaf)) == 0
  {
    assert forall e :: Size(Node(Leaf, e, Leaf)) == 1;
  }

  lemma PartCosts(r: Tree)
    requires r.Node?
    ensures Potential(r.right) <= Potential(r) && Size(r.right) <= Size(r)
  {
  }

  lemma {:induction false} RunCosts(t: Tree, ops: seq<Op>)
    ensures TotalTurns(t, ops) <= 2 * Potential(t) + |ops| * (10 * Rank(Size(t) + Adds(ops)) + 4)
    decreases |ops|
  {
    hide Do, TurnsOf, Rank, Potential;
    if ops != [] {
      var u := Do(t, ops[0]);
      OpCosts(t, ops[0]);
      RunCosts(u, ops[1..]);
      RankGrows(Size(u) + Adds(ops[1..]), Size(t) + Adds(ops));
      RankGrows(Size(t) + (if ops[0].Add? then 1 else 0), Size(t) + Adds(ops));
      Charge(|ops| - 1, 10 * Rank(Size(u) + Adds(ops[1..])) + 4, 10 * Rank(Size(t) + Adds(ops)) + 4);
    }
  }

  lemma Charge(m: nat, a: nat, b: nat)
    requires a <= b
    ensures m * a + b <= (m + 1) * b
  {
    assert m * a <= m * b;
  }

  /** The Balance Theorem: on an initially empty tree, operations with n insertions among them
      take a number of turns of the order of log n each. */
  lemma BalanceTheorem(ops: seq<Op>)
    ensures TotalTurns(Leaf, ops) <= |ops| * (10 * Rank(Adds(ops)) + 4)
  {
    hide Rank, TotalTurns, Adds;
    NoPotential();
    RunCosts(Leaf, ops);
  }
}
