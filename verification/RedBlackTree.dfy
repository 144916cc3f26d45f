/** The red-black tree of tree.h: its pointer operations, each proved to do to the
    linked nodes what RedBlackModel says it does to the tree they form.
    `View` gathers the fields of all nodes of the tree in one value. A loop of the source
    has the invariant of the matching case analysis on values: one red-red pair at most in
    InsertColor, one black missing at most in RemoveColor. The two sides of a
    case have one lemma, used on the tree or on its mirror image. */
module RedBlackTrees {
  import opened RedBlackModel
  import opened RedBlackInsert
  import opened RedBlackRemove

  ghost function CellOf(n: RBNode): Cell
    reads n
  {
    Cell(n.left, n.right, n.parent, n.red, n.pos, n.lo, n.hi, n.bh)
  }

  function Members(ns: seq<RBNode>): set<RBNode> {
    set n | n in ns
  }

  function One(n: RBNode?): set<RBNode> {
    if n == null then {} else {n}
  }

  class RBTree {
    var root: RBNode?
    /** The nodes in key order. */
    ghost var nodes: seq<RBNode>

    /** RB_INIT. */
    constructor ()
      ensures Valid(View()) && nodes == []
    {
      root, nodes := null, [];
    }

    ghost function View(): Tree
      reads this, nodes
    {
      Tree(map n | n in nodes :: CellOf(n), root, nodes)
    }

    /** Whoever pointed down at `a` now points at `b`. */
    method Rehang(a: RBNode, b: RBNode)
      requires a.parent != a && a.parent != b && b.parent == a.parent
      requires a.parent != null ==> a.parent.left == a || a.parent.right == a
      modifies `root, One(a.parent)`left, One(a.parent)`right
      ensures root == if a.parent == null then b else old(root)
      ensures a.parent != null ==>
                if old(a.parent.left) == a then a.parent.left == b && a.parent.right == old(a.parent.right)
                else a.parent.right == b && a.parent.left == old(a.parent.left)
    {
      if b.parent != null {
        if a == a.parent.left {
          a.parent.left := b;
        } else {
          a.parent.right := b;
        }
      } else {
        root := b;
      }
    }

    /** The assignments of RB_ROTATE_LEFT. */
    method LinksLeft(elm: RBNode) returns (tmp: RBNode)
      requires elm.right != null && elm.right != elm && elm.left != elm.right
      requires var tmp := elm.right; var low, up := tmp.left, elm.parent;
               && up != elm && up != tmp && low != elm && low != tmp && (low == null || low != up)
               && (up != null ==> (up.left == elm <==> up.right != elm))
      modifies `root, elm, elm.right, One(elm.right.left)`parent, One(elm.parent)`left, One(elm.parent)`right
      ensures tmp == old(elm.right)
      ensures CellOf(elm) == old(CellOf(elm)).(right := old(tmp.left), parent := tmp, hi := old(tmp.pos))
      ensures CellOf(tmp) == old(CellOf(tmp)).(left := elm, parent := old(elm.parent), lo := old(elm.lo))
      ensures var low := old(tmp.left); low != null ==> CellOf(low) == old(CellOf(tmp.left)).(parent := elm)
      ensures var up := old(elm.parent);
              up != null ==> CellOf(up) == old(CellOf(elm.parent)).(left := Sub(old(elm.parent.left), elm, tmp),
                                                                    right := Sub(old(elm.parent.right), elm, tmp))
      ensures root == if old(elm.parent) == null then tmp else old(root)
    {
      tmp := elm.right;
      elm.right := tmp.left;
      if elm.right != null {
        tmp.left.parent := elm;
      }
      tmp.parent := elm.parent;
      Rehang(elm, tmp);
      tmp.left := elm;
      elm.parent := tmp;
      tmp.lo, elm.hi := elm.lo, tmp.pos;
    }

    /** RB_ROTATE_LEFT. */
    method RotateLeft(elm: RBNode) returns (tmp: RBNode)
      requires Shape(View()) && elm in nodes && elm.right != null
      modifies `root, Members(nodes)
      ensures elm in old(View()).g && old(View()).g[elm].right in old(View()).g
      ensures View() == RotL(old(View()), elm) && tmp == old(elm.right)
    {
      hide NodeOk, SpanOk, LinkOk, Shape, LeftCell;
      ghost var t := View();
      RotationFacts(t, elm, elm.right);
      tmp := LinksLeft(elm);
      forall n | n in nodes
        ensures CellOf(n) == LeftCell(t.g, elm, tmp, n)
      {
        LeftCells(t, elm, tmp, n);
      }
    }
    /** The assignments of RB_ROTATE_RIGHT. */
    method LinksRight(elm: RBNode) returns (tmp: RBNode)
      requires elm.left != null && elm.left != elm && elm.right != elm.left
      requires var tmp := elm.left; var low, up := tmp.right, elm.parent;
               && up != elm && up != tmp && low != elm && low != tmp && (low == null || low != up)
               && (up != null ==> (up.right == elm <==> up.left != elm))
      modifies `root, elm, elm.left, One(elm.left.right)`parent, One(elm.parent)`right, One(elm.parent)`left
      ensures tmp == old(elm.left)
      ensures CellOf(elm) == old(CellOf(elm)).(left := old(tmp.right), parent := tmp, lo := old(tmp.pos) + 1)
      ensures CellOf(tmp) == old(CellOf(tmp)).(right := elm, parent := old(elm.parent), hi := old(elm.hi))
      ensures var low := old(tmp.right); low != null ==> CellOf(low) == old(CellOf(tmp.right)).(parent := elm)
      ensures var up := old(elm.parent);
              up != null ==> CellOf(up) == old(CellOf(elm.parent)).(left := Sub(old(elm.parent.left), elm, tmp),
                                                                    right := Sub(old(elm.parent.right), elm, tmp))
      ensures root == if old(elm.parent) == null then tmp else old(root)
    {
      tmp := elm.left;
      elm.left := tmp.right;
      if elm.left != null {
        tmp.right.parent := elm;
      }
      tmp.parent := elm.parent;
      Rehang(elm, tmp);
      tmp.right := elm;
      elm.parent := tmp;
      tmp.hi, elm.lo := elm.hi, tmp.pos + 1;
    }

    /** RB_ROTATE_RIGHT. */
    method RotateRight(elm: RBNode) returns (tmp: RBNode)
      requires Shape(View()) && elm in nodes && elm.left != null
      modifies `root, Members(nodes)
      ensures elm in old(View()).g && old(View()).g[elm].left in old(View()).g
      ensures View() == RotR(old(View()), elm) && tmp == old(elm.left)
    {
      hide NodeOk, SpanOk, LinkOk, Shape, RightCell;
      ghost var t := View();
      RotationFacts(t, elm, elm.left);
      tmp := LinksRight(elm);
      forall n | n in nodes
        ensures CellOf(n) == RightCell(t.g, elm, tmp, n)
      {
        RightCells(t, elm, tmp, n);
      }
    }

    /** Sets a node's colour, and its black count with it. */
    method SetColor(n: RBNode, red: bool, ghost bh: int)
      requires n in nodes
      modifies n`red, n`bh
      ensures View() == Paint(old(View()), n, red, bh)
    {
      ghost var t := View();
      n.red := red;
      n.bh := bh;
      assert View().g == Paint(t, n, red, bh).g;
    }

    /** RB_SET_BLACKRED, with the black counts that go with it. */
    method SetBlackRed(black: RBNode, red: RBNode, ghost blackBh: int, ghost redBh: int)
      requires black in nodes && red in nodes && black != red
      modifies black`red, black`bh, red`red, red`bh
      ensures View() == Paint(Paint(old(View()), black, false, blackBh), red, true, redBh)
    {
      hide Paint, View;
      SetColor(black, false, blackBh);
      SetColor(red, true, redBh);
    }

    /** A red uncle: repaint, and go on two levels up. */
    method RecolorUncle(elm: RBNode, parent: RBNode, gparent: RBNode, tmp: RBNode)
      requires InsInv(View(), elm) && elm.parent == parent && parent.red && parent.parent == gparent
      requires elm in nodes && parent in nodes && gparent in nodes && tmp in nodes && tmp.red && tmp != parent
      requires gparent.left == tmp || gparent.right == tmp
      modifies Members(nodes)
      ensures gparent in nodes && InsInv(View(), gparent)
      ensures Trouble(View(), gparent) < old(Trouble(View(), elm))
    {
      hide InsInv, NodeOk, Trouble, Paint;
      ghost var t := View();
      RecolorCase(t, elm, parent, tmp, gparent);
      RecolorProgress(t, elm, parent, tmp, gparent);
      Grandparent(t, elm);
      SetColor(tmp, false, tmp.bh + 1);
      SetBlackRed(parent, gparent, t.g[parent].bh + 1, t.g[gparent].bh);
    }

    /** A black uncle on the right: one or two rotations end the trouble. */
    method FixLeft(elm0: RBNode, parent0: RBNode, gparent: RBNode) returns (elm: RBNode)
      requires InsInv(View(), elm0) && elm0.parent == parent0 && parent0.red && gparent.left == parent0
      requires elm0 in nodes && parent0 in nodes && gparent in nodes
      requires parent0.left == elm0 || parent0.right == elm0
      requires !IsRed(View().g, gparent.right)
      modifies `root, Members(nodes)
      ensures elm in nodes && InsInv(View(), elm) && Trouble(View(), elm) == 0
    {
      hide InsInv, NodeOk, Shape, Paint, RotL, RotR, IsRed;
      var parent;
      elm, parent := elm0, parent0;
      if parent.right == elm {
        InsShape(View(), elm);
        InnerCase(View(), elm, parent, gparent);
        var _ := RotateLeft(parent);
        elm, parent := parent, elm;
      }
      SettleLeft(elm, parent, gparent);
    }

    method SettleLeft(elm: RBNode, parent: RBNode, gparent: RBNode)
      requires InsInv(View(), elm) && parent.red && parent.left == elm && gparent.left == parent
      requires elm in nodes && parent in nodes && gparent in nodes
      requires !IsRed(View().g, gparent.right)
      modifies `root, Members(nodes)
      ensures InsInv(View(), elm) && Trouble(View(), elm) == 0
    {
      hide InsInv, NodeOk, Shape, Paint, RotL, RotR, IsRed;
      ghost var t := View();
      OuterCase(t, elm, parent, gparent);
      SettleShape(t, elm, parent, gparent);
      SetBlackRed(parent, gparent, parent.bh + 1, gparent.bh - 1);
      var _ := RotateRight(gparent);
      NoTrouble(View(), elm, parent);
    }

    /** A black uncle on the left: one or two rotations end the trouble. */
    method FixRight(elm0: RBNode, parent0: RBNode, gparent: RBNode) returns (elm: RBNode)
      requires InsInv(View(), elm0) && elm0.parent == parent0 && parent0.red && gparent.right == parent0
      requires elm0 in nodes && parent0 in nodes && gparent in nodes
      requires parent0.left == elm0 || parent0.right == elm0
      requires !IsRed(View().g, gparent.left)
      modifies `root, Members(nodes)
      ensures elm in nodes && InsInv(View(), elm) && Trouble(View(), elm) == 0
    {
      hide InsInv, NodeOk, Shape, Paint, RotL, RotR, IsRed;
      var parent;
      elm, parent := elm0, parent0;
      if parent.left == elm {
        InsShape(View(), elm);
        InnerCaseRight(View(), elm, parent, gparent);
        var _ := RotateRight(parent);
        elm, parent := parent, elm;
      }
      SettleRight(elm, parent, gparent);
    }

    method SettleRight(elm: RBNode, parent: RBNode, gparent: RBNode)
      requires InsInv(View(), elm) && parent.red && parent.right == elm && gparent.right == parent
      requires elm in nodes && parent in nodes && gparent in nodes
      requires !IsRed(View().g, gparent.left)
      modifies `root, Members(nodes)
      ensures InsInv(View(), elm) && Trouble(View(), elm) == 0
    {
      hide InsInv, NodeOk, Shape, Paint, RotL, RotR, IsRed;
      ghost var t := View();
      OuterCaseRight(t, elm, parent, gparent);
      SettleShape(t, elm, parent, gparent);
      SetBlackRed(parent, gparent, parent.bh + 1, gparent.bh - 1);
      var _ := RotateLeft(gparent);
      NoTrouble(View(), elm, parent);
    }

    /** RB_INSERT_COLOR. */
    method InsertColor(elm0: RBNode)
      requires elm0 in nodes && InsInv(View(), elm0) && Sorted(nodes)
      modifies `root, Members(nodes)
      ensures Valid(View()) && nodes == old(nodes)
    {
      hide InsInv, NodeOk, Trouble, Valid;
      var elm := elm0;
      InsLinks(View(), elm, elm);
      while elm.parent != null && elm.parent.red
        invariant elm in nodes && InsInv(View(), elm)
        invariant elm.parent != null ==> elm.parent in nodes && (elm.parent.left == elm || elm.parent.right == elm)
        decreases Trouble(View(), elm)
      {
        var parent := elm.parent;
        Grandparent(View(), elm);
        TroubleBound(View(), elm);
        InsLinks(View(), parent, elm);
        var gparent := parent.parent;
        InsLinks(View(), gparent, elm);
        var tmp := if parent == gparent.left then gparent.right else gparent.left;
        if tmp != null && tmp.red {
          RecolorUncle(elm, parent, gparent, tmp);
          elm := gparent;
        } else if parent == gparent.left {
          elm := FixLeft(elm, parent, gparent);
        } else {
          elm := FixRight(elm, parent, gparent);
        }
        InsLinks(View(), elm, elm);
      }
      InsLinks(View(), elm, elm);
      ghost var bh := root.bh + (1 - Own(root.red));
      RedBlackInsert.Finish(View(), elm, bh);
      SetColor(root, false, bh);
    }

    /** Descends from the root to `key`, or to the free place where it belongs. */
    method Descend(key: int) returns (tmp: RBNode?, parent: RBNode?, comp: int, ghost k: nat)
      requires Valid(View())
      ensures tmp != null ==> tmp in nodes && tmp.key == key
      ensures tmp == null ==>
                && k <= |nodes|
                && (forall i | 0 <= i < k :: nodes[i].key < key) && (forall i | k <= i < |nodes| :: key < nodes[i].key)
      ensures tmp == null ==> FreePlace(View(), parent, comp < 0) && k == LeafPlace(View(), parent, comp < 0)
      ensures tmp == null && parent != null ==> parent in nodes && comp != 0
    {
      hide Good, NodeOk;
      ghost var t := View();
      tmp, parent, comp := root, null, 0;
      ghost var lo, hi := 0, |nodes|;
      while tmp != null
        invariant 0 <= lo <= hi <= |nodes|
        invariant forall i | 0 <= i < lo :: nodes[i].key < key
        invariant forall i | hi <= i < |nodes| :: key < nodes[i].key
        invariant tmp != null ==> tmp in nodes && tmp.lo == lo && tmp.hi == hi
        invariant tmp == null ==> lo == hi && FreePlace(t, parent, comp < 0) && lo == LeafPlace(t, parent, comp < 0)
        invariant parent != null ==> parent in nodes && comp != 0
        decreases hi - lo, tmp != null
      {
        parent := tmp;
        PlaceFacts(t, tmp);
        if key < parent.key {
          comp := -1;
          hi := tmp.pos;
          tmp := tmp.left;
        } else if parent.key < key {
          comp := 1;
          lo := tmp.pos + 1;
          tmp := tmp.right;
        } else {
          k := tmp.pos;
          return;
        }
      }
      k := lo;
    }

    /** Every place from `k` on moves up by one, to make room for a new leaf. */
    ghost method MakeRoom(k: int, left: bool)
      modifies Members(nodes)`pos, Members(nodes)`lo, Members(nodes)`hi
      ensures forall n | n in nodes :: CellOf(n) == Shifted(old(CellOf(n)), k, left)
    {
      ghost var ms := Members(nodes);
      forall n | n in ms {
        n.pos := if n.pos >= k then n.pos + 1 else n.pos;
      }
      forall n | n in ms {
        n.lo := if n.lo > k || (n.lo == k && !left) then n.lo + 1 else n.lo;
      }
      forall n | n in ms {
        n.hi := if n.hi > k || (n.hi == k && !left) then n.hi + 1 else n.hi;
      }
    }

    /** RB_SET, and the link from the parent or the root. */
    method Hang(elm: RBNode, parent: RBNode?, comp: int, ghost k: nat)
      requires Shape(View()) && elm !in nodes && (parent != null ==> parent in nodes && comp != 0)
      requires FreePlace(View(), parent, comp < 0) && k == LeafPlace(View(), parent, comp < 0) <= |nodes|
      modifies this, Members(nodes), elm
      ensures nodes == With(old(nodes), k, elm)
      ensures View() == AddLeaf(old(View()), elm, parent, comp < 0)
    {
      hide NodeOk, Shape, CellOf, LeafCell, FreePlace, LeafPlace, With;
      ghost var t := View();
      HangCells(elm, parent, comp, k);
      nodes := With(t.nodes, k, elm);
      Spliced(t.nodes, elm, k);
    }

    method HangCells(elm: RBNode, parent: RBNode?, comp: int, ghost k: nat)
      requires elm !in nodes && (parent != null ==> parent in nodes && comp != 0)
      requires k == LeafPlace(View(), parent, comp < 0)
      modifies `root, Members(nodes), elm
      ensures forall n | n == elm || n in nodes :: CellOf(n) == LeafCell(old(View()), elm, parent, comp < 0, n)
      ensures root == if parent == null then elm else old(root)
    {
      ghost var t := View();
      MakeRoom(k, comp < 0);
      HangLinks(elm, parent, comp, k);
    }

    method HangLinks(elm: RBNode, parent: RBNode?, comp: int, ghost k: int)
      requires elm != parent
      modifies `root, elm, One(parent)`left, One(parent)`right
      ensures CellOf(elm) == Cell(null, null, parent, true, k, k, k + 1, 0)
      ensures parent != null ==>
                CellOf(parent) == if comp < 0 then old(CellOf(parent)).(left := elm) else old(CellOf(parent)).(right := elm)
      ensures root == if parent == null then elm else old(root)
    {
      elm.parent, elm.left, elm.right, elm.red := parent, null, null, true;
      elm.pos, elm.lo, elm.hi, elm.bh := k, k, k + 1, 0;
      if parent != null {
        if comp < 0 {
          parent.left := elm;
        } else {
          parent.right := elm;
        }
      } else {
        root := elm;
      }
    }

    lemma OnePerKey(t: Tree)
      requires Valid(t)
      ensures forall n, m | n in t.nodes && m in t.nodes && n.key == m.key :: n == m
    {
      hide Shape;
    }

    /** RB_INSERT: hangs `elm` into the tree, or returns the node that has its key already. */
    method Insert(elm: RBNode) returns (r: RBNode?)
      requires Valid(View())
      modifies this, Members(nodes), elm
      ensures Valid(View())
      ensures r != null ==> View() == old(View()) && r in nodes && r.key == elm.key
      ensures elm in old(nodes) ==> r == elm
      ensures r == null ==> Members(nodes) == old(Members(nodes)) + {elm}
      ensures r == null ==> forall n | n in old(nodes) :: n.key != elm.key
    {
      hide NodeOk, Valid, Shape, FreePlace, LeafPlace, AddLeaf, InsInv, Sorted;
      var tmp, parent, comp;
      ghost var k;
      tmp, parent, comp, k := Descend(elm.key);
      if tmp != null {
        assert elm in nodes ==> tmp == elm by { OnePerKey(View()); }
        return tmp;
      }
      ghost var ns := nodes;
      ValidShape(View());
      LeafSorted(ns, elm, k);
      AddLeafInv(View(), elm, parent, comp < 0);
      Hang(elm, parent, comp, k);
      Spliced(ns, elm, k);
      InsertColor(elm);
      return null;
    }

    /** The sibling is on the right and red: it is rotated up, and the next sibling is black. */
    method TurnRedLeft(elm: RBNode?, parent: RBNode, tmp: RBNode)
      requires DelInv(View(), elm, parent) && !IsRed(View().g, elm) && parent in nodes && tmp in nodes
      requires parent.left == elm && parent.right == tmp && tmp.red
      modifies `root, Members(nodes)
      ensures nodes == old(nodes) && DelInv(View(), elm, parent) && parent.left == elm
      ensures parent.red && !IsRed(View().g, parent.right) && IsRed(View().g, elm) == old(IsRed(View().g, elm))
    {
      hide DelInv, NodeOk, Shape, Paint, RotL, RotR, IsRed;
      ghost var t := View();
      DelLinks(t, elm, parent);
      RedSibling(t, elm, parent, tmp);
      SetBlackRed(tmp, parent, tmp.bh + 1, parent.bh - 1);
      var _ := RotateLeft(parent);
      SameRed(t, tmp, parent, elm);
    }

    /** The sibling is on the right, black, with a red child: one or two rotations end the loop. */
    method RepayLeft(elm: RBNode?, parent: RBNode, tmp0: RBNode)
      requires DelInv(View(), elm, parent) && !IsRed(View().g, elm) && parent in nodes && tmp0 in nodes
      requires parent.left == elm && parent.right == tmp0 && !tmp0.red
      requires IsRed(View().g, tmp0.left) || IsRed(View().g, tmp0.right)
      modifies `root, Members(nodes)
      ensures nodes == old(nodes) && DelInv(View(), root, null)
    {
      hide DelInv, NodeOk, Shape, Paint, RotL, RotR;
      ghost var t := View();
      DelLinks(t, elm, parent);
      var tmp := tmp0;
      if tmp.right == null || !tmp.right.red {
        var oleft := tmp.left;
        InnerNephew(t, elm, parent, tmp, oleft);
        SetBlackRed(oleft, tmp, oleft.bh + 1, tmp.bh - 1);
        var _ := RotateRight(tmp);
        SameRed(t, oleft, tmp, elm);
        tmp := parent.right;
      }
      SettleDebtLeft(elm, parent, tmp);
    }

    method SettleDebtLeft(elm: RBNode?, parent: RBNode, tmp: RBNode)
      requires DelInv(View(), elm, parent) && !IsRed(View().g, elm) && parent in nodes && tmp in nodes
      requires parent.left == elm && parent.right == tmp && !tmp.red && IsRed(View().g, tmp.right)
      modifies `root, Members(nodes)
      ensures nodes == old(nodes) && DelInv(View(), root, null)
    {
      hide DelInv, NodeOk, Shape, Paint, RotL, RotR;
      ghost var t := View();
      DelLinks(t, elm, parent);
      OuterNephew(t, elm, parent, tmp, tmp.right);
      SetColor(tmp, parent.red, parent.bh);
      SetColor(parent, false, t.g[tmp].bh);
      if tmp.right != null {
        SetColor(tmp.right, false, tmp.right.bh + 1);
      }
      var _ := RotateLeft(parent);
    }

    /** One turn of RB_REMOVE_COLOR with the sibling on the right. */
    method BalanceLeft(elm0: RBNode?, parent0: RBNode) returns (elm: RBNode?, parent: RBNode?)
      requires DelInv(View(), elm0, parent0) && !IsRed(View().g, elm0) && parent0 in nodes && parent0.left == elm0
      modifies `root, Members(nodes)
      ensures nodes == old(nodes) && DelInv(View(), elm, parent)
      ensures Short(View(), elm, parent) < old(Short(View(), elm0, parent0))
    {
      hide DelInv, NodeOk, Shape, Paint, RotL, RotR, Short, IsRed;
      ShortBound(View(), elm0, parent0);
      DelLinks(View(), elm0, parent0);
      var tmp := parent0.right;
      TellRed(View(), tmp);
      if tmp.red {
        TurnRedLeft(elm0, parent0, tmp);
        DelLinks(View(), elm0, parent0);
        tmp := parent0.right;
        TellRed(View(), tmp);
      }
      elm, parent := LowerOrRepayLeft(elm0, parent0, tmp);
    }

    /** The rest of the turn, with a black sibling on the right. */
    method LowerOrRepayLeft(elm0: RBNode?, parent0: RBNode, tmp: RBNode) returns (elm: RBNode?, parent: RBNode?)
      requires DelInv(View(), elm0, parent0) && !IsRed(View().g, elm0) && parent0 in nodes && parent0.left == elm0
      requires tmp in nodes && parent0.right == tmp && !tmp.red
      modifies `root, Members(nodes)
      ensures nodes == old(nodes) && DelInv(View(), elm, parent)
      ensures Short(View(), elm, parent) < old(Short(View(), elm0, parent0))
      ensures old(parent0.red) ==> Short(View(), elm, parent) == 0
    {
      hide DelInv, NodeOk, Shape, Paint, RotL, RotR, Short;
      ShortBound(View(), elm0, parent0);
      DelLinks(View(), elm0, parent0);
      if (tmp.left == null || !tmp.left.red) && (tmp.right == null || !tmp.right.red) {
        BlackNephews(View(), elm0, parent0, tmp);
        LowerProgress(View(), elm0, parent0, tmp);
        elm, parent := parent0, parent0.parent;
        SetColor(tmp, true, tmp.bh - 1);
        SetColor(parent0, parent0.red, parent0.bh - 1);
      } else {
        RepayLeft(elm0, parent0, tmp);
        elm, parent := root, null;
        RunOut(View(), elm);
      }
    }

    /** The sibling is on the left and red: it is rotated up, and the next sibling is black. */
    method TurnRedRight(elm: RBNode?, parent: RBNode, tmp: RBNode)
      requires DelInv(View(), elm, parent) && !IsRed(View().g, elm) && parent in nodes && tmp in nodes
      requires parent.right == elm && parent.left == tmp && tmp.red
      modifies `root, Members(nodes)
      ensures nodes == old(nodes) && DelInv(View(), elm, parent) && parent.right == elm
      ensures parent.red && !IsRed(View().g, parent.left) && IsRed(View().g, elm) == old(IsRed(View().g, elm))
    {
      hide DelInv, NodeOk, Shape, Paint, RotR, RotL, IsRed;
      ghost var t := View();
      DelLinks(t, elm, parent);
      RedSiblingLeft(t, elm, parent, tmp);
      SetBlackRed(tmp, parent, tmp.bh + 1, parent.bh - 1);
      var _ := RotateRight(parent);
      SameRed(t, tmp, parent, elm);
    }

    /** The sibling is on the left, black, with a red child: one or two rotations end the loop. */
    method RepayRight(elm: RBNode?, parent: RBNode, tmp0: RBNode)
      requires DelInv(View(), elm, parent) && !IsRed(View().g, elm) && parent in nodes && tmp0 in nodes
      requires parent.right == elm && parent.left == tmp0 && !tmp0.red
      requires IsRed(View().g, tmp0.right) || IsRed(View().g, tmp0.left)
      modifies `root, Members(nodes)
      ensures nodes == old(nodes) && DelInv(View(), root, null)
    {
      hide DelInv, NodeOk, Shape, Paint, RotR, RotL;
      ghost var t := View();
      DelLinks(t, elm, parent);
      var tmp := tmp0;
      if tmp.left == null || !tmp.left.red {
        var oright := tmp.right;
        InnerNephewLeft(t, elm, parent, tmp, oright);
        SetBlackRed(oright, tmp, oright.bh + 1, tmp.bh - 1);
        var _ := RotateLeft(tmp);
        SameRed(t, oright, tmp, elm);
        tmp := parent.left;
      }
      SettleDebtRight(elm, parent, tmp);
    }

    method SettleDebtRight(elm: RBNode?, parent: RBNode, tmp: RBNode)
      requires DelInv(View(), elm, parent) && !IsRed(View().g, elm) && parent in nodes && tmp in nodes
      requires parent.right == elm && parent.left == tmp && !tmp.red && IsRed(View().g, tmp.left)
      modifies `root, Members(nodes)
      ensures nodes == old(nodes) && DelInv(View(), root, null)
    {
      hide DelInv, NodeOk, Shape, Paint, RotR, RotL;
      ghost var t := View();
      DelLinks(t, elm, parent);
      OuterNephewLeft(t, elm, parent, tmp, tmp.left);
      SetColor(tmp, parent.red, parent.bh);
      SetColor(parent, false, t.g[tmp].bh);
      if tmp.left != null {
        SetColor(tmp.left, false, tmp.left.bh + 1);
      }
      var _ := RotateRight(parent);
    }

    /** One turn of RB_REMOVE_COLOR with the sibling on the left. */
    method BalanceRight(elm0: RBNode?, parent0: RBNode) returns (elm: RBNode?, parent: RBNode?)
      requires DelInv(View(), elm0, parent0) && !IsRed(View().g, elm0) && parent0 in nodes && parent0.right == elm0
      modifies `root, Members(nodes)
      ensures nodes == old(nodes) && DelInv(View(), elm, parent)
      ensures Short(View(), elm, parent) < old(Short(View(), elm0, parent0))
    {
      hide DelInv, NodeOk, Shape, Paint, RotR, RotL, Short, IsRed;
      ShortBound(View(), elm0, parent0);
      DelLinks(View(), elm0, parent0);
      var tmp := parent0.left;
      TellRed(View(), tmp);
      if tmp.red {
        TurnRedRight(elm0, parent0, tmp);
        DelLinks(View(), elm0, parent0);
        tmp := parent0.left;
        TellRed(View(), tmp);
      }
      elm, parent := LowerOrRepayRight(elm0, parent0, tmp);
    }

    /** The rest of the turn, with a black sibling on the left. */
    method LowerOrRepayRight(elm0: RBNode?, parent0: RBNode, tmp: RBNode) returns (elm: RBNode?, parent: RBNode?)
      requires DelInv(View(), elm0, parent0) && !IsRed(View().g, elm0) && parent0 in nodes && parent0.right == elm0
      requires tmp in nodes && parent0.left == tmp && !tmp.red
      modifies `root, Members(nodes)
      ensures nodes == old(nodes) && DelInv(View(), elm, parent)
      ensures Short(View(), elm, parent) < old(Short(View(), elm0, parent0))
      ensures old(parent0.red) ==> Short(View(), elm, parent) == 0
    {
      hide DelInv, NodeOk, Shape, Paint, RotR, RotL, Short;
      ShortBound(View(), elm0, parent0);
      DelLinks(View(), elm0, parent0);
      if (tmp.right == null || !tmp.right.red) && (tmp.left == null || !tmp.left.red) {
        BlackNephews(View(), elm0, parent0, tmp);
        LowerProgress(View(), elm0, parent0, tmp);
        elm, parent := parent0, parent0.parent;
        SetColor(tmp, true, tmp.bh - 1);
        SetColor(parent0, parent0.red, parent0.bh - 1);
      } else {
        RepayRight(elm0, parent0, tmp);
        elm, parent := root, null;
        RunOut(View(), elm);
      }
    }

    /** RB_REMOVE_COLOR. */
    method RemoveColor(parent0: RBNode?, elm0: RBNode?)
      requires DelInv(View(), elm0, parent0) && Sorted(nodes)
      modifies `root, Members(nodes)
      ensures Valid(View()) && nodes == old(nodes)
    {
      hide DelInv, NodeOk, Shape, Paint, Short, Valid;
      var elm, parent := elm0, parent0;
      StillShort(View(), elm, parent);
      while (elm == null || !elm.red) && elm != root
        invariant nodes == old(nodes) && DelInv(View(), elm, parent)
        invariant (parent == null <==> elm == root) && (elm != null ==> elm in nodes)
        invariant parent != null ==> parent in nodes && (parent.left == elm || parent.right == elm)
        decreases Short(View(), elm, parent)
      {
        ShortBound(View(), elm, parent);
        if parent.left == elm {
          elm, parent := BalanceLeft(elm, parent);
        } else {
          elm, parent := BalanceRight(elm, parent);
        }
        StillShort(View(), elm, parent);
      }
      ghost var bh := if elm == null then 0 else elm.bh + (1 - Own(elm.red));
      RedBlackRemove.Finish(View(), elm, parent, bh);
      if elm != null {
        SetColor(elm, false, bh);
      }
    }

    /** Every place after `k` moves down by one. */
    ghost method CloseRoom(k: int)
      modifies Members(nodes)`pos, Members(nodes)`lo, Members(nodes)`hi
      ensures forall n | n in nodes :: CellOf(n) == Closed(old(CellOf(n)), k)
    {
      ghost var ms := Members(nodes);
      forall n | n in ms {
        n.pos := if n.pos > k then n.pos - 1 else n.pos;
      }
      forall n | n in ms {
        n.lo := if n.lo > k then n.lo - 1 else n.lo;
      }
      forall n | n in ms {
        n.hi := if n.hi > k then n.hi - 1 else n.hi;
      }
    }

    /** Links the child of `elm` to the parent of `elm`. */
    method Bypass(elm: RBNode, child: RBNode?, parent: RBNode?)
      requires elm != child && elm != parent && parent == elm.parent && (child == null || child != parent)
      requires parent != null ==> (parent.left == elm <==> parent.right != elm)
      modifies `root, One(child)`parent, One(parent)`left, One(parent)`right
      ensures child != null ==> CellOf(child) == old(CellOf(child)).(parent := parent)
      ensures parent != null ==>
                CellOf(parent) == old(CellOf(parent)).(left := Sub(old(parent.left), elm, child), right := Sub(old(parent.right), elm, child))
      ensures root == if parent == null then child else old(root)
    {
      if child != null {
        child.parent := parent;
      }
      if parent != null {
        if parent.left == elm {
          parent.left := child;
        } else {
          parent.right := child;
        }
      } else {
        root := child;
      }
    }

    /** Takes a node with at most one child out of the tree. */
    method SpliceOut(elm: RBNode, child: RBNode?, parent: RBNode?)
      requires Shape(View()) && elm in nodes && Thin(View().g, elm)
      requires child == OnlyChild(View().g, elm) && parent == elm.parent
      modifies `root, `nodes, Members(nodes)
      ensures 0 <= old(elm.pos) < |old(nodes)| && View() == Splice(old(View()), elm)
      ensures elm.left == old(elm.left) && elm.right == old(elm.right) && elm.parent == old(elm.parent) && elm.red == old(elm.red)
    {
      hide NodeOk, Shape, SpliceCell, Thin, OnlyChild, Closed;
      ghost var t := View();
      SpliceFacts(t, elm);
      SplicePlaces(t, elm);
      SpliceCells(elm, child, parent);
      hide CellOf;
      nodes := Without(nodes, t.g[elm].pos);
      SpliceNodes(t, elm);
    }

    method SpliceCells(elm: RBNode, child: RBNode?, parent: RBNode?)
      requires Shape(View()) && elm in nodes && Thin(View().g, elm)
      requires child == OnlyChild(View().g, elm) && parent == elm.parent
      modifies `root, Members(nodes)
      ensures elm.left == old(elm.left) && elm.right == old(elm.right) && elm.parent == old(elm.parent) && elm.red == old(elm.red)
      ensures forall n | n in nodes && n != elm :: CellOf(n) == SpliceCell(old(View()).g, elm, n)
      ensures root == Sub(old(root), elm, child)
    {
      hide NodeOk, Shape, SpliceCell, Thin, OnlyChild, Closed;
      ghost var t := View();
      SpliceFacts(t, elm);
      Bypass(elm, child, parent);
      CloseRoom(t.g[elm].pos);
      forall n | n in nodes && n != elm
        ensures CellOf(n) == SpliceCell(t.g, elm, n)
      {
        SpliceCellIs(t, elm, n);
        ClosedLinks(t.g[n], t.g[elm].pos);
      }
    }

    /** `elm` gets the contents of `o`, and its neighbours' links. */
    method CopyPlace(elm: RBNode, o: RBNode)
      requires elm != o && o.left != null && o.left != o.right && o.parent != o && o.parent != elm
      requires o.left != elm && o.right != elm && o.left != o && o.right != o
      requires o.parent != null ==> o.parent != o.left && o.parent != o.right
      requires o.parent != null ==> (o.parent.left == o <==> o.parent.right != o)
      modifies `root, elm, o.left`parent, One(o.right)`parent, One(o.parent)`left, One(o.parent)`right
      ensures CellOf(elm) == old(CellOf(o)) && CellOf(o) == old(CellOf(o))
      ensures CellOf(o.left) == old(CellOf(o.left)).(parent := elm)
      ensures o.right != null ==> CellOf(o.right) == old(CellOf(o.right)).(parent := elm)
      ensures o.parent != null ==>
                CellOf(o.parent) == old(CellOf(o.parent)).(left := Sub(old(o.parent.left), o, elm), right := Sub(old(o.parent.right), o, elm))
      ensures root == if o.parent == null then elm else old(root)
    {
      elm.left, elm.right, elm.parent, elm.red := o.left, o.right, o.parent, o.red;
      elm.pos, elm.lo, elm.hi, elm.bh := o.pos, o.lo, o.hi, o.bh;
      if o.parent != null {
        if o.parent.left == o {
          o.parent.left := elm;
        } else {
          o.parent.right := elm;
        }
      } else {
        root := elm;
      }
      o.left.parent := elm;
      if o.right != null {
        o.right.parent := elm;
      }
    }

    /** `elm`, which is outside the tree, stands in for `o` from now on. */
    method StandIn(elm: RBNode, o: RBNode)
      requires Shape(View()) && o in nodes && elm !in nodes && o.left != null
      modifies `root, `nodes, Members(nodes), elm
      ensures o in old(View()).g && 0 <= old(o.pos) < |old(nodes)| && View() == Put(old(View()), o, elm)
    {
      hide NodeOk, Shape, Renamed;
      ghost var t := View();
      PutKeys(t, o, elm);
      StandInCells(elm, o);
      hide CellOf;
      nodes := nodes[t.g[o].pos := elm];
      forall n | n in nodes
        ensures CellOf(n) == Renamed(t.g[Was(o, elm, n)], o, elm)
      {
      }
    }

    method StandInCells(elm: RBNode, o: RBNode)
      requires Shape(View()) && o in nodes && elm !in nodes && o.left != null
      modifies `root, Members(nodes), elm
      ensures forall n | n in nodes && n != o :: CellOf(n) == Renamed(old(View()).g[n], o, elm)
      ensures CellOf(elm) == Renamed(old(CellOf(o)), o, elm)
      ensures root == Sub(old(root), o, elm)
    {
      hide NodeOk, Shape, Renamed;
      ghost var t := View();
      RenamedIs(t, o, elm, o);
      LinkFacts(t, o);
      ParentFacts(t, o);
      Near(t, o, o.left);
      if o.right != null {
        Near(t, o, o.right);
      }
      CopyPlace(elm, o);
      forall n | n in nodes && n != o
        ensures CellOf(n) == Renamed(t.g[n], o, elm)
      {
        RenamedIs(t, o, elm, n);
      }
    }

    /** The leftmost node of the right subtree: the next one in key order. */
    method Successor(o: RBNode) returns (elm: RBNode)
      requires Shape(View()) && o in nodes && o.right != null
      ensures elm in nodes && elm.left == null && elm.pos == o.pos + 1
    {
      hide NodeOk, Shape;
      ghost var t := View();
      PlaceFacts(t, o);
      elm := o.right;
      while elm.left != null
        invariant elm in nodes && elm.lo == o.pos + 1
        decreases elm.hi - elm.lo
      {
        PlaceFacts(t, elm);
        elm := elm.left;
        PlaceFacts(t, elm);
      }
      PlaceFacts(t, elm);
    }

    /** A node with two children: its successor is taken out and put in its place. */
    method RemoveInner(o: RBNode) returns (parent: RBNode?, color: bool, child: RBNode?)
      requires Valid(View()) && o in nodes && o.left != null && o.right != null
      modifies this, Members(nodes)
      ensures 0 <= old(o.pos) < |old(nodes)| && nodes == Without(old(nodes), old(o.pos))
      ensures TakenOut(View(), color, child, parent)
    {
      hide NodeOk, Valid, Shape, Splice, TakenOut, Put, DelInv, Thin, OnlyChild, Sorted, Without;
      ghost var t := View();
      ValidShape(t);
      var elm := Successor(o);
      child, parent, color := elm.right, elm.parent, elm.red;
      SuccessorFacts(t, o, elm);
      InnerRemoval(t, o, elm);
      SpliceOut(elm, child, parent);
      if elm.parent == o {
        parent := elm;
      }
      StandIn(elm, o);
    }

    /** RB_REMOVE of any node of the tree. */
    method Remove(o: RBNode) returns (r: RBNode)
      requires Valid(View()) && o in nodes
      modifies this, Members(nodes)
      ensures Valid(View()) && r == o
      ensures Members(nodes) == old(Members(nodes)) - {o}
    {
      hide NodeOk, Valid, Shape, Splice, DelInv;
      ghost var t := View();
      ValidShape(t);
      SplicePlaces(t, o);
      SpliceNodes(t, o);
      var child, parent, color;
      if o.left == null || o.right == null {
        child := if o.left == null then o.right else o.left;
        parent, color := o.parent, o.red;
        SpliceAny(t, o);
        SpliceOut(o, child, parent);
      } else {
        parent, color, child := RemoveInner(o);
      }
      if !color {
        RemoveColor(parent, child);
      }
      return o;
    }

    /** RB_FIND. */
    method Find(key: int) returns (r: RBNode?)
      requires Valid(View())
      ensures r != null ==> r in nodes && r.key == key
      ensures r == null ==> forall n | n in nodes :: n.key != key
    {
      var parent, comp;
      ghost var k;
      r, parent, comp, k := Descend(key);
    }

    /** RB_NFIND: the first node whose key is not less than `key`. */
    method NFind(key: int) returns (res: RBNode?)
      requires Valid(View())
      ensures res == null ==> forall n | n in nodes :: n.key < key
      ensures res != null ==>
                && 0 <= res.pos < |nodes| && nodes[res.pos] == res && key <= res.key
                && forall i | 0 <= i < res.pos :: nodes[i].key < key
    {
      hide Good, NodeOk;
      ghost var t := View();
      var tmp := root;
      res := null;
      ghost var lo, hi := 0, |nodes|;
      while tmp != null
        invariant 0 <= lo <= hi <= |nodes|
        invariant forall i | 0 <= i < lo :: nodes[i].key < key
        invariant if res == null then hi == |nodes| else hi < |nodes| && nodes[hi] == res && res.pos == hi && key < res.key
        invariant if tmp == null then lo == hi else tmp in nodes && tmp.lo == lo && tmp.hi == hi
        decreases hi - lo, tmp != null
      {
        PlaceFacts(t, tmp);
        if key < tmp.key {
          res, hi := tmp, tmp.pos;
          tmp := tmp.left;
        } else if tmp.key < key {
          lo := tmp.pos + 1;
          tmp := tmp.right;
        } else {
          return tmp;
        }
      }
    }

    /** RB_MINMAX. */
    method MinMax(val: int) returns (parent: RBNode?)
      requires Shape(View())
      ensures if nodes == [] then parent == null
              else parent == if val < 0 then nodes[0] else nodes[|nodes| - 1]
    {
      hide NodeOk, Shape;
      ghost var t := View();
      RootFacts(t);
      var tmp := root;
      parent := null;
      while tmp != null
        invariant tmp != null ==> tmp in nodes && if val < 0 then tmp.lo == 0 else tmp.hi == |nodes|
        invariant parent == null <==> tmp == root
        invariant parent != null ==> parent in nodes
        invariant parent != null && tmp == null ==> if val < 0 then parent.pos == 0 else parent.pos == |nodes| - 1
        invariant tmp != null && parent != null ==> if val < 0 then tmp.hi == parent.pos else tmp.lo == parent.pos + 1
        decreases if tmp == null then 0 else tmp.hi - tmp.lo
      {
        parent := tmp;
        PlaceFacts(t, tmp);
        if val < 0 {
          tmp := tmp.left;
        } else {
          tmp := tmp.right;
        }
        if tmp != null {
          PlaceFacts(t, tmp);
        }
      }
      if parent != null {
        PlaceFacts(t, parent);
      }
    }

    /** RB_NEXT: the node that follows in key order. */
    method Next(elm0: RBNode) returns (elm: RBNode?)
      requires Shape(View()) && elm0 in nodes
      ensures 0 <= elm0.pos < |nodes| && nodes[elm0.pos] == elm0
      ensures elm == if elm0.pos + 1 == |nodes| then null else nodes[elm0.pos + 1]
    {
      hide NodeOk, Shape;
      ghost var t := View();
      PlaceFacts(t, elm0);
      if elm0.right != null {
        elm := Successor(elm0);
        PlaceFacts(t, elm);
      } else {
        elm := Climb(elm0);
      }
    }

    /** The parent above the last step to the left on the way down to `elm0`. */
    method Climb(elm0: RBNode) returns (elm: RBNode?)
      requires Shape(View()) && elm0 in nodes
      ensures if elm == null then elm0.hi == |nodes| else elm in nodes && elm.pos == elm0.hi && 0 <= elm.pos < |nodes| && nodes[elm.pos] == elm
    {
      hide NodeOk, Shape;
      ghost var t := View();
      elm := elm0;
      UpFacts(t, elm);
      PlaceFacts(t, elm);
      if elm.parent != null && elm == elm.parent.left {
        elm := elm.parent;
        PlaceFacts(t, elm);
        return;
      }
      while elm.parent != null && elm == elm.parent.right
        invariant elm in nodes && elm.hi == elm0.hi
        invariant elm.parent != null ==> elm.parent in nodes
        decreases |nodes| - (elm.hi - elm.lo)
      {
        UpFacts(t, elm);
        PlaceFacts(t, elm);
        elm := elm.parent;
        PlaceFacts(t, elm);
        UpFacts(t, elm);
      }
      UpFacts(t, elm);
      elm := elm.parent;
      if elm != null {
        PlaceFacts(t, elm);
      }
    }

    /** RB_FOREACH visits every node once, in key order. */
    method Foreach() returns (visited: seq<RBNode>)
      requires Valid(View())
      ensures visited == nodes
    {
      hide NodeOk, Shape, Valid;
      ValidShape(View());
      visited := [];
      var x := MinMax(-1);
      while x != null
        invariant |visited| <= |nodes| && visited == nodes[..|visited|]
        invariant x == if |visited| == |nodes| then null else nodes[|visited|]
        decreases |nodes| - |visited|
      {
        AtOwnPlace(View(), |visited|);
        visited := visited + [x];
        x := Next(x);
      }
    }
  }

  /** A left rotation touches five nodes at most. */
  lemma LeftCells(t: Tree, elm: RBNode, tmp: RBNode, n: RBNode)
    requires Shape(t) && elm in t.g && tmp in t.g && n in t.g && t.g[elm].right == tmp
    ensures var c := t.g[n];
            var up := t.g[elm].parent;
            var low := t.g[tmp].left;
            LeftCell(t.g, elm, tmp, n) ==
            if n == elm then c.(right := low, parent := tmp, hi := t.g[tmp].pos)
            else if n == tmp then c.(left := elm, parent := up, lo := t.g[elm].lo)
            else if n == low then c.(parent := elm)
            else if n == up then c.(left := Sub(c.left, elm, tmp), right := Sub(c.right, elm, tmp))
            else c
  {
    RotationFacts(t, elm, tmp);
    LinkFacts(t, n);
  }

  /** A right rotation touches five nodes at most. */
  lemma RightCells(t: Tree, elm: RBNode, tmp: RBNode, n: RBNode)
    requires Shape(t) && elm in t.g && tmp in t.g && n in t.g && t.g[elm].left == tmp
    ensures var c := t.g[n];
            var up := t.g[elm].parent;
            var low := t.g[tmp].right;
            RightCell(t.g, elm, tmp, n) ==
            if n == elm then c.(left := low, parent := tmp, lo := t.g[tmp].pos + 1)
            else if n == tmp then c.(right := elm, parent := up, hi := t.g[elm].hi)
            else if n == low then c.(parent := elm)
            else if n == up then c.(left := Sub(c.left, elm, tmp), right := Sub(c.right, elm, tmp))
            else c
  {
    RotationFacts(t, elm, tmp);
    LinkFacts(t, n);
  }

  lemma ValidShape(t: Tree)
    requires Valid(t)
    ensures Shape(t) && Sorted(t.nodes)
  {
  }

  lemma Spliced(ns: seq<RBNode>, e: RBNode, k: nat)
    requires k <= |ns|
    ensures Members(With(ns, k, e)) == Members(ns) + {e}
    ensures forall n | n in ns :: exists i :: 0 <= i < |ns| && ns[i] == n
  {
    assert ns == ns[..k] + ns[k..];
  }

  lemma SpliceFacts(t: Tree, e: RBNode)
    requires Shape(t) && e in t.g
    ensures var p := t.g[e].parent;
            && (p == null <==> e == t.root) && p != e
            && (p != null ==> p in t.g && (t.g[p].left == e <==> t.g[p].right != e))
    ensures var d := OnlyChild(t.g, e);
            d != e && (d != null ==> d in t.g && d != t.g[e].parent)
  {
    ParentFacts(t, e);
    NotOwnChild(t, e);
    LinkFacts(t, e);
    if OnlyChild(t.g, e) != null {
      Near(t, e, OnlyChild(t.g, e));
    }
  }

  /** Taking out a node touches its child and its parent at most, besides the places. */
  lemma SpliceCellIs(t: Tree, e: RBNode, n: RBNode)
    requires Shape(t) && e in t.g && n in t.g && n != e
    ensures var c := Closed(t.g[n], t.g[e].pos);
            var d := OnlyChild(t.g, e);
            var p := t.g[e].parent;
            SpliceCell(t.g, e, n) ==
            if n == d then c.(parent := p)
            else if n == p then c.(left := Sub(c.left, e, d), right := Sub(c.right, e, d))
            else c
  {
    LinkFacts(t, n);
    LinkFacts(t, e);
    NotOwnChild(t, e);
    if OnlyChild(t.g, e) != null {
      Near(t, e, OnlyChild(t.g, e));
    }
  }

  lemma ClosedLinks(c: Cell, k: int)
    ensures forall l, r, p :: Closed(c.(left := l, right := r, parent := p), k) == Closed(c, k).(left := l, right := r, parent := p)
    ensures Closed(c, k).left == c.left && Closed(c, k).right == c.right
  {
  }

  /** Standing in for `o` touches its parent and its children at most. */
  lemma RenamedIs(t: Tree, o: RBNode, e: RBNode, n: RBNode)
    requires Shape(t) && o in t.g && n in t.g && e !in t.g
    ensures var c := t.g[n];
            Renamed(c, o, e) ==
            if n == t.g[o].left || n == t.g[o].right then c.(parent := e)
            else if n == t.g[o].parent then c.(left := Sub(c.left, o, e), right := Sub(c.right, o, e))
            else c
  {
    LinkFacts(t, n);
    LinkFacts(t, o);
    ParentFacts(t, o);
    if t.g[o].left != null {
      Near(t, o, t.g[o].left);
    }
    if t.g[o].right != null {
      Near(t, o, t.g[o].right);
    }
  }

  lemma AtOwnPlace(t: Tree, i: nat)
    requires Shape(t) && i < |t.nodes|
    ensures t.nodes[i] in t.g && t.g[t.nodes[i]].pos == i
  {
    assert PlaceOk(t, i);
  }

  lemma RootFacts(t: Tree)
    requires Shape(t)
    ensures t.root == null <==> t.nodes == []
    ensures t.root != null ==> t.root in t.g && t.g[t.root].lo == 0 && t.g[t.root].hi == |t.nodes|
  {
    if t.root != null {
      ShapeAt(t, t.root);
    }
  }

  /** Where a node's range ends, compared with its parent's. */
  lemma UpFacts(t: Tree, n: RBNode)
    requires Shape(t) && n in t.g
    ensures var p := t.g[n].parent;
            && (p == null ==> t.g[n].hi == |t.nodes|)
            && (p != null ==>
                  && p in t.g && (t.g[p].left == n || t.g[p].right == n)
                  && (t.g[p].left == n ==> t.g[n].hi == t.g[p].pos)
                  && (t.g[p].right == n ==> t.g[n].hi == t.g[p].hi && t.g[n].lo == t.g[p].pos + 1))
  {
    ParentFacts(t, n);
    ShapeAt(t, n);
    var p := t.g[n].parent;
    if p != null {
      ShapeAt(t, p);
    }
  }

  lemma SameRed(t: Tree, a: RBNode, b: RBNode, x: RBNode?)
    requires a in t.g && b in t.g && x != a && x != b
    ensures IsRed(Settle(t, a, b).g, x) == IsRed(t.g, x)
    ensures b in t.g && Settle(t, a, b).g[b].right in t.g ==> IsRed(RotL(Settle(t, a, b), b).g, x) == IsRed(t.g, x)
    ensures b in t.g && Settle(t, a, b).g[b].left in t.g ==> IsRed(RotR(Settle(t, a, b), b).g, x) == IsRed(t.g, x)
  {
  }

  lemma TellRed(t: Tree, x: RBNode?)
    ensures x != null && x in t.g ==> IsRed(t.g, x) == t.g[x].red
  {
  }

  lemma RunOut(t: Tree, x: RBNode?)
    ensures Short(t, x, null) == 0
  {
  }

  lemma PlaceFacts(t: Tree, n: RBNode)
    requires Shape(t) && n in t.g
    ensures var c := t.g[n];
            && 0 <= c.lo <= c.pos < c.hi <= |t.nodes| && t.nodes[c.pos] == n
            && (c.left == null ==> c.lo == c.pos) && (c.right == null ==> c.hi == c.pos + 1)
            && (c.left != null ==> c.left in t.g && t.g[c.left].lo == c.lo && t.g[c.left].hi == c.pos)
            && (c.right != null ==> c.right in t.g && t.g[c.right].lo == c.pos + 1 && t.g[c.right].hi == c.hi)
  {
    ShapeAt(t, n);
  }

  lemma LinkFacts(t: Tree, n: RBNode)
    requires Shape(t) && n in t.g
    ensures var c := t.g[n];
            && (c.left != null ==> c.left in t.g && t.g[c.left].parent == n)
            && (c.right != null ==> c.right in t.g && t.g[c.right].parent == n)
            && (c.left != null ==> c.left != c.right)
            && (c.parent == null <==> n == t.root)
            && (c.parent != null ==> c.parent in t.g && (t.g[c.parent].left == n || t.g[c.parent].right == n))
            && c.parent != n && c.left != n && c.right != n
  {
    assert NodeOk(t, n);
    var p := t.g[n].parent;
    if p != null {
      Near(t, p, n);
    }
  }

  lemma RotationFacts(t: Tree, elm: RBNode, tmp: RBNode)
    requires Shape(t) && elm in t.g && (t.g[elm].left == tmp || t.g[elm].right == tmp)
    ensures tmp in t.g && t.g[tmp].parent == elm && Apart(t.g, elm, tmp)
    ensures t.g[elm].parent == null <==> elm == t.root
    ensures t.g[tmp].left != null ==> t.g[tmp].left in t.g && t.g[t.g[tmp].left].parent == tmp
    ensures t.g[tmp].right != null ==> t.g[tmp].right in t.g && t.g[t.g[tmp].right].parent == tmp
    ensures var p := t.g[elm].parent;
            p != null ==> p in t.g && (t.g[p].left == elm <==> t.g[p].right != elm)
  {
    LinkFacts(t, elm);
    Near(t, elm, tmp);
    LinkFacts(t, tmp);
    var p := t.g[elm].parent;
    if p != null {
      Near(t, p, elm);
    }
  }
}
