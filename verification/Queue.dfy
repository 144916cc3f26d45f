/** The circular lists of src/queue.h: a header and its elements, linked both ways. Each
    macro is proved against the sequence operation it stands for. */
module Queues {

  class Node {
    var next: Node
    var prev: Node

    /** A node that is a list of its own. */
    constructor ()
      ensures next == this && prev == this
    {
      next, prev := this, this;
    }
  }

  /** The nodes are distinct and linked in a circle in this order. */
  ghost predicate Ring(s: seq<Node>)
    reads s
  {
    && s != []
    && (forall i, j :: 0 <= i < j < |s| ==> s[i] != s[j])
    && (forall i :: 0 <= i < |s| ==> After(s, i))
  }

  /** Node `i` and the one behind it point to each other. */
  ghost predicate After(s: seq<Node>, i: nat)
    requires i < |s|
    reads s
  {
    s[i].next == s[Up(s, i)] && s[Up(s, i)].prev == s[i]
  }

  function Up(s: seq<Node>, i: nat): (j: nat)
    requires i < |s|
    ensures j < |s|
  {
    if i + 1 == |s| then 0 else i + 1
  }

  /** The header `h` has exactly these elements. */
  ghost predicate Holds(h: Node, q: seq<Node>)
    reads [h] + q
  {
    Ring([h] + q)
  }

  lemma Ends(h: Node, q: seq<Node>)
    requires Holds(h, q)
    ensures h !in q
    ensures h.next == (if q == [] then h else q[0]) && h.prev == (if q == [] then h else q[|q| - 1])
    ensures q != [] ==> q[0].prev == h && q[|q| - 1].next == h
  {
    var s := [h] + q;
    assert After(s, 0) && After(s, |s| - 1);
    forall i | 0 <= i < |q| ensures q[i] != h { assert s[i + 1] == q[i]; }
  }

  /** QUEUE_EMPTY */
  method Empty(h: Node, ghost q: seq<Node>) returns (empty: bool)
    requires Holds(h, q)
    ensures empty <==> q == []
  {
    Ends(h, q);
    empty := h == h.next;
  }

  /** QUEUE_INIT */
  method Init(q: Node)
    modifies q
    ensures Holds(q, [])
  {
    q.next := q;
    q.prev := q;
    assert After([q], 0);
  }

  /** The list as one sequence: the facts that the proofs below use. */
  lemma Opened(s: seq<Node>)
    requires Ring(s)
    ensures forall i :: 0 <= i < |s| - 1 ==> s[i].next == s[i + 1] && s[i + 1].prev == s[i]
    ensures s[|s| - 1].next == s[0] && s[0].prev == s[|s| - 1]
  {
    assert After(s, |s| - 1);
    forall i | 0 <= i < |s| - 1 ensures s[i].next == s[i + 1] && s[i + 1].prev == s[i] {
      assert After(s, i);
    }
  }

  lemma Closed(s: seq<Node>)
    requires s != [] && forall i, j :: 0 <= i < j < |s| ==> s[i] != s[j]
    requires forall i :: 0 <= i < |s| - 1 ==> s[i].next == s[i + 1] && s[i + 1].prev == s[i]
    requires s[|s| - 1].next == s[0] && s[0].prev == s[|s| - 1]
    ensures Ring(s)
  {
    forall i: nat | i < |s| ensures After(s, i) {
      assert i < |s| - 1 ==> Up(s, i) == i + 1;
    }
  }

  /** QUEUE_INSERT_TAIL */
  method InsertTail(h: Node, q: Node, ghost a: seq<Node>)
    requires Holds(h, a) && q != h && q !in a
    modifies h, h.prev, q
    ensures Holds(h, a + [q])
  {
    hide Ring;
    ghost var s := [h] + a;
    ghost var n := |s| - 1;
    Opened(s);
    Apart(s);
    assert q !in s;
    q.next := h;
    q.prev := h.prev;
    q.prev.next := q;
    h.prev := q;
    ghost var t := s + [q];
    assert t == [h] + (a + [q]);
    forall i | 0 <= i < |t| - 1 ensures t[i].next == t[i + 1] && t[i + 1].prev == t[i] {
      if i < n {
        assert t[i] == s[i] && t[i + 1] == s[i + 1] && s[i] != s[n] && s[i + 1] != s[0];
      }
    }
    Closed(t);
  }

  lemma Apart(s: seq<Node>)
    requires Ring(s)
    ensures forall i, j :: 0 <= i < j < |s| ==> s[i] != s[j]
  {
  }

  /** QUEUE_INSERT_HEAD */
  method InsertHead(h: Node, q: Node, ghost a: seq<Node>)
    requires Holds(h, a) && q != h && q !in a
    modifies h, h.next, q
    ensures Holds(h, [q] + a)
  {
    hide Ring;
    ghost var s := [h] + a;
    Opened(s);
    Apart(s);
    assert q !in s;
    ghost var first := h.next;
    assert first == if a == [] then h else s[1];
    q.next := h.next;
    q.prev := h;
    q.next.prev := q;
    h.next := q;
    ghost var t := [h, q] + a;
    assert t == [h] + ([q] + a);
    assert forall i :: 2 <= i < |t| ==> t[i] == s[i - 1];
    forall i | 0 <= i < |t| - 1 ensures t[i].next == t[i + 1] && t[i + 1].prev == t[i] {
      if i >= 2 {
        assert t[i] == s[i - 1] && t[i + 1] == s[i - 1 + 1];
        assert s[i - 1] != s[0] && s[i - 1 + 1] != s[1];
      }
    }
    Closed(t);
  }

  /** QUEUE_REMOVE: the others close up; the node keeps its own links. */
  method Remove(q: Node, ghost h: Node, ghost a: seq<Node>, ghost b: seq<Node>)
    requires Holds(h, a + [q] + b)
    modifies q.prev`next, q.next`prev
    ensures Holds(h, a + b) && q != h && q !in a + b
  {
    hide Ring;
    ghost var s := [h] + (a + [q] + b);
    ghost var k := |a| + 1;
    Opened(s);
    Apart(s);
    assert s[k] == q && s[k - 1 + 1] == q;
    assert q.prev == s[k - 1] && q.next == if k + 1 < |s| then s[k + 1] else s[0];
    ghost var t := [h] + (a + b);
    assert t == s[..k] + s[k + 1..];
    q.prev.next := q.next;
    q.next.prev := q.prev;
    forall i | 0 <= i < |t| - 1 ensures t[i].next == t[i + 1] && t[i + 1].prev == t[i] {
      if i < k - 1 {
        assert t[i] == s[i] && t[i + 1] == s[i + 1] && s[i] != s[k - 1];
      } else if i == k - 1 {
        assert t[i] == s[k - 1] && t[i + 1] == s[k + 1];
      } else {
        assert t[i] == s[i + 1] && t[i + 1] == s[i + 1 + 1] && s[i + 1] != s[k - 1];
      }
    }
    forall i, j | 0 <= i < j < |t| ensures t[i] != t[j] {
      assert t[i] == s[if i < k then i else i + 1] && t[j] == s[if j < k then j else j + 1];
    }
    Closed(t);
    forall i | 0 <= i < |t| ensures t[i] != q {
      assert t[i] == s[if i < k then i else i + 1];
    }
    assert forall i :: 0 <= i < |a + b| ==> (a + b)[i] == t[i + 1];
    assert t[0] == h;
  }

  /** QUEUE_ADD: the elements of `n` behind those of `h`; `n` is left dangling. */
  method Add(h: Node, n: Node, ghost a: seq<Node>, ghost b: seq<Node>)
    requires Holds(h, a) && Holds(n, b)
    requires forall x, y :: x in [h] + a && y in [n] + b ==> x != y
    modifies h, h.prev, n, n.next, n.prev
    ensures Holds(h, a + b)
  {
    hide Ring;
    ghost var s, r := [h] + a, [n] + b;
    ghost var last := |s| - 1;
    Opened(s);
    Apart(s);
    Opened(r);
    Apart(r);
    assert h.prev == s[last];
    assert n.next == (if b == [] then n else r[1]) && n.prev == r[|r| - 1];
    forall i, j | 0 <= i < |s| && 0 <= j < |r| ensures s[i] != r[j] {
      assert s[i] in s && r[j] in r;
    }
    h.prev.next := n.next;
    n.next.prev := h.prev;
    h.prev := n.prev;
    h.prev.next := h;
    ghost var t := [h] + (a + b);
    assert t == s + r[1..];
    forall i, j | 0 <= i < j < |t| ensures t[i] != t[j] {
      if i <= last < j {
        assert t[i] == s[i] && t[j] == r[j - last];
      }
    }
    forall i | 0 <= i < |t| - 1 ensures t[i].next == t[i + 1] && t[i + 1].prev == t[i] {
      if i < last {
        assert t[i] == s[i] && t[i + 1] == s[i + 1] && s[i] != s[last] && s[i + 1] != s[0];
      } else if i > last {
        assert t[i] == r[i - last] && t[i + 1] == r[i - last + 1];
        assert r[i - last] != r[|r| - 1] && r[i - last + 1] != r[1];
      }
    }
    Closed(t);
  }

  /** QUEUE_SPLIT: the elements from `q` on go to the header `n`. */
  method Split(h: Node, q: Node, n: Node, ghost a: seq<Node>, ghost b: seq<Node>)
    requires Holds(h, a + [q] + b) && n !in [h] + (a + [q] + b)
    modifies h, n, q, h.prev, q.prev
    ensures Holds(h, a) && Holds(n, [q] + b)
  {
    hide Ring;
    ghost var s := [h] + (a + [q] + b);
    ghost var k, last := |a| + 1, |s| - 1;
    Opened(s);
    Apart(s);
    assert s[k] == q && s[k - 1 + 1] == q && q.prev == s[k - 1] && h.prev == s[last];
    assert forall i :: 0 <= i < |s| ==> s[i] != n;
    n.prev := h.prev;
    n.prev.next := n;
    n.next := q;
    h.prev := q.prev;
    h.prev.next := h;
    q.prev := n;
    ghost var t, u := [h] + a, [n] + ([q] + b);
    assert t == s[..k] && u[1..] == s[k..];
    assert forall i :: 0 <= i < |t| ==> t[i] == s[i];
    assert forall i :: 1 <= i < |u| ==> u[i] == s[i - 1 + k];
    forall i | 0 <= i < |t| - 1 ensures t[i].next == t[i + 1] && t[i + 1].prev == t[i] {
      assert s[i] != s[k - 1] && s[i] != s[last] && s[i + 1] != s[0] && s[i + 1] != s[k];
    }
    forall i | 0 <= i < |u| - 1 ensures u[i].next == u[i + 1] && u[i + 1].prev == u[i] {
      if i >= 1 {
        assert u[i + 1] == s[i - 1 + k + 1] && s[i - 1 + k + 1].prev == s[i - 1 + k];
        assert s[i - 1 + k] != s[last] && s[i - 1 + k + 1] != s[k];
      }
    }
    Closed(t);
    Closed(u);
  }

  /** QUEUE_MOVE: everything goes to `n` and `h` is left empty. */
  method Move(h: Node, n: Node, ghost a: seq<Node>)
    requires Holds(h, a) && n !in [h] + a
    modifies h, n, h.next, h.prev
    ensures Holds(h, []) && Holds(n, a)
  {
    hide Ring;
    Ends(h, a);
    var empty := Empty(h, a);
    if empty {
      assert [h] + a == [h] + [];
      Init(n);
      assert [h] + [] == [h];
    } else {
      var q := h.next;
      assert a == [] + [q] + a[1..];
      Split(h, q, n, [], a[1..]);
      assert a == [q] + a[1..];
    }
  }
}
