/** What the models share: optional values, machine integers, and sequences without repeats. */
module Basics {

  datatype Option<T> = None | Some(value: T)

  type byte = b: int | 0 <= b < 0x100
  type uint32 = n: int | 0 <= n < 0x1_0000_0000

  predicate Distinct<T(==)>(q: seq<T>) {
    forall i, j :: 0 <= i < j < |q| ==> q[i] != q[j]
  }

  /** QUEUE_REMOVE on the sequence of a queue's elements. */
  function Drop<T(==,!new)>(q: seq<T>, x: T): (r: seq<T>)
    ensures forall y :: y in r <==> y in q && y != x
    ensures |r| <= |q|
  {
    if q == [] then [] else if q[0] == x then Drop(q[1..], x) else [q[0]] + Drop(q[1..], x)
  }

  lemma {:induction false} DropDistinct<T(!new)>(q: seq<T>, x: T)
    requires Distinct(q)
    ensures Distinct(Drop(q, x))
  {
    if q != [] {
      DropDistinct(q[1..], x);
      assert q[0] !in q[1..];
      if q[0] != x {
        var r := Drop(q[1..], x);
        forall i, j | 0 <= i < j < |[q[0]] + r| ensures ([q[0]] + r)[i] != ([q[0]] + r)[j] {
          if i == 0 { assert r[j - 1] in r; }
        }
      }
    }
  }

  lemma {:induction false} DropSum<T(!new)>(p: seq<T>, q: seq<T>, x: T)
    ensures Drop(p + q, x) == Drop(p, x) + Drop(q, x)
  {
    if p == [] {
      assert p + q == q;
    } else {
      DropSum(p[1..], q, x);
      assert (p + q)[1..] == p[1..] + q;
    }
  }

  lemma {:induction false} DropAbsent<T(!new)>(q: seq<T>, x: T)
    requires x !in q
    ensures Drop(q, x) == q
  {
    if q != [] {
      DropAbsent(q[1..], x);
    }
  }

  /** `x` stands in `q` somewhere before `y`. */
  predicate Precedes<T(==)>(q: seq<T>, x: T, y: T) {
    exists i, j :: 0 <= i < j < |q| && q[i] == x && q[j] == y
  }

  /** Something put in between changes no order. */
  lemma PrecedesInserted<T>(p: seq<T>, q: seq<T>, z: T, x: T, y: T)
    requires Precedes(p + q, x, y)
    ensures Precedes(p + [z] + q, x, y)
  {
    var i, j :| 0 <= i < j < |p + q| && (p + q)[i] == x && (p + q)[j] == y;
    var r := p + [z] + q;
    var i1, j1 := if i < |p| then i else i + 1, if j < |p| then j else j + 1;
    assert r[i1] == x && r[j1] == y;
  }

  /** Neither does the head's leaving, nor that of anything else. */
  lemma PrecedesTail<T>(q: seq<T>, x: T, y: T)
    requires Precedes(q, x, y) && q[0] != x
    ensures Precedes(q[1..], x, y)
  {
    var i, j :| 0 <= i < j < |q| && q[i] == x && q[j] == y;
    assert q[1..][i - 1] == x && q[1..][j - 1] == y;
  }

  lemma PrecedesDropped<T(!new)>(q: seq<T>, z: T, x: T, y: T)
    requires Precedes(q, x, y) && z != x && z != y
    ensures Precedes(Drop(q, z), x, y)
  {
    hide Drop;
    var i, j :| 0 <= i < j < |q| && q[i] == x && q[j] == y;
    var front, back := q[..j], q[j..];
    assert q == front + back && front[i] == x && back[0] == y;
    DropSum(front, back, z);
    PrecedesApart(Drop(front, z), Drop(back, z), x, y);
  }

  lemma PrecedesApart<T>(p: seq<T>, q: seq<T>, x: T, y: T)
    requires x in p && y in q
    ensures Precedes(p + q, x, y)
  {
    var i :| 0 <= i < |p| && p[i] == x;
    var j :| 0 <= j < |q| && q[j] == y;
    assert (p + q)[i] == x && (p + q)[|p| + j] == y;
  }
}
