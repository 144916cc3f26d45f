/** uv_walk of src/uv-common.c on the linked handle queue, with callbacks that may append new
    handles to it. */
module Walk {
  import opened Basics
  import opened Queues

  /** The queue after the first `k` of the original handles were walked: each is put back at
      the tail, and its callback appends `news[k]`. */
  ghost function Woven(orig: seq<Node>, news: seq<seq<Node>>, k: nat): seq<Node>
    requires k <= |orig| == |news|
  {
    if k == 0 then [] else Woven(orig, news, k - 1) + [orig[k - 1]] + news[k - 1]
  }

  /** The handles whose callback is called, in order. */
  ghost function Visible(orig: seq<Node>, internal: set<Node>): seq<Node> {
    if orig == [] then []
    else
      var n := |orig| - 1;
      Visible(orig[..n], internal) + if orig[n] in internal then [] else [orig[n]]
  }

  lemma {:induction false} WovenPrefix(orig: seq<Node>, news: seq<seq<Node>>, k: nat, n: nat)
    requires k <= n <= |orig| == |news|
    ensures Woven(orig, news, k) <= Woven(orig, news, n)
    decreases n
  {
    if k < n {
      WovenPrefix(orig, news, k, n - 1);
    }
  }

  lemma {:induction false} OriginalsIn(orig: seq<Node>, news: seq<seq<Node>>, n: nat)
    requires n <= |orig| == |news|
    ensures forall i :: 0 <= i < n ==> orig[i] in Woven(orig, news, n)
    decreases n
  {
    if n > 0 {
      OriginalsIn(orig, news, n - 1);
    }
  }

  lemma Prefix(a: seq<Node>, xs: seq<Node>, i: nat)
    requires i < |xs| && Distinct(a + xs)
    ensures xs[i] in a + xs && xs[i] !in a + xs[..i]
    ensures forall x :: x in a + xs[..i] ==> x in a + xs
  {
    assert xs[i] == (a + xs)[|a| + i];
    forall x | x in a + xs[..i] ensures x != xs[i] && x in a + xs {
      var j :| 0 <= j < |a| + i && (a + xs[..i])[j] == x;
      assert (a + xs)[j] == x;
    }
  }

  ghost function Members(s: seq<Node>): set<Node> {
    set x | x in s
  }

  /** What a callback does: new handles are put at the tail of the loop's queue. */
  method AppendAll(q: Node, xs: seq<Node>, ghost a: seq<Node>)
    requires Holds(q, a) && q !in xs && Distinct(a + xs)
    modifies {q} + Members(a + xs)
    ensures Holds(q, a + xs)
  {
    hide Holds, Distinct;
    var i := 0;
    assert a + xs[..0] == a;
    while i < |xs|
      invariant 0 <= i <= |xs| && Holds(q, a + xs[..i])
    {
      Ends(q, a + xs[..i]);
      Prefix(a, xs, i);
      InsertTail(q, xs[i], a + xs[..i]);
      assert a + xs[..i] + [xs[i]] == a + xs[..i + 1];
      i := i + 1;
    }
    assert xs[..i] == xs;
  }

  /** The full queue at the end: its header and elements, all distinct. */
  ghost predicate Fits(q: Node, orig: seq<Node>, news: seq<seq<Node>>)
    requires |orig| == |news|
  {
    q !in Woven(orig, news, |orig|) && Distinct(Woven(orig, news, |orig|))
  }

  /** A handle not walked yet is neither among those walked nor among the new ones. */
  lemma NotYet(q: Node, orig: seq<Node>, news: seq<seq<Node>>, k: nat, j: nat)
    requires |orig| == |news| && k <= j < |orig| && Fits(q, orig, news)
    ensures orig[j] !in Woven(orig, news, k) && orig[j] != q
  {
    var n := |orig|;
    WovenPrefix(orig, news, k, j);
    WovenPrefix(orig, news, j + 1, n);
    OriginalsIn(orig, news, n);
    var w, all := Woven(orig, news, j), Woven(orig, news, n);
    assert Woven(orig, news, j + 1)[|w|] == orig[j] && all[|w|] == orig[j];
    forall x | x in Woven(orig, news, k) ensures x != orig[j] {
      var i :| 0 <= i < |Woven(orig, news, k)| && Woven(orig, news, k)[i] == x;
      assert w[i] == x && Woven(orig, news, j + 1)[i] == x && all[i] == x;
    }
  }

  lemma DistinctPrefix(s: seq<Node>, t: seq<Node>)
    requires s <= t && Distinct(t)
    ensures Distinct(s) && forall x :: x in s ==> x in t
  {
    assert forall i :: 0 <= i < |s| ==> s[i] == t[i];
  }

  /** The handles that a callback appends are new to both queues. */
  lemma StepFits(q: Node, orig: seq<Node>, news: seq<seq<Node>>, k: nat)
    requires |orig| == |news| && k < |orig| && Fits(q, orig, news)
    ensures Distinct(Woven(orig, news, k + 1)) && q !in Woven(orig, news, k + 1)
    ensures forall j :: k < j < |orig| ==> orig[j] !in Woven(orig, news, k + 1)
    ensures forall x :: x in Woven(orig, news, k + 1) ==> x in Woven(orig, news, |orig|)
  {
    hide Woven, Distinct;
    WovenPrefix(orig, news, k + 1, |orig|);
    DistinctPrefix(Woven(orig, news, k + 1), Woven(orig, news, |orig|));
    forall j | k < j < |orig| ensures orig[j] !in Woven(orig, news, k + 1) {
      NotYet(q, orig, news, k + 1, j);
    }
  }

  /** uv_walk: every original handle that is not internal is visited once, in order; the
      queue holds the original handles in their order again, each followed by what its
      callback appended. `queue` is the header that is on
      the stack in the original. */
  method UvWalk(handleQueue: Node, queue: Node, internal: set<Node>, news: seq<seq<Node>>, ghost orig: seq<Node>)
    returns (visited: seq<Node>)
    requires Holds(handleQueue, orig) && |orig| == |news| && Fits(handleQueue, orig, news)
    requires queue != handleQueue && queue !in Woven(orig, news, |orig|)
    requires forall k :: 0 <= k < |orig| && orig[k] in internal ==> news[k] == []
    modifies {handleQueue, queue} + Members(Woven(orig, news, |orig|))
    ensures visited == Visible(orig, internal)
    ensures Holds(handleQueue, Woven(orig, news, |orig|))
  {
    hide Holds, Fits, Woven;
    ghost var n := |orig|;
    OriginalsIn(orig, news, n);
    Ends(handleQueue, orig);
    assert forall x :: x in orig ==> x in Woven(orig, news, n);
    Move(handleQueue, queue, orig);
    visited := [];
    var turn := 0;
    assert orig[0..] == orig && orig[..0] == [];
    NoTurns(orig, news);
    ghost var done, rest := [], orig;
    while true
      invariant 0 <= turn <= n && rest == orig[turn..] && done == Woven(orig, news, turn)
      invariant Holds(handleQueue, done) && Holds(queue, rest)
      invariant visited == Visible(orig[..turn], internal)
      decreases n - turn
    {
      var empty := Empty(queue, rest);
      if empty {
        break;
      }
      var q := queue.next;
      Ends(queue, rest);
      Turn(handleQueue, queue, q, orig, news, turn, done);
      if q !in internal {
        visited := visited + [q];
      }
      CallBack(handleQueue, queue, q, if q in internal then [] else news[turn], orig, news, turn, done + [q]);
      OneTurn(orig, news, turn);
      done := done + [q] + news[turn];
      assert orig[..turn + 1][..turn] == orig[..turn];
      turn := turn + 1;
      rest := orig[turn..];
    }
    assert turn == n && orig[..turn] == orig;
  }

  lemma NoTurns(orig: seq<Node>, news: seq<seq<Node>>)
    requires |orig| == |news|
    ensures Woven(orig, news, 0) == []
  {
  }

  lemma OneTurn(orig: seq<Node>, news: seq<seq<Node>>, k: nat)
    requires k < |orig| == |news|
    ensures Woven(orig, news, k + 1) == Woven(orig, news, k) + [orig[k]] + news[k]
  {
  }

  /** Takes the first handle off the local queue and puts it back on the loop's. */
  method Turn(handleQueue: Node, queue: Node, q: Node, ghost orig: seq<Node>, ghost news: seq<seq<Node>>, ghost i: nat,
              ghost done: seq<Node>)
    requires |orig| == |news| && i < |orig| && Fits(handleQueue, orig, news) && q == orig[i]
    requires queue != handleQueue && queue !in Woven(orig, news, |orig|) && done == Woven(orig, news, i)
    requires Holds(handleQueue, done) && Holds(queue, orig[i..])
    modifies {handleQueue, queue} + Members(Woven(orig, news, |orig|))
    ensures Holds(handleQueue, done + [q]) && Holds(queue, orig[i + 1..])
  {
    hide Fits, Woven, Holds;
    ghost var rest := orig[i + 1..];
    assert orig[i..] == [q] + rest;
    Separate(handleQueue, queue, orig, news, i);
    assert forall x :: x in rest ==> x in orig;
    ghost var last := handleQueue.prev;
    Ends(handleQueue, done);
    assert last in [handleQueue] + done;
    assert forall y :: y in Members(rest) ==> y !in [handleQueue] + done;
    TakeFirst(queue, q, rest);
    InsertTail(handleQueue, q, done);
  }

  /** QUEUE_REMOVE of the head. */
  method TakeFirst(queue: Node, q: Node, ghost rest: seq<Node>)
    requires Holds(queue, [q] + rest)
    modifies {queue} + Members(rest)
    ensures Holds(queue, rest) && queue !in rest && q !in [queue] + rest
  {
    hide Holds;
    assert [q] + rest == [] + [q] + rest;
    Neighbours(queue, q, rest);
    assert rest != [] ==> rest[0] in rest;
    Remove(q, queue, [], rest);
    assert [] + rest == rest;
    Ends(queue, rest);
  }

  lemma Neighbours(queue: Node, q: Node, rest: seq<Node>)
    requires Holds(queue, [] + [q] + rest)
    ensures q.prev == queue && q.next == if rest == [] then queue else rest[0]
  {
    var s := [queue] + ([] + [q] + rest);
    Opened(s);
    assert s[1] == q && (rest != [] ==> s[2] == rest[0]);
    assert s[0 + 1].prev == s[0];
    assert rest != [] ==> s[1].next == s[1 + 1];
  }

  /** The two queues have no node in common, and all their nodes may be written. */
  lemma Separate(handleQueue: Node, queue: Node, orig: seq<Node>, news: seq<seq<Node>>, i: nat)
    requires |orig| == |news| && i < |orig| && Fits(handleQueue, orig, news)
    requires queue != handleQueue && queue !in Woven(orig, news, |orig|)
    ensures queue !in Woven(orig, news, i) && handleQueue !in orig && orig[i] !in Woven(orig, news, i)
    ensures forall y :: y in orig[i + 1..] ==> y !in Woven(orig, news, i) && y != orig[i] && y != handleQueue
    ensures forall x :: x in [handleQueue] + Woven(orig, news, i) ==> x !in [queue] + orig[i + 1..]
    ensures forall x :: x in Woven(orig, news, i) ==> x in Woven(orig, news, |orig|)
    ensures forall x :: x in orig ==> x in Woven(orig, news, |orig|)
  {
    hide Woven;
    WovenPrefix(orig, news, i, |orig|);
    DistinctPrefix(Woven(orig, news, i), Woven(orig, news, |orig|));
    OriginalsIn(orig, news, |orig|);
    StepFits(handleQueue, orig, news, i);
    NotYet(handleQueue, orig, news, i, i);
    OneTurn(orig, news, i);
    forall y | y in orig[i + 1..] ensures y !in Woven(orig, news, i) && y != orig[i] && y != handleQueue {
      var j :| i + 1 <= j < |orig| && orig[j] == y;
      NotYet(handleQueue, orig, news, i, j);
    }
  }

  /** walk_cb(h, arg), as far as the queues are concerned. */
  method CallBack(handleQueue: Node, queue: Node, q: Node, xs: seq<Node>, ghost orig: seq<Node>,
                  ghost news: seq<seq<Node>>, ghost i: nat, ghost done: seq<Node>)
    requires |orig| == |news| && i < |orig| && Fits(handleQueue, orig, news) && q == orig[i] && xs == news[i]
    requires queue != handleQueue && queue !in Woven(orig, news, |orig|) && done == Woven(orig, news, i) + [q]
    requires Holds(handleQueue, done) && Holds(queue, orig[i + 1..])
    modifies {handleQueue, queue} + Members(Woven(orig, news, |orig|))
    ensures Holds(handleQueue, done + xs) && Holds(queue, orig[i + 1..])
  {
    hide Fits, Woven, Holds, Distinct;
    StepFits(handleQueue, orig, news, i);
    OneTurn(orig, news, i);
    Separate(handleQueue, queue, orig, news, i);
    forall y | y in orig[i + 1..] ensures y !in done + xs {
      var j :| i < j < |orig| && orig[j] == y;
      assert orig[j] !in Woven(orig, news, i + 1);
    }
    AppendAll(handleQueue, xs, done);
  }

  /** Among the original handles the order is what it was. */
  lemma {:induction false} OrderKept(orig: seq<Node>, news: seq<seq<Node>>, k: nat)
    requires k <= |orig| == |news| && forall i, x :: 0 <= i < |news| && x in news[i] ==> x !in orig
    ensures Only(Woven(orig, news, k), orig) == orig[..k]
  {
    if k > 0 {
      OrderKept(orig, news, k - 1);
      OnlyAppend(Woven(orig, news, k - 1), [orig[k - 1]], orig);
      OnlyAppend(Woven(orig, news, k - 1) + [orig[k - 1]], news[k - 1], orig);
      OnlyNone(news[k - 1], orig);
      assert orig[..k] == orig[..k - 1] + [orig[k - 1]];
      assert Only([orig[k - 1]], orig) == [orig[k - 1]];
    }
  }

  ghost function Only(s: seq<Node>, keep: seq<Node>): seq<Node> {
    if s == [] then [] else (if s[0] in keep then [s[0]] else []) + Only(s[1..], keep)
  }

  lemma {:induction false} OnlyAppend(s: seq<Node>, t: seq<Node>, keep: seq<Node>)
    ensures Only(s + t, keep) == Only(s, keep) + Only(t, keep)
  {
    if s == [] {
      assert s + t == t;
    } else {
      assert (s + t)[1..] == s[1..] + t;
      OnlyAppend(s[1..], t, keep);
      var first := if s[0] in keep then [s[0]] else [];
      assert first + Only(s[1..], keep) + Only(t, keep) == first + (Only(s[1..], keep) + Only(t, keep));
    }
  }

  lemma {:induction false} OnlyNone(s: seq<Node>, keep: seq<Node>)
    requires forall x :: x in s ==> x !in keep
    ensures Only(s, keep) == []
  {
    if s != [] {
      OnlyNone(s[1..], keep);
    }
  }
}
