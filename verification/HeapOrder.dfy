/** Binary-heap order on the breadth-first sequence of keys, and the paths that
    lead to a breadth-first position. */
module HeapOrder {

  /** The index of the parent of the node at index `i`. */
  function Par(i: nat): nat
    requires i > 0
  {
    (i - 1) / 2
  }

  lemma ParIs(i: nat, j: nat)
    requires j > 0
    ensures Par(j) < j
    ensures Par(j) == i <==> j == 2 * i + 1 || j == 2 * i + 2
  {
  }

  /** The key at `j` is not less than its parent's. */
  predicate Edge(ks: seq<int>, j: nat)
    requires 0 < j < |ks|
  {
    ks[Par(j)] <= ks[j]
  }

  predicate Ordered(ks: seq<int>) {
    forall j | 0 < j < |ks| :: Edge(ks, j)
  }

  /** Heap order may fail only between index `i` and its neighbours. */
  predicate OrderedExcept(ks: seq<int>, i: nat) {
    && (forall j | 0 < j < |ks| && j != i && Par(j) != i :: Edge(ks, j))
    && (forall j | 0 < j < |ks| && Par(j) == i && 0 < i :: ks[Par(i)] <= ks[j])
  }

  /** The key at `i` is not above any of its children. */
  predicate Below(ks: seq<int>, i: nat)
    requires i < |ks|
  {
    forall j | 0 < j < |ks| && Par(j) == i :: ks[i] <= ks[j]
  }

  function Swap(ks: seq<int>, i: nat, j: nat): (r: seq<int>)
    requires i < |ks| && j < |ks|
    ensures |r| == |ks|
  {
    ks[i := ks[j]][j := ks[i]]
  }

  /** The root of an ordered heap is a minimum. */
  lemma {:induction false} RootIsLeast(ks: seq<int>, i: nat)
    requires Ordered(ks) && i < |ks|
    ensures ks[0] <= ks[i]
    decreases i
  {
    if i > 0 {
      ParIs(0, i);
      RootIsLeast(ks, Par(i));
      assert Edge(ks, i);
    }
  }

  /** Replacing one key disturbs the order only around it. */
  lemma Replace(ks: seq<int>, i: nat, k: int)
    requires Ordered(ks) && i < |ks|
    ensures OrderedExcept(ks[i := k], i)
  {
    var r := ks[i := k];
    forall j | 0 < j < |r| && j != i && Par(j) != i
      ensures Edge(r, j)
    {
      assert Edge(ks, j);
    }
    forall j | 0 < j < |r| && Par(j) == i && 0 < i
      ensures r[Par(i)] <= r[j]
    {
      ParIs(i, j);
      assert Edge(ks, j) && Edge(ks, i);
    }
  }

  lemma Shorten(ks: seq<int>, n: nat)
    requires Ordered(ks) && n <= |ks|
    ensures Ordered(ks[..n])
  {
    forall j | 0 < j < n
      ensures Edge(ks[..n], j)
    {
      assert Edge(ks, j);
    }
  }

  /** Appending a key disturbs the order only above it. */
  lemma Append(ks: seq<int>, k: int)
    requires Ordered(ks)
    ensures OrderedExcept(ks + [k], |ks|) && Below(ks + [k], |ks|)
  {
    var r := ks + [k];
    forall j | 0 < j < |r| && j != |ks| && Par(j) != |ks|
      ensures Edge(r, j)
    {
      assert Edge(ks, j);
    }
    forall j | 0 < j < |r|
      ensures Par(j) != |ks|
    {
      ParIs(|ks|, j);
    }
  }

  /** Moving the smaller child up moves the disturbance down. */
  lemma SwapDown(ks: seq<int>, i: nat, c: nat)
    requires OrderedExcept(ks, i) && 0 < c < |ks| && Par(c) == i
    requires forall j | 0 < j < |ks| && Par(j) == i :: ks[c] <= ks[j]
    requires ks[c] < ks[i]
    ensures OrderedExcept(Swap(ks, i, c), c)
  {
    ParIs(i, c);
    var r := Swap(ks, i, c);
    forall j | 0 < j < |r| && j != c && Par(j) != c
      ensures Edge(r, j)
    {
      ParIs(i, j);
      assert j != i && Par(j) != i ==> Edge(ks, j);
    }
    forall j | 0 < j < |r| && Par(j) == c
      ensures r[Par(c)] <= r[j]
    {
      ParIs(c, j);
      assert Edge(ks, j);
    }
  }

  /** Moving a too-small key up moves the disturbance up. */
  lemma SwapUp(ks: seq<int>, i: nat)
    requires OrderedExcept(ks, i) && 0 < i < |ks| && Below(ks, i)
    requires ks[i] < ks[Par(i)]
    ensures OrderedExcept(Swap(ks, Par(i), i), Par(i)) && Below(Swap(ks, Par(i), i), Par(i))
  {
    var p := Par(i);
    ParIs(p, i);
    var r := Swap(ks, p, i);
    forall j | 0 < j < |r| && j != p && Par(j) != p
      ensures Edge(r, j)
    {
      ParIs(i, j);
      assert Par(j) != i ==> Edge(ks, j);
    }
    forall j | 0 < j < |r| && Par(j) == p
      ensures r[p] <= r[j]
      ensures 0 < p ==> r[Par(p)] <= r[j]
    {
      ParIs(p, j);
      if p > 0 {
        ParIs(Par(p), p);
        assert Edge(ks, p);
      }
      assert j != i ==> Edge(ks, j);
    }
  }

  /** With the disturbed key between its neighbours the whole heap is in order. */
  lemma Settled(ks: seq<int>, i: nat)
    requires OrderedExcept(ks, i) && i < |ks| && Below(ks, i) && (i == 0 || Edge(ks, i))
    ensures Ordered(ks)
  {
    forall j | 0 < j < |ks|
      ensures Edge(ks, j)
    {
    }
  }

  /** The position reached from position `m` by reading `k` bits of `path`, lowest
      first: a clear bit goes left, a set bit goes right. Positions count from 1. */
  function Walk(m: nat, path: nat, k: nat): (n: nat)
    decreases k
  {
    if k == 0 then m else Walk(2 * m + path % 2, path / 2, k - 1)
  }

  lemma {:induction false} WalkGrows(m: nat, path: nat, k: nat)
    ensures Walk(m, path, k) >= m
    ensures k > 0 ==> Walk(m, path, k) >= 2 * m
    decreases k
  {
    if k > 0 {
      WalkGrows(2 * m + path % 2, path / 2, k - 1);
    }
  }

  /** The low-to-high bit path from the root to position `n`, built high bit last. */
  method PathTo(n0: nat) returns (path: nat, k: nat)
    requires n0 >= 1
    ensures Walk(1, path, k) == n0
  {
    path, k := 0, 0;
    var n := n0;
    while n >= 2
      invariant n >= 1
      invariant Walk(n, path, k) == n0
    {
      var b := n % 2;
      assert (2 * path + b) % 2 == b && (2 * path + b) / 2 == path;
      assert n == 2 * (n / 2) + b;
      path, n, k := 2 * path + b, n / 2, k + 1;
    }
  }
}
