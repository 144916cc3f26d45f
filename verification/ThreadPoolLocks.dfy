/** The locks of the thread pool, the global mutex and one `wq_mutex` per loop, under any
    interleaving of the functions' lock actions (src/threadpool.c:48-114, 207-253). */
module ThreadPoolLocks {

  datatype Lock = Global | LoopQueue(loop: nat)

  datatype Action = Acquire(lock: Lock) | Release(lock: Lock)

  /** The functions by the locks they take. A worker's first critical section lets go of
      the mutex and takes it again each time it waits. */
  datatype Operation = Post | Take(waits: nat) | GiveBack(l: nat) | CancelBusy(l: nat) | CancelDone(l: nat)
                     | WorkDone(l: nat)

  function Waits(n: nat): seq<Action> {
    if n == 0 then [] else [Release(Global), Acquire(Global)] + Waits(n - 1)
  }

  function Actions(op: Operation): seq<Action> {
    match op
    case Post => [Acquire(Global), Release(Global)]
    case Take(n) => [Acquire(Global)] + (Waits(n) + [Release(Global)])
    case GiveBack(l) => [Acquire(LoopQueue(l)), Release(LoopQueue(l))]
    case CancelBusy(l) =>
      [Acquire(Global), Acquire(LoopQueue(l)), Release(LoopQueue(l)), Release(Global)]
    case CancelDone(l) =>
      [Acquire(Global), Acquire(LoopQueue(l)), Release(LoopQueue(l)), Release(Global),
       Acquire(LoopQueue(l)), Release(LoopQueue(l))]
    case WorkDone(l) => [Acquire(LoopQueue(l)), Release(LoopQueue(l))]
  }

  /** What each thread has still to do of its current function, and who holds what. */
  datatype State = State(rest: seq<seq<Action>>, owner: map<Lock, nat>)

  predicate CanMove(s: State, t: nat) {
    && t < |s.rest| && s.rest[t] != []
    && match s.rest[t][0]
       case Acquire(k) => k !in s.owner
       case Release(k) => k in s.owner && s.owner[k] == t
  }

  function Move(s: State, t: nat): State
    requires CanMove(s, t)
  {
    State(s.rest[t := s.rest[t][1..]],
          match s.rest[t][0]
          case Acquire(k) => s.owner[k := t]
          case Release(k) => s.owner - {k})
  }

  /** A thread between functions calls the next one. */
  function Call(s: State, t: nat, op: Operation): State
    requires t < |s.rest|
  {
    s.(rest := s.rest[t := Actions(op)])
  }

  function Rank(k: Lock): nat {
    if k.Global? then 0 else 1
  }

  /** With `held` in hand, what is left takes locks only upwards, and lets go of all. */
  predicate Ascends(held: set<Lock>, rest: seq<Action>)
    decreases |rest|
  {
    if rest == [] then held == {}
    else match rest[0]
      case Acquire(k) =>
        (forall h :: h in held ==> Rank(h) < Rank(k)) && Ascends(held + {k}, rest[1..])
      case Release(k) => k in held && Ascends(held - {k}, rest[1..])
  }

  function Held(s: State, t: nat): set<Lock> {
    set k | k in s.owner && s.owner[k] == t
  }

  predicate Inv(s: State) {
    && (forall t: nat :: t < |s.rest| ==> Ascends(Held(s, t), s.rest[t]))
    && (forall k :: k in s.owner ==> s.owner[k] < |s.rest|)
  }

  lemma {:induction false} WaitsAscend(n: nat)
    ensures Ascends({Global}, Waits(n) + [Release(Global)])
  {
    if n > 0 {
      WaitsAscend(n - 1);
      var rest := Waits(n) + [Release(Global)];
      assert rest[1..][1..] == Waits(n - 1) + [Release(Global)];
      assert rest[0] == Release(Global) && rest[1..][0] == Acquire(Global);
      assert {Global} - {Global} == {} && {} + {Global} == {Global};
    } else {
      assert Waits(0) + [Release(Global)] == [Release(Global)];
      assert {Global} - {Global} == {};
    }
  }

  /** Every function of the pool takes the global mutex before a loop's, and no two loops'. */
  lemma ActionsAscend(op: Operation)
    ensures Ascends({}, Actions(op))
  {
    match op
    case Take(n) =>
      WaitsAscend(n);
      assert Actions(op)[1..] == Waits(n) + [Release(Global)];
      assert {} + {Global} == {Global};
    case Post => TwoActions(Global);
    case GiveBack(l) => TwoActions(LoopQueue(l));
    case WorkDone(l) => TwoActions(LoopQueue(l));
    case CancelBusy(l) =>
      Nested(l, []);
      assert Actions(op) == [Acquire(Global), Acquire(LoopQueue(l)), Release(LoopQueue(l)), Release(Global)] + [];
    case CancelDone(l) =>
      TwoActions(LoopQueue(l));
      var after := [Acquire(LoopQueue(l)), Release(LoopQueue(l))];
      Nested(l, after);
      assert Actions(op) == [Acquire(Global), Acquire(LoopQueue(l)), Release(LoopQueue(l)), Release(Global)] + after;
  }

  lemma TwoActions(k: Lock)
    ensures Ascends({}, [Acquire(k), Release(k)])
  {
    var rest := [Acquire(k), Release(k)];
    assert rest[1..] == [Release(k)] && rest[1..][1..] == [];
    assert {} + {k} == {k} && {k} - {k} == {};
    assert Ascends({k}, rest[1..]);
  }

  lemma Nested(l: nat, after: seq<Action>)
    requires Ascends({}, after)
    ensures Ascends({}, [Acquire(Global), Acquire(LoopQueue(l)), Release(LoopQueue(l)), Release(Global)] + after)
  {
    var k := LoopQueue(l);
    var r3 := [Release(Global)] + after;
    var r2 := [Release(k)] + r3;
    var r1 := [Acquire(k)] + r2;
    var r0 := [Acquire(Global)] + r1;
    assert r3[1..] == after && r2[1..] == r3 && r1[1..] == r2 && r0[1..] == r1;
    assert {Global} - {Global} == {} && {Global, k} - {k} == {Global} && {Global} + {k} == {Global, k} && {} + {Global} == {Global};
    assert Ascends({Global}, r3);
    assert Ascends({Global, k}, r2);
    assert Ascends({Global}, r1);
    assert r0 == [Acquire(Global), Acquire(k), Release(k), Release(Global)] + after;
  }

  /** Moves and calls keep the order. */
  lemma MoveInv(s: State, t: nat)
    requires Inv(s) && CanMove(s, t)
    ensures Inv(Move(s, t))
  {
    var n := Move(s, t);
    assert Ascends(Held(s, t), s.rest[t]);
    var k := s.rest[t][0].lock;
    assert Held(n, t) == if s.rest[t][0].Acquire? then Held(s, t) + {k} else Held(s, t) - {k};
    forall u: nat | u < |s.rest| ensures Ascends(Held(n, u), n.rest[u]) {
      if u != t {
        assert Held(n, u) == Held(s, u);
      }
    }
  }

  lemma CallInv(s: State, t: nat, op: Operation)
    requires Inv(s) && t < |s.rest| && s.rest[t] == []
    ensures Inv(Call(s, t, op))
  {
    ActionsAscend(op);
    var n := Call(s, t, op);
    forall u: nat | u < |s.rest| ensures Ascends(Held(n, u), n.rest[u]) {
      assert Held(n, u) == Held(s, u);
      assert Ascends(Held(s, u), s.rest[u]);
    }
  }

  /** Thread `t` waits for a lock that `u` holds. */
  predicate WaitsFor(s: State, t: nat, u: nat) {
    && t < |s.rest| && s.rest[t] != [] && s.rest[t][0].Acquire?
    && s.rest[t][0].lock in s.owner && s.owner[s.rest[t][0].lock] == u
  }

  /** Whoever holds up another is itself held up by a higher lock only. */
  lemma WaitsRise(s: State, t: nat, u: nat)
    requires Inv(s) && WaitsFor(s, t, u)
    ensures u < |s.rest| && s.rest[u] != []
    ensures s.rest[u][0].Acquire? ==> Rank(s.rest[t][0].lock) < Rank(s.rest[u][0].lock)
  {
    assert s.rest[t][0].lock in Held(s, u);
    assert Ascends(Held(s, u), s.rest[u]);
  }

  /** A chain of threads each waiting for the next. */
  predicate Chain(s: State, c: seq<nat>) {
    forall i :: 0 <= i < |c| - 1 ==> WaitsFor(s, c[i], c[i + 1])
  }

  lemma {:induction false} ChainRises(s: State, c: seq<nat>)
    requires Inv(s) && Chain(s, c) && |c| >= 2
    requires var u := c[|c| - 1]; u < |s.rest| && s.rest[u] != [] && s.rest[u][0].Acquire?
    ensures c[0] < |s.rest| && s.rest[c[0]] != []
    ensures Rank(s.rest[c[0]][0].lock) < Rank(s.rest[c[|c| - 1]][0].lock)
    decreases |c|
  {
    assert WaitsFor(s, c[0], c[1]);
    WaitsRise(s, c[0], c[1]);
    if |c| > 2 {
      assert WaitsFor(s, c[1], c[2]);
      forall i | 0 <= i < |c[1..]| - 1 ensures WaitsFor(s, c[1..][i], c[1..][i + 1]) {
        assert WaitsFor(s, c[i + 1], c[i + 1 + 1]);
      }
      ChainRises(s, c[1..]);
    }
  }

  /** No cycle of lock waits. */
  lemma NoWaitCycle(s: State, c: seq<nat>)
    requires Inv(s) && |c| >= 2 && c[0] == c[|c| - 1]
    ensures !Chain(s, c)
  {
    if Chain(s, c) {
      assert WaitsFor(s, c[0], c[1]);
      ChainRises(s, c);
    }
  }

  /** As long as some thread has something to do, some thread can move. */
  lemma NoDeadlock(s: State, t: nat)
    requires Inv(s) && t < |s.rest| && s.rest[t] != []
    ensures exists u :: CanMove(s, u)
  {
    var u := Unblocked(s, t);
    assert CanMove(s, u);
  }

  lemma Unblocked(s: State, t: nat) returns (u: nat)
    requires Inv(s) && t < |s.rest| && s.rest[t] != []
    ensures CanMove(s, u)
    decreases if s.rest[t][0].Acquire? then 2 - Rank(s.rest[t][0].lock) else 0
  {
    assert Ascends(Held(s, t), s.rest[t]);
    if CanMove(s, t) {
      u := t;
    } else {
      var v := s.owner[s.rest[t][0].lock];
      WaitsRise(s, t, v);
      u := Unblocked(s, v);
    }
  }

  datatype Step = Moves(t: nat) | Calls(t: nat, op: Operation)

  predicate Possible(s: State, e: Step) {
    match e
    case Moves(t) => CanMove(s, t)
    case Calls(t, op) => t < |s.rest| && s.rest[t] == []
  }

  function Apply(s: State, e: Step): State
    requires Possible(s, e)
  {
    match e
    case Moves(t) => Move(s, t)
    case Calls(t, op) => Call(s, t, op)
  }

  predicate Run(s: State, steps: seq<Step>)
    decreases |steps|
  {
    steps == [] || (Possible(s, steps[0]) && Run(Apply(s, steps[0]), steps[1..]))
  }

  function After(s: State, steps: seq<Step>): State
    requires Run(s, steps)
    decreases |steps|
  {
    if steps == [] then s else After(Apply(s, steps[0]), steps[1..])
  }

  lemma {:induction false} RunInv(s: State, steps: seq<Step>)
    requires Inv(s) && Run(s, steps)
    ensures Inv(After(s, steps))
    decreases |steps|
  {
    hide Inv, CanMove, Move, Call;
    if steps != [] {
      match steps[0] {
        case Moves(t) => MoveInv(s, t);
        case Calls(t, op) => CallInv(s, t, op);
      }
      RunInv(Apply(s, steps[0]), steps[1..]);
    }
  }

  /** In no interleaving, from threads that hold nothing, does a cycle of waits arise or do
      all threads get stuck. */
  lemma LocksAreSafe(n: nat, steps: seq<Step>, c: seq<nat>, t: nat)
    requires var s := State(seq(n, i => []), map[]);
      Run(s, steps) && t < |After(s, steps).rest|
    ensures var u := After(State(seq(n, i => []), map[]), steps);
      && (|c| >= 2 && c[0] == c[|c| - 1] ==> !Chain(u, c))
      && (u.rest[t] != [] ==> exists v :: CanMove(u, v))
  {
    var s := State(seq(n, i => []), map[]);
    assert Inv(s);
    RunInv(s, steps);
    var u := After(s, steps);
    if |c| >= 2 && c[0] == c[|c| - 1] {
      NoWaitCycle(u, c);
    }
    if u.rest[t] != [] {
      NoDeadlock(u, t);
    }
  }
}
