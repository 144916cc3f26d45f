/** What every interleaving keeps: each request is in one place, is run at most once, is
    done at most once, and its status says whether it was run (src/threadpool.c:48-253). */
module ThreadPoolSafety {
  import opened Basics
  import opened ThreadPoolModel

  predicate At(s: State, w: Item, p: Place) {
    w in s.place && s.place[w] == p
  }

  predicate Called(s: State, w: Item) {
    (w, Real) in s.calls
  }

  predicate HeldBy(s: State, i: nat, w: Item) {
    i < |s.workers| && (s.workers[i] == Picked(w) || s.workers[i] == Running(w))
  }

  predicate InQueue(s: State, l: nat, w: Item) {
    l < |s.loops| && w in s.loops[l].wq
  }

  predicate InTurn(s: State, l: nat, w: Item) {
    l < |s.loops| && w in s.loops[l].local
  }

  predicate OnHold(s: State, l: nat, w: Item) {
    l < |s.loops| && (s.loops[l].hold == Removed(w) || s.loops[l].hold == Marked(w))
  }

  predicate DoneWith(s: State, w: Item, cancelled: bool) {
    (w, cancelled) in s.dones
  }

  /** A request is where its place says and nowhere else. */
  ghost predicate Where(s: State, w: Item) {
    && (Work(w) in s.wq <==> At(s, w, InPool))
    && (forall i :: HeldBy(s, i, w) <==> At(s, w, AtWorker(i)))
    && (forall l :: InQueue(s, l, w) <==> At(s, w, InLoop) && l == w.loop)
    && (forall l :: InTurn(s, l, w) <==> At(s, w, InLocal) && l == w.loop)
    && (forall l :: OnHold(s, l, w) <==> At(s, w, AtCancel) && l == w.loop)
    && (forall b :: DoneWith(s, w, b) <==> At(s, w, Finished) && b == !Called(s, w))
  }

  /** The function pointer, the node's link and the call log go with the place. */
  ghost predicate Status(s: State, w: Item) {
    && (w in s.place <==> w in s.work)
    && (w !in s.place ==> !Called(s, w))
    && (w in s.place ==>
          && w.loop < |s.loops|
          && var f, linked, called := s.work[w], w in s.linked, Called(s, w);
          match s.place[w]
          case InPool => f == Real && linked && !called
          case AtWorker(i) =>
            f == Real && !linked && i < |s.workers| && (called <==> s.workers[i] == Running(w))
          case AtCancel =>
            && f != Null && linked && !called
            && (s.loops[w.loop].hold == Marked(w) ==> f == Cancelled)
          case InLoop => f != Real && linked && (f == Null <==> called)
          case InLocal => f != Real && linked && (f == Null <==> called)
          case Finished => true)
  }

  predicate LoopOk(lp: Loop) {
    Distinct(lp.wq) && Distinct(lp.local) && (lp.wq != [] ==> lp.sent)
  }

  predicate Logs(s: State) {
    && (forall i :: 0 <= i < |s.calls| ==> s.calls[i].1 == Real)
    && Distinct(s.calls) && Distinct(s.dones)
  }

  ghost predicate Inv(s: State) {
    && (forall w :: Where(s, w))
    && (forall w :: Status(s, w))
    && Distinct(s.wq) && Logs(s)
    && (forall l :: 0 <= l < |s.loops| ==> LoopOk(s.loops[l]))
  }

  ghost predicate SameWorkers(s: State, t: State, v: Item) {
    && |s.workers| == |t.workers|
    && (forall i :: HeldBy(s, i, v) <==> HeldBy(t, i, v))
    && (forall i: nat :: i < |s.workers| ==> (s.workers[i] == Running(v) <==> t.workers[i] == Running(v)))
  }

  ghost predicate SameQueues(s: State, t: State, v: Item) {
    |s.loops| == |t.loops| && forall l :: InQueue(s, l, v) <==> InQueue(t, l, v)
  }

  ghost predicate SameTurns(s: State, t: State, v: Item) {
    forall l :: InTurn(s, l, v) <==> InTurn(t, l, v)
  }

  ghost predicate SameHolds(s: State, t: State, v: Item) {
    && |s.loops| == |t.loops|
    && (forall l :: OnHold(s, l, v) <==> OnHold(t, l, v))
    && (forall l: nat :: l < |s.loops| ==> (s.loops[l].hold == Marked(v) <==> t.loops[l].hold == Marked(v)))
  }

  ghost predicate SameDones(s: State, t: State, v: Item) {
    forall b :: DoneWith(s, v, b) <==> DoneWith(t, v, b)
  }

  predicate SameFields(s: State, t: State, v: Item) {
    && (v in s.place <==> v in t.place) && (v in s.place ==> s.place[v] == t.place[v])
    && (v in s.work <==> v in t.work) && (v in s.work ==> s.work[v] == t.work[v])
    && (v in s.linked <==> v in t.linked) && (Called(s, v) <==> Called(t, v))
  }

  /** The two states say the same about `v`. */
  ghost predicate Agree(s: State, t: State, v: Item) {
    && SameFields(s, t, v) && (Work(v) in s.wq <==> Work(v) in t.wq)
    && SameWorkers(s, t, v) && SameQueues(s, t, v) && SameTurns(s, t, v)
    && SameHolds(s, t, v) && SameDones(s, t, v)
  }

  lemma Carry(s: State, t: State, v: Item)
    requires Agree(s, t, v) && Where(s, v) && Status(s, v)
    ensures Where(t, v) && Status(t, v)
  {
    hide HeldBy, InQueue, InTurn, OnHold, DoneWith, Called;
  }

  /** An event that concerns only `w` leaves the invariant of the other requests alone. */
  lemma Others(s: State, t: State, w: Item)
    requires forall v :: Where(s, v)
    requires forall v :: Status(s, v)
    requires forall v :: v != w ==> Agree(s, t, v)
    requires Where(t, w) && Status(t, w)
    ensures forall v :: Where(t, v)
    ensures forall v :: Status(t, v)
  {
    hide Agree, Where, Status;
    forall v ensures Where(t, v) && Status(t, v) {
      if v != w {
        Carry(s, t, v);
      }
    }
  }

  lemma DistinctAppend<T>(q: seq<T>, x: T)
    requires Distinct(q) && x !in q
    ensures Distinct(q + [x])
  {
  }

  lemma DistinctTail<T>(q: seq<T>)
    requires Distinct(q) && q != []
    ensures Distinct(q[1..]) && q[0] !in q[1..]
    ensures forall x :: x in q[1..] <==> x in q && x != q[0]
  {
    assert q == [q[0]] + q[1..];
  }

  lemma WakeHeld(ws: seq<Worker>, k: nat)
    ensures |Wake(ws, k)| == |ws|
    ensures forall i :: 0 <= i < |ws| ==> Wake(ws, k)[i] == ws[i]
                                          || (ws[i].Waiting? && Wake(ws, k)[i].Signalled?)
  {
  }

  lemma InitInv(s: State)
    requires Init(s)
    ensures Inv(s)
  {
  }

  lemma SubmitInv(s: State, w: Item, k: nat)
    requires Inv(s) && Enabled(s, Submit(w, k))
    ensures Inv(Next(s, Submit(w, k)))
  {
    var t := Next(s, Submit(w, k));
    assert Where(s, w) && Status(s, w);
    WakeHeld(s.workers, k);
    DistinctAppend(s.wq, Work(w));
    assert SameWorkers(s, t, w) && SameQueues(s, t, w) && SameTurns(s, t, w)
           && SameHolds(s, t, w) && SameDones(s, t, w);
    Others(s, t, w);
  }

  lemma PostExitInv(s: State, k: nat)
    requires Inv(s) && Enabled(s, PostExit(k))
    ensures Inv(Next(s, PostExit(k)))
  {
    var t := Next(s, PostExit(k));
    WakeHeld(s.workers, k);
    DistinctAppend(s.wq, Exit);
    Unmoved(s, t);
  }

  lemma Unmoved(s: State, t: State)
    requires forall v :: Where(s, v)
    requires forall v :: Status(s, v)
    requires forall v :: Agree(s, t, v)
    ensures forall v :: Where(t, v)
    ensures forall v :: Status(t, v)
  {
    hide Agree, Where, Status;
    forall v ensures Where(t, v) && Status(t, v) {
      Carry(s, t, v);
    }
  }

  lemma EnterInv(s: State, i: nat, k: nat)
    requires Inv(s) && Enabled(s, Enter(i, k))
    ensures Inv(Next(s, Enter(i, k)))
  {
    var t := Next(s, Enter(i, k));
    if s.wq == [] || s.wq[0] == Exit {
      WakeHeld(s.workers[i := Exited], k);
      Unmoved(s, t);
    } else {
      var w := s.wq[0].item;
      DistinctTail(s.wq);
      assert Work(w) in s.wq && Where(s, w) && Status(s, w);
      assert SameQueues(s, t, w) && SameTurns(s, t, w) && SameHolds(s, t, w) && SameDones(s, t, w);
      assert forall j :: j != i ==> (HeldBy(t, j, w) <==> HeldBy(s, j, w));
      Others(s, t, w);
    }
  }

  lemma SpuriousInv(s: State, i: nat)
    requires Inv(s) && Enabled(s, Spurious(i))
    ensures Inv(Next(s, Spurious(i)))
  {
    Unmoved(s, Next(s, Spurious(i)));
  }

  lemma StartInv(s: State, i: nat)
    requires Inv(s) && Enabled(s, Start(i))
    ensures Inv(Next(s, Start(i)))
    ensures s.work[s.workers[i].item] == Real
  {
    var t := Next(s, Start(i));
    var w := s.workers[i].item;
    assert HeldBy(s, i, w) && Where(s, w) && Status(s, w);
    assert SameQueues(s, t, w) && SameTurns(s, t, w) && SameHolds(s, t, w) && SameDones(s, t, w);
    assert forall j :: HeldBy(t, j, w) <==> HeldBy(s, j, w);
    DistinctAppend(s.calls, (w, Real));
    Others(s, t, w);
  }

  lemma FinishInv(s: State, i: nat)
    requires Inv(s) && Enabled(s, Finish(i))
    ensures Inv(Next(s, Finish(i)))
  {
    var t := Next(s, Finish(i));
    var w := s.workers[i].item;
    var lp := s.loops[w.loop];
    assert HeldBy(s, i, w) && Where(s, w) && Status(s, w);
    assert !InQueue(s, w.loop, w);
    DistinctAppend(lp.wq, w);
    assert SameTurns(s, t, w) && SameHolds(s, t, w) && SameDones(s, t, w);
    forall j: nat ensures !HeldBy(t, j, w) { assert HeldBy(s, j, w) <==> j == i; }
    forall l: nat ensures InQueue(t, l, w) <==> l == w.loop { assert !InQueue(s, l, w); }
    Others(s, t, w);
  }

  lemma CancelInv(s: State, w: Item)
    requires Inv(s) && Enabled(s, Cancel(w))
    ensures Inv(Next(s, Cancel(w)))
  {
    if Cancellable(s, w) {
      var t := Next(s, Cancel(w));
      var lp := s.loops[w.loop];
      DropDistinct(s.wq, Work(w));
      DropDistinct(lp.wq, w);
      DropDistinct(lp.local, w);
      assert Where(s, w) && Status(s, w);
      assert SameWorkers(s, t, w) && SameDones(s, t, w);
      forall l: nat ensures !InQueue(t, l, w) && !InTurn(t, l, w) && (OnHold(t, l, w) <==> l == w.loop) {
        assert l != w.loop ==> !InQueue(s, l, w) && !InTurn(s, l, w) && !OnHold(s, l, w);
      }
      Others(s, t, w);
    }
  }

  lemma MarkInv(s: State, l: nat)
    requires Inv(s) && Enabled(s, Mark(l))
    ensures Inv(Next(s, Mark(l)))
  {
    var t := Next(s, Mark(l));
    var w := s.loops[l].hold.item;
    assert OnHold(s, l, w) && Where(s, w) && Status(s, w);
    assert SameWorkers(s, t, w) && SameQueues(s, t, w) && SameTurns(s, t, w) && SameDones(s, t, w);
    assert forall m :: OnHold(t, m, w) <==> OnHold(s, m, w);
    Others(s, t, w);
  }

  lemma CancelEndInv(s: State, l: nat)
    requires Inv(s) && Enabled(s, CancelEnd(l))
    ensures Inv(Next(s, CancelEnd(l)))
  {
    var t := Next(s, CancelEnd(l));
    var w := s.loops[l].hold.item;
    assert OnHold(s, l, w) && Where(s, w) && Status(s, w);
    assert w.loop == l && !InQueue(s, l, w);
    DistinctAppend(s.loops[l].wq, w);
    assert SameWorkers(s, t, w) && SameTurns(s, t, w) && SameDones(s, t, w);
    forall m: nat ensures !OnHold(t, m, w) && (InQueue(t, m, w) <==> m == l) {
      assert !InQueue(s, m, w) && (m != l ==> !OnHold(s, m, w));
    }
    Others(s, t, w);
  }

  lemma DoneBeginInv(s: State, l: nat)
    requires Inv(s) && Enabled(s, DoneBegin(l))
    ensures Inv(Next(s, DoneBegin(l)))
  {
    var t := Next(s, DoneBegin(l));
    forall w ensures Where(t, w) && Status(t, w) {
      assert Where(s, w) && Status(s, w);
      if w in s.loops[l].wq {
        assert InQueue(s, l, w) && w.loop == l;
        assert SameWorkers(s, t, w) && SameHolds(s, t, w) && SameDones(s, t, w);
        forall m: nat ensures !InQueue(t, m, w) && (InTurn(t, m, w) <==> m == l) {
          assert !InTurn(s, m, w) && (m != l ==> !InQueue(s, m, w));
        }
      } else {
        assert !InQueue(s, l, w);
        assert !InTurn(s, l, w);
        assert Agree(s, t, w);
        Carry(s, t, w);
      }
    }
  }

  lemma DoneOneInv(s: State, l: nat)
    requires Inv(s) && Enabled(s, DoneOne(l))
    ensures Inv(Next(s, DoneOne(l)))
  {
    var t := Next(s, DoneOne(l));
    var w := s.loops[l].local[0];
    var cancelled := s.work[w] == Cancelled;
    DistinctTail(s.loops[l].local);
    assert InTurn(s, l, w) && Where(s, w) && Status(s, w);
    assert !DoneWith(s, w, cancelled);
    DistinctAppend(s.dones, (w, cancelled));
    assert SameWorkers(s, t, w) && SameQueues(s, t, w) && SameHolds(s, t, w);
    forall m: nat ensures !InTurn(t, m, w) { assert m != l ==> !InTurn(s, m, w); }
    forall b: bool ensures DoneWith(t, w, b) <==> b == cancelled { assert !DoneWith(s, w, b); }
    Others(s, t, w);
  }

  /** Every event keeps the invariant. */
  lemma NextInv(s: State, e: Event)
    requires Inv(s) && Enabled(s, e)
    ensures Inv(Next(s, e))
  {
    hide Inv, Next, Enabled;
    match e
    case Submit(w, k) => SubmitInv(s, w, k);
    case PostExit(k) => PostExitInv(s, k);
    case Enter(i, k) => EnterInv(s, i, k);
    case Spurious(i) => SpuriousInv(s, i);
    case Start(i) => StartInv(s, i);
    case Finish(i) => FinishInv(s, i);
    case Cancel(w) => CancelInv(s, w);
    case Mark(l) => MarkInv(s, l);
    case CancelEnd(l) => CancelEndInv(s, l);
    case DoneBegin(l) => DoneBeginInv(s, l);
    case DoneOne(l) => DoneOneInv(s, l);
  }

  lemma {:induction false} RunInv(s: State, events: seq<Event>)
    requires Inv(s) && Run(s, events)
    ensures Inv(After(s, events))
    decreases |events|
  {
    hide Inv, Next, Enabled;
    if events != [] {
      NextInv(s, events[0]);
      RunInv(Next(s, events[0]), events[1..]);
    }
  }

  /** In every interleaving a worker calls nothing but the caller's function, never
      uv__cancelled or NULL, and each request's at most once; each request is done at most
      once, and with UV_ECANCELED exactly if its function was never called. */
  lemma DoneOnce(s: State, events: seq<Event>)
    requires Init(s) && Run(s, events)
    ensures var t := After(s, events);
      && (forall i :: 0 <= i < |t.calls| ==> t.calls[i].1 == Real)
      && (forall i, j :: 0 <= i < j < |t.calls| ==> t.calls[i].0 != t.calls[j].0)
      && (forall i, j :: 0 <= i < j < |t.dones| ==> t.dones[i].0 != t.dones[j].0)
      && (forall w, b :: (w, b) in t.dones ==> (b <==> forall f :: (w, f) !in t.calls))
  {
    InitInv(s);
    RunInv(s, events);
    var t := After(s, events);
    assert Inv(t);
    hide Run, After, Init;
    forall i, j | 0 <= i < j < |t.dones| ensures t.dones[i].0 != t.dones[j].0 {
      var w := t.dones[i].0;
      assert Where(t, w) && DoneWith(t, w, t.dones[i].1);
      assert DoneWith(t, t.dones[j].0, t.dones[j].1);
    }
    forall w, b | (w, b) in t.dones ensures b <==> forall f :: (w, f) !in t.calls {
      assert Where(t, w) && DoneWith(t, w, b);
      forall f | (w, f) in t.calls ensures f == Real {
        var i :| 0 <= i < |t.calls| && t.calls[i] == (w, f);
      }
    }
  }

  /** What uv_cancel answers about a request that is not done yet: 0 if and only if no
      worker has taken it off the queue. */
  lemma CancelVerdict(s: State, w: Item)
    requires Inv(s) && w in s.place && s.place[w] != Finished
    ensures Cancellable(s, w) <==> !s.place[w].AtWorker? && !Called(s, w)
  {
    assert Status(s, w);
  }

  /** Out of the workers' reach without having been run. */
  predicate Revoked(s: State, w: Item) {
    w in s.place && !Called(s, w) && !s.place[w].InPool? && !s.place[w].AtWorker?
  }

  /** Only a cancellation revokes a request, and nothing undoes it. */
  lemma RevokedNext(s: State, e: Event, w: Item)
    requires Inv(s) && Enabled(s, e) && w in s.place
    ensures Revoked(s, w) ==> Revoked(Next(s, e), w)
    ensures e != Cancel(w) && !Revoked(s, w) ==> !Revoked(Next(s, e), w)
  {
    assert Where(s, w) && Status(s, w);
    match e
    case Enter(i, k) => if s.wq != [] && s.wq[0].Work? { assert s.wq[0] in s.wq && Where(s, s.wq[0].item); }
    case Start(i) => assert HeldBy(s, i, s.workers[i].item) && Where(s, s.workers[i].item);
    case Finish(i) =>
      var v := s.workers[i].item;
      assert HeldBy(s, i, v) && Where(s, v) && Status(s, v);
    case CancelEnd(l) => assert OnHold(s, l, s.loops[l].hold.item) && Where(s, s.loops[l].hold.item);
    case DoneBegin(l) => if w in s.loops[l].wq { assert InQueue(s, l, w); }
    case DoneOne(l) =>
      var v := s.loops[l].local[0];
      assert InTurn(s, l, v) && Where(s, v);
    case _ =>
  }

  lemma PlaceStays(s: State, e: Event)
    requires Enabled(s, e)
    ensures s.place.Keys <= Next(s, e).place.Keys
  {
  }

  lemma {:induction false} RevokedStays(s: State, events: seq<Event>, w: Item)
    requires Inv(s) && Run(s, events) && Revoked(s, w)
    ensures var t := After(s, events); !Called(t, w) && forall b :: (w, b) in t.dones ==> b
    decreases |events|
  {
    hide Next, Enabled;
    if events == [] {
      assert Where(s, w);
      forall b | (w, b) in s.dones ensures b { assert DoneWith(s, w, b); }
    } else {
      RevokedNext(s, events[0], w);
      NextInv(s, events[0]);
      RevokedStays(Next(s, events[0]), events[1..], w);
    }
  }

  /** uv_cancel's success revokes a request. */
  lemma CancelRevokes(s: State, w: Item)
    requires Inv(s) && Enabled(s, Cancel(w)) && Cancellable(s, w)
    ensures Revoked(Next(s, Cancel(w)), w)
  {
    CancelVerdict(s, w);
  }

  /** A request whose cancellation succeeded is never run afterwards, and if it is done,
      then with UV_ECANCELED. */
  lemma CancelledStays(s: State, events: seq<Event>, w: Item)
    requires Inv(s) && Enabled(s, Cancel(w)) && Cancellable(s, w) && Run(Next(s, Cancel(w)), events)
    ensures var t := After(Next(s, Cancel(w)), events); !Called(t, w) && forall b :: (w, b) in t.dones ==> b
  {
    CancelRevokes(s, w);
    NextInv(s, Cancel(w));
    RevokedStays(Next(s, Cancel(w)), events, w);
  }

  /** Without a cancellation there is no UV_ECANCELED. */
  lemma {:induction false} NoCancelNoStatus(s: State, events: seq<Event>, w: Item)
    requires Inv(s) && Run(s, events) && !Revoked(s, w) && Cancel(w) !in events
    ensures (w, true) !in After(s, events).dones
    decreases |events|
  {
    hide Next, Enabled;
    if events == [] {
      assert Where(s, w);
      assert !DoneWith(s, w, true);
    } else {
      var e, t := events[0], Next(s, events[0]);
      NextInv(s, e);
      if w in s.place {
        RevokedNext(s, e, w);
      } else {
        FirstSeen(s, e, w);
      }
      NoCancelNoStatus(t, events[1..], w);
    }
  }

  lemma FirstSeen(s: State, e: Event, w: Item)
    requires Inv(s) && Enabled(s, e) && w !in s.place
    ensures w in Next(s, e).place ==> Next(s, e).place[w] == InPool
  {
    assert Where(s, w);
    match e
    case Enter(i, k) => if s.wq != [] && s.wq[0].Work? { assert s.wq[0] in s.wq; }
    case Finish(i) => assert HeldBy(s, i, s.workers[i].item) && Where(s, s.workers[i].item);
    case CancelEnd(l) => assert OnHold(s, l, s.loops[l].hold.item) && Where(s, s.loops[l].hold.item);
    case DoneOne(l) => assert InTurn(s, l, s.loops[l].local[0]) && Where(s, s.loops[l].local[0]);
    case _ =>
  }

  // First come, first served.

  /** As long as `v` is queued, `w` is behind it or was cancelled. */
  predicate Behind(s: State, v: Item, w: Item) {
    Work(v) in s.wq ==> Precedes(s.wq, Work(v), Work(w)) || Revoked(s, w)
  }

  lemma BehindNext(s: State, e: Event, v: Item, w: Item)
    requires Inv(s) && Enabled(s, e) && Behind(s, v, w) && v in s.place && w in s.place
    ensures Behind(Next(s, e), v, w)
  {
    var t := Next(s, e);
    RevokedNext(s, e, w);
    assert Where(s, v) && Where(s, w);
    hide Where, Status, Revoked, Called;
    if Work(v) in t.wq && !Revoked(s, w) {
      assert Work(v) in s.wq;
      assert s.wq + [] == s.wq;
      match e
      case Submit(x, k) => PrecedesInserted(s.wq, [], Work(x), Work(v), Work(w));
      case PostExit(k) => PrecedesInserted(s.wq, [], Exit, Work(v), Work(w));
      case Enter(i, k) =>
        if s.wq != [] && s.wq[0].Work? {
          DistinctTail(s.wq);
          PrecedesTail(s.wq, Work(v), Work(w));
        }
      case Cancel(x) =>
        if Cancellable(s, x) {
          if x == w {
            CancelRevokes(s, w);
          } else {
            PrecedesDropped(s.wq, Work(x), Work(v), Work(w));
          }
        }
      case _ =>
    }
  }

  lemma {:induction false} RunBehind(s: State, events: seq<Event>, v: Item, w: Item)
    requires Inv(s) && Run(s, events) && Behind(s, v, w) && v in s.place && w in s.place
    ensures Behind(After(s, events), v, w) && Inv(After(s, events))
    decreases |events|
  {
    hide Inv, Next, Enabled, Behind;
    if events != [] {
      BehindNext(s, events[0], v, w);
      NextInv(s, events[0]);
      PlaceStays(s, events[0]);
      RunBehind(Next(s, events[0]), events[1..], v, w);
    }
  }

  /** No worker takes a request, let alone calls it, while one submitted before it is still
      queued. */
  lemma FirstComeFirstServed(s: State, v: Item, w: Item, k: nat, events: seq<Event>)
    requires Inv(s) && Work(v) in s.wq && Enabled(s, Submit(w, k)) && Run(Next(s, Submit(w, k)), events)
    ensures var t := After(Next(s, Submit(w, k)), events);
      Work(v) in t.wq ==> w in t.place && !t.place[w].AtWorker? && !Called(t, w)
  {
    var first := Next(s, Submit(w, k));
    NextInv(s, Submit(w, k));
    PrecedesApart(s.wq, [Work(w)], Work(v), Work(w));
    assert Where(s, v);
    assert Behind(first, v, w);
    RunBehind(first, events, v, w);
    var t := After(first, events);
    hide Run, After, Next, Enabled;
    assert Where(t, w) && Status(t, w);
    if Work(v) in t.wq && Precedes(t.wq, Work(v), Work(w)) {
      var i, j :| 0 <= i < j < |t.wq| && t.wq[i] == Work(v) && t.wq[j] == Work(w);
      assert Work(w) in t.wq;
    }
  }

  /** The requests that a loop is still to be told about, in the order of its turns. */
  function Turns(s: State, l: nat): seq<Item>
    requires l < |s.loops|
  {
    s.loops[l].local + s.loops[l].wq
  }

  /** As long as `v` has not had its turn, neither has `w` behind it. */
  predicate TurnBehind(s: State, l: nat, v: Item, w: Item)
    requires l < |s.loops|
  {
    v in Turns(s, l) ==> Precedes(Turns(s, l), v, w)
  }

  lemma TurnsNext(s: State, e: Event, l: nat, v: Item, w: Item)
    requires Inv(s) && Enabled(s, e) && l < |s.loops| && e != Cancel(v) && e != Cancel(w)
    requires Precedes(Turns(s, l), v, w)
    ensures |Next(s, e).loops| == |s.loops| && TurnBehind(Next(s, e), l, v, w)
    ensures w in Turns(Next(s, e), l) || v !in Turns(Next(s, e), l)
  {
    var t, lp := Next(s, e), s.loops[l];
    assert Turns(s, l) + [] == Turns(s, l);
    hide Where, Status;
    match e
    case Finish(i) =>
      var x := s.workers[i].item;
      if x.loop == l { Appended(s, t, l, x, v, w); }
    case CancelEnd(m) =>
      var x := s.loops[m].hold.item;
      if x.loop == l { Appended(s, t, l, x, v, w); }
    case Cancel(x) =>
      if Cancellable(s, x) && x.loop == l {
        DropSum(lp.local, lp.wq, x);
        PrecedesDropped(Turns(s, l), x, v, w);
      }
    case DoneBegin(m) => if m == l { assert lp.local == [] && Turns(t, l) == lp.wq + [] == [] + lp.wq; }
    case DoneOne(m) => if m == l { TurnTaken(s, l, v, w); }
    case _ =>
    LastPart(t, l, v, w);
  }

  lemma LastPart(s: State, l: nat, v: Item, w: Item)
    requires l < |s.loops|
    ensures Precedes(Turns(s, l), v, w) ==> w in Turns(s, l)
  {
    if Precedes(Turns(s, l), v, w) {
      var q := Turns(s, l);
      var i, j :| 0 <= i < j < |q| && q[i] == v && q[j] == w;
      assert q[j] in q;
    }
  }

  lemma Appended(s: State, t: State, l: nat, x: Item, v: Item, w: Item)
    requires l < |s.loops| && |t.loops| == |s.loops| && Precedes(Turns(s, l), v, w)
    requires t.loops[l].local == s.loops[l].local && t.loops[l].wq == s.loops[l].wq + [x]
    ensures Precedes(Turns(t, l), v, w)
  {
    assert Turns(t, l) == Turns(s, l) + [x] + [] && Turns(s, l) + [] == Turns(s, l);
    PrecedesInserted(Turns(s, l), [], x, v, w);
  }

  /** The head of the local queue is told, and is not there twice. */
  lemma TurnTaken(s: State, l: nat, v: Item, w: Item)
    requires Inv(s) && Enabled(s, DoneOne(l)) && Precedes(Turns(s, l), v, w)
    ensures TurnBehind(Next(s, DoneOne(l)), l, v, w)
  {
    var lp := s.loops[l];
    var x := lp.local[0];
    assert Turns(s, l)[1..] == lp.local[1..] + lp.wq && Turns(s, l)[0] == x;
    if x == v {
      DistinctTail(lp.local);
      assert Where(s, v) && InTurn(s, l, v);
      assert !InQueue(s, l, v);
    } else {
      PrecedesTail(Turns(s, l), v, w);
    }
  }

  predicate Told(s: State, w: Item) {
    At(s, w, Finished)
  }

  /** What waits for its turn is told next or goes on waiting, and what was told stays so. */
  lemma WaitsOrTold(s: State, e: Event, l: nat, v: Item)
    requires Inv(s) && Enabled(s, e) && l < |s.loops| && e != Cancel(v)
    requires v in Turns(s, l) || Told(s, v)
    ensures |Next(s, e).loops| == |s.loops|
    ensures if Told(s, v) then Told(Next(s, e), v) else v in Turns(Next(s, e), l) || Told(Next(s, e), v)
  {
    var t := Next(s, e);
    assert Where(s, v) && Status(s, v);
    assert v in s.loops[l].wq ==> InQueue(s, l, v);
    assert v in s.loops[l].local ==> InTurn(s, l, v);
    match e
    case Enter(i, k) => if s.wq != [] && s.wq[0].Work? { assert s.wq[0] in s.wq && Where(s, s.wq[0].item); }
    case Finish(i) => assert HeldBy(s, i, s.workers[i].item) && Where(s, s.workers[i].item);
    case CancelEnd(m) => assert OnHold(s, m, s.loops[m].hold.item) && Where(s, s.loops[m].hold.item);
    case DoneBegin(m) => assert v in s.loops[m].wq ==> InQueue(s, m, v);
    case DoneOne(m) =>
      if m == l && !Told(s, v) { assert s.loops[l].local == [s.loops[l].local[0]] + s.loops[l].local[1..]; }
    case _ =>
  }

  lemma WaitingIsNotTold(s: State, l: nat, w: Item)
    requires Inv(s) && l < |s.loops| && w in Turns(s, l)
    ensures !Told(s, w)
  {
    assert Where(s, w);
    assert InQueue(s, l, w) || InTurn(s, l, w);
  }

  /** A loop is told of its requests in the order in which they came back to it: while one
      waits, none behind it is done, unless it is cancelled and put back. */
  lemma {:induction false} ToldInOrder(s: State, events: seq<Event>, l: nat, v: Item, w: Item)
    requires Inv(s) && Run(s, events) && l < |s.loops| && Cancel(v) !in events && Cancel(w) !in events
    requires Precedes(Turns(s, l), v, w) || Told(s, v)
    ensures Told(After(s, events), w) ==> Told(After(s, events), v)
    decreases |events|
  {
    hide Inv, Next, Enabled, Turns;
    if events == [] {
      if !Told(s, v) {
        LastPart(s, l, v, w);
        WaitingIsNotTold(s, l, w);
      }
    } else {
      var e := events[0];
      assert e in events;
      if !Told(s, v) {
        TurnsNext(s, e, l, v, w);
        FirstPart(s, l, v, w);
      }
      WaitsOrTold(s, e, l, v);
      NextInv(s, e);
      ToldInOrder(Next(s, e), events[1..], l, v, w);
    }
  }

  lemma FirstPart(s: State, l: nat, v: Item, w: Item)
    requires l < |s.loops| && Precedes(Turns(s, l), v, w)
    ensures v in Turns(s, l)
  {
    var q := Turns(s, l);
    var i, j :| 0 <= i < j < |q| && q[i] == v && q[j] == w;
    assert q[i] in q;
  }
}
