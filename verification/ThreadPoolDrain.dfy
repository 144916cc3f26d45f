/** Left alone, the pool drains: every run of its own steps is finite, and where none is
    possible every request has been done (src/threadpool.c:48-114, 233-253). */
module ThreadPoolDrain {
  import opened ThreadPoolModel
  import opened ThreadPoolSafety
  import opened ThreadPoolWakeup

  /** The steps that workers and loops take of themselves. */
  predicate Internal(e: Event) {
    !e.Submit? && !e.PostExit? && !e.Cancel? && !e.Spurious?
  }

  /** What a worker still has to do; a request in hand also has its way back to go. */
  function WorkerCost(x: Worker): nat {
    match x
    case Exited => 0
    case Waiting => 1
    case Signalled => 2
    case Ready => 2
    case Picked(_) => 8
    case Running(_) => 7
  }

  function HoldCost(h: Hold): nat {
    match h
    case Free => 0
    case Removed(_) => 6
    case Marked(_) => 5
  }

  function LoopCost(lp: Loop): nat {
    3 * |lp.wq| + 2 * |lp.local| + (if lp.sent then 1 else 0) + HoldCost(lp.hold)
  }

  function WorkerCosts(ws: seq<Worker>): nat {
    if ws == [] then 0 else WorkerCost(ws[0]) + WorkerCosts(ws[1..])
  }

  function LoopCosts(ls: seq<Loop>): nat {
    if ls == [] then 0 else LoopCost(ls[0]) + LoopCosts(ls[1..])
  }

  /** A bound on the number of internal steps still possible. */
  function Measure(s: State): nat {
    7 * |s.wq| + WorkerCosts(s.workers) + LoopCosts(s.loops)
  }

  lemma {:induction false} WorkerCostsSet(ws: seq<Worker>, i: nat, x: Worker)
    requires i < |ws|
    ensures WorkerCosts(ws[i := x]) == WorkerCosts(ws) - WorkerCost(ws[i]) + WorkerCost(x)
    decreases ws
  {
    if i == 0 {
      assert ws[i := x][1..] == ws[1..];
    } else {
      WorkerCostsSet(ws[1..], i - 1, x);
      assert ws[i := x][1..] == ws[1..][i - 1 := x];
    }
  }

  lemma {:induction false} LoopCostsSet(ls: seq<Loop>, l: nat, x: Loop)
    requires l < |ls|
    ensures LoopCosts(ls[l := x]) == LoopCosts(ls) - LoopCost(ls[l]) + LoopCost(x)
    decreases ls
  {
    if l == 0 {
      assert ls[l := x][1..] == ls[1..];
    } else {
      LoopCostsSet(ls[1..], l - 1, x);
      assert ls[l := x][1..] == ls[1..][l - 1 := x];
    }
  }

  /** Every internal step uses some of the measure up. */
  lemma StepCost(s: State, e: Event)
    requires Inv(s) && Enabled(s, e) && Internal(e)
    ensures Measure(Next(s, e)) < Measure(s)
  {
    hide WorkerCosts, LoopCosts, Where, Status;
    match e
    case Enter(i, k) =>
      if s.wq == [] {
        WorkerCostsSet(s.workers, i, Waiting);
      } else if s.wq[0] == Exit {
        WorkerCostsSet(s.workers, i, Exited);
        if k < |s.workers| {
          WorkerCostsSet(s.workers[i := Exited], k, Signalled);
        }
      } else {
        WorkerCostsSet(s.workers, i, Picked(s.wq[0].item));
      }
    case Start(i) => WorkerCostsSet(s.workers, i, Running(s.workers[i].item));
    case Finish(i) =>
      var w := s.workers[i].item;
      var lp := s.loops[w.loop];
      WorkerCostsSet(s.workers, i, Ready);
      LoopCostsSet(s.loops, w.loop, lp.(wq := lp.wq + [w], sent := true));
    case Mark(l) => LoopCostsSet(s.loops, l, s.loops[l].(hold := Marked(s.loops[l].hold.item)));
    case CancelEnd(l) =>
      var w := s.loops[l].hold.item;
      HoldsItsOwn(s, l);
      var lp := s.loops[l].(hold := Free);
      LoopCostsSet(s.loops, l, lp);
      LoopCostsSet(s.loops[l := lp], l, lp.(wq := lp.wq + [w], sent := true));
    case DoneBegin(l) => LoopCostsSet(s.loops, l, Loop([], false, s.loops[l].wq, s.loops[l].hold));
    case DoneOne(l) => LoopCostsSet(s.loops, l, s.loops[l].(local := s.loops[l].local[1..]));
  }

  lemma HoldsItsOwn(s: State, l: nat)
    requires Inv(s) && l < |s.loops| && !s.loops[l].hold.Free?
    ensures s.loops[l].hold.item.loop == l
  {
    var w := s.loops[l].hold.item;
    assert OnHold(s, l, w) && Where(s, w);
  }

  /** From any reachable state the pool's own steps come to an end. */
  lemma {:induction false} RunsEnd(s: State, events: seq<Event>)
    requires Inv(s) && Run(s, events) && forall e :: e in events ==> Internal(e)
    ensures |events| <= Measure(s)
    decreases |events|
  {
    hide Inv, Enabled, Next, Measure;
    if events != [] {
      StepCost(s, events[0]);
      NextInv(s, events[0]);
      RunsEnd(Next(s, events[0]), events[1..]);
    }
  }

  /** No worker and no loop can take a step. */
  ghost predicate Stuck(s: State) {
    forall e :: Internal(e) ==> !Enabled(s, e)
  }

  lemma StuckWorker(s: State, i: nat)
    requires Inv(s) && Stuck(s) && i < |s.workers|
    ensures s.workers[i].Waiting? || s.workers[i].Exited?
  {
    assert !Enabled(s, Start(i)) && !Enabled(s, Finish(i));
    SomeoneWakes(s.workers);
    forall k: nat ensures Wakes(s.workers, k) ==> !s.workers[i].Ready? && !s.workers[i].Signalled? {
      assert !Enabled(s, Enter(i, k));
    }
    if s.workers[i].Picked? || s.workers[i].Running? {
      ItemInHand(s, i);
    }
  }

  lemma ItemInHand(s: State, i: nat)
    requires Inv(s) && i < |s.workers| && (s.workers[i].Picked? || s.workers[i].Running?)
    ensures s.workers[i].item in s.work && s.workers[i].item.loop < |s.loops|
  {
    var w := s.workers[i].item;
    assert HeldBy(s, i, w) && Where(s, w) && Status(s, w);
  }

  lemma SomeoneWakes(ws: seq<Worker>)
    ensures exists k :: Wakes(ws, k)
  {
    if AnyWaiting(ws) {
      var k :| 0 <= k < |ws| && ws[k].Waiting?;
      assert Wakes(ws, k);
    } else {
      assert Wakes(ws, 0);
    }
  }

  lemma StuckLoop(s: State, l: nat)
    requires Inv(s) && Stuck(s) && l < |s.loops|
    ensures s.loops[l] == Loop([], false, [], Free)
  {
    var lp := s.loops[l];
    assert LoopOk(lp);
    assert !Enabled(s, Mark(l)) && !Enabled(s, CancelEnd(l)) && !Enabled(s, DoneBegin(l)) && !Enabled(s, DoneOne(l));
    if lp.local != [] {
      var w := lp.local[0];
      assert InTurn(s, l, w) && Where(s, w) && Status(s, w);
    }
  }

  /** In a state without further steps, a pool with workers has either an empty queue, or
      the exit message at its head and no worker left; every request is done, but for those
      queued behind the exit message. */
  lemma StuckMeansDone(s: State)
    requires Inv(s) && WakeInv(s) && Stuck(s) && |s.workers| > 0
    ensures s.wq == [] || (s.wq[0] == Exit && forall i :: 0 <= i < |s.workers| ==> s.workers[i].Exited?)
    ensures forall w :: w in s.place ==> s.place[w] == Finished || Work(w) in s.wq
  {
    hide Stuck;
    forall i: nat | i < |s.workers| ensures s.workers[i].Waiting? || s.workers[i].Exited? {
      StuckWorker(s, i);
    }
    if s.wq != [] {
      assert !Attentive(s.workers);
      assert !Live(s.workers[0]);
      forall i | 0 <= i < |s.workers| ensures s.workers[i].Exited? {
        assert !Live(s.workers[i]);
      }
    }
    forall w | w in s.place ensures s.place[w] == Finished || Work(w) in s.wq {
      assert Where(s, w) && Status(s, w);
      StuckLoop(s, w.loop);
      assert !OnHold(s, w.loop, w) && !InQueue(s, w.loop, w) && !InTurn(s, w.loop, w);
      forall i: nat ensures !HeldBy(s, i, w) {}
    }
  }

  lemma {:induction false} NoExit(s: State, events: seq<Event>)
    requires Run(s, events) && Exit !in s.wq && forall e :: e in events ==> !e.PostExit?
    ensures Exit !in After(s, events).wq
    decreases |events|
  {
    if events != [] {
      assert Exit !in Next(s, events[0]).wq;
      NoExit(Next(s, events[0]), events[1..]);
    }
  }

  lemma {:induction false} WorkersStay(s: State, events: seq<Event>)
    requires Run(s, events)
    ensures |After(s, events).workers| == |s.workers|
    decreases |events|
  {
    if events != [] {
      WorkersStay(Next(s, events[0]), events[1..]);
    }
  }

  lemma {:induction false} PlacesStay(s: State, events: seq<Event>)
    requires Run(s, events)
    ensures s.place.Keys <= After(s, events).place.Keys
    decreases |events|
  {
    hide Next, Enabled;
    if events != [] {
      PlaceStays(s, events[0]);
      PlacesStay(Next(s, events[0]), events[1..]);
    }
  }

  /** Each request submitted before the pool is left to itself is done by the time it can
      go no further, exactly once. */
  lemma EveryRequestDone(s: State, events: seq<Event>, more: seq<Event>, w: Item)
    requires Init(s) && |s.workers| > 0 && Run(s, events)
    requires var t := After(s, events);
      w in t.place && Exit !in t.wq && Run(t, more) && (forall e :: e in more ==> Internal(e)) && Stuck(After(t, more))
    ensures var u := After(After(s, events), more);
      exists i :: 0 <= i < |u.dones| && u.dones[i].0 == w && forall j :: 0 <= j < |u.dones| && j != i ==> u.dones[j].0 != w
  {
    var t := After(s, events);
    var u := After(t, more);
    InitInv(s);
    RunInv(s, events);
    RunInv(t, more);
    InitWakeInv(s);
    RunWakeInv(s, events);
    RunWakeInv(t, more);
    NoExit(t, more);
    WorkersStay(s, events);
    WorkersStay(t, more);
    PlacesStay(t, more);
    hide Init, Run, After, Stuck;
    StuckMeansDone(u);
    UniquelyDone(u, w);
  }

  lemma UniquelyDone(u: State, w: Item)
    requires Inv(u) && w in u.place && u.place[w] == Finished
    ensures exists i :: 0 <= i < |u.dones| && u.dones[i].0 == w
                        && forall j :: 0 <= j < |u.dones| && j != i ==> u.dones[j].0 != w
  {
    assert Where(u, w) && DoneWith(u, w, !Called(u, w));
    var i :| 0 <= i < |u.dones| && u.dones[i] == (w, !Called(u, w));
    forall j | 0 <= j < |u.dones| && j != i ensures u.dones[j].0 != w {
      assert DoneWith(u, u.dones[j].0, u.dones[j].1);
      assert Where(u, u.dones[j].0);
    }
  }
}
