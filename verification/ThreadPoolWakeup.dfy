/** No wakeup is lost, the exit message reaches every worker after everything queued before
    it, and the pool drains (src/threadpool.c:58-114, 207-253). */
module ThreadPoolWakeup {
  import opened Basics
  import opened ThreadPoolModel
  import opened ThreadPoolSafety

  /** The workers that idle_threads counts. */
  predicate Asleep(x: Worker) {
    x.Waiting? || x.Signalled?
  }

  function Sleepers(ws: seq<Worker>): (n: nat) {
    if ws == [] then 0 else (if Asleep(ws[0]) then 1 else 0) + Sleepers(ws[1..])
  }

  lemma {:induction false} SleepersSet(ws: seq<Worker>, i: nat, x: Worker)
    requires i < |ws|
    ensures Sleepers(ws[i := x]) == Sleepers(ws) - (if Asleep(ws[i]) then 1 else 0) + (if Asleep(x) then 1 else 0)
    decreases ws
  {
    if i == 0 {
      assert ws[i := x][1..] == ws[1..];
    } else {
      SleepersSet(ws[1..], i - 1, x);
      assert ws[i := x][1..] == ws[1..][i - 1 := x];
    }
  }

  lemma {:induction false} SleepersSome(ws: seq<Worker>)
    ensures Sleepers(ws) > 0 <==> exists i :: 0 <= i < |ws| && Asleep(ws[i])
  {
    if ws != [] {
      SleepersSome(ws[1..]);
      if exists i :: 0 <= i < |ws| && Asleep(ws[i]) {
        var i :| 0 <= i < |ws| && Asleep(ws[i]);
        assert i > 0 ==> ws[1..][i - 1] == ws[i];
      }
    }
  }

  lemma SleepersWake(ws: seq<Worker>, k: nat)
    ensures Sleepers(Wake(ws, k)) == Sleepers(ws)
  {
    if k < |ws| {
      SleepersSet(ws, k, Signalled);
    }
  }

  predicate Live(x: Worker) {
    !x.Exited?
  }

  /** Some worker that is neither gone nor in an unsignalled wait. */
  predicate Attentive(ws: seq<Worker>) {
    exists i :: 0 <= i < |ws| && Live(ws[i]) && !ws[i].Waiting?
  }

  predicate AnyLive(ws: seq<Worker>) {
    exists i :: 0 <= i < |ws| && Live(ws[i])
  }

  predicate AnyExited(ws: seq<Worker>) {
    exists i :: 0 <= i < |ws| && ws[i].Exited?
  }

  /** `idle_threads` counts the sleepers; a queue with something in it has an attentive
      worker, if any is left; workers leave only when the exit message is at the head. */
  predicate WakeInv(s: State) {
    && s.idle == Sleepers(s.workers)
    && (s.wq != [] && AnyLive(s.workers) ==> Attentive(s.workers))
    && (AnyExited(s.workers) ==> s.wq != [] && s.wq[0] == Exit)
  }

  lemma {:induction false} NoSleepers(ws: seq<Worker>)
    requires forall i :: 0 <= i < |ws| ==> !Asleep(ws[i])
    ensures Sleepers(ws) == 0
  {
    if ws != [] {
      NoSleepers(ws[1..]);
    }
  }

  lemma InitWakeInv(s: State)
    requires Init(s)
    ensures WakeInv(s)
  {
    NoSleepers(s.workers);
  }

  /** post() signals only if idle_threads > 0; that is enough. */
  lemma PostedWakeInv(s: State, m: Msg, k: nat)
    requires WakeInv(s) && Wakes(s.workers, k)
    ensures WakeInv(Posted(s, m, k))
  {
    hide Sleepers;
    var t := Posted(s, m, k);
    SleepersSome(s.workers);
    SleepersWake(s.workers, k);
    if AnyExited(t.workers) {
      var i :| 0 <= i < |t.workers| && t.workers[i].Exited?;
      assert s.workers[i].Exited?;
    }
    if AnyLive(t.workers) {
      if AnyWaiting(s.workers) {
        var i :| 0 <= i < |s.workers| && s.workers[i].Waiting?;
        assert Asleep(s.workers[i]);
        assert t.workers[k].Signalled?;
      } else if s.idle > 0 {
        var i :| 0 <= i < |s.workers| && Asleep(s.workers[i]);
        assert t.workers[i].Signalled?;
      } else {
        var i :| 0 <= i < |t.workers| && Live(t.workers[i]);
        assert !Asleep(s.workers[i]) && t.workers[i] == s.workers[i];
      }
    }
  }

  lemma NoneLeft(ws: seq<Worker>, i: nat, x: Worker)
    requires i < |ws| && Live(x)
    ensures AnyExited(ws[i := x]) ==> AnyExited(ws)
  {
    if AnyExited(ws[i := x]) {
      var j :| 0 <= j < |ws| && ws[i := x][j].Exited?;
      assert ws[j].Exited?;
    }
  }

  lemma EnterWakeInv(s: State, i: nat, k: nat)
    requires WakeInv(s) && Enabled(s, Enter(i, k))
    ensures WakeInv(Next(s, Enter(i, k)))
  {
    hide Sleepers;
    var t := Next(s, Enter(i, k));
    if s.wq == [] {
      SleepersSet(s.workers, i, Waiting);
      NoneLeft(s.workers, i, Waiting);
    } else if s.wq[0] == Exit {
      var ws := s.workers[i := Exited];
      SleepersSet(s.workers, i, Exited);
      SleepersWake(ws, k);
      if AnyLive(t.workers) {
        var j :| 0 <= j < |t.workers| && Live(t.workers[j]);
        if t.workers[j].Waiting? {
          assert s.workers[j].Waiting? && k != i;
          assert t.workers[k].Signalled?;
        }
      }
    } else {
      SleepersSet(s.workers, i, Picked(s.wq[0].item));
      assert Live(t.workers[i]) && !t.workers[i].Waiting?;
      NoneLeft(s.workers, i, Picked(s.wq[0].item));
    }
  }

  /** A worker moving between states in which it is awake. */
  lemma MovedWakeInv(s: State, t: State, i: nat, x: Worker)
    requires WakeInv(s) && i < |s.workers| && t.workers == s.workers[i := x] && t.wq == s.wq && t.idle == s.idle
    requires Live(s.workers[i]) && Live(x) && !x.Waiting? && (Asleep(x) <==> Asleep(s.workers[i]))
    ensures WakeInv(t)
  {
    hide Sleepers;
    SleepersSet(s.workers, i, x);
    assert Live(t.workers[i]) && !t.workers[i].Waiting?;
    NoneLeft(s.workers, i, x);
  }

  lemma NextWakeInv(s: State, e: Event)
    requires WakeInv(s) && Enabled(s, e)
    ensures WakeInv(Next(s, e))
  {
    hide Sleepers;
    var t := Next(s, e);
    match e
    case Submit(w, k) => PostedWakeInv(s, Work(w), k);
    case PostExit(k) => PostedWakeInv(s, Exit, k);
    case Enter(i, k) => EnterWakeInv(s, i, k);
    case Spurious(i) => MovedWakeInv(s, t, i, Signalled);
    case Start(i) => MovedWakeInv(s, t, i, t.workers[i]);
    case Finish(i) => MovedWakeInv(s, t, i, t.workers[i]);
    case _ =>
  }

  lemma {:induction false} RunWakeInv(s: State, events: seq<Event>)
    requires WakeInv(s) && Run(s, events)
    ensures WakeInv(After(s, events))
    decreases |events|
  {
    hide WakeInv, Next, Enabled;
    if events != [] {
      NextWakeInv(s, events[0]);
      RunWakeInv(Next(s, events[0]), events[1..]);
    }
  }

  /** In every reachable state with something queued and a worker alive, some live worker
      is not in an unsignalled wait. */
  lemma NoLostWakeup(s: State, events: seq<Event>)
    requires Init(s) && Run(s, events)
    ensures var t := After(s, events);
      t.wq != [] && AnyLive(t.workers) ==> Attentive(t.workers)
  {
    InitWakeInv(s);
    RunWakeInv(s, events);
  }

  // The exit message.

  /** Nothing behind the exit message is from `early`. */
  predicate Late(q: seq<Msg>, early: set<Item>) {
    q == [] || if q[0] == Exit then forall m :: m in q[1..] && m.Work? ==> m.item !in early
               else Late(q[1..], early)
  }

  lemma {:induction false} LateAppend(q: seq<Msg>, early: set<Item>, m: Msg)
    requires Late(q, early) && (m.Work? ==> m.item !in early)
    ensures Late(q + [m], early)
  {
    if q == [] {
    } else {
      assert (q + [m])[1..] == q[1..] + [m];
      if q[0] != Exit {
        LateAppend(q[1..], early, m);
      }
    }
  }

  lemma {:induction false} LateDrop(q: seq<Msg>, early: set<Item>, x: Msg)
    requires Late(q, early) && x.Work?
    ensures Late(Drop(q, x), early)
  {
    if q != [] && q[0] != Exit {
      LateDrop(q[1..], early, x);
      assert q[0] != x ==> Drop(q, x)[1..] == Drop(q[1..], x);
    }
  }

  lemma LateTail(q: seq<Msg>, early: set<Item>)
    requires Late(q, early) && q != [] && q[0].Work?
    ensures Late(q[1..], early)
  {
  }

  lemma LateNext(s: State, e: Event, early: set<Item>)
    requires Enabled(s, e) && Late(s.wq, early) && early <= s.place.Keys
    ensures Late(Next(s, e).wq, early)
  {
    match e
    case Submit(w, k) => LateAppend(s.wq, early, Work(w));
    case PostExit(k) => LateAppend(s.wq, early, Exit);
    case Cancel(w) => LateDrop(s.wq, early, Work(w));
    case Enter(i, k) => if s.wq != [] && s.wq[0].Work? { LateTail(s.wq, early); }
    case _ =>
  }

  lemma {:induction false} RunLate(s: State, events: seq<Event>, early: set<Item>)
    requires Run(s, events) && Late(s.wq, early) && early <= s.place.Keys
    ensures Late(After(s, events).wq, early)
    decreases |events|
  {
    hide Next, Enabled, Late;
    if events != [] {
      LateNext(s, events[0], early);
      PlaceStays(s, events[0]);
      RunLate(Next(s, events[0]), events[1..], early);
    }
  }

  lemma {:induction false} LateEnd(q: seq<Msg>, early: set<Item>)
    requires Exit !in q
    ensures Late(q, early) && Late(q + [Exit], early)
  {
    if q != [] {
      assert (q + [Exit])[1..] == q[1..] + [Exit];
      LateEnd(q[1..], early);
    }
  }

  /** Once the exit message was queued, no worker has left before every request queued
      ahead of it is off the queue, whatever is submitted or cancelled in the meantime. */
  lemma ExitComesLast(s: State, k: nat, events: seq<Event>, w: Item)
    requires Inv(s) && WakeInv(s) && Enabled(s, PostExit(k)) && Run(Next(s, PostExit(k)), events)
    requires AnyExited(After(Next(s, PostExit(k)), events).workers)
    requires w in s.place
    ensures Work(w) !in After(Next(s, PostExit(k)), events).wq
  {
    var first := Next(s, PostExit(k));
    LateEnd(s.wq, s.place.Keys);
    NextWakeInv(s, PostExit(k));
    assert first.place == s.place && Late(first.wq, s.place.Keys);
    hide Next, Enabled, Run;
    RunLate(first, events, s.place.Keys);
    RunWakeInv(first, events);
    var q := After(first, events).wq;
    assert q == [q[0]] + q[1..];
  }
}
