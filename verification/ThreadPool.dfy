/** The functions of src/threadpool.c on the pool's shared variables, one method for each
    critical section or step outside the locks; each does what the state machine says. */
module ThreadPools {
  import opened Basics
  import opened ThreadPoolModel
  import opened ThreadPoolSafety
  import opened ThreadPoolWakeup

  const UV_EBUSY := -16

  /** What every interleaving keeps. */
  ghost predicate Sound(s: State) {
    Inv(s) && WakeInv(s)
  }

  lemma InitSound(s: State)
    requires Init(s)
    ensures Sound(s)
  {
    InitInv(s);
    InitWakeInv(s);
  }

  lemma NextSound(s: State, e: Event)
    requires Sound(s) && Enabled(s, e)
    ensures Sound(Next(s, e))
  {
    hide Inv, WakeInv, Enabled, Next;
    NextInv(s, e);
    NextWakeInv(s, e);
  }

  /** What is queued has somebody to take it, as long as a worker lives. */
  predicate Served(s: State) {
    s.wq != [] && AnyLive(s.workers) ==> Attentive(s.workers)
  }

  /** A worker comes out of its first critical section asleep only if there was nothing to do,
      gone only at the exit message, which it leaves for the others, and otherwise with a
      request that nobody has called and that cannot be cancelled any more. */
  ghost predicate Taken(s: State, t: State, i: nat)
    requires i < |t.workers|
  {
    match t.workers[i]
    case Waiting => s.wq == []
    case Exited => s.wq != [] && s.wq[0] == Exit && t.wq == s.wq
    case Picked(w) => s.wq == [Work(w)] + t.wq && At(t, w, AtWorker(i)) && !Called(t, w) && !Cancellable(t, w)
    case _ => false
  }

  lemma EnterTakes(s: State, i: nat, k: nat)
    requires Sound(s) && Enabled(s, Enter(i, k))
    ensures |Next(s, Enter(i, k)).workers| == |s.workers| && Taken(s, Next(s, Enter(i, k)), i)
  {
    hide WakeInv, Where;
    if s.wq != [] && s.wq[0].Work? {
      var w := s.wq[0].item;
      assert At(s, w, InPool) by { InPoolIs(s, w); }
      assert Status(s, w);
    }
  }

  lemma InPoolIs(s: State, w: Item)
    requires Inv(s) && Work(w) in s.wq
    ensures At(s, w, InPool)
  {
    assert Where(s, w);
  }

  /** The function a worker calls is the caller's and was not called before. */
  lemma StartCalls(s: State, i: nat)
    requires Sound(s) && Enabled(s, Start(i))
    ensures var w := s.workers[i].item; s.work[w] == Real && !Called(s, w) && Called(Next(s, Start(i)), w)
  {
    hide WakeInv;
    var w := s.workers[i].item;
    assert HeldBy(s, i, w) && Where(s, w) && Status(s, w);
  }

  lemma CancelSays(s: State, w: Item)
    requires Sound(s) && Enabled(s, Cancel(w))
    ensures Cancellable(s, w) <==> !s.place[w].AtWorker? && !Called(s, w)
    ensures Cancellable(s, w) ==> Revoked(Next(s, Cancel(w)), w)
  {
    hide WakeInv;
    CancelVerdict(s, w);
    if Cancellable(s, w) {
      CancelRevokes(s, w);
    }
  }

  /** A request that is about to be done was not done before, and its function pointer tells
      whether it was called. */
  lemma DoneSays(s: State, l: nat)
    requires Sound(s) && Enabled(s, DoneOne(l))
    ensures var w := s.loops[l].local[0];
      w.loop == l && (s.work[w] == Cancelled <==> !Called(s, w)) && forall b :: !DoneWith(s, w, b)
  {
    hide WakeInv;
    var w := s.loops[l].local[0];
    assert InTurn(s, l, w) && Where(s, w) && Status(s, w);
  }

  lemma EndsHome(s: State, l: nat)
    requires Sound(s) && Enabled(s, CancelEnd(l))
    ensures s.loops[l].hold.item.loop == l
  {
    hide WakeInv;
    var w := s.loops[l].hold.item;
    assert OnHold(s, l, w) && Where(s, w);
  }

  class ThreadPool {
    var wq: seq<Msg>
    var idleThreads: int
    var workers: seq<Worker>
    var loops: seq<Loop>
    var work: map<Item, Fn>
    var linked: set<Item>
    ghost var calls: seq<(Item, Fn)>
    ghost var dones: seq<(Item, bool)>
    ghost var place: map<Item, Place>

    ghost function View(): State
      reads this
    {
      State(wq, idleThreads, workers, loops, work, linked, calls, dones, place)
    }

    ghost predicate Valid()
      reads this
    {
      Sound(View())
    }

    /** init_threads(): `nthreads` workers about to enter their loop. */
    constructor (nthreads: nat, nloops: nat)
      ensures Valid() && Init(View()) && |workers| == nthreads && |loops| == nloops
    {
      wq, idleThreads := [], 0;
      workers := seq(nthreads, i => Ready);
      loops := seq(nloops, l => Loop([], false, [], Free));
      work, linked := map[], {};
      calls, dones, place := [], [], map[];
      new;
      InitSound(View());
    }

    /** uv_cond_signal(&cond), waking worker `k` if anyone waits. */
    method Signal(k: nat)
      modifies this`workers
      ensures workers == Wake(old(workers), k)
    {
      if k < |workers| && workers[k].Waiting? {
        workers := workers[k := Signalled];
      }
    }

    method PostMessage(q: Msg, k: nat)
      modifies this`wq, this`workers
      ensures View() == Posted(old(View()), q, k)
    {
      wq := wq + [q];
      if idleThreads > 0 {
        Signal(k);
      }
    }

    /** uv__work_submit() */
    method WorkSubmit(w: Item, k: nat)
      requires Valid() && Enabled(View(), Submit(w, k))
      modifies this
      ensures Valid() && View() == Next(old(View()), Submit(w, k))
      ensures Served(View())
    {
      NextSound(View(), Submit(w, k));
      work := work[w := Real];
      PostMessage(Work(w), k);
      linked := linked + {w};
      place := place[w := InPool];
    }

    /** The first half of cleanup(). */
    method PostExitMessage(k: nat)
      requires Valid() && Enabled(View(), PostExit(k))
      modifies this
      ensures Valid() && View() == Next(old(View()), PostExit(k))
      ensures Served(View())
    {
      NextSound(View(), PostExit(k));
      PostMessage(Exit, k);
    }

    /** worker(): from locking the mutex, or getting it back in uv_cond_wait, to letting go of
        it, be it by going to sleep, by leaving, or with a request in hand. */
    method WorkerTake(i: nat, k: nat)
      requires Valid() && Enabled(View(), Enter(i, k))
      modifies this
      ensures Valid() && View() == Next(old(View()), Enter(i, k))
      ensures Taken(old(View()), View(), i) && Served(View())
    {
      NextSound(View(), Enter(i, k));
      EnterTakes(View(), i, k);
      if workers[i].Signalled? {
        idleThreads := idleThreads - 1;
      }
      if |wq| == 0 {
        idleThreads := idleThreads + 1;
        workers := workers[i := Waiting];
        return;
      }
      var q := wq[0];
      match q
      case Exit =>
        workers := workers[i := Exited];
        Signal(k);
      case Work(w) =>
        wq := wq[1..];
        linked := linked - {w};
        workers := workers[i := Picked(w)];
        place := place[w := AtWorker(i)];
    }

    /** `w->work(w)` */
    method WorkerRun(i: nat) returns (called: Fn)
      requires Valid() && Enabled(View(), Start(i))
      modifies this
      ensures Valid() && View() == Next(old(View()), Start(i))
      ensures var w := old(workers[i].item); called == Real && !Called(old(View()), w) && Called(View(), w)
    {
      NextSound(View(), Start(i));
      StartCalls(View(), i);
      var w := workers[i].item;
      called := work[w];
      calls := calls + [(w, called)];
      workers := workers[i := Running(w)];
    }

    /** worker()'s second critical section, under the loop's wq_mutex. */
    method WorkerGiveBack(i: nat)
      requires Valid() && Enabled(View(), Finish(i))
      modifies this
      ensures Valid() && View() == Next(old(View()), Finish(i))
    {
      NextSound(View(), Finish(i));
      var w := workers[i].item;
      workers := workers[i := Ready];
      work := work[w := Null];
      QueueToLoop(w);
    }

    /** QUEUE_INSERT_TAIL(&loop->wq, &w->wq); uv_async_send(&loop->wq_async) */
    method QueueToLoop(w: Item)
      requires w.loop < |loops|
      modifies this`loops, this`linked, this`place
      ensures View() == Returned(old(View()), w)
    {
      var lp := loops[w.loop];
      loops := loops[w.loop := Loop(lp.wq + [w], true, lp.local, lp.hold)];
      linked := linked + {w};
      place := place[w := InLoop];
    }

    /** uv__work_cancel() up to the first unlock; UV_EBUSY ends it there. */
    method WorkCancel(w: Item) returns (status: int)
      requires Valid() && Enabled(View(), Cancel(w))
      modifies this
      ensures Valid() && View() == Next(old(View()), Cancel(w))
      ensures status == 0 || status == UV_EBUSY
      ensures status == 0 <==> !old(place[w].AtWorker?) && !Called(old(View()), w)
      ensures status == 0 ==> Revoked(View(), w)
    {
      NextSound(View(), Cancel(w));
      CancelSays(View(), w);
      var cancelled := w in linked && w in work && work[w] != Null;
      if !cancelled {
        return UV_EBUSY;
      }
      var lp := loops[w.loop];
      wq := Drop(wq, Work(w));
      loops := loops[w.loop := Loop(Drop(lp.wq, w), lp.sent, Drop(lp.local, w), Removed(w))];
      place := place[w := AtCancel];
      return 0;
    }

    /** `w->work = uv__cancelled` */
    method WorkCancelMark(l: nat)
      requires Valid() && Enabled(View(), Mark(l))
      modifies this
      ensures Valid() && View() == Next(old(View()), Mark(l))
    {
      NextSound(View(), Mark(l));
      var w := loops[l].hold.item;
      work := work[w := Cancelled];
      loops := loops[l := loops[l].(hold := Marked(w))];
    }

    /** uv__work_cancel()'s last critical section. */
    method WorkCancelEnd(l: nat)
      requires Valid() && Enabled(View(), CancelEnd(l))
      modifies this
      ensures Valid() && View() == Next(old(View()), CancelEnd(l))
    {
      NextSound(View(), CancelEnd(l));
      EndsHome(View(), l);
      var w := loops[l].hold.item;
      loops := loops[l := loops[l].(hold := Free)];
      QueueToLoop(w);
    }

    /** uv__work_done(): QUEUE_MOVE under the loop's wq_mutex. */
    method WorkDoneMove(l: nat)
      requires Valid() && Enabled(View(), DoneBegin(l))
      modifies this
      ensures Valid() && View() == Next(old(View()), DoneBegin(l))
    {
      NextSound(View(), DoneBegin(l));
      var lp := loops[l];
      loops := loops[l := Loop([], false, lp.wq, lp.hold)];
      place := map w | w in place :: if w in lp.wq then InLocal else place[w];
    }

    /** One turn of uv__work_done()'s loop: the status given to `w->done`. */
    method WorkDoneTurn(l: nat) returns (w: Item, cancelled: bool)
      requires Valid() && Enabled(View(), DoneOne(l))
      modifies this
      ensures Valid() && View() == Next(old(View()), DoneOne(l))
      ensures w == old(loops[l].local[0]) && dones == old(dones) + [(w, cancelled)]
      ensures (cancelled <==> !Called(old(View()), w)) && forall b :: !DoneWith(old(View()), w, b)
    {
      NextSound(View(), DoneOne(l));
      DoneSays(View(), l);
      w := loops[l].local[0];
      loops := loops[l := loops[l].(local := loops[l].local[1..])];
      cancelled := work[w] == Cancelled;
      dones := dones + [(w, cancelled)];
      place := place[w := Finished];
    }
  }
}
