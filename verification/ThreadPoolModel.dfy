/** The thread pool of src/threadpool.c as a state machine. Each event is one critical
    section, or one step taken outside every lock; a run is any interleaving of them. */
module ThreadPoolModel {
  import opened Basics

  /** A request (`struct uv__work`) and the loop that owns it (`w->loop`). */
  datatype Item = Item(id: nat, loop: nat)

  /** The function pointer `w->work`: the caller's function, NULL, or uv__cancelled. */
  datatype Fn = Real | Null | Cancelled

  /** An element of the global queue. */
  datatype Msg = Work(item: Item) | Exit

  /** Where a worker thread is: about to lock the mutex; asleep in uv_cond_wait; woken but
      not yet holding the mutex again; holding a request it has not started; inside the
      request's function; out of its loop. */
  datatype Worker = Ready | Waiting | Signalled | Picked(item: Item) | Running(item: Item) | Exited

  /** Where a loop thread is in uv__work_cancel: not in it; past the first critical section
      with the request unlinked; past the store to `w->work`. */
  datatype Hold = Free | Removed(item: Item) | Marked(item: Item)

  /** A loop: `loop->wq`, whether its async handle was sent to since it last ran, and the
      local queue and cancellation of its thread. */
  datatype Loop = Loop(wq: seq<Item>, sent: bool, local: seq<Item>, hold: Hold)

  /** Bookkeeping for the proof: the one place where a request is. */
  datatype Place = InPool | AtWorker(i: nat) | AtCancel | InLoop | InLocal | Finished

  /** `linked` holds the requests whose queue node does not point to itself; `calls` logs
      the functions that workers called, `dones` the statuses passed to `w->done`, true for
      UV_ECANCELED. */
  datatype State = State(wq: seq<Msg>, idle: int, workers: seq<Worker>, loops: seq<Loop>,
                         work: map<Item, Fn>, linked: set<Item>,
                         calls: seq<(Item, Fn)>, dones: seq<(Item, bool)>,
                         place: map<Item, Place>)

  /** `k` is the worker that uv_cond_signal wakes, if it finds one asleep. */
  datatype Event =
    | Submit(w: Item, k: nat) | PostExit(k: nat)
    | Enter(i: nat, k: nat) | Spurious(i: nat) | Start(i: nat) | Finish(i: nat)
    | Cancel(w: Item) | Mark(l: nat) | CancelEnd(l: nat)
    | DoneBegin(l: nat) | DoneOne(l: nat)

  predicate AnyWaiting(ws: seq<Worker>) {
    exists i :: 0 <= i < |ws| && ws[i].Waiting?
  }

  /** A signal wakes some sleeping worker if there is one. */
  predicate Wakes(ws: seq<Worker>, k: nat) {
    AnyWaiting(ws) ==> k < |ws| && ws[k].Waiting?
  }

  function Wake(ws: seq<Worker>, k: nat): seq<Worker> {
    if k < |ws| && ws[k].Waiting? then ws[k := Signalled] else ws
  }

  /** post() */
  function Posted(s: State, m: Msg, k: nat): State {
    s.(wq := s.wq + [m], workers := if s.idle > 0 then Wake(s.workers, k) else s.workers)
  }

  /** The test of uv__work_cancel. */
  predicate Cancellable(s: State, w: Item) {
    w in s.linked && w in s.work && s.work[w] != Null
  }

  /** What must hold for an event to happen. A request is submitted and cancelled on its
      loop's thread, outside uv__work_cancel, and cancelled only before it is done. */
  predicate Enabled(s: State, e: Event) {
    match e
    case Submit(w, k) =>
      w !in s.place && w.loop < |s.loops| && s.loops[w.loop].hold.Free? && Wakes(s.workers, k)
    case PostExit(k) => Exit !in s.wq && Wakes(s.workers, k)
    case Enter(i, k) =>
      i < |s.workers| && (s.workers[i].Ready? || s.workers[i].Signalled?) && Wakes(s.workers, k)
    case Spurious(i) => i < |s.workers| && s.workers[i].Waiting?
    case Start(i) => i < |s.workers| && s.workers[i].Picked? && s.workers[i].item in s.work
    case Finish(i) =>
      i < |s.workers| && s.workers[i].Running? && s.workers[i].item.loop < |s.loops|
    case Cancel(w) =>
      w in s.place && s.place[w] != Finished && w.loop < |s.loops| && s.loops[w.loop].hold.Free?
    case Mark(l) => l < |s.loops| && s.loops[l].hold.Removed?
    case CancelEnd(l) => l < |s.loops| && s.loops[l].hold.Marked?
    case DoneBegin(l) =>
      l < |s.loops| && s.loops[l].hold.Free? && s.loops[l].local == [] && s.loops[l].sent
    case DoneOne(l) =>
      l < |s.loops| && s.loops[l].hold.Free? && s.loops[l].local != [] && s.loops[l].local[0] in s.work
  }

  /** One pass of a worker through its first critical section. */
  function Entered(s: State, i: nat, k: nat): State
    requires Enabled(s, Enter(i, k))
  {
    var idle := if s.workers[i].Signalled? then s.idle - 1 else s.idle;
    if s.wq == [] then
      s.(idle := idle + 1, workers := s.workers[i := Waiting])
    else if s.wq[0] == Exit then
      s.(idle := idle, workers := Wake(s.workers[i := Exited], k))
    else
      var w := s.wq[0].item;
      s.(idle := idle, wq := s.wq[1..], workers := s.workers[i := Picked(w)],
         linked := s.linked - {w}, place := s.place[w := AtWorker(i)])
  }

  /** A request put at the tail of its loop's queue, and the loop woken. */
  function Returned(s: State, w: Item): State
    requires w.loop < |s.loops|
  {
    var lp := s.loops[w.loop];
    s.(loops := s.loops[w.loop := lp.(wq := lp.wq + [w], sent := true)],
       linked := s.linked + {w}, place := s.place[w := InLoop])
  }

  /** The first critical section of uv__work_cancel when it succeeds. */
  function Unlinked(s: State, w: Item): State
    requires w.loop < |s.loops|
  {
    var lp := s.loops[w.loop];
    s.(wq := Drop(s.wq, Work(w)),
       loops := s.loops[w.loop := Loop(Drop(lp.wq, w), lp.sent, Drop(lp.local, w), Removed(w))],
       place := s.place[w := AtCancel])
  }

  function Moved(s: State, l: nat): State
    requires l < |s.loops|
  {
    var lp := s.loops[l];
    s.(loops := s.loops[l := Loop([], false, lp.wq, lp.hold)],
       place := map w | w in s.place :: if w in lp.wq then InLocal else s.place[w])
  }

  function Next(s: State, e: Event): State
    requires Enabled(s, e)
  {
    match e
    case Submit(w, k) =>
      Posted(s, Work(w), k).(work := s.work[w := Real], linked := s.linked + {w}, place := s.place[w := InPool])
    case PostExit(k) => Posted(s, Exit, k)
    case Enter(i, k) => Entered(s, i, k)
    case Spurious(i) => s.(workers := s.workers[i := Signalled])
    case Start(i) =>
      var w := s.workers[i].item;
      s.(workers := s.workers[i := Running(w)], calls := s.calls + [(w, s.work[w])])
    case Finish(i) =>
      var w := s.workers[i].item;
      Returned(s.(workers := s.workers[i := Ready], work := s.work[w := Null]), w)
    case Cancel(w) => if Cancellable(s, w) then Unlinked(s, w) else s
    case Mark(l) =>
      var w := s.loops[l].hold.item;
      s.(loops := s.loops[l := s.loops[l].(hold := Marked(w))], work := s.work[w := Cancelled])
    case CancelEnd(l) =>
      var w := s.loops[l].hold.item;
      var t := s.(loops := s.loops[l := s.loops[l].(hold := Free)]);
      if w.loop < |s.loops| then Returned(t, w) else t
    case DoneBegin(l) => Moved(s, l)
    case DoneOne(l) =>
      var w := s.loops[l].local[0];
      s.(loops := s.loops[l := s.loops[l].(local := s.loops[l].local[1..])],
         dones := s.dones + [(w, s.work[w] == Cancelled)], place := s.place[w := Finished])
  }

  predicate Init(s: State) {
    && s.wq == [] && s.idle == 0 && (forall i :: 0 <= i < |s.workers| ==> s.workers[i] == Ready)
    && (forall l :: 0 <= l < |s.loops| ==> s.loops[l] == Loop([], false, [], Free))
    && s.work == map[] && s.linked == {} && s.calls == [] && s.dones == [] && s.place == map[]
  }

  /** A run: the events taken from `s`, each enabled when it happens. */
  predicate Run(s: State, events: seq<Event>)
    decreases |events|
  {
    events == [] || (Enabled(s, events[0]) && Run(Next(s, events[0]), events[1..]))
  }

  function After(s: State, events: seq<Event>): State
    requires Run(s, events)
    decreases |events|
  {
    if events == [] then s else After(Next(s, events[0]), events[1..])
  }
}
