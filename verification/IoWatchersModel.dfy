/** The loop's table and queue of io watchers and the kernel's epoll set (src/unix/core.c:796-915,
    src/unix/linux-core.c:136-165, 217-255, 356-366), with one watcher per descriptor. */
module IoWatchersModel {
  import opened Basics

  datatype Flag = PollIn | PollOut | PollPri | PollRdHup

  /** uv__io_t: its descriptor, the events wanted and the events the kernel was told of. */
  datatype Watcher = Watcher(fd: int, pevents: set<Flag>, events: set<Flag>)

  /** An entry of loop->watchers; the two behind the table may be fakes. */
  datatype Slot = Null | Ptr(w: nat) | Fake(n: nat)

  /** The kernel's epoll set: its descriptors and the events it reports for them. */
  type Epoll = map<int, set<Flag>>

  datatype State = State(slots: seq<Slot>, fakes: (Slot, Slot), nfds: int, queue: seq<nat>, ws: map<nat, Watcher>,
                         epoll: Epoll)

  /** `size` is the table's new length if it has to grow. Disarm is what uv__io_poll does with
      an event of a descriptor that nobody watches. */
  datatype Event =
    | Create(w: nat, fd: int) | Start(w: nat, mask: set<Flag>, size: nat) | Stop(w: nat, mask: set<Flag>)
    | Close(w: nat) | Flush | Disarm(at: nat) | SetFakes(list: Slot, count: Slot)

  predicate Enabled(s: State, e: Event) {
    match e
    case Create(w, fd) => w !in s.ws && fd >= -1 && forall v :: v in s.ws ==> s.ws[v].fd == -1 || s.ws[v].fd != fd
    case Start(w, mask, size) =>
      w in s.ws && s.ws[w].fd >= 0 && mask != {} && (s.ws[w].fd >= |s.slots| ==> size > s.ws[w].fd)
    case Stop(w, mask) => w in s.ws && mask != {}
    case Close(w) => w in s.ws && s.slots != []
    case Flush => true
    case Disarm(fd) => fd < |s.slots| && s.slots[fd] == Null
    case SetFakes(_, _) => true
  }

  function Nulls(n: nat): (z: seq<Slot>)
    ensures |z| == n && forall i :: 0 <= i < n ==> z[i] == Null
  {
    seq(n, i => Null)
  }

  /** maybe_resize() */
  function Grown(slots: seq<Slot>, len: nat, size: nat): (r: seq<Slot>)
    requires len > |slots| ==> size >= len
    ensures |r| >= len && slots <= r
  {
    if len <= |slots| then slots else slots + Nulls(size - |slots|)
  }

  function Started(s: State, w: nat, mask: set<Flag>, size: nat): State
    requires Enabled(s, Start(w, mask, size))
  {
    var x := s.ws[w].(pevents := s.ws[w].pevents + mask);
    var slots := Grown(s.slots, x.fd + 1, size);
    var t := s.(slots := slots, ws := s.ws[w := x]);
    if x.events == x.pevents then t
    else
      t.(queue := if w in s.queue then s.queue else s.queue + [w],
         slots := if slots[x.fd] == Null then slots[x.fd := Ptr(w)] else slots,
         nfds := if slots[x.fd] == Null then s.nfds + 1 else s.nfds)
  }

  function Stopped(s: State, w: nat, mask: set<Flag>): State
    requires w in s.ws
  {
    var x := s.ws[w].(pevents := s.ws[w].pevents - mask);
    if x.fd < 0 || x.fd >= |s.slots| then s
    else if x.pevents == {} then
      var t := s.(queue := Drop(s.queue, w));
      if s.slots[x.fd] == Null then t.(ws := s.ws[w := x])
      else t.(slots := s.slots[x.fd := Null], nfds := s.nfds - 1, ws := s.ws[w := x.(events := {})])
    else
      s.(queue := if w in s.queue then s.queue else s.queue + [w], ws := s.ws[w := x])
  }

  const ALL_FLAGS := {PollIn, PollOut, PollPri, PollRdHup}

  datatype Op = Add | Mod | Del

  datatype Errno = Success | EExist | ENoEnt

  /** epoll_ctl(): what it answers and what it leaves. */
  function EpollCtl(epoll: Epoll, op: Op, fd: int, mask: set<Flag>): (r: (Errno, Epoll)) {
    match op
    case Add => if fd in epoll then (EExist, epoll) else (Success, epoll[fd := mask])
    case Mod => if fd in epoll then (Success, epoll[fd := mask]) else (ENoEnt, epoll)
    case Del => if fd in epoll then (Success, epoll - {fd}) else (ENoEnt, epoll)
  }

  /** The kernel's set after it was told of the events of the queued watchers. */
  function Told(epoll: Epoll, queue: seq<nat>, ws: map<nat, Watcher>): Epoll
    decreases |queue|
  {
    if queue == [] || queue[0] !in ws then epoll
    else Told(epoll[ws[queue[0]].fd := ws[queue[0]].pevents], queue[1..], ws)
  }

  function Flushed(s: State): State {
    if s.nfds == 0 then s
    else s.(queue := [], epoll := Told(s.epoll, s.queue, s.ws),
            ws := map w | w in s.ws :: if w in s.queue then s.ws[w].(events := s.ws[w].pevents) else s.ws[w])
  }

  function Next(s: State, e: Event): State
    requires Enabled(s, e)
  {
    match e
    case Create(w, fd) => s.(ws := s.ws[w := Watcher(fd, {}, {})])
    case Start(w, mask, size) => Started(s, w, mask, size)
    case Stop(w, mask) => Stopped(s, w, mask)
    case Close(w) =>
      var t := Stopped(s, w, ALL_FLAGS);
      t.(ws := t.ws - {w}, epoll := s.epoll - {s.ws[w].fd})
    case Flush => Flushed(s)
    case Disarm(fd) => s.(epoll := s.epoll - {fd})
    case SetFakes(list, count) => s.(fakes := (list, count))
  }

  predicate Init(s: State) {
    s.slots == [] && s.nfds == 0 && s.queue == [] && s.ws == map[] && s.epoll == map[]
  }

  predicate Run(s: State, events: seq<Event>)
    decreases |events|
  {
    events == [] || (Enabled(s, events[0]) && Run(Next(s, events[0]), events[1..]))
  }

  function After(s: State, events: seq<Event>): State
    requires Run(s, events)
    decreases |events|
  {
    if events == [] then s else After(Next(s, events[0]), events[1..])
  }

  // What every run keeps.

  /** The non-null entries. */
  function Count(slots: seq<Slot>): nat {
    if slots == [] then 0 else (if slots[0] == Null then 0 else 1) + Count(slots[1..])
  }

  /** In the table exactly if it wants events; thought unknown to the kernel if it wants none;
      queued if the kernel is to be told something else; and what it takes the kernel to know
      the kernel does know. */
  predicate WatcherOk(s: State, w: nat)
    requires w in s.ws
  {
    var x := s.ws[w];
    && x.fd >= -1
    && (x.pevents != {} <==> 0 <= x.fd < |s.slots| && s.slots[x.fd] == Ptr(w))
    && (x.pevents == {} ==> x.events == {})
    && (x.events != x.pevents ==> w in s.queue)
    && (x.events != {} ==> x.fd in s.epoll && s.epoll[x.fd] == x.events)
    && (forall v :: v in s.ws && v != w ==> s.ws[v].fd == -1 || s.ws[v].fd != x.fd)
  }

  predicate SlotOk(s: State, i: nat)
    requires i < |s.slots|
  {
    s.slots[i] == Null || (s.slots[i].Ptr? && s.slots[i].w in s.ws && s.ws[s.slots[i].w].fd == i)
  }

  /** What uv__io_poll asserts of a queued watcher. */
  predicate QueuedOk(s: State, w: nat) {
    w in s.ws && s.ws[w].pevents != {} && 0 <= s.ws[w].fd < |s.slots|
  }

  predicate Inv(s: State) {
    && s.nfds == Count(s.slots)
    && (forall w :: w in s.ws ==> WatcherOk(s, w))
    && (forall i: nat :: i < |s.slots| ==> SlotOk(s, i))
    && (forall w :: w in s.queue ==> QueuedOk(s, w))
  }

  lemma {:induction false} CountSet(slots: seq<Slot>, i: nat, x: Slot)
    requires i < |slots|
    ensures Count(slots[i := x])
         == Count(slots) - (if slots[i] == Null then 0 else 1) + (if x == Null then 0 else 1)
    decreases slots
  {
    if i == 0 {
      assert slots[i := x][1..] == slots[1..];
    } else {
      CountSet(slots[1..], i - 1, x);
      assert slots[i := x][1..] == slots[1..][i - 1 := x];
    }
  }

  lemma {:induction false} CountGrown(slots: seq<Slot>, n: nat)
    ensures Count(slots + Nulls(n)) == Count(slots)
    decreases |slots|, n
  {
    if slots != [] {
      assert (slots + Nulls(n))[1..] == slots[1..] + Nulls(n);
      CountGrown(slots[1..], n);
    } else if n > 0 {
      assert ([] + Nulls(n))[1..] == [] + Nulls(n - 1);
      CountGrown([], n - 1);
    }
  }

  lemma {:induction false} CountSome(slots: seq<Slot>, i: nat)
    requires i < |slots| && slots[i] != Null
    ensures Count(slots) > 0
  {
    if i > 0 {
      CountSome(slots[1..], i - 1);
    }
  }

  lemma StartWatcher(s: State, w: nat, mask: set<Flag>, size: nat, v: nat)
    requires Inv(s) && Enabled(s, Start(w, mask, size)) && v in s.ws
    ensures WatcherOk(Started(s, w, mask, size), v)
  {
    hide Count;
    assert WatcherOk(s, w) && WatcherOk(s, v);
    if s.ws[w].fd < |s.slots| {
      assert SlotOk(s, s.ws[w].fd);
    }
  }

  lemma StartInv(s: State, w: nat, mask: set<Flag>, size: nat)
    requires Inv(s) && Enabled(s, Start(w, mask, size))
    ensures Inv(Started(s, w, mask, size))
  {
    hide Count;
    var t := Started(s, w, mask, size);
    var fd := s.ws[w].fd;
    var slots := Grown(s.slots, fd + 1, size);
    if fd >= |s.slots| {
      CountGrown(s.slots, size - |s.slots|);
    }
    CountSet(slots, fd, Ptr(w));
    if fd < |s.slots| { assert SlotOk(s, fd); }
    forall v | v in t.ws ensures WatcherOk(t, v) {
      StartWatcher(s, w, mask, size, v);
    }
    hide WatcherOk;
    forall i: nat | i < |t.slots| ensures SlotOk(t, i) {
      if i < |s.slots| { assert SlotOk(s, i); }
    }
    forall v | v in t.queue ensures QueuedOk(t, v) {
      if v != w { assert QueuedOk(s, v); }
    }
  }

  lemma StopWatcher(s: State, w: nat, mask: set<Flag>, v: nat)
    requires Inv(s) && w in s.ws && v in s.ws
    ensures WatcherOk(Stopped(s, w, mask), v)
  {
    hide Count;
    assert WatcherOk(s, w) && WatcherOk(s, v);
    if 0 <= s.ws[w].fd < |s.slots| {
      assert SlotOk(s, s.ws[w].fd);
    }
  }

  lemma StopInv(s: State, w: nat, mask: set<Flag>)
    requires Inv(s) && w in s.ws
    ensures Inv(Stopped(s, w, mask))
  {
    hide Count;
    var t := Stopped(s, w, mask);
    var fd := s.ws[w].fd;
    assert WatcherOk(s, w);
    if 0 <= fd < |s.slots| {
      CountSet(s.slots, fd, Null);
      assert SlotOk(s, fd);
    }
    forall v | v in t.ws ensures WatcherOk(t, v) {
      StopWatcher(s, w, mask, v);
    }
    hide WatcherOk;
    forall i: nat | i < |t.slots| ensures SlotOk(t, i) {
      assert SlotOk(s, i);
    }
    forall v | v in t.queue ensures QueuedOk(t, v) {
      if v != w { assert QueuedOk(s, v); }
    }
  }

  /** A watcher stopped for all events is out of the table and the queue. */
  lemma StoppedForAll(s: State, w: nat)
    requires Inv(s) && w in s.ws
    ensures var u := Stopped(s, w, ALL_FLAGS);
      && Inv(u) && w in u.ws && u.ws[w].fd == s.ws[w].fd && u.ws[w].pevents == {}
      && w !in u.queue && forall i :: 0 <= i < |u.slots| ==> u.slots[i] != Ptr(w)
  {
    StopInv(s, w, ALL_FLAGS);
    var u := Stopped(s, w, ALL_FLAGS);
    assert WatcherOk(s, w) && WatcherOk(u, w);
    assert u.ws[w].pevents == {} by { AllFlags(s.ws[w].pevents); }
    assert w in u.queue ==> QueuedOk(u, w);
    forall i: nat | i < |u.slots| ensures u.slots[i] != Ptr(w) {
      assert SlotOk(u, i);
    }
  }

  lemma CloseInv(s: State, w: nat)
    requires Inv(s) && Enabled(s, Close(w))
    ensures Inv(Next(s, Close(w)))
  {
    hide Count;
    StoppedForAll(s, w);
    var u := Stopped(s, w, ALL_FLAGS);
    var t := Next(s, Close(w));
    assert t == u.(ws := u.ws - {w}, epoll := s.epoll - {s.ws[w].fd}) && u.epoll == s.epoll;
    hide Stopped;
    assert WatcherOk(u, w);
    forall v | v in t.ws ensures WatcherOk(t, v) {
      assert WatcherOk(u, v);
    }
    hide WatcherOk;
    forall i: nat | i < |t.slots| ensures SlotOk(t, i) {
      assert SlotOk(u, i);
    }
    forall v | v in t.queue ensures QueuedOk(t, v) {
      assert QueuedOk(u, v);
    }
  }

  lemma AllFlags(f: set<Flag>)
    ensures f - ALL_FLAGS == {}
  {
    forall x: Flag ensures x in ALL_FLAGS {
      match x case PollIn => case PollOut => case PollPri => case PollRdHup =>
    }
  }

  lemma OtherInv(s: State, e: Event)
    requires Inv(s) && Enabled(s, e) && (e.Create? || e.Disarm? || e.SetFakes?)
    ensures Inv(Next(s, e))
  {
    hide Count, Told;
    var t := Next(s, e);
    forall v | v in t.ws ensures WatcherOk(t, v) {
      if v in s.ws {
        assert WatcherOk(s, v);
      } else if 0 <= t.ws[v].fd < |s.slots| {
        assert SlotOk(s, t.ws[v].fd);
      }
    }
    forall i: nat | i < |t.slots| ensures SlotOk(t, i) {
      assert SlotOk(s, i);
    }
    forall v | v in t.queue ensures QueuedOk(t, v) {
      assert QueuedOk(s, v);
    }
  }

  /** Descriptors not in the queue keep their entry, those in it get their watcher's events. */
  lemma {:induction false} ToldIs(epoll: Epoll, queue: seq<nat>, ws: map<nat, Watcher>, w: nat)
    requires forall v :: v in queue ==> v in ws
    requires w in ws && forall v :: v in queue && v != w ==> ws[v].fd != ws[w].fd
    ensures var fd, r := ws[w].fd, Told(epoll, queue, ws);
      if w in queue then fd in r && r[fd] == ws[w].pevents
      else (fd in r <==> fd in epoll) && (fd in r ==> r[fd] == epoll[fd])
    decreases |queue|
  {
    if queue != [] {
      ToldIs(epoll[ws[queue[0]].fd := ws[queue[0]].pevents], queue[1..], ws, w);
      assert queue == [queue[0]] + queue[1..];
    }
  }

  lemma FlushInv(s: State)
    requires Inv(s)
    ensures Inv(Flushed(s))
  {
    hide Count, Told;
    var t := Flushed(s);
    forall v | v in t.ws ensures WatcherOk(t, v) {
      assert WatcherOk(s, v);
      ToldOne(s, v);
    }
    forall i: nat | i < |t.slots| ensures SlotOk(t, i) {
      assert SlotOk(s, i);
    }
    forall v | v in t.queue ensures QueuedOk(t, v) {
      assert QueuedOk(s, v);
    }
  }

  lemma ToldOne(s: State, w: nat)
    requires Inv(s) && w in s.ws
    ensures var fd, r := s.ws[w].fd, Told(s.epoll, s.queue, s.ws);
      if w in s.queue then fd in r && r[fd] == s.ws[w].pevents
      else (fd in r <==> fd in s.epoll) && (fd in r ==> r[fd] == s.epoll[fd])
  {
    hide Count, Told;
    forall v | v in s.queue ensures v in s.ws && (v != w ==> s.ws[v].fd != s.ws[w].fd) {
      assert QueuedOk(s, v) && WatcherOk(s, v) && WatcherOk(s, w);
    }
    ToldIs(s.epoll, s.queue, s.ws, w);
  }

  lemma NextInv(s: State, e: Event)
    requires Inv(s) && Enabled(s, e)
    ensures Inv(Next(s, e))
  {
    match e
    case Start(w, mask, size) => StartInv(s, w, mask, size);
    case Stop(w, mask) => StopInv(s, w, mask);
    case Close(w) => CloseInv(s, w);
    case Flush => FlushInv(s);
    case _ => OtherInv(s, e);
  }

  lemma {:induction false} RunInv(s: State, events: seq<Event>)
    requires Inv(s) && Run(s, events)
    ensures Inv(After(s, events))
    decreases |events|
  {
    hide Inv, Next, Enabled;
    if events != [] {
      NextInv(s, events[0]);
      RunInv(Next(s, events[0]), events[1..]);
    }
  }

  /** In every run: the count, the table and the queue agree with what the watchers want; the
      poll's assertions hold; and an empty table means an empty queue. */
  lemma WatchersConsistent(s: State, events: seq<Event>)
    requires Init(s) && Run(s, events)
    ensures var t := After(s, events);
      && t.nfds == Count(t.slots)
      && (forall w :: w in t.ws ==> (t.ws[w].pevents != {} <==> Ptr(w) in t.slots))
      && (forall w :: w in t.ws && t.ws[w].events != t.ws[w].pevents ==> w in t.queue)
      && (forall w :: w in t.queue ==> QueuedOk(t, w))
      && (t.nfds == 0 ==> t.queue == [])
      && (forall w :: w in t.ws && t.ws[w].events != {} ==>
            t.ws[w].fd in t.epoll && t.epoll[t.ws[w].fd] == t.ws[w].events)
  {
    RunInv(s, events);
    var t := After(s, events);
    forall w | w in t.ws ensures t.ws[w].pevents != {} <==> Ptr(w) in t.slots {
      assert WatcherOk(t, w);
      if Ptr(w) in t.slots {
        var i :| 0 <= i < |t.slots| && t.slots[i] == Ptr(w);
        assert SlotOk(t, i);
      }
    }
    forall w | w in t.ws && t.ws[w].events != t.ws[w].pevents ensures w in t.queue {
      assert WatcherOk(t, w);
    }
    forall w | w in t.ws && t.ws[w].events != {}
      ensures t.ws[w].fd in t.epoll && t.epoll[t.ws[w].fd] == t.ws[w].events
    {
      assert WatcherOk(t, w);
    }
    if t.queue != [] {
      var w := t.queue[0];
      assert QueuedOk(t, w) && WatcherOk(t, w);
      CountSome(t.slots, t.ws[w].fd);
    }
  }

  /** What the flush asks of the kernel for a queued watcher. */
  function OpFor(x: Watcher): Op {
    if x.events == {} then Add else Mod
  }

  /** uv__io_poll neither aborts nor fails its assertion: a watcher taken to be known is known,
      so that only Add can fail, and only because of an earlier watching of the descriptor;
      Mod succeeds then. */
  lemma OpSucceeds(s: State, w: nat, mask: set<Flag>)
    requires Inv(s) && w in s.queue
    ensures w in s.ws && var x := s.ws[w]; var r := EpollCtl(s.epoll, OpFor(x), x.fd, mask);
      && (r.0 == Success || (r.0 == EExist && OpFor(x) == Add && EpollCtl(r.1, Mod, x.fd, mask).0 == Success))
      && (r.0 == EExist <==> x.events == {} && x.fd in s.epoll)
  {
    assert QueuedOk(s, w) && WatcherOk(s, w);
  }

  /** After a flush the queue is empty, and the kernel reports for every watcher's descriptor
      just the events that the watcher wants. */
  lemma FlushTells(s: State, w: nat)
    requires Inv(s) && w in s.ws
    ensures var t := Flushed(s); var x := s.ws[w];
      && t.queue == [] && t.ws[w] == x.(events := x.pevents)
      && (x.pevents != {} ==> x.fd in t.epoll && t.epoll[x.fd] == x.pevents)
  {
    FlushInv(s);
    assert WatcherOk(s, w);
    assert WatcherOk(Flushed(s), w);
    if s.queue != [] {
      assert QueuedOk(s, s.queue[0]) && WatcherOk(s, s.queue[0]);
      CountSome(s.slots, s.ws[s.queue[0]].fd);
    }
  }

  // What a watcher wants.

  /** Whether event `f` is wanted of watcher `w` after one more event, if it is wanted now. */
  function WantedNext(now: bool, e: Event, w: nat, f: Flag): bool {
    match e
    case Create(v, _) => if v == w then false else now
    case Close(v) => if v == w then false else now
    case Start(v, mask, _) => if v == w && f in mask then true else now
    case Stop(v, mask) => if v == w && f in mask then false else now
    case _ => now
  }

  /** The last start or stop that names `f` decides; closing a watcher forgets them. */
  function Wanted(now: bool, events: seq<Event>, w: nat, f: Flag): bool
    decreases |events|
  {
    if events == [] then now else Wanted(WantedNext(now, events[0], w, f), events[1..], w, f)
  }

  predicate Wants(s: State, w: nat, f: Flag) {
    w in s.ws && f in s.ws[w].pevents
  }

  /** A stop outside the table leaves a watcher that wants nothing. */
  lemma NextWants(s: State, e: Event, w: nat, f: Flag)
    requires Inv(s) && Enabled(s, e)
    ensures Wants(Next(s, e), w, f) <==> WantedNext(Wants(s, w, f), e, w, f)
  {
    hide Count, Told;
    assert w in s.ws ==> WatcherOk(s, w);
  }

  /** In every run a watcher wants an event if and only if it was started for it and not
      stopped for it or closed since. */
  lemma {:induction false} WantsWhatWasStarted(s: State, events: seq<Event>, w: nat, f: Flag)
    requires Inv(s) && Run(s, events)
    ensures Wants(After(s, events), w, f) <==> Wanted(Wants(s, w, f), events, w, f)
    decreases |events|
  {
    hide Inv, Next, Enabled, Wants;
    if events != [] {
      NextWants(s, events[0], w, f);
      NextInv(s, events[0]);
      WantsWhatWasStarted(Next(s, events[0]), events[1..], w, f);
    }
  }

  /** So after a flush the kernel reports for a descriptor exactly the events that its watcher
      was started for last. */
  lemma KernelReports(s: State, events: seq<Event>, w: nat, f: Flag)
    requires Init(s) && Run(s, events) && w in After(s, events).ws && After(s, events).ws[w].pevents != {}
    ensures var t := Flushed(After(s, events)); var fd := t.ws[w].fd;
      fd in t.epoll && (f in t.epoll[fd] <==> Wanted(false, events, w, f))
  {
    RunInv(s, events);
    WantsWhatWasStarted(s, events, w, f);
    FlushTells(After(s, events), w);
    hide Run, After, Inv;
  }

  /** A watcher's descriptor is the one it was made for. */
  lemma {:induction false} DescriptorStays(s: State, events: seq<Event>, w: nat)
    requires Inv(s) && Run(s, events) && w in s.ws && Close(w) !in events
    ensures w in After(s, events).ws && After(s, events).ws[w].fd == s.ws[w].fd
    decreases |events|
  {
    hide Inv, Told, Count;
    if events != [] {
      NextInv(s, events[0]);
      assert events[0] in events;
      DescriptorStays(Next(s, events[0]), events[1..], w);
    }
  }
}
