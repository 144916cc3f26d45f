/** The loop's watcher table as an array with two extra entries, the functions of
    src/unix/core.c:796-915 that change it, and the flush of src/unix/linux-core.c:217-255. */
module IoWatchers {
  import opened Basics
  import opened IoWatchersModel
  import Bits

  /** The kernel knows a watcher that is taken to be known. */
  predicate Reachable(s: State, w: nat) {
    w in s.ws && (s.ws[w].events != {} ==> s.ws[w].fd in s.epoll)
  }

  /** Of the watchers in `before`, those in `done` have been told of. */
  ghost predicate ToldSoFar(before: map<nat, Watcher>, done: seq<nat>, now: map<nat, Watcher>, epoll: Epoll) {
    && now.Keys == before.Keys
    && (forall v :: v in now ==> now[v] == if v in done then before[v].(events := before[v].pevents) else before[v])
    && (forall v :: v in done && v in before ==> before[v].fd in epoll)
  }

  lemma ToldNone(before: map<nat, Watcher>, epoll: Epoll)
    ensures ToldSoFar(before, [], before, epoll)
  {
  }

  lemma ToldAll(before: map<nat, Watcher>, done: seq<nat>, now: map<nat, Watcher>, epoll: Epoll)
    requires ToldSoFar(before, done, now, epoll)
    ensures now.Keys == before.Keys
    ensures forall v :: v in now ==> now[v] == if v in done then before[v].(events := before[v].pevents) else before[v]
  {
  }

  lemma TellNext(before: map<nat, Watcher>, done: seq<nat>, now: map<nat, Watcher>, epoll: Epoll, w: nat)
    requires ToldSoFar(before, done, now, epoll) && w in before
    ensures w in now && now[w].fd == before[w].fd && now[w].pevents == before[w].pevents
    ensures now[w].events == before[w].events || now[w].fd in epoll
    ensures var x := now[w];
      ToldSoFar(before, done + [w], now[w := x.(events := x.pevents)], epoll[x.fd := x.pevents])
  {
  }

  class IoLoop {
    var watchers: array?<Slot>
    var nwatchers: nat
    var nfds: int
    var watcherQueue: seq<nat>
    var ws: map<nat, Watcher>
    /** The kernel's part, changed by epoll_ctl only. */
    var epoll: Epoll

    ghost predicate Shaped()
      reads this
    {
      if watchers == null then nwatchers == 0 else watchers.Length == nwatchers + 2
    }

    ghost function View(): State
      requires Shaped()
      reads this, watchers
    {
      State(if watchers == null then [] else watchers[..nwatchers],
            if watchers == null then (Null, Null) else (watchers[nwatchers], watchers[nwatchers + 1]),
            nfds, watcherQueue, ws, epoll)
    }

    ghost predicate Valid()
      reads this, watchers
    {
      Shaped() && Inv(View())
    }

    constructor ()
      ensures Valid() && Init(View())
    {
      watchers, nwatchers, nfds, watcherQueue, ws, epoll := null, 0, 0, [], map[], map[];
    }

    /** uv__realloc() and the loop that clears what it added. */
    method Reallocated(n: nat) returns (grown: array<Slot>)
      requires Shaped() && n >= nwatchers
      ensures fresh(grown) && grown.Length == n + 2
      ensures grown[..n] == View().slots + Nulls(n - nwatchers)
    {
      grown := new Slot[n + 2](_ => Null);
      var i := 0;
      while i < nwatchers
        invariant 0 <= i <= nwatchers
        invariant forall k :: 0 <= k < i ==> grown[k] == watchers[k]
        invariant forall k :: i <= k < n + 2 ==> grown[k] == Null
      {
        grown[i] := watchers[i];
        i := i + 1;
      }
    }

    /** maybe_resize(): to the least power of two minus 2 that holds `len`; the old entries and
        the two behind them are kept. */
    method MaybeResize(len: nat)
      requires Shaped() && len + 2 <= 0x8000_0000
      modifies this`watchers, this`nwatchers
      ensures Shaped()
      ensures watchers == old(watchers) || fresh(watchers)
      ensures len <= old(nwatchers) ==> nwatchers == old(nwatchers)
      ensures len > old(nwatchers) ==> nwatchers >= len && Bits.IsRoundedUp(len + 2, nwatchers + 2)
      ensures View() == old(View()).(slots := Grown(old(View()).slots, len, nwatchers))
    {
      if len <= nwatchers {
        return;
      }
      var fakeWatcherList, fakeWatcherCount := Null, Null;
      if watchers != null {
        fakeWatcherList, fakeWatcherCount := watchers[nwatchers], watchers[nwatchers + 1];
      }
      var n := Bits.NextPowerOfTwo(len + 2);
      n := n - 2;
      hide Bits.IsRoundedUp;
      var grown := Reallocated(n);
      grown[n] := fakeWatcherList;
      grown[n + 1] := fakeWatcherCount;
      assert grown[..n] == Grown(View().slots, len, n);
      watchers := grown;
      nwatchers := n;
    }

    /** uv__io_init() */
    method IoInit(w: nat, fd: int)
      requires Valid() && Enabled(View(), Create(w, fd))
      modifies this`ws
      ensures Valid() && View() == Next(old(View()), Create(w, fd))
    {
      NextInv(View(), Create(w, fd));
      hide Inv;
      ws := ws[w := Watcher(fd, {}, {})];
    }

    /** uv__io_start() */
    method IoStart(w: nat, mask: set<Flag>)
      requires Valid() && w in ws && 0 <= ws[w].fd <= 0x7fff_fffd && mask != {}
      modifies this, watchers
      ensures Valid() && old(ws[w].fd) < nwatchers
      ensures View() == Started(old(View()), w, mask, nwatchers)
      ensures ws == old(ws)[w := old(ws[w]).(pevents := old(ws[w]).pevents + mask)]
    {
      hide Inv, Grown, Nulls;
      ghost var s := View();
      var x := ws[w].(pevents := ws[w].pevents + mask);
      ws := ws[w := x];
      MaybeResize(x.fd + 1);
      StartInv(s, w, mask, nwatchers);
      if x.events != x.pevents {
        Register(w, x.fd);
      }
    }

    /** The part of uv__io_start() behind the comparison of the events. */
    method Register(w: nat, fd: nat)
      requires Shaped() && fd < nwatchers
      modifies this`watcherQueue, this`nfds, watchers
      ensures Shaped()
      ensures var s := old(View()); var free := s.slots[fd] == Null;
        View() == s.(queue := if w in s.queue then s.queue else s.queue + [w],
                     slots := if free then s.slots[fd := Ptr(w)] else s.slots,
                     nfds := if free then s.nfds + 1 else s.nfds)
    {
      ghost var slots := watchers[..nwatchers];
      if w !in watcherQueue {
        watcherQueue := watcherQueue + [w];
      }
      if watchers[fd] == Null {
        watchers[fd] := Ptr(w);
        nfds := nfds + 1;
        assert watchers[..nwatchers] == slots[fd := Ptr(w)];
      } else {
        assert watchers[..nwatchers] == slots;
      }
    }

    /** What a stop does to the watchers. */
    lemma StopEffect(s: State, w: nat, mask: set<Flag>)
      requires Inv(s) && w in s.ws
      ensures var ws := Stopped(s, w, mask).ws;
        && ws.Keys == s.ws.Keys && (forall v :: v in ws && v != w ==> ws[v] == s.ws[v])
        && ws[w].pevents == s.ws[w].pevents - mask && ws[w].fd == s.ws[w].fd
    {
      hide Count;
      assert WatcherOk(s, w);
    }

    lemma StopFacts(s: State, w: nat, mask: set<Flag>)
      requires Inv(s) && w in s.ws
      ensures Inv(Stopped(s, w, mask)) && s.ws[w].fd >= -1
      ensures var fd := s.ws[w].fd; 0 <= fd < |s.slots| && s.slots[fd] != Null ==> s.slots[fd] == Ptr(w) && s.nfds > 0
    {
      StopInv(s, w, mask);
      assert WatcherOk(s, w);
      var fd := s.ws[w].fd;
      if 0 <= fd < |s.slots| && s.slots[fd] != Null {
        assert SlotOk(s, fd);
        CountSome(s.slots, fd);
      }
    }

    /** uv__io_stop(); its assertions hold. */
    method IoStop(w: nat, mask: set<Flag>)
      requires Valid() && w in ws && mask != {}
      modifies this, watchers
      ensures Valid() && watchers == old(watchers)
      ensures View() == Stopped(old(View()), w, mask)
      ensures w in ws && ws[w].pevents == old(ws[w]).pevents - mask && ws[w].fd == old(ws[w]).fd
      ensures ws.Keys == old(ws).Keys && forall v :: v in ws && v != w ==> ws[v] == old(ws)[v]
    {
      ghost var s := View();
      StopFacts(s, w, mask);
      StopEffect(s, w, mask);
      hide Inv, Count, WatcherOk;
      if ws[w].fd == -1 {
        return;
      }
      assert ws[w].fd >= 0;
      if ws[w].fd >= nwatchers {
        return;
      }
      assert s.slots[ws[w].fd] == watchers[ws[w].fd];
      var x := ws[w].(pevents := ws[w].pevents - mask);
      if x.pevents == {} {
        watcherQueue := Drop(watcherQueue, w);
        if watchers[x.fd] != Null {
          assert watchers[x.fd] == Ptr(w);
          assert nfds > 0;
          watchers[x.fd] := Null;
          assert watchers[..nwatchers] == s.slots[x.fd := Null];
          nfds := nfds - 1;
          x := x.(events := {});
        }
      } else if w !in watcherQueue {
        watcherQueue := watcherQueue + [w];
      }
      ws := ws[w := x];
    }

    /** The system call. */
    method Control(op: Op, fd: int, mask: set<Flag>) returns (err: Errno)
      modifies this`epoll
      ensures (err, epoll) == EpollCtl(old(epoll), op, fd, mask)
    {
      var r := EpollCtl(epoll, op, fd, mask);
      err, epoll := r.0, r.1;
    }

    lemma CloseIs(s: State, w: nat)
      requires Enabled(s, Close(w))
      ensures var t := Stopped(s, w, ALL_FLAGS); var left := EpollCtl(t.epoll, Del, s.ws[w].fd, {}).1;
        Next(s, Close(w)) == t.(ws := t.ws - {w}, epoll := left) && |t.slots| == |s.slots|
    {
      assert s.ws[w].fd !in s.epoll ==> s.epoll - {s.ws[w].fd} == s.epoll;
    }

    /** uv__io_close() with uv__platform_invalidate_fd(), whose assertion holds. */
    method IoClose(w: nat)
      requires Valid() && Enabled(View(), Close(w))
      modifies this, watchers
      ensures Valid() && View() == Next(old(View()), Close(w))
    {
      ghost var s := View();
      NextInv(s, Close(w));
      CloseIs(s, w);
      hide Inv, Next, Stopped, EpollCtl;
      var fd := ws[w].fd;
      IoStop(w, ALL_FLAGS);
      assert watchers != null;
      var _ := Control(Del, fd, {});
      ws := ws - {w};
    }

    /** uv__io_poll() on an event of a descriptor whose watcher was stopped. */
    method PollDisarm(fd: nat)
      requires Valid() && Enabled(View(), Disarm(fd))
      modifies this`epoll
      ensures Valid() && View() == Next(old(View()), Disarm(fd))
    {
      NextInv(View(), Disarm(fd));
      hide Inv;
      ghost var was := epoll;
      var _ := Control(Del, fd, {});
      assert epoll == was - {fd};
    }

    /** The head of uv__io_poll(). */
    method PollFlush()
      requires Valid()
      modifies this
      ensures Valid() && View() == Flushed(old(View()))
    {
      ghost var s := View();
      NextInv(s, Flush);
      forall v | v in s.queue ensures QueuedOk(s, v) && Reachable(s, v) {
        assert QueuedOk(s, v) && WatcherOk(s, v);
      }
      assert nfds == 0 ==> watcherQueue == [] by {
        if watcherQueue != [] {
          assert QueuedOk(s, watcherQueue[0]);
          FlushTells(s, watcherQueue[0]);
        }
      }
      hide Inv;
      if nfds == 0 {
        return;
      }
      FlushQueue();
      assert ws == Flushed(s).ws;
    }

    /** Its loop; it does not come to abort(), and its assertions hold. */
    method FlushQueue()
      requires Shaped() && forall v :: v in watcherQueue ==> QueuedOk(View(), v) && Reachable(View(), v)
      modifies this`watcherQueue, this`ws, this`epoll
      ensures watcherQueue == [] && ws.Keys == old(ws.Keys)
      ensures epoll == Told(old(epoll), old(watcherQueue), old(ws))
      ensures forall v :: v in ws ==>
        ws[v] == if v in old(watcherQueue) then old(ws)[v].(events := old(ws)[v].pevents) else old(ws)[v]
    {
      ghost var s := View();
      ghost var done: seq<nat> := [];
      hide ToldSoFar;
      assert ToldSoFar(s.ws, [], ws, epoll) by { ToldNone(s.ws, epoll); }
      while watcherQueue != []
        invariant s.queue == done + watcherQueue
        invariant ToldSoFar(s.ws, done, ws, epoll)
        invariant s.epoll.Keys <= epoll.Keys
        invariant Told(epoll, watcherQueue, s.ws) == Told(s.epoll, s.queue, s.ws)
        decreases |watcherQueue|
      {
        var w := watcherQueue[0];
        assert QueuedOk(s, w) && Reachable(s, w);
        TellNext(s.ws, done, ws, epoll, w);
        watcherQueue := watcherQueue[1..];
        assert ws[w].pevents != {} && 0 <= ws[w].fd < nwatchers;
        Tell(w);
        ws := ws[w := ws[w].(events := ws[w].pevents)];
        done := done + [w];
      }
      assert s.queue == done;
      ToldAll(s.ws, done, ws, epoll);
    }

    /** The system calls for one watcher. */
    method Tell(w: nat)
      requires w in ws && (ws[w].events != {} ==> ws[w].fd in epoll)
      modifies this`epoll
      ensures epoll == old(epoll)[ws[w].fd := ws[w].pevents]
    {
      var op := if ws[w].events == {} then Add else Mod;
      var err := Control(op, ws[w].fd, ws[w].pevents);
      if err != Success {
        assert err == EExist;
        assert op == Add;
        err := Control(Mod, ws[w].fd, ws[w].pevents);
        assert err == Success;
      }
    }
  }
}
