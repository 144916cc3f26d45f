/** The functions of src/unix/linux-inotify.c on the loop's fields, the delivery of an event cut
    at the callbacks; each piece does what the state machine's event says. */
module Inotify {
  import opened Basics
  import opened InotifyModel

  const UV_EINVAL := -22

  class InotifyLoop {
    var lists: map<int, List>
    var active: map<nat, int>
    var now: Delivery

    ghost function View(): State
      reads this
    {
      State(lists, active, now)
    }

    ghost predicate Valid()
      reads this
    {
      Inv(View())
    }

    constructor ()
      ensures Init(View()) && Valid()
    {
      lists, active, now := map[], map[], Quiet;
    }

    /** maybe_free_watcher_list() */
    method MaybeFreeList(wd: int)
      requires wd in lists
      modifies this`lists
      ensures lists == MaybeFree(old(lists), wd)
    {
      if !lists[wd].iterating && lists[wd].watchers == [] {
        lists := lists - {wd};
      }
    }

    /** uv_fs_event_start(), the kernel having answered with `wd`. */
    method FsEventStart(h: nat, wd: int) returns (err: int)
      requires Valid()
      modifies this
      ensures Valid() && View() == Next(old(View()), Start(h, wd))
      ensures err == if h in old(active) then UV_EINVAL else 0
    {
      hide Inv;
      NextInv(View(), Start(h, wd));
      if h in active {
        return UV_EINVAL;
      }
      var w := List([], false);
      if wd in lists {
        w := lists[wd];
      }
      lists := lists[wd := w.(watchers := w.watchers + [h])];
      active := active[h := wd];
      return 0;
    }

    /** uv_fs_event_stop() */
    method FsEventStop(h: nat)
      requires Valid()
      modifies this
      ensures Valid() && View() == Next(old(View()), Stop(h))
      ensures h !in active
    {
      NextInv(View(), Stop(h));
      if h !in active {
        return;
      }
      assert HandleOk(View(), h);
      hide Inv;
      var wd := active[h];
      active := active - {h};
      lists := lists[wd := lists[wd].(watchers := Drop(lists[wd].watchers, h))];
      if now.Delivery? && h in now.queue {
        now := now.(queue := Drop(now.queue, h), gone := now.gone + {h});
      }
      MaybeFreeList(wd);
    }

    /** uv__inotify_read(): the list of an event, if it has watchers left, gets ready. */
    method ReadBegin(wd: int) returns (found: bool)
      requires Valid() && Enabled(View(), Begin(wd))
      modifies this
      ensures Valid() && View() == Next(old(View()), Begin(wd))
      ensures found <==> wd in old(lists)
    {
      NextInv(View(), Begin(wd));
      hide Inv;
      if wd !in lists {
        return false;
      }
      now := Delivery(wd, lists[wd].watchers, lists[wd].watchers, [], {});
      lists := lists[wd := List([], true)];
      return true;
    }

    /** One turn of its inner loop, up to the callback of `h`. */
    method ReadTurn() returns (h: nat)
      requires Valid() && Enabled(View(), Turn)
      modifies this
      ensures Valid() && View() == Next(old(View()), Turn)
      ensures h == old(now.queue[0])
    {
      NextInv(View(), Turn);
      hide Inv;
      h := now.queue[0];
      var w := lists[now.wd];
      lists := lists[now.wd := w.(watchers := w.watchers + [h])];
      now := now.(queue := now.queue[1..], called := now.called + [h]);
    }

    /** The end of the inner loop. */
    method ReadEnd()
      requires Valid() && Enabled(View(), End)
      modifies this
      ensures Valid() && View() == Next(old(View()), End)
    {
      NextInv(View(), End);
      hide Inv;
      var wd := now.wd;
      lists := lists[wd := lists[wd].(iterating := false)];
      now := Quiet;
      MaybeFreeList(wd);
    }
  }
}
