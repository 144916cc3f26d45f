/** The functions of src/fs-poll.c, with poll_cb cut at the user's callback; each piece does
    what the state machine's event says. Allocation and the start of a stat succeed. */
module FsPoll {
  import opened Basics
  import opened FsPollModel

  class Poller {
    var now: nat
    var ctxs: map<nat, Ctx>
    var handles: map<nat, nat>
    var phase: Phase
    ghost var freed: seq<nat>
    ghost var calls: seq<Call>

    ghost function View(): State
      reads this
    {
      State(now, ctxs, handles, phase, freed, calls)
    }

    ghost predicate Valid()
      reads this
    {
      Inv(View())
    }

    constructor (time: nat)
      ensures Init(View()) && Valid() && now == time
    {
      now, ctxs, handles, phase := time, map[], map[], Idle;
      freed, calls := [], [];
    }

    /** uv_fs_poll_start() */
    method PollStart(h: nat, interval: nat, c: nat)
      requires Valid() && Enabled(View(), Start(h, interval, c))
      modifies this
      ensures Valid() && View() == Next(old(View()), Start(h, interval, c))
    {
      NextInv(View(), Start(h, interval, c));
      hide Inv;
      if h in handles {
        return;
      }
      ctxs := ctxs[c := Ctx(Some(h), 0, if interval != 0 then interval else 1, now, true, Inactive, 0)];
      handles := handles[h := c];
    }

    /** uv_fs_poll_stop() */
    method PollStop(h: nat)
      requires Valid() && Enabled(View(), Stop(h))
      modifies this
      ensures Valid() && View() == Next(old(View()), Stop(h))
    {
      NextInv(View(), Stop(h));
      AssertionsHold(View(), Stop(h));
      hide Inv;
      if h !in handles {
        return;
      }
      var c := handles[h];
      var ctx := ctxs[c];
      handles := handles - {h};
      var timer := ctx.timer;
      if timer.Active? {
        timer := Closing;
      }
      ctxs := ctxs[c := ctx.(parent := None, timer := timer)];
    }

    /** timer_cb() */
    method TimerCb(c: nat)
      requires Valid() && Enabled(View(), TimerFires(c))
      modifies this
      ensures Valid() && View() == Next(old(View()), TimerFires(c))
    {
      NextInv(View(), TimerFires(c));
      AssertionsHold(View(), TimerFires(c));
      var ctx := ctxs[c];
      assert ctx.parent.Some? && handles[ctx.parent.value] == c;
      hide Inv;
      ctxs := ctxs[c := ctx.(timer := Inactive, start := now, stat := true)];
    }

    /** poll_cb() up to the user's callback: whether it is called. */
    method PollCb(c: nat, result: int, statbuf: nat) returns (called: bool)
      requires Valid() && Enabled(View(), PollBegin(c, result, statbuf))
      modifies this
      ensures Valid() && View() == Next(old(View()), PollBegin(c, result, statbuf))
      ensures if called then |calls| == |old(calls)| + 1 && calls[|old(calls)|].c == c else calls == old(calls)
    {
      NextInv(View(), PollBegin(c, result, statbuf));
      hide Inv;
      called := false;
      var ctx := ctxs[c].(stat := false);
      if ctx.parent.None? {
        ctxs := ctxs[c := ctx.(timer := Closing)];
        return;
      }
      var busyPolling, found, curr := ctx.busy, ctx.statbuf, 0;
      if result != 0 {
        if ctx.busy != result {
          called := true;
        }
        busyPolling := result;
      } else {
        if ctx.busy != 0 {
          if ctx.busy < 0 || ctx.statbuf != statbuf {
            called := true;
          }
        }
        curr := statbuf;
        found := statbuf;
        busyPolling := 1;
      }
      if called {
        calls := calls + [Call(c, result, ctx.statbuf, curr)];
      }
      ctxs := ctxs[c := ctx];
      phase := Polling(c, called, busyPolling, found);
    }

    /** poll_cb() after the user's callback: close the timer or start it again. */
    method PollCbOut()
      requires Valid() && Enabled(View(), PollEnd)
      modifies this
      ensures Valid() && View() == Next(old(View()), PollEnd)
    {
      hide Inv;
      NextInv(View(), PollEnd);
      RearmedKeeps(View(), PollEnd);
      var c := phase.c;
      var ctx := ctxs[c].(busy := phase.busy, statbuf := phase.statbuf);
      phase := Idle;
      if ctx.parent.None? {
        ctxs := ctxs[c := ctx.(timer := Closing)];
        return;
      }
      var interval := ctx.interval;
      interval := interval - (now - ctx.start) % interval;
      ctxs := ctxs[c := ctx.(timer := Active(now + interval))];
    }

    /** timer_close_cb() */
    method TimerCloseCb(c: nat)
      requires Valid() && Enabled(View(), TimerClosed(c))
      modifies this
      ensures Valid() && View() == Next(old(View()), TimerClosed(c))
      ensures c !in ctxs && c !in old(freed)
    {
      assert CtxOk(View(), c);
      NextInv(View(), TimerClosed(c));
      hide Inv;
      ctxs := ctxs - {c};
      freed := freed + [c];
    }
  }
}
