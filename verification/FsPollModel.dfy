/** The polling contexts of src/fs-poll.c: start, stop, stat completion, timer expiry and timer
    close in any order, with user callbacks that start and stop handles themselves. */
module FsPollModel {
  import opened Basics

  /** The context's timer: its close callback is due once uv_close was called. */
  datatype Timer = Inactive | Active(due: nat) | Closing

  /** `parent` is parent_handle, `stat` tells whether fs_req is in flight; a `statbuf` stands for
      the fields that statbuf_eq compares, 0 for zeroed ones. */
  datatype Ctx = Ctx(parent: Option<nat>, busy: int, interval: nat, start: nat, stat: bool, timer: Timer, statbuf: nat)

  /** What the loop thread is in: nothing, or poll_cb of a context, having called the user's
      callback or not, with the values that busy_polling and statbuf get behind it. */
  datatype Phase = Idle | Polling(c: nat, called: bool, busy: int, statbuf: nat)

  /** A call of the user's callback, with its status and the two stat results it gets. */
  datatype Call = Call(c: nat, status: int, prev: nat, curr: nat)

  /** `handles` maps an active handle to its context; `freed` logs the contexts freed,
      `calls` the user callbacks. */
  datatype State = State(now: nat, ctxs: map<nat, Ctx>, handles: map<nat, nat>, phase: Phase,
                         freed: seq<nat>, calls: seq<Call>)

  /** `c` names the new context; `result` and `statbuf` are the stat's, 0 or a negative error. */
  datatype Event =
    | Tick(dt: nat) | Start(h: nat, interval: nat, c: nat) | Stop(h: nat)
    | PollBegin(c: nat, result: int, statbuf: nat) | PollEnd | TimerFires(c: nat) | TimerClosed(c: nat)

  /** The user's code runs between the loop's callbacks, and inside a user callback. */
  predicate UserRuns(s: State) {
    s.phase.Idle? || s.phase.called
  }

  predicate Enabled(s: State, e: Event) {
    match e
    case Tick(_) => true
    case Start(h, _, c) => UserRuns(s) && c !in s.ctxs && c !in s.freed
    case Stop(h) => UserRuns(s)
    case PollBegin(c, result, _) => s.phase.Idle? && c in s.ctxs && s.ctxs[c].stat && result <= 0
    case PollEnd => s.phase.Polling? && s.phase.c in s.ctxs
    case TimerFires(c) => s.phase.Idle? && c in s.ctxs && s.ctxs[c].timer.Active? && s.ctxs[c].timer.due <= s.now
    case TimerClosed(c) => s.phase.Idle? && c in s.ctxs && s.ctxs[c].timer.Closing?
  }

  /** Whether poll_cb calls the user's callback: a new error, or a change after the first stat
      or after an error. */
  predicate Reports(x: Ctx, result: int, statbuf: nat) {
    if result != 0 then x.busy != result else x.busy != 0 && (x.busy < 0 || x.statbuf != statbuf)
  }

  /** uv_timer_start at the end of poll_cb. */
  function Rearmed(x: Ctx, now: nat): Ctx
    requires x.start <= now && x.interval > 0
  {
    x.(timer := Active(now + (x.interval - (now - x.start) % x.interval)))
  }

  function Next(s: State, e: Event): State
    requires Enabled(s, e)
  {
    match e
    case Tick(dt) => s.(now := s.now + dt)
    case Start(h, interval, c) =>
      if h in s.handles then s
      else
        var x := Ctx(Some(h), 0, if interval != 0 then interval else 1, s.now, true, Inactive, 0);
        s.(ctxs := s.ctxs[c := x], handles := s.handles[h := c])
    case Stop(h) =>
      if h !in s.handles || s.handles[h] !in s.ctxs then s
      else
        var c := s.handles[h];
        var x := s.ctxs[c].(parent := None);
        s.(ctxs := s.ctxs[c := if x.timer.Active? then x.(timer := Closing) else x], handles := s.handles - {h})
    case PollBegin(c, result, statbuf) =>
      var x := s.ctxs[c].(stat := false);
      if x.parent.None? then s.(ctxs := s.ctxs[c := x.(timer := Closing)])
      else
        var called := Reports(x, result, statbuf);
        var curr := if result != 0 then 0 else statbuf;
        s.(ctxs := s.ctxs[c := x], calls := if called then s.calls + [Call(c, result, x.statbuf, curr)] else s.calls,
           phase := if result != 0 then Polling(c, called, result, x.statbuf) else Polling(c, called, 1, statbuf))
    case PollEnd =>
      var c := s.phase.c;
      var x := s.ctxs[c].(busy := s.phase.busy, statbuf := s.phase.statbuf);
      s.(phase := Idle,
         ctxs := s.ctxs[c := if x.parent.Some? && x.start <= s.now && x.interval > 0 then Rearmed(x, s.now)
                             else x.(timer := Closing)])
    case TimerFires(c) => s.(ctxs := s.ctxs[c := s.ctxs[c].(timer := Inactive, start := s.now, stat := true)])
    case TimerClosed(c) => s.(ctxs := s.ctxs - {c}, freed := s.freed + [c])
  }

  predicate Init(s: State) {
    s.ctxs == map[] && s.handles == map[] && s.phase == Idle && s.freed == [] && s.calls == []
  }

  predicate Run(s: State, events: seq<Event>)
    decreases |events|
  {
    events == [] || (Enabled(s, events[0]) && Run(Next(s, events[0]), events[1..]))
  }

  function After(s: State, events: seq<Event>): State
    requires Run(s, events)
    decreases |events|
  {
    if events == [] then s else After(Next(s, events[0]), events[1..])
  }

  // What every run keeps.

  /** A context has one thing outstanding: the stat or the timer or, if stopped, the stat or
      the close callback; in its own poll_cb nothing. */
  predicate CtxOk(s: State, c: nat)
    requires c in s.ctxs
  {
    var x := s.ctxs[c];
    && x.interval > 0 && x.start <= s.now && c !in s.freed
    && (x.parent.Some? ==> x.parent.value in s.handles && s.handles[x.parent.value] == c)
    && if s.phase.Polling? && s.phase.c == c then !x.stat && x.timer.Inactive?
       else if x.parent.Some? then (x.stat && x.timer.Inactive?) || (!x.stat && x.timer.Active?)
       else (x.stat && x.timer.Inactive?) || (!x.stat && x.timer.Closing?)
  }

  predicate HandleOk(s: State, h: nat)
    requires h in s.handles
  {
    s.handles[h] in s.ctxs && s.ctxs[s.handles[h]].parent == Some(h)
  }

  predicate Inv(s: State) {
    && (forall c :: c in s.ctxs ==> CtxOk(s, c))
    && (forall h :: h in s.handles ==> HandleOk(s, h))
    && (s.phase.Polling? ==> s.phase.c in s.ctxs && s.phase.busy != 0)
    && (forall i, j :: 0 <= i < j < |s.freed| ==> s.freed[i] != s.freed[j])
  }

  lemma NextInv(s: State, e: Event)
    requires Inv(s) && Enabled(s, e)
    ensures Inv(Next(s, e))
  {
    hide Reports, Rearmed;
    var t := Next(s, e);
    forall c | c in t.ctxs ensures CtxOk(t, c) {
      if c in s.ctxs { assert CtxOk(s, c); }
      RearmedKeeps(s, e);
    }
    forall h | h in t.handles ensures HandleOk(t, h) {
      if h in s.handles { assert HandleOk(s, h) && CtxOk(s, s.handles[h]); }
      RearmedKeeps(s, e);
    }
    if e.TimerClosed? {
      assert CtxOk(s, e.c);
    }
  }

  lemma RearmedKeeps(s: State, e: Event)
    requires Inv(s) && Enabled(s, e)
    ensures e.PollEnd? ==>
      var x := s.ctxs[s.phase.c].(busy := s.phase.busy, statbuf := s.phase.statbuf);
      x.start <= s.now && x.interval > 0
      && Rearmed(x, s.now) == x.(timer := Rearmed(x, s.now).timer) && Rearmed(x, s.now).timer.Active?
  {
    if e.PollEnd? {
      assert CtxOk(s, s.phase.c);
    }
  }

  lemma {:induction false} RunInv(s: State, events: seq<Event>)
    requires Inv(s) && Run(s, events)
    ensures Inv(After(s, events))
    decreases |events|
  {
    hide Inv, Next, Enabled;
    if events != [] {
      NextInv(s, events[0]);
      RunInv(Next(s, events[0]), events[1..]);
    }
  }

  /** In every run each context is freed at most once, and at any time a live context that was
      not stopped has exactly one of stat and timer outstanding, except inside its own
      poll_cb. */
  lemma ContextLifetime(s: State, events: seq<Event>, c: nat)
    requires Init(s) && Run(s, events)
    ensures var t := After(s, events);
      && (forall i, j :: 0 <= i < j < |t.freed| ==> t.freed[i] != t.freed[j])
      && (c in t.ctxs ==> c !in t.freed)
      && (c in t.ctxs && t.ctxs[c].parent.Some? && !(t.phase.Polling? && t.phase.c == c)
          ==> (t.ctxs[c].stat <==> !t.ctxs[c].timer.Active?) && !t.ctxs[c].timer.Closing?)
  {
    RunInv(s, events);
    var t := After(s, events);
    if c in t.ctxs {
      assert CtxOk(t, c);
    }
  }

  /** What is freed has neither a stat in flight nor an active timer, and is no handle's. */
  lemma FreedAtRest(s: State, c: nat)
    requires Inv(s) && Enabled(s, TimerClosed(c))
    ensures !s.ctxs[c].stat && !s.ctxs[c].timer.Active? && s.ctxs[c].parent.None?
    ensures forall h :: h in s.handles ==> s.handles[h] != c
  {
    assert CtxOk(s, c);
    forall h | h in s.handles ensures s.handles[h] != c {
      assert HandleOk(s, h);
    }
  }

  /** The assertions of the source: a timer that fires has its parent, whose context it is;
      uv_close and uv_timer_start are never called on a timer that is closing; and stop finds
      a context with its parent set. */
  lemma AssertionsHold(s: State, e: Event)
    requires Inv(s) && Enabled(s, e)
    ensures e.TimerFires? ==>
      var p := s.ctxs[e.c].parent; p.Some? && p.value in s.handles && s.handles[p.value] == e.c && !s.ctxs[e.c].stat
    ensures e.PollBegin? || e.PollEnd? ==>
      s.ctxs[if e.PollBegin? then e.c else s.phase.c].timer.Inactive?
    ensures e.Stop? && e.h in s.handles ==>
      s.handles[e.h] in s.ctxs && s.ctxs[s.handles[e.h]].parent == Some(e.h) && !s.ctxs[s.handles[e.h]].timer.Closing?
  {
    match e
    case TimerFires(c) => assert CtxOk(s, c);
    case PollBegin(c, _, _) => assert CtxOk(s, c);
    case PollEnd => assert CtxOk(s, s.phase.c);
    case Stop(h) => if h in s.handles { assert HandleOk(s, h) && CtxOk(s, s.handles[h]); }
    case _ =>
  }

  /** No user callback runs for a context that was stopped. */
  lemma CallsOnlyActive(s: State, e: Event)
    requires Inv(s) && Enabled(s, e)
    ensures Next(s, e).calls != s.calls ==>
      && e.PollBegin? && s.ctxs[e.c].parent.Some?
      && Next(s, e).calls
         == s.calls + [Call(e.c, e.result, s.ctxs[e.c].statbuf, if e.result != 0 then 0 else e.statbuf)]
      && s.ctxs[e.c].parent.value in s.handles && s.handles[s.ctxs[e.c].parent.value] == e.c
      && Reports(s.ctxs[e.c], e.result, e.statbuf)
  {
    if e.PollBegin? {
      assert CtxOk(s, e.c);
    }
  }

  lemma {:induction false} Multiples(a: nat, n: nat)
    requires n > 0
    ensures a == a / n * n + a % n && 0 <= a % n < n
  {
  }

  /** A rearmed timer is due at the first start + k * interval after now. */
  lemma RearmGrid(s: State)
    requires Inv(s) && Enabled(s, PollEnd) && s.ctxs[s.phase.c].parent.Some?
    ensures var x, y := s.ctxs[s.phase.c], Next(s, PollEnd).ctxs[s.phase.c];
      && y.timer.Active? && s.now < y.timer.due <= s.now + x.interval
      && exists k: nat :: k > 0 && y.timer.due == x.start + k * x.interval
  {
    var c := s.phase.c;
    assert CtxOk(s, c);
    var x := s.ctxs[c];
    var y := Next(s, PollEnd).ctxs[c];
    var k := (s.now - x.start) / x.interval + 1;
    Multiples(s.now - x.start, x.interval);
    assert k * x.interval == (s.now - x.start) / x.interval * x.interval + x.interval;
    assert y.timer.due == x.start + k * x.interval;
  }

  /** The calls for one context. */
  function CallsOf(calls: seq<Call>, c: nat): seq<Call> {
    if calls == [] then []
    else
      var last := calls[|calls| - 1];
      CallsOf(calls[..|calls| - 1], c) + (if last.c == c then [last] else [])
  }

  lemma CallsMore(calls: seq<Call>, x: Call, c: nat)
    ensures CallsOf(calls + [x], c) == CallsOf(calls, c) + if x.c == c then [x] else []
  {
    assert (calls + [x])[..|calls|] == calls;
  }

  /** Once stopped, a context is called back no more, whatever happens. */
  lemma {:induction false} StoppedForGood(s: State, events: seq<Event>, c: nat)
    requires Inv(s) && Run(s, events) && (c in s.freed || (c in s.ctxs && s.ctxs[c].parent.None?))
    ensures var t := After(s, events);
      && CallsOf(t.calls, c) == CallsOf(s.calls, c) && (c in t.freed || (c in t.ctxs && t.ctxs[c].parent.None?))
    decreases |events|
  {
    if events != [] {
      var e, t := events[0], Next(s, events[0]);
      NextInv(s, e);
      if c in s.ctxs { assert CtxOk(s, c); }
      if t.calls != s.calls {
        CallsOnlyActive(s, e);
        CallsMore(s.calls, t.calls[|s.calls|], c);
      }
      StoppedForGood(t, events[1..], c);
    }
  }

  // What is reported.

  /** The outcome of a stat. */
  datatype Outcome = Outcome(result: int, statbuf: nat)

  /** The outcomes of a context's stats among some events. */
  function History(events: seq<Event>, c: nat): seq<Outcome> {
    if events == [] then []
    else
      var e := events[0];
      (if e.PollBegin? && e.c == c then [Outcome(e.result, e.statbuf)] else []) + History(events[1..], c)
  }

  /** What the last success found, zeros before the first. */
  function LastFound(past: seq<Outcome>): nat {
    if past == [] then 0
    else if past[|past| - 1].result == 0 then past[|past| - 1].statbuf
    else LastFound(past[..|past| - 1])
  }

  /** Worth reporting after `past`: an error that is not the previous one, a success after an
      error, or a success that found something else than the success before. */
  predicate News(past: seq<Outcome>, x: Outcome) {
    if past == [] then x.result != 0
    else
      var last := past[|past| - 1];
      if x.result != 0 then last.result != x.result
      else last.result != 0 || LastFound(past) != x.statbuf
  }

  /** What a context remembers of its stats. */
  predicate Remembers(s: State, past: seq<Outcome>, c: nat) {
    && (c !in s.ctxs && c !in s.freed ==> past == [])
    && (forall i :: 0 <= i < |past| ==> past[i].result <= 0)
    && (c in s.ctxs && s.ctxs[c].parent.Some? ==>
          var polling := s.phase.Polling? && s.phase.c == c;
          var busy := if polling then s.phase.busy else s.ctxs[c].busy;
          && (if polling then s.phase.statbuf else s.ctxs[c].statbuf) == LastFound(past)
          && (past == [] ==> busy == 0)
          && (past != [] ==> busy == if past[|past| - 1].result != 0 then past[|past| - 1].result else 1))
  }

  lemma OwnStat(s: State, past: seq<Outcome>, e: Event, c: nat)
    requires Inv(s) && Enabled(s, e) && Remembers(s, past, c) && e.PollBegin? && e.c == c
    ensures Remembers(Next(s, e), past + [Outcome(e.result, e.statbuf)], c)
  {
    hide Reports;
    assert CtxOk(s, c);
    var all := past + [Outcome(e.result, e.statbuf)];
    assert all[..|past|] == past;
    assert LastFound(all) == if e.result == 0 then e.statbuf else LastFound(past);
    hide LastFound;
  }

  lemma PollOver(s: State, past: seq<Outcome>, c: nat)
    requires Inv(s) && Enabled(s, PollEnd) && Remembers(s, past, c)
    ensures Remembers(Next(s, PollEnd), past, c)
  {
    hide LastFound, Rearmed;
    RearmedKeeps(s, PollEnd);
    assert CtxOk(s, s.phase.c);
  }

  lemma NotItsStat(s: State, past: seq<Outcome>, e: Event, c: nat)
    requires Inv(s) && Enabled(s, e) && Remembers(s, past, c) && !e.PollEnd? && !(e.PollBegin? && e.c == c)
    ensures Remembers(Next(s, e), past, c)
  {
    hide LastFound, Reports, Rearmed;
    assert c in s.ctxs ==> CtxOk(s, c);
    assert s.phase.Polling? ==> s.phase.c in s.ctxs;
    assert past == [] ==> LastFound(past) == 0 by { NothingFound(); }
  }

  lemma NothingFound()
    ensures LastFound([]) == 0
  {
  }

  lemma NextRemembers(s: State, past: seq<Outcome>, e: Event, c: nat)
    requires Inv(s) && Enabled(s, e) && Remembers(s, past, c)
    ensures Remembers(Next(s, e), past + History([e], c), c)
  {
    hide Inv, Enabled, Next, Remembers;
    assert [e][1..] == [];
    if e.PollBegin? && e.c == c {
      OwnStat(s, past, e, c);
      assert past + ([Outcome(e.result, e.statbuf)] + []) == past + [Outcome(e.result, e.statbuf)];
    } else {
      assert past + ([] + []) == past;
      if e.PollEnd? {
        PollOver(s, past, c);
      } else {
        NotItsStat(s, past, e, c);
      }
    }
  }

  lemma HistoryFront(past: seq<Outcome>, events: seq<Event>, c: nat)
    ensures events == [] ==> past + History(events, c) == past
    ensures events != [] ==> past + History([events[0]], c) + History(events[1..], c) == past + History(events, c)
  {
    if events != [] {
      assert [events[0]][1..] == [];
      assert History([events[0]], c) + [] == History([events[0]], c);
    }
  }

  lemma {:induction false} RunRemembers(s: State, past: seq<Outcome>, events: seq<Event>, c: nat)
    requires Inv(s) && Run(s, events) && Remembers(s, past, c)
    ensures Remembers(After(s, events), past + History(events, c), c)
    decreases |events|
  {
    hide Inv, Next, Enabled, Remembers, History;
    HistoryFront(past, events, c);
    if events != [] {
      var e := events[0];
      NextInv(s, e);
      NextRemembers(s, past, e, c);
      RunRemembers(Next(s, e), past + History([e], c), events[1..], c);
    }
  }

  /** In every run the stat of a context that is not stopped is reported if and only if it is
      news after that context's earlier stats; the user gets its result, what the success
      before had found, and what it found itself. The first success is silent. */
  lemma ReportedIff(s: State, events: seq<Event>, c: nat, result: int, statbuf: nat)
    requires Init(s) && Run(s, events) && Enabled(After(s, events), PollBegin(c, result, statbuf))
    requires After(s, events).ctxs[c].parent.Some?
    ensures var t, past := After(s, events), History(events, c);
      Next(t, PollBegin(c, result, statbuf)).calls
      == if News(past, Outcome(result, statbuf))
         then t.calls + [Call(c, result, LastFound(past), if result != 0 then 0 else statbuf)]
         else t.calls
  {
    RunInv(s, events);
    RunRemembers(s, [], events, c);
    assert [] + History(events, c) == History(events, c);
    hide Run, After;
  }

  // What was asked for.

  /** A context keeps its interval. */
  lemma {:induction false} IntervalStays(s: State, events: seq<Event>, c: nat)
    requires Inv(s) && Run(s, events) && c in s.ctxs
    ensures var t := After(s, events);
      (c in t.ctxs || c in t.freed) && (c in t.ctxs ==> t.ctxs[c].interval == s.ctxs[c].interval)
    decreases |events|
  {
    hide Reports;
    if events != [] {
      var e := events[0];
      NextInv(s, e);
      RearmedKeeps(s, e);
      assert CtxOk(s, c);
      if c in Next(s, e).ctxs {
        IntervalStays(Next(s, e), events[1..], c);
      } else {
        FreedStays(Next(s, e), events[1..], c);
      }
    }
  }

  lemma {:induction false} FreedStays(s: State, events: seq<Event>, c: nat)
    requires Inv(s) && Run(s, events) && c in s.freed
    ensures c in After(s, events).freed && c !in After(s, events).ctxs
    decreases |events|
  {
    assert c in s.ctxs ==> CtxOk(s, c);
    if events != [] {
      NextInv(s, events[0]);
      FreedStays(Next(s, events[0]), events[1..], c);
    }
  }

  /** The context that a start makes polls at the interval asked for, at 1 if that is 0, as long
      as it lives, and a stat is under way at once. */
  lemma StartedAsAsked(s: State, h: nat, interval: nat, c: nat, events: seq<Event>)
    requires Inv(s) && Enabled(s, Start(h, interval, c)) && h !in s.handles && Run(Next(s, Start(h, interval, c)), events)
    ensures var t := Next(s, Start(h, interval, c));
      t.handles == s.handles[h := c] && t.ctxs[c].stat && t.ctxs[c].start == s.now
    ensures var u := After(Next(s, Start(h, interval, c)), events);
      c in u.ctxs ==> u.ctxs[c].interval == if interval == 0 then 1 else interval
  {
    NextInv(s, Start(h, interval, c));
    IntervalStays(Next(s, Start(h, interval, c)), events, c);
  }

  /** The grid of a context's polls begins where its last stat began, and moves with no other
      event. */
  lemma GridStart(s: State, e: Event, c: nat)
    requires Inv(s) && Enabled(s, e) && c in Next(s, e).ctxs
    ensures var y := Next(s, e).ctxs[c]; var already := c in s.ctxs && s.ctxs[c].stat;
      y.start == if y.stat && !already then s.now else s.ctxs[c].start
  {
    hide Reports;
    RearmedKeeps(s, e);
    assert c in s.ctxs ==> CtxOk(s, c);
  }

  // Coming to rest.

  /** The loop's callbacks, without what the user does in between. */
  predicate Callback(e: Event) {
    e.PollBegin? || e.PollEnd? || e.TimerFires? || e.TimerClosed?
  }

  /** A bound on the callbacks of a context still to come at this time. */
  function Cost(s: State, c: nat): nat {
    if c !in s.ctxs then 0
    else
      var x := s.ctxs[c];
      if s.phase.Polling? && s.phase.c == c then if x.parent.Some? then 1 else 2
      else if x.stat then 2
      else match x.timer
        case Inactive => 0
        case Active(due) => if due <= s.now then 3 else 0
        case Closing => 1
  }

  function Total(s: State, ids: seq<nat>): nat {
    if ids == [] then 0 else Cost(s, ids[0]) + Total(s, ids[1..])
  }

  /** The context that a callback is about. */
  function About(s: State, e: Event): nat
    requires Callback(e) && Enabled(s, e)
  {
    if e.PollEnd? then s.phase.c else e.c
  }

  /** Every callback brings its context one nearer to rest and leaves the others alone. */
  lemma StepCost(s: State, e: Event, c: nat)
    requires Inv(s) && Enabled(s, e) && Callback(e)
    ensures Next(s, e).ctxs.Keys <= s.ctxs.Keys && About(s, e) in s.ctxs
    ensures if c == About(s, e) then Cost(Next(s, e), c) < Cost(s, c) else Cost(Next(s, e), c) == Cost(s, c)
  {
    hide Reports;
    if c in s.ctxs { assert CtxOk(s, c); }
    assert CtxOk(s, About(s, e));
    if e.PollEnd? {
      Multiples(s.now - s.ctxs[s.phase.c].start, s.ctxs[s.phase.c].interval);
    }
  }

  lemma {:induction false} TotalLess(s: State, t: State, ids: seq<nat>, c: nat)
    requires forall d :: if d == c then Cost(t, d) < Cost(s, d) else Cost(t, d) == Cost(s, d)
    ensures Total(t, ids) <= Total(s, ids) && (c in ids ==> Total(t, ids) < Total(s, ids))
    decreases ids
  {
    hide Cost;
    if ids != [] {
      TotalLess(s, t, ids[1..], c);
      assert ids == [ids[0]] + ids[1..];
    }
  }

  lemma {:induction false} CallbacksEnd(s: State, events: seq<Event>, ids: seq<nat>)
    requires Inv(s) && Run(s, events) && (forall e :: e in events ==> Callback(e)) && forall c :: c in s.ctxs ==> c in ids
    ensures |events| <= Total(s, ids)
    decreases |events|
  {
    hide Inv, Enabled, Next, Cost, Callback;
    if events != [] {
      var e, t := events[0], Next(s, events[0]);
      StepCost(s, e, About(s, e));
      forall d ensures if d == About(s, e) then Cost(t, d) < Cost(s, d) else Cost(t, d) == Cost(s, d) {
        StepCost(s, e, d);
      }
      TotalLess(s, t, ids, About(s, e));
      NextInv(s, e);
      CallbacksEnd(t, events[1..], ids);
    }
  }

  /** Nothing is left to call back at this time. */
  ghost predicate Quiet(s: State) {
    forall e :: Callback(e) ==> !Enabled(s, e)
  }

  /** At rest every context is one that its handle still has, waiting for its timer. */
  lemma QuietMeansActive(s: State, c: nat)
    requires Inv(s) && Quiet(s) && c in s.ctxs
    ensures var x := s.ctxs[c];
      x.parent.Some? && x.parent.value in s.handles && s.handles[x.parent.value] == c && !x.stat
      && x.timer.Active? && x.timer.due > s.now
  {
    assert CtxOk(s, c);
    assert !Enabled(s, PollEnd) && !Enabled(s, PollBegin(c, 0, 0));
    assert !Enabled(s, TimerFires(c)) && !Enabled(s, TimerClosed(c));
  }

  /** No context leaks: from any reachable state on the loop's callbacks come to an end, and
      then every context stopped before has been freed. */
  lemma EveryStoppedFreed(s: State, events: seq<Event>, more: seq<Event>, ids: seq<nat>, c: nat)
    requires Init(s) && Run(s, events) && Run(After(s, events), more) && forall e :: e in more ==> Callback(e)
    requires forall d :: d in After(s, events).ctxs ==> d in ids
    ensures |more| <= Total(After(s, events), ids)
    ensures var m := After(s, events); var u := After(m, more);
      Quiet(u) && c in m.ctxs && m.ctxs[c].parent.None? ==> c in u.freed && c !in u.ctxs
  {
    var m := After(s, events);
    RunInv(s, events);
    RunInv(m, more);
    CallbacksEnd(m, more, ids);
    var u := After(m, more);
    if Quiet(u) && c in m.ctxs && m.ctxs[c].parent.None? {
      StoppedForGood(m, more, c);
      hide Run, After, Quiet;
      if c in u.ctxs { QuietMeansActive(u, c); }
    }
  }
}
