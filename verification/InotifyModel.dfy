/** The watcher lists of src/unix/linux-inotify.c while an event is delivered and callbacks
    start and stop watchers. The red-black tree of lists is a map from watch descriptors. */
module InotifyModel {
  import opened Basics

  /** struct watcher_list */
  datatype List = List(watchers: seq<nat>, iterating: bool)

  /** The event being delivered: the local queue; for the proof also the watchers there were
      at its beginning, those called so far, and those stopped before their turn. */
  datatype Delivery = Quiet | Delivery(wd: int, queue: seq<nat>, start: seq<nat>, called: seq<nat>, gone: set<nat>)

  /** `active` maps an active handle to its `wd`. */
  datatype State = State(lists: map<int, List>, active: map<nat, int>, now: Delivery)

  datatype Event = Start(h: nat, wd: int) | Stop(h: nat) | Begin(wd: int) | Turn | End

  predicate Enabled(s: State, e: Event) {
    match e
    case Start(_, _) => true
    case Stop(_) => true
    case Begin(_) => s.now.Quiet?
    case Turn => s.now.Delivery? && s.now.queue != [] && s.now.wd in s.lists
    case End => s.now.Delivery? && s.now.queue == [] && s.now.wd in s.lists
  }

  /** maybe_free_watcher_list */
  function MaybeFree(lists: map<int, List>, wd: int): map<int, List>
    requires wd in lists
  {
    if !lists[wd].iterating && lists[wd].watchers == [] then lists - {wd} else lists
  }

  function Next(s: State, e: Event): State
    requires Enabled(s, e)
  {
    match e
    case Start(h, wd) =>
      if h in s.active then s
      else
        var w := if wd in s.lists then s.lists[wd] else List([], false);
        s.(lists := s.lists[wd := w.(watchers := w.watchers + [h])], active := s.active[h := wd])
    case Stop(h) =>
      if h !in s.active || s.active[h] !in s.lists then s
      else
        var wd := s.active[h];
        var w := s.lists[wd];
        State(MaybeFree(s.lists[wd := w.(watchers := Drop(w.watchers, h))], wd), s.active - {h},
              if s.now.Delivery? && h in s.now.queue
              then s.now.(queue := Drop(s.now.queue, h), gone := s.now.gone + {h}) else s.now)
    case Begin(wd) =>
      if wd !in s.lists then s
      else
        var q := s.lists[wd].watchers;
        s.(lists := s.lists[wd := List([], true)], now := Delivery(wd, q, q, [], {}))
    case Turn =>
      var h, w := s.now.queue[0], s.lists[s.now.wd];
      s.(lists := s.lists[s.now.wd := w.(watchers := w.watchers + [h])],
         now := s.now.(queue := s.now.queue[1..], called := s.now.called + [h]))
    case End =>
      s.(lists := MaybeFree(s.lists[s.now.wd := s.lists[s.now.wd].(iterating := false)], s.now.wd), now := Quiet)
  }

  predicate Init(s: State) {
    s == State(map[], map[], Quiet)
  }

  predicate Run(s: State, events: seq<Event>)
    decreases |events|
  {
    events == [] || (Enabled(s, events[0]) && Run(Next(s, events[0]), events[1..]))
  }

  function After(s: State, events: seq<Event>): State
    requires Run(s, events)
    decreases |events|
  {
    if events == [] then s else After(Next(s, events[0]), events[1..])
  }

  // What every run keeps.

  /** The watchers of a list, those in the local queue included. */
  function Watchers(s: State, wd: int): seq<nat>
    requires wd in s.lists
  {
    s.lists[wd].watchers + if s.now.Delivery? && s.now.wd == wd then s.now.queue else []
  }

  predicate ListOk(s: State, wd: int)
    requires wd in s.lists
  {
    && (s.lists[wd].iterating <==> s.now.Delivery? && s.now.wd == wd)
    && (!s.lists[wd].iterating ==> s.lists[wd].watchers != [])
    && Distinct(Watchers(s, wd))
    && forall h :: h in Watchers(s, wd) ==> h in s.active && s.active[h] == wd
  }

  predicate HandleOk(s: State, h: nat)
    requires h in s.active
  {
    s.active[h] in s.lists && h in Watchers(s, s.active[h])
  }

  /** The elements of `q` that are not in `gone`, in order. */
  function Kept(q: seq<nat>, gone: set<nat>): seq<nat> {
    if q == [] then [] else (if q[0] in gone then [] else [q[0]]) + Kept(q[1..], gone)
  }

  /** Called so far, and still to be called: the watchers of the beginning in their order,
      without those stopped before their turn. */
  predicate DeliveryOk(d: Delivery) {
    d.Delivery? ==> Distinct(d.start) && Kept(d.start, d.gone) == d.called + d.queue
  }

  predicate Inv(s: State) {
    && (forall wd :: wd in s.lists ==> ListOk(s, wd))
    && (forall h :: h in s.active ==> HandleOk(s, h))
    && DeliveryOk(s.now)
    && (s.now.Delivery? ==> s.now.wd in s.lists)
  }

  lemma {:induction false} KeptIs(q: seq<nat>, gone: set<nat>)
    ensures forall x :: x in Kept(q, gone) <==> x in q && x !in gone
    ensures Distinct(q) ==> Distinct(Kept(q, gone))
  {
    if q != [] {
      KeptIs(q[1..], gone);
      assert Distinct(q) ==> q[0] !in q[1..];
    }
  }

  lemma {:induction false} KeptLess(q: seq<nat>, gone: set<nat>, x: nat)
    ensures Kept(q, gone + {x}) == Drop(Kept(q, gone), x)
  {
    if q != [] {
      KeptLess(q[1..], gone, x);
      var k := Kept(q[1..], gone);
      assert ([q[0]] + k)[1..] == k && [] + k == k;
      assert q[0] in gone + {x} <==> q[0] in gone || q[0] == x;
    }
  }

  lemma {:induction false} KeptAll(q: seq<nat>)
    ensures Kept(q, {}) == q
  {
    if q != [] {
      KeptAll(q[1..]);
    }
  }

  /** A watcher that leaves the local queue leaves what is still to be called. */
  lemma StopDelivery(d: Delivery, h: nat)
    requires d.Delivery? && DeliveryOk(d) && h in d.queue
    ensures DeliveryOk(d.(queue := Drop(d.queue, h), gone := d.gone + {h}))
  {
    KeptLess(d.start, d.gone, h);
    KeptIs(d.start, d.gone);
    DropSum(d.called, d.queue, h);
    var i :| 0 <= i < |d.queue| && d.queue[i] == h;
    assert (d.called + d.queue)[|d.called| + i] == h;
    forall j | 0 <= j < |d.called| ensures d.called[j] != h {
      assert (d.called + d.queue)[j] == d.called[j];
    }
    DropAbsent(d.called, h);
  }

  /** A start concerns one list and one handle. */
  lemma StartShape(s: State, h: nat, wd: int)
    requires Inv(s) && h !in s.active
    ensures var t := Next(s, Start(h, wd));
      && t.active == s.active[h := wd] && t.now == s.now && wd in t.lists
      && (forall d :: d != wd ==> (d in t.lists <==> d in s.lists))
      && (forall d :: d in s.lists ==> t.lists[d].iterating == s.lists[d].iterating)
      && (forall d :: d != wd && d in t.lists ==> t.lists[d] == s.lists[d] && Watchers(t, d) == Watchers(s, d))
      && t.lists[wd].watchers != []
      && (wd !in s.lists ==> !t.lists[wd].iterating && Watchers(t, wd) == [h])
      && (wd in s.lists ==> h !in Watchers(s, wd) && Distinct(Watchers(t, wd))
                            && forall x :: x in Watchers(t, wd) <==> x == h || x in Watchers(s, wd))
  {
    hide DeliveryOk, Distinct;
    if wd in s.lists {
      assert ListOk(s, wd);
      Inserted(s.lists[wd].watchers, if s.now.Delivery? && s.now.wd == wd then s.now.queue else [], h);
    }
  }

  lemma StartList(s: State, h: nat, wd: int, d: int)
    requires Inv(s) && h !in s.active && d in Next(s, Start(h, wd)).lists
    ensures ListOk(Next(s, Start(h, wd)), d)
  {
    hide DeliveryOk, Distinct, Next, Watchers;
    StartShape(s, h, wd);
    OneDistinct(h);
    if d in s.lists {
      assert ListOk(s, d);
    }
  }

  lemma StartHandle(s: State, h: nat, wd: int, g: nat)
    requires Inv(s) && h !in s.active && g in Next(s, Start(h, wd)).active
    ensures HandleOk(Next(s, Start(h, wd)), g)
  {
    hide DeliveryOk, Distinct, Next, Watchers, ListOk;
    StartShape(s, h, wd);
    if g != h {
      assert HandleOk(s, g);
    }
  }

  lemma StartInv(s: State, h: nat, wd: int)
    requires Inv(s)
    ensures Inv(Next(s, Start(h, wd)))
  {
    var t := Next(s, Start(h, wd));
    if h !in s.active {
      hide DeliveryOk, ListOk, HandleOk;
      forall d | d in t.lists ensures ListOk(t, d) {
        StartList(s, h, wd, d);
      }
      forall g | g in t.active ensures HandleOk(t, g) {
        StartHandle(s, h, wd, g);
      }
    }
  }

  lemma OneDistinct(h: nat)
    ensures Distinct([h])
  {
  }

  lemma Inserted(p: seq<nat>, q: seq<nat>, h: nat)
    requires Distinct(p + q) && h !in p + q
    ensures Distinct(p + [h] + q)
    ensures forall x :: x in p + [h] + q <==> x == h || x in p + q
  {
    var s, t := p + q, p + [h] + q;
    forall i, j | 0 <= i < j < |t| ensures t[i] != t[j] {
      var i1 := if i <= |p| then i else i - 1;
      var j1 := if j <= |p| then j else j - 1;
      assert i != |p| ==> t[i] == s[i1];
      assert j != |p| ==> t[j] == s[j1];
    }
  }

  /** A stop concerns one list and one handle. */
  lemma StopShape(s: State, h: nat)
    requires Inv(s) && h in s.active
    ensures var t := Next(s, Stop(h)); var wd := s.active[h];
      && t.active == s.active - {h} && (t.now.Delivery? <==> s.now.Delivery?)
      && (t.now.Delivery? ==> t.now.wd == s.now.wd)
      && (forall d :: d != wd ==> (d in t.lists <==> d in s.lists))
      && (forall d :: d != wd && d in t.lists ==> t.lists[d] == s.lists[d] && Watchers(t, d) == Watchers(s, d))
      && wd in s.lists
      && (wd in t.lists ==> t.lists[wd].iterating == s.lists[wd].iterating
                            && (t.lists[wd].iterating || t.lists[wd].watchers != []))
      && (s.lists[wd].iterating ==> wd in t.lists)
  {
    hide DeliveryOk, Distinct, Drop;
    assert HandleOk(s, h) && ListOk(s, s.active[h]);
    Removed(s, h);
  }

  lemma StopInv(s: State, h: nat)
    requires Inv(s)
    ensures Inv(Next(s, Stop(h)))
  {
    if h in s.active {
      var wd := s.active[h];
      var t := Next(s, Stop(h));
      assert DeliveryOk(t.now) by {
        assert HandleOk(s, h);
        if s.now.Delivery? && h in s.now.queue {
          StopDelivery(s.now, h);
        }
      }
      hide DeliveryOk, Distinct, Drop, Next, Watchers;
      StopShape(s, h);
      Removed(s, h);
      assert ListOk(s, wd);
      forall d | d in t.lists ensures ListOk(t, d) {
        assert ListOk(s, d);
      }
      forall g | g in t.active ensures HandleOk(t, g) {
        assert HandleOk(s, g) && ListOk(s, s.active[g]);
        assert s.active[g] == wd ==> g in Drop(Watchers(s, wd), h);
      }
      if s.now.Delivery? {
        assert ListOk(s, s.now.wd);
      }
    }
  }

  /** The list that a stopped watcher was in, if it is still there. */
  lemma Removed(s: State, h: nat)
    requires Inv(s) && h in s.active
    ensures s.active[h] in s.lists
    ensures var t := Next(s, Stop(h)); var wd := s.active[h];
      && (s.now.Delivery? && s.now.wd != wd ==> h !in s.now.queue)
      && (wd in t.lists ==> Watchers(t, wd) == Drop(Watchers(s, wd), h) && Distinct(Watchers(t, wd)))
      && (wd !in t.lists ==> Drop(Watchers(s, wd), h) == [])
  {
    hide DeliveryOk;
    var wd := s.active[h];
    assert HandleOk(s, h) && ListOk(s, wd);
    DropDistinct(Watchers(s, wd), h);
    var q := if s.now.Delivery? && s.now.wd == wd then s.now.queue else [];
    DropSum(s.lists[wd].watchers, q, h);
    DropAbsentIf(q, h);
    if s.now.Delivery? && s.now.wd != wd {
      assert ListOk(s, s.now.wd);
      assert forall g :: g in s.now.queue ==> g in Watchers(s, s.now.wd);
    }
  }

  lemma DropAbsentIf(q: seq<nat>, x: nat)
    ensures x !in q ==> Drop(q, x) == q
  {
    if x !in q {
      DropAbsent(q, x);
    }
  }

  lemma BeginInv(s: State, wd: int)
    requires Inv(s) && Enabled(s, Begin(wd))
    ensures Inv(Next(s, Begin(wd)))
  {
    if wd in s.lists {
      var t := Next(s, Begin(wd));
      KeptAll(s.lists[wd].watchers);
      assert ListOk(s, wd);
      assert s.lists[wd].watchers + [] == s.lists[wd].watchers == [] + s.lists[wd].watchers;
      forall d | d in t.lists ensures ListOk(t, d) {
        assert ListOk(s, d);
        assert Watchers(t, d) == Watchers(s, d);
      }
      forall g | g in t.active ensures HandleOk(t, g) {
        assert HandleOk(s, g);
        assert Watchers(t, s.active[g]) == Watchers(s, s.active[g]);
      }
    }
  }

  lemma TurnInv(s: State)
    requires Inv(s) && Enabled(s, Turn)
    ensures Inv(Next(s, Turn))
  {
    var t, d := Next(s, Turn), s.now;
    assert d.called + d.queue == d.called + [d.queue[0]] + d.queue[1..];
    forall wd | wd in t.lists ensures ListOk(t, wd) && Watchers(t, wd) == Watchers(s, wd) {
      assert ListOk(s, wd);
      assert wd == d.wd ==> s.lists[wd].watchers + d.queue == s.lists[wd].watchers + [d.queue[0]] + d.queue[1..];
    }
    forall g | g in t.active ensures HandleOk(t, g) {
      assert HandleOk(s, g);
    }
  }

  lemma EndInv(s: State)
    requires Inv(s) && Enabled(s, End)
    ensures Inv(Next(s, End))
  {
    var t := Next(s, End);
    forall wd | wd in t.lists ensures ListOk(t, wd) && Watchers(t, wd) == Watchers(s, wd) {
      assert ListOk(s, wd);
    }
    forall g | g in t.active ensures HandleOk(t, g) {
      assert HandleOk(s, g);
    }
  }

  lemma NextInv(s: State, e: Event)
    requires Inv(s) && Enabled(s, e)
    ensures Inv(Next(s, e))
  {
    hide Inv, Next;
    match e
    case Start(h, wd) => StartInv(s, h, wd);
    case Stop(h) => StopInv(s, h);
    case Begin(wd) => BeginInv(s, wd);
    case Turn => TurnInv(s);
    case End => EndInv(s);
  }

  lemma {:induction false} RunInv(s: State, events: seq<Event>)
    requires Inv(s) && Run(s, events)
    ensures Inv(After(s, events))
    decreases |events|
  {
    hide Inv, Next, Enabled;
    if events != [] {
      NextInv(s, events[0]);
      RunInv(Next(s, events[0]), events[1..]);
    }
  }

  /** In every run the list being iterated is there, whatever callbacks stop; between events
      a list exists exactly if some active handle watches it; and an active handle's list is
      always found. */
  lemma ListLifetime(s: State, events: seq<Event>)
    requires Init(s) && Run(s, events)
    ensures var t := After(s, events);
      && (t.now.Delivery? ==> t.now.wd in t.lists && t.lists[t.now.wd].iterating)
      && (t.now.Quiet? ==> forall wd :: wd in t.lists <==> exists h :: h in t.active && t.active[h] == wd)
      && (forall h :: h in t.active ==> t.active[h] in t.lists)
  {
    RunInv(s, events);
    var t := After(s, events);
    if t.now.Delivery? {
      assert ListOk(t, t.now.wd);
    }
    forall h | h in t.active ensures t.active[h] in t.lists {
      assert HandleOk(t, h);
    }
    if t.now.Quiet? {
      forall wd | wd in t.lists ensures exists h :: h in t.active && t.active[h] == wd {
        assert ListOk(t, wd);
        assert t.lists[wd].watchers[0] in Watchers(t, wd);
      }
    }
  }

  /** When a delivery ends, exactly the watchers of its beginning that were not stopped before
      their turn were called, once each and in order; so no watcher added meanwhile was. */
  lemma EveryWatcherCalled(s: State)
    requires Inv(s) && Enabled(s, End)
    ensures s.now.called == Kept(s.now.start, s.now.gone) && Distinct(s.now.called)
    ensures forall h :: h in s.now.called <==> h in s.now.start && h !in s.now.gone
  {
    assert s.now.called + [] == s.now.called;
    KeptIs(s.now.start, s.now.gone);
  }

  /** Only a stop before its turn keeps a watcher from being called. */
  lemma GoneIsStopped(s: State, e: Event)
    requires Inv(s) && Enabled(s, e) && s.now.Delivery? && e != End
    ensures var d := Next(s, e).now;
      && d.Delivery? && d.start == s.now.start
      && forall h :: h in d.gone - s.now.gone ==> e == Stop(h) && h in s.now.queue
  {
  }

  // The order of a list's watchers.

  /** Only a stop takes a watcher out of the order in which a list's watchers are called. */
  lemma OrderNext(s: State, e: Event, wd: int, v: nat, w: nat)
    requires Inv(s) && Enabled(s, e) && e != Stop(v) && e != Stop(w)
    requires wd in s.lists && Precedes(Watchers(s, wd), v, w)
    ensures wd in Next(s, e).lists && Precedes(Watchers(Next(s, e), wd), v, w)
  {
    hide DeliveryOk;
    var t := Next(s, e);
    assert ListOk(s, wd);
    match e
    case Start(h, d) =>
      if h !in s.active {
        var q := if s.now.Delivery? && s.now.wd == wd then s.now.queue else [];
        PrecedesInserted(s.lists[wd].watchers, q, h, v, w);
      }
    case Stop(h) => OrderStop(s, h, wd, v, w);
    case Begin(d) => if d in s.lists { assert Watchers(t, wd) == Watchers(s, wd); }
    case Turn => assert Watchers(t, wd) == Watchers(s, wd);
    case End => assert Watchers(t, wd) == Watchers(s, wd);
  }

  lemma OrderStop(s: State, h: nat, wd: int, v: nat, w: nat)
    requires Inv(s) && h != v && h != w && wd in s.lists && Precedes(Watchers(s, wd), v, w)
    ensures wd in Next(s, Stop(h)).lists && Precedes(Watchers(Next(s, Stop(h)), wd), v, w)
  {
    if h in s.active {
      Removed(s, h);
      StopShape(s, h);
      hide Inv, Next, Watchers;
      PrecedesDropped(Watchers(s, wd), h, v, w);
    }
  }

  /** Watchers of one list keep their order, from one event to the next and during each, as
      long as neither is stopped. */
  lemma {:induction false} OrderKept(s: State, events: seq<Event>, wd: int, v: nat, w: nat)
    requires Inv(s) && Run(s, events) && Stop(v) !in events && Stop(w) !in events
    requires wd in s.lists && Precedes(Watchers(s, wd), v, w)
    ensures wd in After(s, events).lists && Precedes(Watchers(After(s, events), wd), v, w)
    decreases |events|
  {
    hide Inv, Next, Enabled, Watchers;
    if events != [] {
      assert events[0] in events;
      OrderNext(s, events[0], wd, v, w);
      NextInv(s, events[0]);
      OrderKept(Next(s, events[0]), events[1..], wd, v, w);
    }
  }

  /** The next event calls a list's watchers in that order, and a watcher started between two
      events comes last in it. */
  lemma OrderOfCalls(s: State, wd: int, h: nat, d: int)
    requires Inv(s) && Enabled(s, Begin(wd)) && wd in s.lists
    ensures Next(s, Begin(wd)).now.start == Next(s, Begin(wd)).now.queue == Watchers(s, wd)
    ensures h !in s.active ==> Watchers(Next(s, Start(h, d)), d) == (if d in s.lists then Watchers(s, d) else []) + [h]
  {
    assert s.lists[wd].watchers + [] == s.lists[wd].watchers;
    if d in s.lists {
      assert Watchers(s, d) == s.lists[d].watchers;
    }
  }
}
