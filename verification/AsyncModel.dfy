/** uv_async_send and uv__async_io as an interleaved protocol (src/unix/async.c:59-120): each
    event is one memory access, compare-and-swap, system call or loop-thread action. */
module AsyncModel {
  import opened Basics

  /** A uv_async_t, with or without a callback. */
  datatype Handle = Handle(id: nat, hasCb: bool)

  /** Where a thread is in uv_async_send: not in it; past the cheap read that found
      `pending` 0; past the compare-and-swap that set it. */
  datatype Sender = Out | Checked(h: Handle) | Won(h: Handle)

  /** Where the loop thread is in uv__async_io: not in it; reading; scanning. */
  datatype Phase = Idle | Reading | Scanning

  /** `list` is loop->async_handles, `queue` the local queue of the scan; `unread` what can be
      read from the descriptor; `sends` and `starts` count calls of uv_async_send and
      callbacks begun; `owed` holds the handles sent to since their callback last began. */
  datatype State = State(list: seq<Handle>, queue: seq<Handle>, phase: Phase, pending: set<Handle>, unread: nat,
                         senders: seq<Sender>, sends: multiset<Handle>, starts: multiset<Handle>, owed: set<Handle>)

  datatype Event =
    | Init(h: Handle) | Close(h: Handle)
    | Send(t: nat, h: Handle) | Cas(t: nat) | Write(t: nat, full: bool)
    | Poll | ReadPart(n: nat) | ReadLast | ScanOne | ScanEnd

  predicate Open(s: State, h: Handle) {
    h in s.list || h in s.queue
  }

  predicate Enabled(s: State, e: Event) {
    match e
    case Init(h) => !Open(s, h) && h !in s.pending && s.sends[h] == 0
    case Close(h) => Open(s, h)
    case Send(t, h) => t < |s.senders| && s.senders[t].Out? && Open(s, h)
    case Cas(t) => t < |s.senders| && s.senders[t].Checked?
    case Write(t, full) => t < |s.senders| && s.senders[t].Won? && (full ==> s.unread > 0)
    case Poll => s.phase.Idle? && s.unread > 0
    case ReadPart(n) => s.phase.Reading? && 0 < n <= s.unread
    case ReadLast => s.phase.Reading?
    case ScanOne => s.phase.Scanning? && s.queue != []
    case ScanEnd => s.phase.Scanning? && s.queue == []
  }

  function Next(s: State, e: Event): State
    requires Enabled(s, e)
  {
    match e
    case Init(h) => s.(list := s.list + [h])
    case Close(h) => s.(list := Drop(s.list, h), queue := Drop(s.queue, h))
    case Send(t, h) =>
      var u := s.(sends := s.sends + multiset{h}, owed := s.owed + {h});
      if h in s.pending then u else u.(senders := s.senders[t := Checked(h)])
    case Cas(t) =>
      var h := s.senders[t].h;
      if h in s.pending then s.(senders := s.senders[t := Out])
      else s.(pending := s.pending + {h}, senders := s.senders[t := Won(h)])
    case Write(t, full) =>
      s.(unread := if full then s.unread else s.unread + 1, senders := s.senders[t := Out])
    case Poll => s.(phase := Reading)
    case ReadPart(n) => s.(unread := s.unread - n)
    case ReadLast => s.(unread := 0, phase := Scanning, queue := s.list, list := [])
    case ScanOne =>
      var h := s.queue[0];
      var u := s.(queue := s.queue[1..], list := s.list + [h], pending := s.pending - {h});
      if h in s.pending && h.hasCb then u.(starts := s.starts + multiset{h}, owed := s.owed - {h}) else u
    case ScanEnd => s.(phase := Idle)
  }

  predicate Start(s: State) {
    && s.list == [] && s.queue == [] && s.phase == Idle && s.pending == {} && s.unread == 0
    && (forall t :: 0 <= t < |s.senders| ==> s.senders[t] == Out)
    && s.sends == multiset{} && s.starts == multiset{} && s.owed == {}
  }

  predicate Run(s: State, events: seq<Event>)
    decreases |events|
  {
    events == [] || (Enabled(s, events[0]) && Run(Next(s, events[0]), events[1..]))
  }

  function After(s: State, events: seq<Event>): State
    requires Run(s, events)
    decreases |events|
  {
    if events == [] then s else After(Next(s, events[0]), events[1..])
  }

  // What every interleaving keeps.

  predicate SenderAt(s: State, t: nat, x: Sender) {
    t < |s.senders| && s.senders[t] == x
  }

  /** A pending handle is not forgotten: there is something to read, or its sender has yet to
      write, or the loop is reading, or the scan has yet to come to it. */
  ghost predicate Remembered(s: State, h: Handle) {
    s.unread > 0 || (exists t :: SenderAt(s, t, Won(h))) || s.phase.Reading? || h in s.queue
  }

  /** A send since the last callback has left its mark, or is about to. */
  ghost predicate Marked(s: State, h: Handle) {
    h in s.pending || exists t :: SenderAt(s, t, Checked(h))
  }

  function IsChecking(x: Sender, h: Handle): nat {
    if x == Checked(h) then 1 else 0
  }

  function Checking(senders: seq<Sender>, h: Handle): nat {
    if senders == [] then 0 else IsChecking(senders[0], h) + Checking(senders[1..], h)
  }

  ghost predicate Inv(s: State) {
    && (s.queue != [] ==> s.phase.Scanning?)
    && (forall h :: h in s.pending && Open(s, h) ==> Remembered(s, h))
    && (forall h :: h in s.owed && h.hasCb && Open(s, h) ==> Marked(s, h))
    && (forall h :: h in s.owed ==> s.sends[h] > 0)
    && (forall h :: s.starts[h] + (if h in s.pending then 1 else 0) + Checking(s.senders, h) <= s.sends[h])
  }

  lemma {:induction false} CheckingSet(senders: seq<Sender>, t: nat, x: Sender, h: Handle)
    requires t < |senders|
    ensures Checking(senders[t := x], h)
         == Checking(senders, h) - IsChecking(senders[t], h) + IsChecking(x, h)
    decreases senders
  {
    if t == 0 {
      assert senders[t := x][1..] == senders[1..];
    } else {
      CheckingSet(senders[1..], t - 1, x, h);
      assert senders[t := x][1..] == senders[1..][t - 1 := x];
    }
  }

  lemma {:induction false} NoneChecking(senders: seq<Sender>, h: Handle)
    requires forall t :: 0 <= t < |senders| ==> senders[t] == Out
    ensures Checking(senders, h) == 0
  {
    if senders != [] {
      NoneChecking(senders[1..], h);
    }
  }

  lemma StartInv(s: State)
    requires Start(s)
    ensures Inv(s)
  {
    forall h: Handle ensures Checking(s.senders, h) == 0 {
      NoneChecking(s.senders, h);
    }
  }

  /** One sender changes, the others stay. */
  lemma OtherSenders(s: State, u: State, t: nat, x: Sender)
    requires t < |s.senders| && u.senders == s.senders[t := x]
    ensures forall v, y :: v != t ==> (SenderAt(u, v, y) <==> SenderAt(s, v, y))
    ensures SenderAt(u, t, x)
    ensures forall h :: Checking(u.senders, h)
                     == Checking(s.senders, h) - IsChecking(s.senders[t], h) + IsChecking(x, h)
  {
    forall h: Handle ensures Checking(u.senders, h)
                          == Checking(s.senders, h) - IsChecking(s.senders[t], h) + IsChecking(x, h)
    {
      CheckingSet(s.senders, t, x, h);
    }
  }

  lemma SendInv(s: State, t: nat, h: Handle)
    requires Inv(s) && Enabled(s, Send(t, h))
    ensures Inv(Next(s, Send(t, h)))
  {
    hide Checking;
    var u := Next(s, Send(t, h));
    if h !in s.pending {
      OtherSenders(s, u, t, Checked(h));
    } else {
      forall v, y ensures SenderAt(u, v, y) <==> SenderAt(s, v, y) {}
    }
    forall g | g in u.pending && Open(u, g) ensures Remembered(u, g) {
      assert Remembered(s, g);
      if v :| SenderAt(s, v, Won(g)) { assert v != t; }
    }
    forall g | g in u.owed && g.hasCb && Open(u, g) ensures Marked(u, g) {
      if g != h {
        assert Marked(s, g);
        if v :| SenderAt(s, v, Checked(g)) { assert v != t; }
      }
    }
  }

  lemma CasInv(s: State, t: nat)
    requires Inv(s) && Enabled(s, Cas(t))
    ensures Inv(Next(s, Cas(t)))
  {
    hide Checking;
    var u := Next(s, Cas(t));
    OtherSenders(s, u, t, u.senders[t]);
    forall g | g in u.pending && Open(u, g) ensures Remembered(u, g) {
      if g in s.pending {
        assert Remembered(s, g);
        if v :| SenderAt(s, v, Won(g)) { assert v != t; }
      }
    }
    forall g | g in u.owed && g.hasCb && Open(u, g) ensures Marked(u, g) {
      assert Marked(s, g);
      if g !in s.pending {
        var v :| SenderAt(s, v, Checked(g));
        assert v == t ==> g in u.pending;
      }
    }
  }

  lemma WriteInv(s: State, t: nat, full: bool)
    requires Inv(s) && Enabled(s, Write(t, full))
    ensures Inv(Next(s, Write(t, full)))
  {
    hide Checking;
    var u := Next(s, Write(t, full));
    OtherSenders(s, u, t, Out);
    assert u.unread > 0;
    forall g | g in u.owed && g.hasCb && Open(u, g) ensures Marked(u, g) {
      assert Marked(s, g);
      if v :| SenderAt(s, v, Checked(g)) { assert v != t; }
    }
  }

  /** The loop thread's own steps. */
  lemma LoopInv(s: State, e: Event)
    requires Inv(s) && Enabled(s, e) && !e.Send? && !e.Cas? && !e.Write?
    ensures Inv(Next(s, e))
  {
    hide Checking;
    var u := Next(s, e);
    forall v, y ensures SenderAt(u, v, y) <==> SenderAt(s, v, y) {}
    forall g | g in u.pending && Open(u, g) ensures Remembered(u, g) {
      assert e.Init? || (g in s.pending && Open(s, g) && Remembered(s, g));
      if e.ScanOne? && g in s.queue {
        assert s.queue == [s.queue[0]] + s.queue[1..];
      }
    }
    forall g | g in u.owed && g.hasCb && Open(u, g) ensures Marked(u, g) {
      assert Open(s, g) || e.Init?;
      if Open(s, g) { assert Marked(s, g); }
    }
  }

  lemma NextInv(s: State, e: Event)
    requires Inv(s) && Enabled(s, e)
    ensures Inv(Next(s, e))
  {
    hide Inv, Next;
    match e
    case Send(t, h) => SendInv(s, t, h);
    case Cas(t) => CasInv(s, t);
    case Write(t, full) => WriteInv(s, t, full);
    case _ => LoopInv(s, e);
  }

  lemma {:induction false} RunInv(s: State, events: seq<Event>)
    requires Inv(s) && Run(s, events)
    ensures Inv(After(s, events))
    decreases |events|
  {
    hide Inv, Next, Enabled;
    if events != [] {
      NextInv(s, events[0]);
      RunInv(Next(s, events[0]), events[1..]);
    }
  }

  /** In every reachable state a pending handle that is not closed is remembered, and
      callbacks do not outnumber sends. */
  lemma NoSendLost(s: State, events: seq<Event>, h: Handle)
    requires Start(s) && Run(s, events)
    ensures var u := After(s, events);
      && (h in u.pending && Open(u, h) ==> Remembered(u, h))
      && u.starts[h] <= u.sends[h]
  {
    StartInv(s);
    RunInv(s, events);
  }

  // Coming to rest.

  /** The steps that senders and the loop take of themselves. */
  predicate Internal(e: Event) {
    !e.Init? && !e.Close? && !e.Send?
  }

  /** What a sender may still cost, in passes of the loop. */
  function SenderCost(x: Sender): nat {
    match x case Out => 0 case Checked(_) => 3 case Won(_) => 2
  }

  function SenderCosts(senders: seq<Sender>): nat {
    if senders == [] then 0 else SenderCost(senders[0]) + SenderCosts(senders[1..])
  }

  lemma {:induction false} SenderCostsSet(senders: seq<Sender>, t: nat, x: Sender)
    requires t < |senders|
    ensures SenderCosts(senders[t := x]) == SenderCosts(senders) - SenderCost(senders[t]) + SenderCost(x)
    decreases senders
  {
    if t == 0 {
      assert senders[t := x][1..] == senders[1..];
    } else {
      SenderCostsSet(senders[1..], t - 1, x);
      assert senders[t := x][1..] == senders[1..][t - 1 := x];
    }
  }

  /** The passes of the loop still to come. */
  function Passes(s: State): nat {
    SenderCosts(s.senders) + (if s.unread > 0 || s.phase.Reading? then 1 else 0)
  }

  /** A bound on the internal steps still possible. */
  function Measure(s: State): nat {
    Passes(s) * (|s.list| + |s.queue| + 3) + s.unread
    + (match s.phase case Idle => 1 case Reading => 0 case Scanning => |s.queue| + 2)
  }

  lemma FewerPasses(p: nat, q: nat, c: nat)
    requires p <= q
    ensures p * c <= q * c && (p < q ==> p * c + c <= q * c)
  {
    var d := q - p;
    assert q * c == p * c + d * c;
    if d >= 1 {
      assert d * c == (d - 1) * c + c;
    }
  }

  /** Every internal step uses some of the measure up. */
  lemma StepCost(s: State, e: Event)
    requires Inv(s) && Enabled(s, e) && Internal(e)
    ensures Measure(Next(s, e)) < Measure(s)
  {
    hide SenderCosts, Checking, Remembered, Marked;
    var u := Next(s, e);
    match e {
      case Cas(t) => SenderCostsSet(s.senders, t, u.senders[t]);
      case Write(t, full) => SenderCostsSet(s.senders, t, Out);
      case _ =>
    }
    assert Passes(u) <= Passes(s) && ((e.Cas? || e.Write? || e.ReadLast?) ==> Passes(u) < Passes(s));
    assert |u.list| + |u.queue| == |s.list| + |s.queue|;
    FewerPasses(Passes(u), Passes(s), |s.list| + |s.queue| + 3);
  }

  lemma {:induction false} RunsEnd(s: State, events: seq<Event>)
    requires Inv(s) && Run(s, events) && forall e :: e in events ==> Internal(e)
    ensures |events| <= Measure(s)
    decreases |events|
  {
    hide Inv, Enabled, Next, Measure;
    if events != [] {
      StepCost(s, events[0]);
      NextInv(s, events[0]);
      RunsEnd(Next(s, events[0]), events[1..]);
    }
  }

  /** Neither a sender nor the loop can take a step. */
  ghost predicate Quiet(s: State) {
    forall e :: Internal(e) ==> !Enabled(s, e)
  }

  /** At rest, no open handle is pending, and each has had a callback begin after the last
      send to it. */
  lemma QuietMeansDelivered(s: State, h: Handle)
    requires Inv(s) && Quiet(s) && Open(s, h)
    ensures h !in s.pending && (h.hasCb ==> h !in s.owed)
  {
    assert !Enabled(s, Poll) && !Enabled(s, ReadLast) && !Enabled(s, ScanOne) && !Enabled(s, ScanEnd);
    forall t: nat ensures !SenderAt(s, t, Won(h)) && !SenderAt(s, t, Checked(h)) {
      assert !Enabled(s, Write(t, false)) && !Enabled(s, Cas(t));
    }
    assert !Remembered(s, h);
  }

  /** From any reachable state on, once nothing more is sent, opened or closed, the protocol
      comes to rest, and then every send to a handle still open was followed by a callback. */
  lemma EverySendDelivered(s: State, events: seq<Event>, more: seq<Event>, h: Handle)
    requires Start(s) && Run(s, events) && Run(After(s, events), more) && forall e :: e in more ==> Internal(e)
    ensures |more| <= Measure(After(s, events))
    ensures var u := After(After(s, events), more);
      Quiet(u) && Open(u, h) && h.hasCb ==> h !in u.owed
  {
    var m := After(s, events);
    StartInv(s);
    RunInv(s, events);
    RunInv(m, more);
    RunsEnd(m, more);
    hide Run, After, Inv, Quiet, Measure;
    var u := After(m, more);
    if Quiet(u) && Open(u, h) {
      QuietMeansDelivered(u, h);
    }
  }
}
