/** The functions of src/unix/async.c on the loop's and the handles' fields, cut where other
    threads can come in between; each piece does what the protocol's event says. */
module Async {
  import opened Basics
  import opened AsyncModel

  /** What a pending handle has to rely on while the loop is elsewhere: data to read, or a
      sender that has yet to write. */
  ghost predicate Signalled(s: State, h: Handle) {
    s.unread > 0 || exists t :: SenderAt(s, t, Won(h))
  }

  /** What a turn of the scan does for its handle: afterwards the handle is not pending, and
      if its callback was not called it is owed none, but for a sender still to mark it. */
  ghost predicate Served(s: State, t: State, h: Handle) {
    && h !in t.pending
    && (t.starts == s.starts && h.hasCb && h in t.owed ==> exists v :: SenderAt(t, v, Checked(h)))
    && (forall g :: g in s.pending && g != h && Open(t, g) ==> g in t.pending && Remembered(t, g))
  }

  lemma ScanServes(s: State)
    requires Inv(s) && Enabled(s, ScanOne)
    ensures Inv(Next(s, ScanOne)) && Served(s, Next(s, ScanOne), s.queue[0])
  {
    NextInv(s, ScanOne);
    var h, t := s.queue[0], Next(s, ScanOne);
    hide Checking, Remembered;
    if t.starts == s.starts && h.hasCb && h in t.owed {
      assert Open(t, h) && Marked(t, h);
    }
  }

  /** A send that returns early leaves its handle pending, so that the callback will come. */
  lemma EarlyReturn(s: State, e: Event, h: Handle)
    requires Inv(s) && Enabled(s, e) && (e.Send? || e.Cas?) && h in s.pending
    ensures Inv(Next(s, e)) && (Open(s, h) ==> Remembered(Next(s, e), h))
  {
    NextInv(s, e);
    hide Checking, Marked, Remembered;
  }

  /** A send leaves its mark or will. */
  lemma SendMarks(s: State, t: nat, h: Handle)
    requires Inv(s) && Enabled(s, Send(t, h))
    ensures Inv(Next(s, Send(t, h))) && (h.hasCb ==> Marked(Next(s, Send(t, h)), h))
  {
    NextInv(s, Send(t, h));
    hide Checking, Marked, Remembered;
  }

  /** Outside the loop and at the beginning of a scan the handles not in the scan's queue are
      signalled. */
  lemma Outside(s: State, h: Handle)
    requires Inv(s) && !s.phase.Reading? && h in s.pending && Open(s, h) && h !in s.queue
    ensures Signalled(s, h)
  {
    hide Checking, Marked;
    assert Remembered(s, h);
  }

  class AsyncLoop {
    var asyncHandles: seq<Handle>
    var queue: seq<Handle>
    var phase: Phase
    var pending: set<Handle>
    var unread: nat
    var senders: seq<Sender>
    ghost var sends: multiset<Handle>
    ghost var starts: multiset<Handle>
    ghost var owed: set<Handle>

    ghost function View(): State
      reads this
    {
      State(asyncHandles, queue, phase, pending, unread, senders, sends, starts, owed)
    }

    ghost predicate Valid()
      reads this
    {
      Inv(View())
    }

    constructor (nthreads: nat)
      ensures Valid() && Start(View()) && |senders| == nthreads
    {
      asyncHandles, queue, phase, pending, unread := [], [], Idle, {}, 0;
      senders := seq(nthreads, t => Out);
      sends, starts, owed := multiset{}, multiset{}, {};
      new;
      StartInv(View());
    }

    /** uv_async_init(), once the descriptor is there. */
    method AsyncInit(h: Handle)
      requires Valid() && Enabled(View(), Init(h))
      modifies this
      ensures Valid() && View() == Next(old(View()), Init(h))
    {
      hide Inv, Remembered, Marked;
      NextInv(View(), Init(h));
      asyncHandles := asyncHandles + [h];
    }

    /** uv_async_send(): the cheap read. */
    method SendRead(t: nat, h: Handle) returns (returned: bool)
      requires Valid() && Enabled(View(), Send(t, h))
      modifies this
      ensures Valid() && View() == Next(old(View()), Send(t, h))
      ensures returned <==> h in old(pending)
      ensures h.hasCb ==> Marked(View(), h)
      ensures returned ==> Remembered(View(), h)
    {
      hide Inv, Remembered, Marked;
      SendMarks(View(), t, h);
      if h in pending {
        EarlyReturn(View(), Send(t, h), h);
      }
      sends := sends + multiset{h};
      owed := owed + {h};
      if h in pending {
        return true;
      }
      senders := senders[t := Checked(h)];
      return false;
    }

    /** uv_async_send(): `cmpxchgi(&handle->pending, 0, 1)` */
    method SendCompareExchange(t: nat) returns (returned: bool)
      requires Valid() && Enabled(View(), Cas(t))
      modifies this
      ensures Valid() && View() == Next(old(View()), Cas(t))
      ensures var h := old(senders[t].h);
        && (returned <==> h in old(pending))
        && (returned && Open(View(), h) ==> Remembered(View(), h))
        && (!returned ==> Signalled(View(), h))
    {
      hide Inv, Remembered, Marked;
      NextInv(View(), Cas(t));
      if senders[t].h in pending {
        EarlyReturn(View(), Cas(t), senders[t].h);
      }
      var h := senders[t].h;
      if h in pending {
        senders := senders[t := Out];
        return true;
      }
      pending := pending + {h};
      senders := senders[t := Won(h)];
      assert SenderAt(View(), t, Won(h));
      return false;
    }

    /** uv__async_send(): the write; a full descriptor has data to read anyway. */
    method SendWrite(t: nat, full: bool)
      requires Valid() && Enabled(View(), Write(t, full))
      modifies this
      ensures Valid() && View() == Next(old(View()), Write(t, full))
      ensures unread > 0
    {
      hide Inv, Remembered, Marked;
      NextInv(View(), Write(t, full));
      if !full {
        unread := unread + 1;
      }
      senders := senders[t := Out];
    }

    /** uv__async_io() is entered when the descriptor is readable. */
    method IoBegin()
      requires Valid() && Enabled(View(), Poll)
      modifies this
      ensures Valid() && View() == Next(old(View()), Poll)
    {
      hide Inv, Remembered, Marked;
      NextInv(View(), Poll);
      phase := Reading;
    }

    /** A read of `n` bytes, which is the last if it did not fill the buffer; after the last
        the handles move to the local queue. */
    method IoRead(n: nat, last: bool)
      requires Valid() && Enabled(View(), if last then ReadLast else ReadPart(n))
      modifies this
      ensures Valid() && View() == Next(old(View()), if last then ReadLast else ReadPart(n))
    {
      hide Inv, Remembered, Marked;
      NextInv(View(), if last then ReadLast else ReadPart(n));
      if last {
        unread := 0;
        queue, asyncHandles, phase := asyncHandles, [], Scanning;
      } else {
        unread := unread - n;
      }
    }

    /** One turn of the scan: whether the callback is called, and for which handle. */
    method ScanTurn() returns (h: Handle, called: bool)
      requires Valid() && Enabled(View(), ScanOne)
      modifies this
      ensures Valid() && View() == Next(old(View()), ScanOne)
      ensures h == old(queue[0]) && (called <==> h in old(pending) && h.hasCb)
      ensures Served(old(View()), View(), h)
    {
      hide Inv, Remembered, Marked;
      ScanServes(View());
      h := queue[0];
      queue := queue[1..];
      asyncHandles := asyncHandles + [h];
      called := false;
      if h !in pending {
        assert pending - {h} == pending;
        return;
      }
      pending := pending - {h};
      if !h.hasCb {
        return;
      }
      called := true;
      starts := starts + multiset{h};
      owed := owed - {h};
    }

    method IoEnd()
      requires Valid() && Enabled(View(), ScanEnd)
      modifies this
      ensures Valid() && View() == Next(old(View()), ScanEnd)
      ensures forall h :: h in pending && Open(View(), h) ==> Signalled(View(), h)
    {
      hide Inv, Remembered, Marked;
      NextInv(View(), ScanEnd);
      phase := Idle;
      forall h | h in pending && Open(View(), h) ensures Signalled(View(), h) {
        Outside(View(), h);
      }
    }

    /** uv__async_close(): the handle leaves whichever queue it is in. */
    method AsyncClose(h: Handle)
      requires Valid() && Enabled(View(), Close(h))
      modifies this
      ensures Valid() && View() == Next(old(View()), Close(h))
    {
      hide Inv, Remembered, Marked;
      NextInv(View(), Close(h));
      asyncHandles := Drop(asyncHandles, h);
      queue := Drop(queue, h);
    }
  }
}
