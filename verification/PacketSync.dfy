/** The incremental framer of src/PacketSync.cpp: two buffers and a two-state
    machine that rebuild packets from whatever chunks the network delivers.
    `Content` reads the bytes not yet delivered off the fields of either state. Each method
    says what becomes of them, so that the loop is seen to follow the one-pass scan of
    module Frames over everything received so far. */
module PacketSyncs {
  import opened Basics
  import opened NetBase
  import opened Powers
  import opened Frames
  import opened Memory

  const BUFFER_SIZE := 10240

  datatype ParseState = PARSE_HEAD | PARSE_NOTHING

  /** The bytes at `h` are a HEAD and the header `p`, which carries the marks. */
  ghost predicate HeaderAt(s: seq<byte>, h: int, p: NetPacket, m: Marks) {
    && 0 <= h && h + 1 + HEADLEN <= |s| && s[h] == m.head
    && p == ParseHeader(s[h + 1..h + 1 + HEADLEN])
    && p.header == m.head && p.tail == m.tail
    && p.datalen <= MAX_DATALEN
  }

  ghost predicate IsSuffix(t: seq<byte>, s: seq<byte>) {
    |t| <= |s| && s[|s| - |t|..] == t
  }

  lemma SuffixTrans(a: seq<byte>, b: seq<byte>, c: seq<byte>)
    requires IsSuffix(a, b) && IsSuffix(b, c)
    ensures IsSuffix(a, c) && |a| <= |b| <= |c|
  {
    assert c[|c| - |a|..] == c[|c| - |b|..][|b| - |a|..];
  }

  lemma SliceSlice<T>(s: seq<T>, a: nat, b: nat, c: nat, d: nat)
    requires a <= b <= |s| && c <= d <= b - a
    ensures s[a..b][c..d] == s[a + c..a + d]
  {
    assert forall k | 0 <= k < d - c :: s[a..b][c..d][k] == s[a..b][c + k] == s[a + c + k];
  }

  lemma SuffixSelf(a: seq<byte>)
    ensures IsSuffix(a, a)
  {
  }

  lemma SuffixPlus(a: seq<byte>, b: seq<byte>, c: seq<byte>)
    requires IsSuffix(a, b)
    ensures IsSuffix(a + c, b + c)
  {
  }

  /** The first HEAD in the first `n` bytes of `a`, as memchr finds it. */
  method MemChr(a: array<byte>, b: byte, n: nat) returns (i: nat)
    requires n <= a.Length
    ensures i == IndexOf(a[..n], b)
  {
    i := 0;
    while i < n && a[i] != b
      invariant i <= n
      invariant b !in a[..i]
    {
      i := i + 1;
    }
    assert a[..n][..i] == a[..i];
    IndexOfUnique(a[..n], b, i);
  }

  class PacketSync {
    var parsetype: ParseState
    var getdatalen: nat
    var readdata: array<byte>
    var packetdata: array<byte>
    var truepacketlen: nat
    var headpos: int
    var HEAD: byte
    var TAIL: byte
    var theNexPacket: NetPacket
    var hasCallback: bool
    /** Every call the packet callback has received. */
    var calls: seq<Frame>
    /** Every byte received, and every frame recognised, since the marks were set. */
    ghost var stream: seq<byte>
    ghost var found: seq<Frame>

    ghost function M(): Marks
      reads this
    {
      Marks(HEAD, TAIL)
    }

    /** The number of payload-and-tail bytes of the current packet that the read buffer holds. */
    ghost function InRead(): int
      reads this
    {
      truepacketlen - headpos - 1 - HEADLEN
    }

    ghost predicate Buffers()
      reads this, readdata, packetdata
    {
      && readdata != packetdata
      && BUFFER_SIZE <= readdata.Length <= HEADLEN + MAX_DATALEN + 1
      && truepacketlen <= readdata.Length
    }

    /** While a packet is being collected its header stands at `headpos`, and the
        packet buffer holds a copy of whatever followed it in the read buffer. */
    ghost predicate Collecting()
      reads this, readdata, packetdata
    {
      && Buffers()
      && parsetype == PARSE_HEAD
      && headpos + 1 + HEADLEN <= truepacketlen
      && HeaderAt(readdata[..], headpos, theNexPacket, M())
      && getdatalen <= theNexPacket.datalen + 1 <= packetdata.Length
      && (InRead() >= getdatalen ==> getdatalen == theNexPacket.datalen + 1 || InRead() == getdatalen)
      && forall k | 0 <= k < getdatalen && k < InRead() :: packetdata[k] == readdata[headpos + 1 + HEADLEN + k]
    }

    /** The bytes received and not yet discarded or delivered. */
    ghost function Content(): seq<byte>
      requires Buffers() && (parsetype == PARSE_HEAD ==> Collecting())
      reads this, readdata, packetdata
    {
      if parsetype == PARSE_NOTHING then readdata[..truepacketlen]
      else if InRead() >= getdatalen then readdata[headpos..truepacketlen]
      else readdata[headpos..headpos + 1 + HEADLEN] + packetdata[..getdatalen]
    }

    ghost predicate Ready()
      reads this, readdata, packetdata
    {
      Buffers() && (parsetype == PARSE_HEAD ==> Collecting())
    }

    /** Between calls: the content is a suffix of the stream, nothing in it can be
        delivered yet, and the frames found are those of the whole stream. */
    ghost predicate Valid()
      reads this, readdata, packetdata
    {
      && Ready()
      && (parsetype == PARSE_HEAD ==> getdatalen < theNexPacket.datalen + 1)
      && IsSuffix(Content(), stream)
      && found == Scan(stream, M()).frames
      && !Scan(stream, M()).overflow
      && Scan(Content(), M()) == ScanResult([], Scan(stream, M()).rest, false)
    }

    constructor ()
      ensures Valid() && fresh(readdata) && fresh(packetdata)
      ensures stream == [] && found == [] && calls == [] && !hasCallback
      ensures HEAD == 0x0C && TAIL == 0xEA
    {
      readdata := new byte[BUFFER_SIZE];
      packetdata := new byte[BUFFER_SIZE];
      truepacketlen, headpos, parsetype, getdatalen := 0, -1, PARSE_NOTHING, 0;
      HEAD, TAIL := 0x0C, 0xEA;
      theNexPacket := NetPacket(0, 0, 0, 0, 0);
      hasCallback, calls := false, [];
      stream, found := [], [];
    }

    method SetPacketCB()
      requires Valid()
      modifies `hasCallback
      ensures Valid() && hasCallback
    {
      hide Scan, IsSuffix, HeaderAt;
      ghost var content := Content();
      hasCallback := true;
      assert Content() == content;
    }

    method SetHaT(packhead: byte, packtail: byte)
      requires Valid() && stream == []
      modifies `HEAD, `TAIL
      ensures Valid() && HEAD == packhead && TAIL == packtail
    {
      HEAD, TAIL := packhead, packtail;
    }

    /** Appends as much of the remaining input as the read buffer can take. */
    method Fill(data: seq<byte>, iret: nat) returns (iret': nat)
      requires Buffers() && parsetype == PARSE_NOTHING && iret <= |data|
      modifies readdata, `truepacketlen
      ensures Buffers() && iret <= iret' <= |data|
      ensures Content() + data[iret'..] == old(Content()) + data[iret..]
      ensures iret' == |data| || truepacketlen == readdata.Length
      ensures truepacketlen >= old(truepacketlen)
    {
      if readdata.Length - truepacketlen >= |data| - iret {
        MemCpy(readdata, truepacketlen, data[iret..]);
        truepacketlen := truepacketlen + |data| - iret;
        iret' := |data|;
      } else {
        var n := readdata.Length - truepacketlen;
        MemCpy(readdata, truepacketlen, data[iret..iret + n]);
        iret' := iret + n;
        truepacketlen := readdata.Length;
      }
      assert data[iret..] == data[iret..iret'] + data[iret'..];
    }

    /** Looks for a packet header in the read buffer. Discards bytes before HEAD, and
        a HEAD whose header is wrong; `rest` stands for the input still to come. */
    method TakeHeader(ghost rest: seq<byte>) returns (ready: bool)
      requires Buffers() && parsetype == PARSE_NOTHING && !Scan(Content() + rest, M()).overflow
      modifies this`parsetype, this`truepacketlen, this`headpos, this`theNexPacket, this`packetdata, this`getdatalen
      modifies readdata, packetdata
      ensures Ready() && readdata == old(readdata) && (packetdata == old(packetdata) || fresh(packetdata))
      ensures ready <==> parsetype == PARSE_HEAD
      ensures IsSuffix(Content(), old(Content()))
      ensures Scan(Content() + rest, M()) == Scan(old(Content()) + rest, M())
      ensures !ready ==> |Content()| < old(|Content()|) || |Content()| <= HEADLEN
    {
      hide Scan, Judge, ParseHeader, IndexOf;
      hide Content, Collecting;
      ReadContent();
      ghost var c := Content();
      var h := MemChr(readdata, HEAD, truepacketlen);
      ScanFromHead(c, rest, M());
      if h == truepacketlen {
        truepacketlen := 0;
        ReadContent();
        return false;
      }
      headpos := h;
      ReadContent();
      if truepacketlen - headpos - 1 < HEADLEN {
        if headpos != 0 {
          Discard(headpos);
        }
        assert c[0..] == c;
        return false;
      }
      assert readdata[headpos] == c[h];
      ready := CheckHeader(rest);
      SuffixTrans(Content(), c[h..], c);
    }

    /** Reads the header after the HEAD at `headpos`; a wrong one costs only that HEAD. */
    method CheckHeader(ghost rest: seq<byte>) returns (ready: bool)
      requires Buffers() && parsetype == PARSE_NOTHING
      requires 0 <= headpos && headpos + 1 + HEADLEN <= truepacketlen && readdata[headpos] == HEAD
      requires !Scan(Content()[headpos..] + rest, M()).overflow
      modifies this`parsetype, this`truepacketlen, this`theNexPacket, this`packetdata, this`getdatalen
      modifies readdata, packetdata
      ensures Ready() && (packetdata == old(packetdata) || fresh(packetdata))
      ensures ready <==> parsetype == PARSE_HEAD
      ensures IsSuffix(Content(), old(Content()[headpos..]))
      ensures Scan(Content() + rest, M()) == Scan(old(Content()[headpos..]) + rest, M())
      ensures !ready ==> |Content()| < old(|Content()|)
    {
      hide Scan, Judge, ParseHeader, IndexOf, Content, Collecting;
      ReadContent();
      theNexPacket := CharToNetPacket(readdata, headpos + 1);
      ReadContent();
      ghost var c := Content();
      SliceSlice(readdata[..], headpos, truepacketlen, 1, 1 + HEADLEN);
      if theNexPacket.header != HEAD || theNexPacket.tail != TAIL {
        RejectHeader(c[headpos..], rest, M(), theNexPacket);
        Discard(headpos + 1);
        assert Content() == c[headpos..][1..];
        return false;
      }
      LongHeader(c[headpos..], rest, M(), theNexPacket);
      StartPacket();
      CollectingIsReady();
      return true;
    }

    /** Drops the first `k` bytes of the read buffer. */
    method Discard(k: nat)
      requires Buffers() && parsetype == PARSE_NOTHING && k <= truepacketlen
      modifies readdata, `truepacketlen
      ensures Buffers() && Content() == old(Content())[k..]
    {
      MemMoveToFront(readdata, k, truepacketlen - k);
      truepacketlen := truepacketlen - k;
    }

    /** Makes room for the packet announced at `headpos` and copies what has arrived of it. */
    method StartPacket()
      requires Buffers() && parsetype == PARSE_NOTHING
      requires 0 <= headpos && headpos + 1 + HEADLEN <= truepacketlen
      requires HeaderAt(readdata[..], headpos, theNexPacket, M()) && theNexPacket.datalen <= MAX_DATALEN
      modifies `parsetype, `packetdata, `getdatalen, packetdata
      ensures Collecting() && (packetdata == old(packetdata) || fresh(packetdata))
      ensures Content() == old(Content())[headpos..]
    {
      hide Scan, Judge, HeaderAt;
      parsetype := PARSE_HEAD;
      if packetdata.Length < theNexPacket.datalen + 1 {
        packetdata := Grow(packetdata, theNexPacket.datalen + 1);
      }
      var avail := truepacketlen - headpos - 1 - HEADLEN;
      getdatalen := if avail < theNexPacket.datalen + 1 then avail else theNexPacket.datalen + 1;
      ghost var body := readdata[headpos + 1 + HEADLEN..headpos + 1 + HEADLEN + getdatalen];
      MemCpy(packetdata, 0, readdata[headpos + 1 + HEADLEN..headpos + 1 + HEADLEN + getdatalen]);
      assert readdata[..] == old(readdata[..]);
      forall k | 0 <= k < getdatalen
        ensures packetdata[k] == readdata[headpos + 1 + HEADLEN + k]
      {
        assert packetdata[k] == packetdata[0..getdatalen][k] == body[k];
      }
    }

    /** Takes payload and tail bytes from the input until the packet is whole or
        the input is used up. */
    method Gather(data: seq<byte>, iret: nat) returns (iret': nat)
      requires Collecting() && iret <= |data|
      modifies packetdata, `getdatalen
      ensures Collecting() && iret <= iret' <= |data|
      ensures Content() + data[iret'..] == old(Content()) + data[iret..]
      ensures getdatalen < theNexPacket.datalen + 1 ==> iret' == |data|
    {
      hide Scan, Judge, ParseHeader, IndexOf;
      iret' := iret;
      if getdatalen < theNexPacket.datalen + 1 {
        if getdatalen + (|data| - iret) < theNexPacket.datalen + 1 {
          Take(data[iret..]);
          iret' := |data|;
        } else {
          var n := theNexPacket.datalen + 1 - getdatalen;
          Take(data[iret..iret + n]);
          iret' := iret + n;
        }
        assert data[iret..] == data[iret..iret'] + data[iret'..];
      }
    }

    /** Appends `s` to the collected part of the packet. */
    method Take(s: seq<byte>)
      requires Collecting() && getdatalen < theNexPacket.datalen + 1
      requires getdatalen + |s| <= theNexPacket.datalen + 1
      modifies packetdata, `getdatalen
      ensures Collecting() && getdatalen == old(getdatalen) + |s|
      ensures Content() == old(Content()) + s
    {
      hide Scan, Judge, ParseHeader, IndexOf, HeaderAt;
      SplitContent();
      ghost var body := packetdata[..getdatalen];
      MemCpy(packetdata, getdatalen, s);
      assert forall k | 0 <= k < getdatalen :: packetdata[k] == body[k];
      getdatalen := getdatalen + |s|;
      assert packetdata[..getdatalen] == body + s;
      assert readdata[..] == old(readdata[..]);
      SplitContent();
    }

    /** The collected packet is either delivered or, on a bad tail, its HEAD dropped:
        exactly what the scan does with the same bytes. */
    method Finish(ghost rest: seq<byte>)
      requires Collecting() && getdatalen == theNexPacket.datalen + 1
      modifies this`readdata, this`truepacketlen, this`parsetype, this`calls, this`found, readdata
      ensures Buffers() && parsetype == PARSE_NOTHING && (readdata == old(readdata) || fresh(readdata))
      ensures |Content()| < old(|Content()|) && IsSuffix(Content(), old(Content()))
      ensures Told(hasCallback, old(calls), old(found), calls, found)
      ensures Progress(old(Scan(Content() + rest, M())), old(found), found, Scan(Content() + rest, M()))
    {
      hide Scan, Judge, ParseHeader, IndexOf;
      ghost var c := Content();
      WholePacket(rest);
      ScanWhole(c, rest, M());
      if packetdata[theNexPacket.datalen] != TAIL {
        DropHead();
        PrependNothing(Scan(c[1..] + rest, M()));
      } else {
        var n := theNexPacket.datalen;
        SliceSlice(c, 1 + HEADLEN, FrameLen(theNexPacket), 0, n);
        assert c[1 + HEADLEN..1 + HEADLEN + n] == packetdata[..getdatalen][..n] == packetdata[..n];
        Deliver();
        assert found[|old(found)|..] == [Frame(theNexPacket, old(packetdata[..n]))];
      }
    }

    lemma CollectingIsReady()
      requires Collecting()
      ensures Ready() && parsetype == PARSE_HEAD && getdatalen <= theNexPacket.datalen + 1
    {
    }

    lemma ReadContent()
      requires Buffers() && parsetype == PARSE_NOTHING
      ensures Content() == readdata[..truepacketlen] && |Content()| == truepacketlen && readdata.Length >= BUFFER_SIZE
    {
    }

    lemma SplitContent()
      requires Collecting() && InRead() <= getdatalen
      ensures Content() == readdata[headpos..headpos + 1 + HEADLEN] + packetdata[..getdatalen]
    {
    }

    lemma HeaderInContent()
      requires Collecting()
      ensures 1 + HEADLEN <= |Content()| && Content()[0] == HEAD
      ensures Content()[1..1 + HEADLEN] == readdata[headpos + 1..headpos + 1 + HEADLEN]
    {
      hide Scan, ParseHeader, IndexOf;
      ghost var h, c := readdata[headpos..headpos + 1 + HEADLEN], Content();
      SliceSlice(readdata[..], headpos, headpos + 1 + HEADLEN, 1, 1 + HEADLEN);
      if InRead() >= getdatalen {
        SliceSlice(readdata[..], headpos, truepacketlen, 0, 1 + HEADLEN);
      }
      assert c[..1 + HEADLEN] == h;
      assert c[1..1 + HEADLEN] == c[..1 + HEADLEN][1..];
    }

    /** A whole collected packet is judged by the byte after its payload. */
    lemma WholePacket(rest: seq<byte>)
      requires Collecting() && getdatalen == theNexPacket.datalen + 1
      ensures |Content()| >= FrameLen(theNexPacket)
      ensures Content()[0] == HEAD && Content()[1 + HEADLEN..FrameLen(theNexPacket)] == packetdata[..getdatalen]
      ensures Judge(Content() + rest, M()) ==
              if packetdata[theNexPacket.datalen] == TAIL then Accept(theNexPacket) else Reject
    {
      hide Scan, ParseHeader, IndexOf;
      var c := Content() + rest;
      HeaderInContent();
      assert c[1..1 + HEADLEN] == Content()[1..1 + HEADLEN];
      if InRead() >= getdatalen {
        assert forall k | 0 <= k < getdatalen :: c[1 + HEADLEN + k] == packetdata[k];
      }
    }

    /** A packet still being collected cannot be judged yet. */
    lemma PartPacket()
      requires Collecting() && getdatalen < theNexPacket.datalen + 1
      ensures Scan(Content(), M()) == ScanResult([], Content(), false)
    {
      SplitContent();
      HeaderInContent();
      ScanAtHead(Content(), M());
    }

    /** Bad tail: only the HEAD byte is dropped, everything after it is scanned again. */
    method DropHead()
      requires Collecting() && getdatalen == theNexPacket.datalen + 1
      modifies this`readdata, this`truepacketlen, this`parsetype, readdata
      ensures Buffers() && parsetype == PARSE_NOTHING && (readdata == old(readdata) || fresh(readdata))
      ensures Content() == old(Content())[1..]
    {
      hide Scan, Judge, ParseHeader, IndexOf;
      ghost var c := Content();
      if truepacketlen - headpos - 1 - HEADLEN >= theNexPacket.datalen + 1 {
        MemMoveToFront(readdata, headpos + 1, truepacketlen - headpos - 1);
        truepacketlen := truepacketlen - (headpos + 1);
      } else {
        SplitContent();
        Rebuild();
        assert readdata[..truepacketlen] == c[1..];
      }
      parsetype := PARSE_NOTHING;
    }

    /** Puts the header and the collected bytes back at the front of the read buffer. */
    method Rebuild()
      requires Collecting() && getdatalen == theNexPacket.datalen + 1
      modifies this`readdata, this`truepacketlen, readdata
      ensures Buffers() && (readdata == old(readdata) || fresh(readdata))
      ensures readdata[..truepacketlen]
           == old(readdata[headpos + 1..headpos + 1 + HEADLEN] + packetdata[..theNexPacket.datalen + 1])
    {
      hide Scan, Judge, ParseHeader, IndexOf;
      ghost var header := readdata[headpos + 1..headpos + 1 + HEADLEN];
      if readdata.Length < HEADLEN + theNexPacket.datalen + 1 {
        readdata := Grow(readdata, HEADLEN + theNexPacket.datalen + 1);
      }
      assert readdata[headpos + 1..headpos + 1 + HEADLEN] == header;
      MemMoveToFront(readdata, headpos + 1, HEADLEN);
      truepacketlen := HEADLEN;
      assert readdata[..HEADLEN] == header;
      MemCpy(readdata, truepacketlen, packetdata[..theNexPacket.datalen + 1]);
      truepacketlen := truepacketlen + theNexPacket.datalen + 1;
      assert readdata[..truepacketlen] == readdata[..HEADLEN] + readdata[HEADLEN..truepacketlen];
    }

    /** Good tail: the packet is handed to the callback and removed. */
    method Deliver()
      requires Collecting() && getdatalen == theNexPacket.datalen + 1
      modifies this`truepacketlen, this`parsetype, this`calls, this`found, readdata
      ensures Buffers() && parsetype == PARSE_NOTHING
      ensures Content() == old(Content()[FrameLen(theNexPacket)..])
      ensures found == old(found) + [old(Frame(theNexPacket, packetdata[..theNexPacket.datalen]))]
      ensures calls == old(calls) + if hasCallback then found[|old(found)|..] else []
    {
      hide Scan, Judge, ParseHeader, IndexOf;
      ghost var c := Content();
      var end := headpos + HEADLEN + theNexPacket.datalen + 2;
      if truepacketlen - headpos - 1 - HEADLEN >= theNexPacket.datalen + 1 {
        MemMoveToFront(readdata, end, truepacketlen - end);
        truepacketlen := truepacketlen - end;
        assert readdata[..truepacketlen] == c[FrameLen(theNexPacket)..];
      } else {
        SplitContent();
        truepacketlen := 0;
      }
      Report();
      parsetype := PARSE_NOTHING;
    }

    /** The call of the packet callback, if one is set. */
    method Report()
      requires theNexPacket.datalen <= packetdata.Length
      modifies this`calls, this`found
      ensures found == old(found) + [Frame(theNexPacket, packetdata[..theNexPacket.datalen])]
      ensures calls == old(calls) + if hasCallback then found[|old(found)|..] else []
    {
      ghost var f := Frame(theNexPacket, packetdata[..theNexPacket.datalen]);
      if hasCallback {
        calls := calls + [Frame(theNexPacket, packetdata[..theNexPacket.datalen])];
      }
      found := found + [f];
      assert found[|old(found)|..] == [f];
    }

    /** When a call returns, nothing it keeps can be delivered yet. */
    lemma Quiet()
      requires Ready()
      requires if parsetype == PARSE_HEAD then getdatalen < theNexPacket.datalen + 1 else truepacketlen < HEADLEN + 2
      ensures Scan(Content(), M()).frames == []
    {
      hide Scan, Judge;
      if parsetype == PARSE_HEAD {
        PartPacket();
      } else {
        ShortScan(Content(), M());
      }
    }

    /** The first half of a turn: read on, then look for a header. */
    method Fetch(data: seq<byte>, iret: nat) returns (iret': nat, ready: bool)
      requires Ready() && iret <= |data| && !Scan(Content() + data[iret..], M()).overflow
      requires parsetype == PARSE_NOTHING && (iret < |data| || truepacketlen >= HEADLEN + 2)
      modifies this`packetdata, this`parsetype, this`truepacketlen, this`headpos, this`theNexPacket,
               this`getdatalen, readdata, packetdata
      ensures Ready() && iret <= iret' <= |data| && ready == (parsetype == PARSE_HEAD)
      ensures packetdata == old(packetdata) || fresh(packetdata)
      ensures IsSuffix(Content() + data[iret'..], old(Content() + data[iret..]))
      ensures Scan(Content() + data[iret'..], M()) == old(Scan(Content() + data[iret..], M()))
      ensures !ready && |Content() + data[iret'..]| == old(|Content() + data[iret..]|) ==> iret < iret'
    {
      hide Scan, Judge, ParseHeader, IndexOf, Content, Collecting, Buffers, IsSuffix;
      ghost var todo := Content() + data[iret..];
      ReadContent();
      iret' := Fill(data, iret);
      ReadContent();
      ghost var c := Content();
      ready := TakeHeader(data[iret'..]);
      SuffixPlus(Content(), c, data[iret'..]);
    }

    /** One turn of the receive loop. It does to the bytes kept and still to come what
        the scan does, and uses up some of them unless the packet needs more input. */
    method Step(data: seq<byte>, iret: nat) returns (iret': nat, waiting: bool)
      requires Ready() && iret <= |data| && !Scan(Content() + data[iret..], M()).overflow
      requires parsetype == PARSE_HEAD ==> getdatalen < theNexPacket.datalen + 1
      requires iret < |data| || truepacketlen >= HEADLEN + 2
      modifies this`readdata, this`packetdata, this`parsetype, this`truepacketlen, this`headpos, this`theNexPacket,
               this`getdatalen, this`calls, this`found, readdata, packetdata
      ensures Ready() && iret <= iret' <= |data|
      ensures readdata == old(readdata) || fresh(readdata)
      ensures packetdata == old(packetdata) || fresh(packetdata)
      ensures if waiting then parsetype == PARSE_HEAD && getdatalen < theNexPacket.datalen + 1 && iret' == |data|
              else parsetype == PARSE_NOTHING
      ensures Told(hasCallback, old(calls), old(found), calls, found)
      ensures IsSuffix(Content() + data[iret'..], old(Content() + data[iret..]))
      ensures Progress(old(Scan(Content() + data[iret..], M())), old(found), found, Scan(Content() + data[iret'..], M()))
      ensures !waiting && |Content() + data[iret'..]| == old(|Content() + data[iret..]|) ==> iret < iret'
    {
      hide Scan, Judge, ParseHeader, IndexOf, Content, Collecting, Buffers, IsSuffix, Progress, Told;
      ghost var todo := Content() + data[iret..];
      SuffixSelf(todo);
      iret' := iret;
      ProgressNone(Scan(todo, M()), found);
      ToldNone(hasCallback, calls, found);
      if parsetype == PARSE_NOTHING {
        var ready;
        iret', ready := Fetch(data, iret);
        if !ready {
          return iret', false;
        }
      }
      iret' := Gather(data, iret');
      CollectingIsReady();
      if getdatalen < theNexPacket.datalen + 1 {
        return iret', true;
      }
      ghost var c := Content();
      Finish(data[iret'..]);
      SuffixPlus(Content(), c, data[iret'..]);
      SuffixTrans(Content() + data[iret'..], c + data[iret'..], todo);
      return iret', false;
    }

    /** Records that `data` has arrived. */
    ghost method Note(data: seq<byte>)
      requires Ready()
      modifies `stream
      ensures stream == old(stream) + data && Ready() && Content() == old(Content())
    {
      stream := stream + data;
    }

    /** Takes one chunk from the network. */
    method Recvdata(data: seq<byte>)
      requires Valid() && !Scan(stream + data, M()).overflow
      modifies this, readdata, packetdata
      ensures Valid() && (readdata == old(readdata) || fresh(readdata)) && (packetdata == old(packetdata) || fresh(packetdata))
      ensures stream == old(stream) + data && M() == old(M()) && hasCallback == old(hasCallback)
      ensures old(found) <= found
      ensures calls == old(calls) + if hasCallback then found[|old(found)|..] else []
    {
      hide Scan, Judge, ParseHeader, IndexOf, Content, Collecting, Buffers, IsSuffix, Progress;
      ghost var kept, past := Content(), stream;
      ghost var all := kept + data;
      SuffixPlus(kept, past, data);
      SuffixSelf(all);
      assert data[0..] == data;
      ProgressNone(Scan(all, M()), found);
      SameScan(past, kept, data, M());
      Note(data);
      var iret := 0;
      while iret < |data| || truepacketlen >= HEADLEN + 2
        invariant Ready() && iret <= |data|
        invariant parsetype == PARSE_HEAD ==> getdatalen < theNexPacket.datalen + 1
        invariant readdata == old(readdata) || fresh(readdata)
        invariant packetdata == old(packetdata) || fresh(packetdata)
        invariant stream == past + data && M() == old(M()) && hasCallback == old(hasCallback)
        invariant Told(hasCallback, old(calls), old(found), calls, found)
        invariant IsSuffix(Content() + data[iret..], all)
        invariant Progress(Scan(all, M()), old(found), found, Scan(Content() + data[iret..], M()))
        decreases |Content() + data[iret..]|, |data| - iret
      {
        ghost var todo, c1, f1 := Content() + data[iret..], calls, found;
        ProgressKeeps(Scan(all, M()), old(found), f1, Scan(todo, M()));
        var waiting;
        iret, waiting := Step(data, iret);
        SuffixTrans(Content() + data[iret..], todo, all);
        ToldTrans(hasCallback, old(calls), old(found), c1, f1, calls, found);
        ProgressTrans(Scan(all, M()), old(found), f1, Scan(todo, M()), found, Scan(Content() + data[iret..], M()));
        if waiting {
          break;
        }
      }
      Quiet();
      assert Content() + data[iret..] == Content();
      Account(past, kept, data, M(), old(found), found, Content());
    }

    /** A sender's packets, however they were cut into chunks and whatever their
        payloads hold, are recognised as exactly that list; what is kept is no frame. */
    lemma ReceivesWhatWasSent(junk: seq<byte>, sent: seq<Frame>)
      requires Valid()
      requires HEAD !in junk && forall f | f in sent :: Fits(f, M())
      requires stream == junk + EncodeAll(sent)
      ensures found == sent
      ensures Scan(Content(), M()) == ScanResult([], [], false)
    {
      ScanEncodedAll(junk, sent, M());
    }
  }

  /** The sender's side: the bytes of one packet, ready to be written to the socket. */
  method PacketData(packet: NetPacket, data: seq<byte>) returns (retstr: seq<byte>)
    requires packet.datalen <= |data|
    ensures retstr == Encode(Frame(packet, data[..packet.datalen]))
    ensures |retstr| == 10 + packet.datalen && retstr[0] == packet.header && retstr[9 + packet.datalen] == packet.tail
    ensures retstr[1] == packet.version && retstr[2] == packet.header && retstr[3] == packet.tail
    ensures retstr[4] == packet.kind && retstr[9..9 + packet.datalen] == data[..packet.datalen]
    ensures forall i :: 5 <= i < 9 ==> retstr[i] == packet.datalen / Pow256(8 - i) % 0x100
  {
    hide HeaderBytes, Pow256;
    var packchar := new byte[HEADLEN];
    NetPacketToChar(packet, packchar);
    retstr := [packet.header];
    retstr := retstr + packchar[..];
    retstr := retstr + data[..packet.datalen];
    retstr := retstr + [packet.tail];
    assert forall i :: 1 <= i < 9 ==> retstr[i] == packchar[i - 1];
  }

  /** From `f0` to `f1` the frames found grew by what the scan `was` gained over `now`. */
  ghost predicate Progress(was: ScanResult, f0: seq<Frame>, f1: seq<Frame>, now: ScanResult) {
    f0 <= f1 && was == Prepend(f1[|f0|..], now)
  }

  lemma ProgressTrans(a: ScanResult, f0: seq<Frame>, f1: seq<Frame>, b: ScanResult, f2: seq<Frame>, c: ScanResult)
    requires Progress(a, f0, f1, b) && Progress(b, f1, f2, c)
    ensures Progress(a, f0, f2, c)
  {
    assert f2[|f0|..] == f1[|f0|..] + f2[|f1|..];
    assert f1[|f0|..] + (f2[|f1|..] + c.frames) == f2[|f0|..] + c.frames;
  }

  lemma ProgressKeeps(a: ScanResult, f0: seq<Frame>, f1: seq<Frame>, b: ScanResult)
    requires Progress(a, f0, f1, b)
    ensures a.overflow == b.overflow
  {
  }

  lemma ProgressNone(a: ScanResult, f: seq<Frame>)
    ensures Progress(a, f, f, a)
  {
    PrependNothing(a);
  }

  /** The callback, if there is one, was called once for each frame found, in order. */
  ghost predicate Told(installed: bool, c0: seq<Frame>, f0: seq<Frame>, c1: seq<Frame>, f1: seq<Frame>) {
    f0 <= f1 && c1 == c0 + if installed then f1[|f0|..] else []
  }

  lemma ToldNone(i: bool, c: seq<Frame>, f: seq<Frame>)
    ensures Told(i, c, f, c, f)
  {
  }

  lemma ToldTrans(i: bool, c0: seq<Frame>, f0: seq<Frame>, c1: seq<Frame>, f1: seq<Frame>, c2: seq<Frame>, f2: seq<Frame>)
    requires Told(i, c0, f0, c1, f1) && Told(i, c1, f1, c2, f2)
    ensures Told(i, c0, f0, c2, f2)
  {
    assert f2[|f0|..] == f1[|f0|..] + f2[|f1|..];
  }

  /** Fewer than ten bytes hold no frame. */
  lemma {:induction false} ShortScan(s: seq<byte>, m: Marks)
    requires |s| < HEADLEN + 2
    ensures Scan(s, m).frames == []
    decreases |s|
  {
    hide Scan, ParseHeader;
    var h := IndexOf(s, m.head);
    ScanStep(s, m, h);
    if h < |s| && Judge(s[h..], m).Reject? {
      ShortScan(s[h + 1..], m);
    }
  }

  /** The frames of a chunk are those the whole stream gains by it. */
  lemma Account(stream: seq<byte>, content: seq<byte>, data: seq<byte>, m: Marks, f0: seq<Frame>, f1: seq<Frame>,
                now: seq<byte>)
    requires IsSuffix(content, stream) && f0 == Scan(stream, m).frames
    requires !Scan(stream, m).overflow && Scan(content, m) == ScanResult([], Scan(stream, m).rest, false)
    requires IsSuffix(now, content + data)
    requires Progress(Scan(content + data, m), f0, f1, Scan(now, m)) && Scan(now, m).frames == []
    ensures IsSuffix(now, stream + data)
    ensures f1 == Scan(stream + data, m).frames
    ensures Scan(now, m) == ScanResult([], Scan(stream + data, m).rest, Scan(stream + data, m).overflow)
  {
    hide Scan, IsSuffix;
    SameScan(stream, content, data, m);
    SuffixPlus(content, stream, data);
    SuffixTrans(now, content + data, stream + data);
    assert f1 == f0 + f1[|f0|..];
  }

  /** The scan of a string whose first frame ends where `rest` begins. */
  lemma ScanWhole(c: seq<byte>, rest: seq<byte>, m: Marks)
    requires |c| > 0 && c[0] == m.head
    ensures Judge(c + rest, m).Reject? ==> Scan(c + rest, m) == Scan(c[1..] + rest, m)
    ensures Judge(c + rest, m).Accept? && FrameLen(Judge(c + rest, m).packet) <= |c| ==>
              var p := Judge(c + rest, m).packet;
              Scan(c + rest, m)
              == Prepend([Frame(p, c[1 + HEADLEN..1 + HEADLEN + p.datalen])], Scan(c[FrameLen(p)..] + rest, m))
  {
    hide Judge, Scan, IndexOf;
    var s := c + rest;
    ScanAtHead(s, m);
    assert s[1..] == c[1..] + rest;
    if Judge(s, m).Accept? && FrameLen(Judge(s, m).packet) <= |c| {
      var p := Judge(s, m).packet;
      AfterFrameIs(s, m);
      assert s[FrameLen(p)..] == c[FrameLen(p)..] + rest;
      assert s[1 + HEADLEN..1 + HEADLEN + p.datalen] == c[1 + HEADLEN..1 + HEADLEN + p.datalen];
    }
  }

  lemma SameScan(stream: seq<byte>, content: seq<byte>, data: seq<byte>, m: Marks)
    requires Scan(content, m) == ScanResult([], Scan(stream, m).rest, false)
    ensures Scan(stream + data, m) == Prepend(Scan(stream, m).frames, Scan(content + data, m))
  {
    hide Scan;
    ScanSplit(stream, data, m);
    ScanSplit(content, data, m);
    PrependNothing(Scan(Scan(content, m).rest + data, m));
  }

  /** A good header with too long a payload stops the scan. */
  lemma LongHeader(s: seq<byte>, rest: seq<byte>, m: Marks, p: NetPacket)
    requires |s| >= 1 + HEADLEN && s[0] == m.head && p == ParseHeader(s[1..1 + HEADLEN])
    requires p.header == m.head && p.tail == m.tail
    ensures p.datalen > MAX_DATALEN ==> Scan(s + rest, m).overflow
  {
    hide Scan, ParseHeader;
    assert (s + rest)[1..1 + HEADLEN] == s[1..1 + HEADLEN];
    ScanAtHead(s + rest, m);
  }

  /** A HEAD followed by a header with the wrong marks is dropped by the scan too. */
  lemma RejectHeader(s: seq<byte>, rest: seq<byte>, m: Marks, p: NetPacket)
    requires |s| >= 1 + HEADLEN && s[0] == m.head && p == ParseHeader(s[1..1 + HEADLEN])
    requires p.header != m.head || p.tail != m.tail
    ensures Scan(s + rest, m) == Scan(s[1..] + rest, m)
  {
    assert (s + rest)[1..1 + HEADLEN] == s[1..1 + HEADLEN];
    assert (s + rest)[1..] == s[1..] + rest;
    ScanAtHead(s + rest, m);
  }
}
