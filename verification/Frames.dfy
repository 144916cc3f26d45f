/** What the stream framer means: a one-pass scan of a whole byte string.
    Nothing here mentions chunks or buffers. */
module Frames {
  import opened Basics
  import opened NetBase

  /** A delivered packet: its header and exactly `datalen` payload bytes. */
  datatype Frame = Frame(packet: NetPacket, data: seq<byte>)

  /** The frames of a byte string, the bytes still waiting for more input, and
      whether the scan stopped at a header that declares too long a payload. */
  datatype ScanResult = ScanResult(frames: seq<Frame>, rest: seq<byte>, overflow: bool)

  /** The two delimiter bytes a receiver is configured with. */
  datatype Marks = Marks(head: byte, tail: byte)

  /** The longest payload the framer's signed arithmetic can count: a header
      declaring more makes `datalen + 1` overflow. */
  const MAX_DATALEN := 0x7fff_fffe

  /** The position of the first `b` in `s`, or `|s|`. */
  function IndexOf(s: seq<byte>, b: byte): (i: nat)
    ensures i <= |s|
    ensures i < |s| ==> s[i] == b
    ensures b !in s[..i]
  {
    if s == [] || s[0] == b then 0
    else
      assert forall i: nat | i <= |s| - 1 :: s[..i + 1] == [s[0]] + s[1..][..i];
      1 + IndexOf(s[1..], b)
  }

  lemma IndexOfUnique(s: seq<byte>, b: byte, i: nat)
    requires i <= |s| && (i < |s| ==> s[i] == b)
    requires b !in s[..i]
    ensures IndexOf(s, b) == i
  {
    var k := IndexOf(s, b);
    assert forall j | 0 <= j < i :: s[j] == s[..i][j] != b;
    assert forall j | 0 <= j < k :: s[j] == s[..k][j] != b;
  }

  /** What the bytes after a HEAD byte say. */
  datatype Verdict = NeedMore | Reject | TooLong | Accept(packet: NetPacket)

  /** Judges `s`, which starts with a HEAD byte. */
  function Judge(s: seq<byte>, m: Marks): Verdict
    requires |s| > 0
  {
    if |s| - 1 < HEADLEN then NeedMore
    else
      var p := ParseHeader(s[1..1 + HEADLEN]);
      if p.header != m.head || p.tail != m.tail then Reject
      else if p.datalen > MAX_DATALEN then TooLong
      else if |s| - 1 - HEADLEN < p.datalen + 1 then NeedMore
      else if s[1 + HEADLEN + p.datalen] != m.tail then Reject
      else Accept(p)
  }

  /** The bytes a frame takes: HEAD, header, payload, TAIL. */
  function FrameLen(p: NetPacket): nat {
    1 + HEADLEN + p.datalen + 1
  }

  lemma JudgeAccepts(s: seq<byte>, m: Marks)
    requires |s| > 0 && Judge(s, m).Accept?
    ensures FrameLen(Judge(s, m).packet) <= |s|
  {
  }

  /** The frame accepted at the front of `s`, then the scan of what follows it. */
  function AfterFrame(s: seq<byte>, m: Marks): ScanResult
    requires |s| > 0 && Judge(s, m).Accept?
    decreases |s|, 0
  {
    JudgeAccepts(s, m);
    var p := Judge(s, m).packet;
    Prepend([Frame(p, s[1 + HEADLEN..1 + HEADLEN + p.datalen])], Scan(s[FrameLen(p)..], m))
  }

  /** Scans a whole byte string: go to the first HEAD; on a bad header or a bad
      tail drop only that HEAD byte and go on; on a good frame deliver it. */
  function Scan(s: seq<byte>, m: Marks): (r: ScanResult)
    decreases |s|, 1
  {
    var h := IndexOf(s, m.head);
    if h == |s| then ScanResult([], [], false)
    else
      match Judge(s[h..], m)
      case NeedMore => ScanResult([], s[h..], false)
      case TooLong => ScanResult([], s[h..], true)
      case Reject => Scan(s[h + 1..], m)
      case Accept(p) =>
        JudgeAccepts(s[h..], m);
        AfterFrame(s[h..], m)
  }

  function Prepend(fs: seq<Frame>, r: ScanResult): (r': ScanResult)
    ensures r'.rest == r.rest && r'.overflow == r.overflow && r'.frames == fs + r.frames
  {
    ScanResult(fs + r.frames, r.rest, r.overflow)
  }

  /** One step of the scan of a string whose first HEAD is at `h`. */
  lemma ScanStep(s: seq<byte>, m: Marks, h: nat)
    requires IndexOf(s, m.head) == h
    ensures h == |s| ==> Scan(s, m) == ScanResult([], [], false)
    ensures h < |s| ==> StepAt(s, m, h)
  {
    hide Judge, IndexOf;
    if h < |s| && Judge(s[h..], m).Accept? {
      JudgeAccepts(s[h..], m);
      var p := Judge(s[h..], m).packet;
      assert s[h..][FrameLen(p)..] == s[h + FrameLen(p)..];
      assert s[h..][1 + HEADLEN..1 + HEADLEN + p.datalen] == s[h + 1 + HEADLEN..h + 1 + HEADLEN + p.datalen];
    }
  }

  ghost predicate StepAt(s: seq<byte>, m: Marks, h: nat)
    requires h < |s|
  {
    match Judge(s[h..], m)
    case NeedMore => Scan(s, m) == ScanResult([], s[h..], false)
    case TooLong => Scan(s, m) == ScanResult([], s[h..], true)
    case Reject => Scan(s, m) == Scan(s[h + 1..], m)
    case Accept(p) => Scan(s, m) == AfterFrame(s[h..], m)
  }

  /** A verdict other than "need more" is not changed by later bytes. */
  lemma JudgeStable(s: seq<byte>, t: seq<byte>, m: Marks)
    requires |s| > 0 && Judge(s, m) != NeedMore
    ensures Judge(s + t, m) == Judge(s, m)
  {
    assert (s + t)[1..1 + HEADLEN] == s[1..1 + HEADLEN];
  }

  /** Bytes before the first HEAD never matter. */
  lemma ScanSkip(a: seq<byte>, b: seq<byte>, m: Marks)
    requires m.head !in a
    ensures Scan(a + b, m) == Scan(b, m)
  {
    hide Judge, AfterFrame, Scan;
    var h := IndexOf(b, m.head);
    var s := a + b;
    assert s[..|a| + h] == a + b[..h];
    IndexOfUnique(s, m.head, |a| + h);
    ScanStep(s, m, |a| + h);
    ScanStep(b, m, h);
    if h < |b| {
      assert s[|a| + h..] == b[h..];
      assert s[|a| + h + 1..] == b[h + 1..];
    }
  }

  /** One step of the scan of a string that starts with HEAD. */
  lemma ScanAtHead(s: seq<byte>, m: Marks)
    requires |s| > 0 && s[0] == m.head
    ensures Judge(s, m).NeedMore? ==> Scan(s, m) == ScanResult([], s, false)
    ensures Judge(s, m).TooLong? ==> Scan(s, m) == ScanResult([], s, true)
    ensures Judge(s, m).Reject? ==> Scan(s, m) == Scan(s[1..], m)
    ensures Judge(s, m).Accept? ==> Scan(s, m) == AfterFrame(s, m)
  {
    hide Judge, AfterFrame, Scan;
    IndexOfUnique(s, m.head, 0);
    assert s[0..] == s;
    ScanStep(s, m, 0);
  }

  lemma ScanFromHead(s: seq<byte>, rest: seq<byte>, m: Marks)
    ensures Scan(s + rest, m) == Scan(s[IndexOf(s, m.head)..] + rest, m)
  {
    var h := IndexOf(s, m.head);
    assert s + rest == s[..h] + (s[h..] + rest);
    ScanSkip(s[..h], s[h..] + rest, m);
  }

  /** Bytes behind an accepted frame are scanned behind it. */
  lemma AfterFrameSplit(c: seq<byte>, b: seq<byte>, m: Marks)
    requires |c| > 0
    ensures Judge(c, m).Accept? ==>
      var p := Judge(c, m).packet;
      && FrameLen(p) <= |c| && Judge(c + b, m) == Judge(c, m)
      && var t, f := c[FrameLen(p)..], Frame(p, c[1 + HEADLEN..1 + HEADLEN + p.datalen]);
      AfterFrame(c, m) == Prepend([f], Scan(t, m)) && AfterFrame(c + b, m) == Prepend([f], Scan(t + b, m))
  {
    if Judge(c, m).Accept? {
      JudgeStable(c, b, m);
      hide Judge, Scan;
      JudgeAccepts(c, m);
      var p := Judge(c, m).packet;
      var i := 1 + HEADLEN;
      assert (c + b)[i..i + p.datalen] == c[i..i + p.datalen];
      assert (c + b)[FrameLen(p)..] == c[FrameLen(p)..] + b;
    }
  }

  /** Scanning is incremental: what is found in `a + b` is what is found in `a`,
      then what is found in the bytes `a` left waiting followed by `b`. */
  lemma {:induction false} ScanSplit(a: seq<byte>, b: seq<byte>, m: Marks)
    ensures Scan(a + b, m) == Prepend(Scan(a, m).frames, Scan(Scan(a, m).rest + b, m))
    decreases |a|
  {
    hide Judge, Scan, AfterFrame, IndexOf;
    var h := IndexOf(a, m.head);
    var c := a[h..];
    assert a + b == a[..h] + (c + b);
    ScanSkip(a[..h], c + b, m);
    ScanStep(a, m, h);
    if h == |a| {
      assert c + b == b == [] + b;
    } else {
      assert c[1..] == a[h + 1..];
      ScanAtHead(c + b, m);
      match Judge(c, m)
      case NeedMore =>
      case TooLong =>
        JudgeStable(c, b, m);
      case Reject =>
        JudgeStable(c, b, m);
        assert (c + b)[1..] == c[1..] + b;
        ScanSplit(c[1..], b, m);
      case Accept(p) =>
        JudgeStable(c, b, m);
        AfterFrameSplit(c, b, m);
        ScanSplit(c[FrameLen(p)..], b, m);
    }
  }

  /** What is left waiting holds no frame, and scanning it again changes nothing. */
  lemma {:induction false} ScanRest(s: seq<byte>, m: Marks)
    ensures Scan(Scan(s, m).rest, m) == ScanResult([], Scan(s, m).rest, Scan(s, m).overflow)
    decreases |s|
  {
    hide Judge, Scan;
    var h := IndexOf(s, m.head);
    ScanStep(s, m, h);
    ScanStep([], m, 0);
    if h < |s| {
      match Judge(s[h..], m)
      case NeedMore => ScanAtHead(s[h..], m);
      case TooLong => ScanAtHead(s[h..], m);
      case Reject => ScanRest(s[h + 1..], m);
      case Accept(p) =>
        JudgeAccepts(s[h..], m);
        ScanRest(s[h..][FrameLen(p)..], m);
    }
  }

  /** The wire form of a frame, as the sender builds it. */
  function Encode(f: Frame): (s: seq<byte>)
    ensures |s| == |f.data| + 10
  {
    [f.packet.header] + HeaderBytes(f.packet) + f.data + [f.packet.tail]
  }

  /** A frame a receiver with marks `m` can get: its own marks, its own length,
      and a length it can count. */
  predicate Fits(f: Frame, m: Marks) {
    f.packet.header == m.head && f.packet.tail == m.tail && f.packet.datalen == |f.data| <= MAX_DATALEN
  }

  /** How a string was taken apart: discarded bytes and frames, in order. */
  datatype Piece = Junk(bytes: seq<byte>) | Good(frame: Frame)

  function Pieces(s: seq<byte>, m: Marks): seq<Piece>
    decreases |s|
  {
    var h := IndexOf(s, m.head);
    if h == |s| then [Junk(s)]
    else
      match Judge(s[h..], m)
      case NeedMore => [Junk(s[..h])]
      case TooLong => [Junk(s[..h])]
      case Reject => [Junk(s[..h + 1])] + Pieces(s[h + 1..], m)
      case Accept(p) =>
        JudgeAccepts(s[h..], m);
        [Junk(s[..h]), Good(Frame(p, s[h..][1 + HEADLEN..1 + HEADLEN + p.datalen]))]
        + Pieces(s[h..][FrameLen(p)..], m)
  }

  function PieceBytes(p: Piece): seq<byte> {
    match p
    case Junk(b) => b
    case Good(f) => Encode(f)
  }

  function Joined(ps: seq<Piece>): seq<byte> {
    if ps == [] then [] else PieceBytes(ps[0]) + Joined(ps[1..])
  }

  function GoodFrames(ps: seq<Piece>): seq<Frame> {
    if ps == [] then []
    else (if ps[0].Good? then [ps[0].frame] else []) + GoodFrames(ps[1..])
  }

  lemma AcceptedIsEncoded(s: seq<byte>, m: Marks)
    requires |s| > 0 && s[0] == m.head && Judge(s, m).Accept?
    ensures var p := Judge(s, m).packet;
            var f := Frame(p, s[1 + HEADLEN..1 + HEADLEN + p.datalen]);
            Fits(f, m) && s == Encode(f) + s[FrameLen(p)..]
  {
    hide ParseHeader, HeaderBytes;
    var p := Judge(s, m).packet;
    var f := Frame(p, s[1 + HEADLEN..1 + HEADLEN + p.datalen]);
    HeaderRoundTrip(p, s[1..1 + HEADLEN]);
    var n := 1 + HEADLEN + p.datalen;
    assert s == [s[0]] + s[1..1 + HEADLEN] + s[1 + HEADLEN..n] + [s[n]] + s[n + 1..];
  }

  /** `ps` followed by the bytes `r` leaves waiting is `s`, byte for byte, and the
      frames among `ps` are those of `r`. */
  ghost predicate Explains(ps: seq<Piece>, r: ScanResult, s: seq<byte>, m: Marks) {
    && Joined(ps) + r.rest == s
    && GoodFrames(ps) == r.frames
    && forall f | f in r.frames :: Fits(f, m)
  }

  lemma ExplainsCons(p: Piece, ps: seq<Piece>, r: ScanResult, s: seq<byte>, m: Marks)
    requires Explains(ps, r, s, m)
    requires p.Good? ==> Fits(p.frame, m)
    ensures Explains([p] + ps, Prepend(if p.Good? then [p.frame] else [], r), PieceBytes(p) + s, m)
  {
    hide Encode, Fits;
    assert ([p] + ps)[1..] == ps;
    assert (PieceBytes(p) + Joined(ps)) + r.rest == PieceBytes(p) + (Joined(ps) + r.rest);
  }

  /** No byte is lost, duplicated or reordered: the string is exactly the pieces
      in order followed by the waiting rest, the good pieces are the delivered
      frames, and each of them stands in the string in its encoded form. */
  lemma {:induction false} ScanExplains(s: seq<byte>, m: Marks)
    ensures Explains(Pieces(s, m), Scan(s, m), s, m)
    decreases |s|
  {
    hide Judge, Scan, Explains, IndexOf, AfterFrame;
    var h := IndexOf(s, m.head);
    ScanStep(s, m, h);
    if h == |s| {
      ExplainsWaiting(s, [], false, m);
      assert s + [] == s;
    } else {
      assert s == s[..h] + s[h..];
      match Judge(s[h..], m)
      case NeedMore =>
        ExplainsWaiting(s[..h], s[h..], false, m);
      case TooLong =>
        ExplainsWaiting(s[..h], s[h..], true, m);
      case Reject =>
        ScanExplains(s[h + 1..], m);
        ExplainsCons(Junk(s[..h + 1]), Pieces(s[h + 1..], m), Scan(s[h + 1..], m), s[h + 1..], m);
        assert s == s[..h + 1] + s[h + 1..];
        PrependNothing(Scan(s[h + 1..], m));
      case Accept(p) =>
        AcceptedIsEncoded(s[h..], m);
        var t := s[h..][FrameLen(p)..];
        ScanExplains(t, m);
        var f := Frame(p, s[h..][1 + HEADLEN..1 + HEADLEN + p.datalen]);
        AfterFrameIs(s[h..], m);
        ExplainsCons(Good(f), Pieces(t, m), Scan(t, m), t, m);
        ExplainsCons(Junk(s[..h]), [Good(f)] + Pieces(t, m), Scan(s, m), s[h..], m);
        PrependNothing(Scan(s, m));
        assert Pieces(s, m) == [Junk(s[..h])] + ([Good(f)] + Pieces(t, m));
    }
  }

  lemma AfterFrameIs(s: seq<byte>, m: Marks)
    requires |s| > 0 && Judge(s, m).Accept?
    ensures FrameLen(Judge(s, m).packet) <= |s|
    ensures var p := Judge(s, m).packet;
            AfterFrame(s, m) == Prepend([Frame(p, s[1 + HEADLEN..1 + HEADLEN + p.datalen])], Scan(s[FrameLen(p)..], m))
  {
    hide Scan;
    JudgeAccepts(s, m);
  }

  lemma ExplainsWaiting(junk: seq<byte>, rest: seq<byte>, overflow: bool, m: Marks)
    ensures Explains([Junk(junk)], ScanResult([], rest, overflow), junk + rest, m)
  {
  }

  lemma PrependNothing(r: ScanResult)
    ensures Prepend([], r) == r
  {
    assert [] + r.frames == r.frames;
  }

  /** An encoded frame at the front is delivered and removed, whatever its payload holds. */
  lemma ScanEncoded(f: Frame, rest: seq<byte>, m: Marks)
    requires Fits(f, m)
    ensures Scan(Encode(f) + rest, m) == Prepend([f], Scan(rest, m))
  {
    hide Scan, Judge, Encode, Fits, IndexOf;
    JudgeEncoded(f, rest, m);
    ScanAtHead(Encode(f) + rest, m);
    AfterFrameIs(Encode(f) + rest, m);
  }

  lemma JudgeEncoded(f: Frame, rest: seq<byte>, m: Marks)
    requires Fits(f, m)
    ensures var s, p := Encode(f) + rest, f.packet;
      && s[0] == m.head && Judge(s, m) == Accept(p)
      && FrameLen(p) <= |s| && s[1 + HEADLEN..1 + HEADLEN + p.datalen] == f.data && s[FrameLen(p)..] == rest
  {
    hide Scan, IndexOf, ParseHeader;
    var s, p := Encode(f) + rest, f.packet;
    assert s[1..1 + HEADLEN] == HeaderBytes(p);
    HeaderRoundTrip(p, HeaderBytes(p));
    assert s[1 + HEADLEN..1 + HEADLEN + p.datalen] == f.data;
    assert s[FrameLen(p)..] == rest;
  }

  /** An encoded frame that this receiver can get stands at the front of `s`. */
  ghost predicate StartsFrame(s: seq<byte>, m: Marks) {
    exists f :: Fits(f, m) && Encode(f) <= s
  }

  /** No discarded byte of `s`, taken apart into `ps`, is the start of a frame. */
  ghost predicate NoneMissed(ps: seq<Piece>, s: seq<byte>, m: Marks)
    decreases |ps|
  {
    ps == [] || (
      var b := PieceBytes(ps[0]);
      && |b| <= |s| && (ps[0].Junk? ==> forall j :: 0 <= j < |b| ==> !StartsFrame(s[j..], m))
      && NoneMissed(ps[1..], s[|b|..], m))
  }

  /** What may be kept waiting: a HEAD byte with less than a header behind it, or a header with
      the receiver's marks and less behind it than it declares, or too long a declaration. */
  predicate Waits(r: ScanResult, m: Marks) {
    r.rest == [] || (
      && r.rest[0] == m.head
      && (|r.rest| > HEADLEN ==>
            var p := ParseHeader(r.rest[1..1 + HEADLEN]);
            && p.header == m.head && p.tail == m.tail
            && (if r.overflow then p.datalen > MAX_DATALEN else |r.rest| < FrameLen(p))))
  }

  /** Nothing is kept without need. */
  lemma {:induction false} WaitsForMore(s: seq<byte>, m: Marks)
    ensures Waits(Scan(s, m), m)
    decreases |s|
  {
    hide Scan, IndexOf, ParseHeader;
    var h := IndexOf(s, m.head);
    ScanStep(s, m, h);
    if h < |s| {
      match Judge(s[h..], m)
      case NeedMore =>
      case TooLong =>
      case Reject => WaitsForMore(s[h + 1..], m);
      case Accept(p) =>
        JudgeAccepts(s[h..], m);
        WaitsForMore(s[h..][FrameLen(p)..], m);
    }
  }

  lemma FrameIsAccepted(s: seq<byte>, m: Marks)
    requires StartsFrame(s, m)
    ensures s != [] && s[0] == m.head && Judge(s, m).Accept?
  {
    hide Judge, Fits, Encode;
    var f :| Fits(f, m) && Encode(f) <= s;
    assert s == Encode(f) + s[|Encode(f)|..];
    JudgeEncoded(f, s[|Encode(f)|..], m);
  }

  /** Nothing is missed: where a byte was discarded, no frame begins that is in the string in
      full, so that after a bad header or a bad tail only that HEAD byte is given up. */
  lemma {:induction false} NothingMissed(s: seq<byte>, m: Marks)
    ensures NoneMissed(Pieces(s, m), s, m)
    decreases |s|
  {
    hide Judge, StartsFrame, Encode, NoneMissed, ParseHeader;
    var h := IndexOf(s, m.head);
    forall j | 0 <= j < h ensures !StartsFrame(s[j..], m) {
      assert s[j..][0] == s[j] == s[..h][j];
      if StartsFrame(s[j..], m) {
        FrameIsAccepted(s[j..], m);
      }
    }
    if h == |s| {
      JunkOnly(s, s, m);
    } else {
      match Judge(s[h..], m)
      case NeedMore => JunkOnly(s[..h], s, m);
      case TooLong => JunkOnly(s[..h], s, m);
      case Reject =>
        if StartsFrame(s[h..], m) { FrameIsAccepted(s[h..], m); }
        NothingMissed(s[h + 1..], m);
        JunkFirst(s[..h + 1], Pieces(s[h + 1..], m), s, m);
      case Accept(p) =>
        JudgeAccepts(s[h..], m);
        var g, more := Good(Frame(p, s[h..][1 + HEADLEN..1 + HEADLEN + p.datalen])), Pieces(s[h..][FrameLen(p)..], m);
        NothingMissed(s[h..][FrameLen(p)..], m);
        assert |PieceBytes(g)| == FrameLen(p) by { AcceptedIsEncoded(s[h..], m); FitLength(g.frame, m); }
        GoodFirst(g, more, s[h..], m);
        JunkFirst(s[..h], [g] + more, s, m);
        assert Pieces(s, m) == [Junk(s[..h])] + ([g] + more);
    }
  }

  lemma JunkOnly(b: seq<byte>, s: seq<byte>, m: Marks)
    requires b <= s && (forall j :: 0 <= j < |b| ==> !StartsFrame(s[j..], m))
    ensures NoneMissed([Junk(b)], s, m)
  {
  }

  lemma JunkFirst(b: seq<byte>, ps: seq<Piece>, s: seq<byte>, m: Marks)
    requires b <= s && (forall j :: 0 <= j < |b| ==> !StartsFrame(s[j..], m)) && NoneMissed(ps, s[|b|..], m)
    ensures NoneMissed([Junk(b)] + ps, s, m)
  {
    assert ([Junk(b)] + ps)[1..] == ps;
  }

  lemma FitLength(f: Frame, m: Marks)
    requires Fits(f, m)
    ensures |Encode(f)| == FrameLen(f.packet)
  {
  }

  lemma GoodFirst(g: Piece, ps: seq<Piece>, s: seq<byte>, m: Marks)
    requires g.Good? && |PieceBytes(g)| <= |s| && NoneMissed(ps, s[|PieceBytes(g)|..], m)
    ensures NoneMissed([g] + ps, s, m)
  {
    assert ([g] + ps)[1..] == ps;
  }

  function EncodeAll(fs: seq<Frame>): seq<byte> {
    if fs == [] then [] else Encode(fs[0]) + EncodeAll(fs[1..])
  }

  lemma ScanNothing(m: Marks)
    ensures Scan([], m) == ScanResult([], [], false)
  {
  }

  /** A prefix without HEAD bytes followed by encoded frames scans to exactly those
      frames, in order, with nothing left over. */
  lemma {:induction false} ScanEncodedAll(junk: seq<byte>, fs: seq<Frame>, m: Marks)
    requires m.head !in junk
    requires forall f | f in fs :: Fits(f, m)
    ensures Scan(junk + EncodeAll(fs), m) == ScanResult(fs, [], false)
    decreases |fs|
  {
    hide Scan, Encode, Fits, IndexOf;
    ScanSkip(junk, EncodeAll(fs), m);
    ScanNothing(m);
    if fs != [] {
      ScanEncodedAll([], fs[1..], m);
      assert [] + EncodeAll(fs[1..]) == EncodeAll(fs[1..]);
      ScanEncoded(fs[0], EncodeAll(fs[1..]), m);
      assert fs == [fs[0]] + fs[1..];
    }
  }

  /** Sent alone, a packet is delivered as itself exactly when it carries the
      receiver's marks and its declared length is its payload's length. */
  lemma DeliveredIffFits(f: Frame, m: Marks)
    ensures Scan(Encode(f), m) == ScanResult([f], [], false) <==> Fits(f, m)
  {
    hide Scan, Fits;
    ScanExplains(Encode(f), m);
    assert f in [f];
    if Fits(f, m) {
      ScanEncodedAll([], [f], m);
      assert [] + EncodeAll([f]) == Encode(f);
    }
  }
}
