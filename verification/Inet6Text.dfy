/** IPv6 addresses as text: the canonical form of section 4 of RFC 5952, and what
    inet_pton6 of src/inet.c reads. */
module Inet6Text {
  import opened Basics
  import opened InetText

  /** The eight words of an address, high byte first. */
  function WordsOf(src: seq<byte>): (ws: seq<word>)
    requires |src| == 16
    ensures |ws| == 8
  {
    seq(8, i requires 0 <= i < 8 => Pair(src[2 * i], src[2 * i + 1]))
  }

  function Pair(high: byte, low: byte): word {
    high * 0x100 + low
  }

  lemma TwoOfPair(high: byte, low: byte)
    ensures Two(Pair(high, low)) == [high, low]
  {
  }

  lemma Nothing()
    ensures Join([]) == [] && BytesOf([]) == []
  {
  }

  function BytesOf(ws: seq<word>): (bytes: seq<byte>)
    ensures |bytes| == 2 * |ws|
  {
    if ws == [] then [] else BytesOf(ws[..|ws| - 1]) + Two(ws[|ws| - 1])
  }

  /** The two bytes that inet_pton6 stores for a group. */
  function Two(val: nat): (b: seq<byte>)
    ensures |b| == 2
  {
    [val / 0x100 % 0x100, val % 0x100]
  }

  /** The number of zero words from position `i` on. */
  function Zeros(ws: seq<word>, i: nat): (n: nat)
    requires i <= |ws|
    ensures i + n <= |ws|
    ensures forall k :: i <= k < i + n ==> ws[k] == 0
    ensures i + n < |ws| ==> ws[i + n] != 0
    decreases |ws| - i
  {
    if i == |ws| || ws[i] != 0 then 0 else 1 + Zeros(ws, i + 1)
  }

  lemma {:induction false} ZerosCount(ws: seq<word>, i: nat, n: nat)
    requires i + n <= |ws| && forall k :: i <= k < i + n ==> ws[k] == 0
    requires i + n < |ws| ==> ws[i + n] != 0
    ensures Zeros(ws, i) == n
    decreases n
  {
    if n > 0 {
      ZerosCount(ws, i + 1, n - 1);
    }
  }

  datatype Run = Run(base: nat, len: nat)

  /** The run to be written `::`: the longest of at least two words, and of those the first
      (sections 4.2.2 and 4.2.3 of RFC 5952). */
  predicate IsBest(ws: seq<word>, r: Run) {
    && r.base < |ws| && r.len >= 2 && Zeros(ws, r.base) == r.len
    && (forall j :: 0 <= j < |ws| ==> Zeros(ws, j) <= r.len)
    && (forall j :: 0 <= j < r.base ==> Zeros(ws, j) < r.len)
  }

  function BestFrom(ws: seq<word>, i: nat): Option<Run>
    requires i <= |ws|
    decreases |ws| - i
  {
    if i == |ws| then None
    else
      var r, z := BestFrom(ws, i + 1), Zeros(ws, i);
      if z >= 2 && (r.None? || z >= r.value.len) then Some(Run(i, z)) else r
  }

  function BestRun(ws: seq<word>): Option<Run> {
    BestFrom(ws, 0)
  }

  lemma {:induction false} BestFromIs(ws: seq<word>, i: nat)
    requires i <= |ws|
    ensures match BestFrom(ws, i)
      case None => forall j :: i <= j < |ws| ==> Zeros(ws, j) < 2
      case Some(r) =>
        && i <= r.base < |ws| && r.len >= 2 && Zeros(ws, r.base) == r.len
        && (forall j :: i <= j < |ws| ==> Zeros(ws, j) <= r.len)
        && (forall j :: i <= j < r.base ==> Zeros(ws, j) < r.len)
    decreases |ws| - i
  {
    if i < |ws| {
      BestFromIs(ws, i + 1);
    }
  }

  /** BestRun is that run, and there is none exactly if no two zero words are adjacent. */
  lemma BestRunIs(ws: seq<word>, r: Run)
    ensures BestRun(ws) == Some(r) <==> IsBest(ws, r)
    ensures BestRun(ws) == None <==> forall j :: 0 <= j < |ws| ==> Zeros(ws, j) < 2
  {
    BestFromIs(ws, 0);
  }

  /** Groups, each after a colon. */
  function Colons(ws: seq<word>): string {
    if ws == [] then [] else Colons(ws[..|ws| - 1]) + ":" + Hex(ws[|ws| - 1])
  }

  /** Groups with colons between them. */
  function Join(ws: seq<word>): string {
    if ws == [] then [] else Hex(ws[0]) + Colons(ws[1..])
  }

  /** An IPv4 address in IPv6 clothing: ::a.b.c.d or ::ffff:a.b.c.d. */
  predicate Encapsulated(ws: seq<word>, r: Run)
    requires |ws| == 8
  {
    r.base == 0 && (r.len == 6 || (r.len == 5 && ws[5] == 0xffff))
  }

  /** The text of an address. */
  function Canonical(src: seq<byte>): string
    requires |src| == 16
  {
    var ws := WordsOf(src);
    match BestRun(ws)
    case None => Join(ws)
    case Some(r) =>
      if r.base + r.len > 8 then []
      else if Encapsulated(ws, r) then
        "::" + (if r.len == 5 then Hex(0xffff) + ":" else []) + Quad(src[12..])
      else Join(ws[..r.base]) + "::" + Join(ws[r.base + r.len..])
  }

  // Reading.

  /** inet_pton6 between characters: what is stored at `tmp`, where `::` was, how many
      digits of a group were read and their value. */
  datatype Cursor = Cursor(out: seq<byte>, colon: Option<nat>, seen: nat, val: nat)

  /** The loop of inet_pton6, with `cur` the text from the current token on. */
  function Scan6(s: string, cur: string, c: Cursor): Option<Cursor>
    decreases |s|
  {
    if s == [] then Some(c)
    else
      var rest := s[1..];
      match HexValue(s[0])
      case Some(d) =>
        if c.seen + 1 > 4 then None
        else Scan6(rest, cur, c.(val := c.val * 16 + d, seen := c.seen + 1))
      case None =>
        if s[0] == ':' then
          if c.seen == 0 then
            if c.colon.Some? then None else Scan6(rest, rest, c.(colon := Some(|c.out|)))
          else if rest == [] then None
          else if |c.out| + 2 > 16 then None
          else Scan6(rest, rest, c.(out := c.out + Two(c.val), seen := 0, val := 0))
        else if s[0] == '.' && |c.out| + 4 <= 16 then
          match Parse4(cur)
          case None => None
          case Some(q) => Some(c.(out := c.out + q, seen := 0))
        else None
  }

  function ZeroBytes(n: nat): (z: seq<byte>)
    ensures |z| == n && forall i :: 0 <= i < n ==> z[i] == 0
  {
    seq(n, i => 0)
  }

  /** What happens after the loop. */
  function Finish6(c: Cursor): (r: Option<seq<byte>>)
    ensures r.Some? ==> |r.value| == 16
  {
    if c.seen > 0 && |c.out| + 2 > 16 then None
    else
      var out := if c.seen > 0 then c.out + Two(c.val) else c.out;
      match c.colon
      case None => if |out| == 16 then Some(out) else None
      case Some(k) =>
        if |out| >= 16 || k > |out| then None
        else Some(out[..k] + ZeroBytes(16 - |out|) + out[k..])
  }

  const START := Cursor([], None, 0, 0)

  function Parse6(s: string): (r: Option<seq<byte>>)
    ensures r.Some? ==> |r.value| == 16
  {
    if s != [] && s[0] == ':' then
      if |s| == 1 || s[1] != ':' then None else Then6(Scan6(s[1..], s[1..], START))
    else Then6(Scan6(s, s, START))
  }

  function Then6(c: Option<Cursor>): (r: Option<seq<byte>>)
    ensures r.Some? ==> |r.value| == 16
  {
    match c case None => None case Some(c) => Finish6(c)
  }

  // What the reader makes of the printer's pieces.

  lemma {:induction false} ScanHex(n: nat, digits: nat, tail: string, cur: string, c: Cursor)
    requires c.seen == 0 && c.val == 0 && |Hex(n)| == digits <= 4
    ensures Scan6(Hex(n) + tail, cur, c) == Scan6(tail, cur, c.(seen := digits, val := n))
    decreases n
  {
    hide HexValue, Digit;
    HexDigit(n % 16);
    if n < 16 {
      assert (Hex(n) + tail)[1..] == tail;
    } else {
      var more := [Digit(n % 16)] + tail;
      assert Hex(n) + tail == Hex(n / 16) + more;
      ScanHex(n / 16, digits - 1, more, cur, c);
      assert more[1..] == tail;
    }
  }

  lemma ScanColon(tail: string, cur: string, c: Cursor)
    requires c.seen > 0 && tail != [] && |c.out| + 2 <= 16
    ensures Scan6(":" + tail, cur, c) == Scan6(tail, tail, Cursor(c.out + Two(c.val), c.colon, 0, 0))
  {
    assert (":" + tail)[1..] == tail;
  }

  lemma ScanDouble(tail: string, cur: string, c: Cursor)
    requires c.seen == 0 && c.colon.None?
    ensures Scan6(":" + tail, cur, c) == Scan6(tail, tail, c.(colon := Some(|c.out|)))
  {
    assert (":" + tail)[1..] == tail;
  }

  lemma BytesSnoc(ws: seq<word>, w: word)
    ensures BytesOf(ws + [w]) == BytesOf(ws) + Two(w)
    ensures Colons(ws + [w]) == Colons(ws) + ":" + Hex(w)
  {
    assert (ws + [w])[..|ws|] == ws;
  }

  /** Reading a list of groups from between groups: all but the last are stored, the last is
      still in `val`; `cur1` is the token then. */
  lemma {:induction false} ScanJoin(ws: seq<word>, tail: string, cur: string, c: Cursor) returns (cur1: string)
    requires ws != [] && c.seen == 0 && c.val == 0 && |c.out| + 2 * |ws| <= 16
    ensures Scan6(Join(ws) + tail, cur, c) == Scan6(tail, cur1, AfterGroups(ws, c))
    decreases |ws|
  {
    hide Scan6, Hex, Two, Join;
    var front, last := ws[..|ws| - 1], ws[|ws| - 1];
    assert ws == front + [last];
    if front == [] {
      OneGroup(last);
      ScanHex(last, |Hex(last)|, tail, cur, c);
      Nothing();
      assert c.out + [] == c.out;
      cur1 := cur;
    } else {
      var more := ":" + (Hex(last) + tail);
      JoinSnoc(front, last);
      assert Join(ws) + tail == Join(front) + more;
      var cur0 := ScanJoin(front, more, cur, c);
      var d := AfterGroups(front, c);
      ScanColon(Hex(last) + tail, cur0, d);
      cur1 := Hex(last) + tail;
      Flushed(front, c);
      ScanHex(last, |Hex(last)|, tail, cur1, Cursor(d.out + Two(d.val), d.colon, 0, 0));
    }
  }

  lemma OneGroup(w: word)
    ensures Join([w]) == Hex(w)
  {
    assert [w][1..] == [];
  }

  function AfterGroups(ws: seq<word>, c: Cursor): Cursor
    requires ws != []
  {
    var last := ws[|ws| - 1];
    Cursor(c.out + BytesOf(ws[..|ws| - 1]), c.colon, |Hex(last)|, last)
  }

  lemma JoinSnoc(ws: seq<word>, w: word)
    requires ws != []
    ensures Join(ws + [w]) == Join(ws) + ":" + Hex(w)
  {
    assert (ws + [w])[1..] == ws[1..] + [w];
    BytesSnoc(ws[1..], w);
  }

  /** What the last group adds when the text or a colon ends it. */
  lemma Flushed(ws: seq<word>, c: Cursor)
    requires ws != []
    ensures AfterGroups(ws, c).seen > 0 && AfterGroups(ws, c).colon == c.colon
    ensures AfterGroups(ws, c).out + Two(AfterGroups(ws, c).val) == c.out + BytesOf(ws)
  {
    hide BytesOf, Two, Colons;
    var front, last := ws[..|ws| - 1], ws[|ws| - 1];
    BytesSnoc(front, last);
    assert ws == front + [last];
    assert c.out + BytesOf(front) + Two(last) == c.out + (BytesOf(front) + Two(last));
  }

  lemma JoinStart(ws: seq<word>)
    requires ws != []
    ensures Join(ws) != [] && Join(ws)[0] != ':'
  {
    HexStart(ws[0]);
  }

  lemma {:induction false} HexStart(n: nat)
    ensures Hex(n)[0] != ':'
    decreases n
  {
    if n >= 16 {
      HexStart(n / 16);
    }
  }

  /** Any text of eight groups reads as their bytes. */
  lemma EightGroups(ws: seq<word>)
    requires |ws| == 8
    ensures Parse6(Join(ws)) == Some(BytesOf(ws))
  {
    hide Scan6, Join;
    var s := Join(ws);
    JoinStart(ws);
    var cur := ScanJoin(ws, [], s, START);
    assert s + [] == s;
    ScanEnd(cur, AfterGroups(ws, START));
    Flushed(ws, START);
    assert START.out + BytesOf(ws) == BytesOf(ws);
  }

  lemma ScanEnd(cur: string, c: Cursor)
    ensures Scan6([], cur, c) == Some(c)
  {
  }

  /** The groups before a `::`, if any, up to its second colon. */
  lemma ScanLeft(left: seq<word>, tail: string)
    requires |left| <= 7
    ensures var s := Join(left) + "::" + tail;
      && (left == [] ==> s != [] && s[0] == ':' && |s| > 1 && s[1] == ':')
      && (left != [] ==> s != [] && s[0] != ':')
      && var t := if left == [] then s[1..] else s;
      Scan6(t, t, START) == Scan6(tail, tail, Cursor(BytesOf(left), Some(2 * |left|), 0, 0))
  {
    hide Scan6, Join;
    var s := Join(left) + "::" + tail;
    if left == [] {
      Nothing();
      assert s[1..] == ":" + tail;
      ScanDouble(tail, s[1..], START);
    } else {
      JoinStart(left);
      var more := ":" + (":" + tail);
      assert s == Join(left) + more;
      var cur := ScanJoin(left, more, s, START);
      var c := AfterGroups(left, START);
      ScanColon(":" + tail, cur, c);
      Flushed(left, START);
      assert START.out + BytesOf(left) == BytesOf(left);
      ScanDouble(tail, ":" + tail, Cursor(BytesOf(left), None, 0, 0));
    }
  }

  lemma ParseLeft(left: seq<word>, tail: string)
    requires |left| <= 7
    ensures Parse6(Join(left) + "::" + tail)
         == Then6(Scan6(tail, tail, Cursor(BytesOf(left), Some(2 * |left|), 0, 0)))
  {
    hide Scan6, Join, BytesOf, Then6;
    ScanLeft(left, tail);
  }

  /** The bytes before and after a `::`, with zeros between. */
  function Stretch(left: seq<byte>, right: seq<byte>): (b: seq<byte>)
    requires |left| + |right| <= 16
    ensures |b| == 16
  {
    left + ZeroBytes(16 - |left| - |right|) + right
  }

  /** Any text with one `::`, in place of the longest run or of another, reads as the groups
      on both sides with zeros between. */
  lemma TwoSides(left: seq<word>, right: seq<word>)
    requires |left| + |right| <= 7
    ensures Parse6(Join(left) + "::" + Join(right)) == Some(Stretch(BytesOf(left), BytesOf(right)))
  {
    hide Scan6, Join, BytesOf, Finish6, Parse6, AfterGroups, Two, Stretch;
    var tail := Join(right);
    ParseLeft(left, tail);
    var c := Cursor(BytesOf(left), Some(2 * |left|), 0, 0);
    if right == [] {
      Nothing();
      ScanEnd(tail, c);
      assert BytesOf(left) + [] == BytesOf(left);
      FinishTwo(c, BytesOf(left), []);
    } else {
      var cur := ScanJoin(right, [], tail, c);
      assert tail + [] == tail;
      ScanEnd(cur, AfterGroups(right, c));
      Flushed(right, c);
      FinishTwo(AfterGroups(right, c), BytesOf(left), BytesOf(right));
    }
  }

  lemma FinishTwo(c: Cursor, left: seq<byte>, right: seq<byte>)
    requires |left| + |right| < 16 && c.colon == Some(|left|)
    requires if c.seen > 0 then c.out + Two(c.val) == left + right else c.out == left + right
    ensures Finish6(c) == Some(Stretch(left, right))
  {
    hide Two, ZeroBytes;
    assert (left + right)[..|left|] == left && (left + right)[|left|..] == right;
  }

  /** A dotted quad where a group may begin. */
  lemma {:induction false} ScanQuad(q: seq<byte>, c: Cursor)
    requires |q| == 4 && c.seen == 0 && c.val == 0 && |c.out| + 4 <= 16
    ensures exists v :: Scan6(Quad(q), Quad(q), c) == Some(Cursor(c.out + q, c.colon, 0, v))
  {
    hide Scan6, Parse4;
    QuadRoundTrip(q);
    var tail := "." + Dec(q[1]) + "." + Dec(q[2]) + "." + Dec(q[3]);
    assert Quad(q) == Dec(q[0]) + tail;
    var v := ScanDec(q[0], tail, Quad(q), c);
    ScanDot(tail, Quad(q), c.(seen := |Dec(q[0])|, val := v));
  }

  lemma ScanDot(tail: string, cur: string, c: Cursor)
    requires tail != [] && tail[0] == '.' && |c.out| + 4 <= 16 && Parse4(cur).Some?
    ensures Scan6(tail, cur, c) == Some(c.(out := c.out + Parse4(cur).value, seen := 0))
  {
  }

  /** Decimal digits pass for hexadecimal ones until the dot. */
  lemma {:induction false} ScanDec(n: nat, tail: string, cur: string, c: Cursor) returns (v: nat)
    requires c.seen == 0 && |Dec(n)| <= 4
    ensures Scan6(Dec(n) + tail, cur, c) == Scan6(tail, cur, c.(seen := |Dec(n)|, val := v))
    decreases n
  {
    hide HexValue, Digit;
    HexDigit(n % 10);
    if n < 10 {
      assert (Dec(n) + tail)[1..] == tail;
      v := c.val * 16 + n;
    } else {
      var more := [Digit(n % 10)] + tail;
      assert Dec(n) + tail == Dec(n / 10) + more;
      var u := ScanDec(n / 10, more, cur, c);
      assert more[1..] == tail;
      v := u * 16 + n % 10;
    }
  }

  lemma LongestRun(src: seq<byte>)
    requires |src| == 16
    ensures match BestRun(WordsOf(src))
      case None => true
      case Some(r) =>
        && r.base + r.len <= 8 && r.len >= 2
        && forall k :: r.base <= k < r.base + r.len ==> WordsOf(src)[k] == 0
  {
    match BestRun(WordsOf(src))
    case None =>
    case Some(r) => BestRunIs(WordsOf(src), r);
  }

  lemma {:induction false} BytesOfWords(src: seq<byte>, k: nat, n: nat)
    requires |src| == 16 && k <= n <= 8
    ensures BytesOf(WordsOf(src)[k..n]) == src[2 * k..2 * n]
    decreases n
  {
    hide BytesOf, Two, Pair, Colons;
    var ws := WordsOf(src);
    if n > k {
      BytesOfWords(src, k, n - 1);
      assert ws[k..n] == ws[k..n - 1] + [ws[n - 1]];
      BytesSnoc(ws[k..n - 1], ws[n - 1]);
      TwoOfPair(src[2 * n - 2], src[2 * n - 1]);
    } else {
      Nothing();
    }
  }

  lemma ZeroWords(src: seq<byte>, k: nat, n: nat)
    requires |src| == 16 && k <= n <= 8 && forall i :: k <= i < n ==> WordsOf(src)[i] == 0
    ensures src[2 * k..2 * n] == ZeroBytes(2 * (n - k))
  {
    forall i | 2 * k <= i < 2 * n ensures src[i] == 0 {
      assert WordsOf(src)[i / 2] == 0;
    }
  }

  /** inet_pton6 reads back every address that inet_ntop6 prints. */
  lemma RoundTrip6(src: seq<byte>)
    requires |src| == 16
    ensures Parse6(Canonical(src)) == Some(src)
  {
    hide BestRun, Join, Parse6, WordsOf, BytesOf, Quad;
    var ws := WordsOf(src);
    match BestRun(ws)
    case None =>
      EightGroups(ws);
      BytesOfWords(src, 0, 8);
      assert ws[0..8] == ws && src[0..16] == src;
    case Some(r) =>
      LongestRun(src);
      var n := r.base + r.len;
      ZeroWords(src, r.base, n);
      if Encapsulated(ws, r) {
        EncapsulatedTrip(src, r);
      } else {
        TwoSides(ws[..r.base], ws[n..]);
        BytesOfWords(src, 0, r.base);
        BytesOfWords(src, n, 8);
        assert ws[n..] == ws[n..8] && ws[..r.base] == ws[0..r.base];
        assert src == src[..2 * r.base] + src[2 * r.base..2 * n] + src[2 * n..16];
      }
  }

  lemma EncapsulatedTrip(src: seq<byte>, r: Run)
    requires |src| == 16 && Encapsulated(WordsOf(src), r) && src[..2 * r.len] == ZeroBytes(2 * r.len)
    ensures Parse6("::" + (if r.len == 5 then Hex(0xffff) + ":" else []) + Quad(src[12..])) == Some(src)
  {
    hide Scan6, BytesOf, Quad, WordsOf, Parse4, Hex, Join, Finish6;
    var q := src[12..];
    var s := "::" + (if r.len == 5 then Hex(0xffff) + ":" else []) + Quad(q);
    var tail := (if r.len == 5 then Hex(0xffff) + ":" else []) + Quad(q);
    ScanLeft([], tail);
    Nothing();
    assert s == Join([]) + "::" + tail;
    var c := Cursor([], Some(0), 0, 0);
    if r.len == 6 {
      ScanQuad(q, c);
      assert tail == Quad(q) && [] + q == q;
      assert src == ZeroBytes(12) + q;
      FinishZeros(Scan6(tail, tail, c).value, q);
    } else {
      QuadNotEmpty(q);
      var more := ":" + Quad(q);
      assert tail == Hex(0xffff) + more;
      ScanHex(0xffff, |Hex(0xffff)|, more, tail, c);
      var d := c.(seen := |Hex(0xffff)|, val := 0xffff);
      ScanColon(Quad(q), tail, d);
      var e := Cursor([] + Two(0xffff), Some(0), 0, 0);
      ScanQuad(q, e);
      SixthWord(src);
      FinishZeros(Scan6(tail, tail, c).value, Two(0xffff) + q);
      assert src == ZeroBytes(10) + (Two(0xffff) + q);
    }
  }

  lemma SixthWord(src: seq<byte>)
    requires |src| == 16 && WordsOf(src)[5] == 0xffff
    ensures src[10..12] == Two(0xffff)
  {
    TwoOfPair(src[10], src[11]);
  }

  lemma QuadNotEmpty(q: seq<byte>)
    requires |q| == 4
    ensures Quad(q) != []
  {
  }

  lemma FinishZeros(c: Cursor, out: seq<byte>)
    requires c.out == out && c.colon == Some(0) && c.seen == 0 && |out| < 16
    ensures Finish6(c) == Some(ZeroBytes(16 - |out|) + out)
  {
    assert out[..0] + ZeroBytes(16 - |out|) + out[0..] == ZeroBytes(16 - |out|) + out;
  }
}
