/** Which texts inet_pton6 of src/inet.c accepts, and what they mean: the grammar of section
    2.2 of RFC 4291, stated without reference to a scan. */
module Inet6Grammar {
  import opened Basics
  import opened InetText
  import opened Inet6Text

  /** The parts of a text: the groups before `::` or all of them, whether there is a `::`, the
      groups behind it, and the IPv4 address at the end if there is one. */
  datatype Address = Address(left: seq<string>, dots: bool, right: seq<string>, quad: Option<seq<byte>>)

  predicate Hexes(g: string) {
    forall i :: 0 <= i < |g| ==> HexValue(g[i]).Some?
  }

  /** One to four hexadecimal digits in either case, leading zeros allowed. */
  predicate IsGroup(g: string) {
    1 <= |g| <= 4 && Hexes(g)
  }

  predicate AllGroups(gs: seq<string>) {
    forall i :: 0 <= i < |gs| ==> IsGroup(gs[i])
  }

  predicate Formed(a: Address) {
    && AllGroups(a.left) && AllGroups(a.right) && (!a.dots ==> a.right == [])
    && (a.quad.Some? ==> |a.quad.value| == 4)
  }

  predicate Ends(a: Address) {
    a.left == [] && !a.dots && a.quad.None?
  }

  /** The parts with single colons between them; a `::` behind a group takes one colon from
      that, and otherwise has one only. */
  function Tail(a: Address): (s: string)
    requires Formed(a)
    ensures s == [] <==> Ends(a)
    decreases a.dots, |a.left|
  {
    if a.left != [] then
      var b := a.(left := a.left[1..]);
      a.left[0] + (if Ends(b) then [] else ":" + Tail(b))
    else if a.dots then ":" + Tail(Address(a.right, false, [], a.quad))
    else match a.quad
      case None => []
      case Some(q) => QuadStarts(q); Quad(q)
  }

  lemma QuadStarts(q: seq<byte>)
    requires |q| == 4
    ensures Quad(q) != []
  {
  }

  function Text(a: Address): string
    requires Formed(a)
  {
    if a.left == [] && a.dots then ":" + Tail(a) else Tail(a)
  }

  function HexVal(g: string): nat
    requires Hexes(g)
  {
    if g == [] then 0 else HexVal(g[..|g| - 1]) * 16 + HexValue(g[|g| - 1]).value
  }

  function GroupBytes(gs: seq<string>): (b: seq<byte>)
    requires AllGroups(gs)
    ensures |b| == 2 * |gs|
  {
    if gs == [] then [] else Two(HexVal(gs[0])) + GroupBytes(gs[1..])
  }

  function QuadBytes(q: Option<seq<byte>>): seq<byte> {
    match q case None => [] case Some(b) => b
  }

  /** Sixteen bytes, or fewer with a `::` to make up for them. */
  predicate Fits(a: Address)
    requires Formed(a)
  {
    var n := 2 * |a.left| + 2 * |a.right| + |QuadBytes(a.quad)|;
    if a.dots then n < 16 else n == 16
  }

  function Meaning(a: Address): (b: seq<byte>)
    requires Formed(a) && Fits(a)
    ensures |b| == 16
  {
    if a.dots then Stretch(GroupBytes(a.left), GroupBytes(a.right) + QuadBytes(a.quad))
    else GroupBytes(a.left) + QuadBytes(a.quad)
  }

  ghost predicate Denotes(a: Address, s: string, b: seq<byte>) {
    Formed(a) && Text(a) == s && Fits(a) && Meaning(a) == b
  }

  // The scan against the grammar.

  function Stored(a: Address): seq<byte>
    requires Formed(a)
  {
    GroupBytes(a.left) + GroupBytes(a.right) + QuadBytes(a.quad)
  }

  /** The cursor behind the parts of `a`, all of them stored. */
  function Ended(a: Address, c: Cursor): Cursor
    requires Formed(a)
  {
    Cursor(c.out + Stored(a), if a.dots then Some(|c.out| + 2 * |a.left|) else c.colon, 0, 0)
  }

  ghost predicate Reads(a: Address, text: string, c: Cursor, b: seq<byte>) {
    Formed(a) && (a.dots ==> c.colon.None?) && Tail(a) == text && Finish6(Ended(a, c)) == Some(b)
  }

  ghost predicate Accepted(text: string, c: Cursor, b: seq<byte>) {
    exists a :: Reads(a, text, c, b)
  }

  predicate Stops(s: string) {
    s == [] || HexValue(s[0]).None?
  }

  /** The digits in front of a text are determined by it. */
  lemma SameDigits(g: string, s: string, h: string, t: string)
    requires g + s == h + t && Hexes(g) && Hexes(h) && Stops(s) && Stops(t)
    ensures g == h && s == t
  {
    var u := g + s;
    NotShorter(g, s, h, t);
    NotShorter(h, t, g, s);
    assert g == u[..|g|] && h == u[..|h|] && s == u[|g|..] && t == u[|h|..];
  }

  lemma NotShorter(g: string, s: string, h: string, t: string)
    requires g + s == h + t && Hexes(h) && Stops(s)
    ensures |g| >= |h|
  {
    assert forall i :: 0 <= i < |h| ==> (h + t)[i] == h[i];
    assert s != [] ==> (g + s)[|g|] == s[0];
  }

  lemma {:induction false} DecHexes(n: nat)
    ensures Hexes(Dec(n))
  {
    if n >= 10 {
      DecHexes(n / 10);
    }
    HexDigit(n % 10);
  }

  /** What the first character behind the digits `g` says about the parts. */
  lemma Forms(a: Address, g: string, s: string)
    requires Formed(a) && Tail(a) == g + s && Hexes(g) && Stops(s)
    ensures s == [] ==> a == Address(if g == [] then [] else [g], false, [], None)
    ensures s != [] ==> s[0] == ':' || s[0] == '.'
    ensures s != [] && s[0] == ':' && g == [] ==>
      a.left == [] && a.dots && Tail(Address(a.right, false, [], a.quad)) == s[1..]
    ensures s != [] && s[0] == ':' && g != [] ==>
      a.left != [] && a.left[0] == g && !Ends(a.(left := a.left[1..])) && Tail(a.(left := a.left[1..])) == s[1..]
    ensures s != [] && s[0] == '.' ==> a.left == [] && !a.dots && a.quad.Some? && Quad(a.quad.value) == g + s
    ensures |g| <= 4
  {
    hide HexValue, Dec;
    if a.left != [] {
      FormsGroup(a, g, s);
    } else if a.dots {
      var t := ":" + Tail(Address(a.right, false, [], a.quad));
      assert [] + t == t && t[1..] == Tail(Address(a.right, false, [], a.quad));
      SameDigits(g, s, [], t) by { NoHex(); }
    } else if a.quad.Some? {
      var q := a.quad.value;
      var t := "." + Dec(q[1]) + "." + Dec(q[2]) + "." + Dec(q[3]);
      assert Quad(q) == Dec(q[0]) + t;
      DecHexes(q[0]);
      NoHex();
      SameDigits(g, s, Dec(q[0]), t);
    }
  }

  lemma FormsGroup(a: Address, g: string, s: string)
    requires Formed(a) && Tail(a) == g + s && Hexes(g) && Stops(s) && a.left != []
    ensures a.left[0] == g && IsGroup(g)
    ensures var b := a.(left := a.left[1..]); if Ends(b) then s == [] && a == Address([g], false, [], None)
      else s == ":" + Tail(b) && s[1..] == Tail(b)
  {
    hide HexValue;
    var b := a.(left := a.left[1..]);
    var t := if Ends(b) then [] else ":" + Tail(b);
    NoHex();
    assert IsGroup(a.left[0]);
    SameDigits(g, s, a.left[0], t);
    if Ends(b) {
      assert a.left == [a.left[0]] + a.left[1..];
    }
  }

  lemma NoHex()
    ensures HexValue(':').None? && HexValue('.').None?
  {
  }

  lemma HexMore(g: string, ch: char)
    requires Hexes(g) && HexValue(ch).Some?
    ensures Hexes(g + [ch]) && HexVal(g + [ch]) == HexVal(g) * 16 + HexValue(ch).value
  {
    assert (g + [ch])[..|g|] == g;
  }

  /** No part has five digits in front. */
  lemma {:induction false} TooManyDigits(a: Address, g: string, s: string)
    requires Formed(a) && Tail(a) == g + s && Hexes(g)
    ensures |g| <= 4
    decreases |s|
  {
    hide HexValue;
    if Stops(s) {
      Forms(a, g, s);
    } else {
      assert g + s == g + [s[0]] + s[1..];
      TooManyDigits(a, g + [s[0]], s[1..]);
    }
  }

  lemma {:induction false} ScanIff(s: string, g: string, c: Cursor, b: seq<byte>)
    requires Hexes(g) && |g| == c.seen <= 4 && c.val == HexVal(g)
    ensures Then6(Scan6(s, g + s, c)) == Some(b) <==> Accepted(g + s, c, b)
    decreases |s|
  {
    hide HexValue, Parse4, Reads, Finish6, Accepted, HexVal;
    if s == [] {
      AtEnd(g, c, b);
    } else if HexValue(s[0]).Some? {
      var ch, rest := s[0], s[1..];
      assert g + s == g + [ch] + rest;
      HexMore(g, ch);
      if |g| == 4 {
        FiveDigits(g + [ch], rest, c, b);
      } else {
        ScanIff(rest, g + [ch], c.(val := c.val * 16 + HexValue(ch).value, seen := c.seen + 1), b);
        OnlyPosition(g + s, c, c.(val := c.val * 16 + HexValue(ch).value, seen := c.seen + 1), b);
      }
    } else if s[0] == ':' {
      if g == [] {
        NoDigits();
        AtDouble(s, c, b);
      } else {
        AtColon(s, g, c, b);
      }
    } else if s[0] == '.' {
      AtDot(s, g, c, b);
    } else {
      Elsewhere(s, g, c, b);
    }
  }

  /** What is accepted from here on does not depend on the digits read. */
  lemma OnlyPosition(text: string, c: Cursor, d: Cursor, b: seq<byte>)
    requires c.out == d.out && c.colon == d.colon
    ensures Accepted(text, c, b) <==> Accepted(text, d, b)
  {
    hide Finish6, Tail, Formed;
    if Accepted(text, c, b) {
      var a :| Reads(a, text, c, b);
      assert Reads(a, text, d, b);
    }
    if Accepted(text, d, b) {
      var a :| Reads(a, text, d, b);
      assert Reads(a, text, c, b);
    }
  }

  lemma FiveDigits(g: string, rest: string, c: Cursor, b: seq<byte>)
    requires Hexes(g) && |g| == 5
    ensures !Accepted(g + rest, c, b)
  {
    hide HexValue, Finish6;
    if a :| Reads(a, g + rest, c, b) {
      TooManyDigits(a, g, rest);
    }
  }

  lemma OneGroupBytes(g: string)
    requires IsGroup(g)
    ensures GroupBytes([g]) == Two(HexVal(g)) && GroupBytes([]) == []
  {
    assert [g][1..] == [];
  }

  lemma AtEnd(g: string, c: Cursor, b: seq<byte>)
    requires Hexes(g) && |g| == c.seen <= 4 && c.val == HexVal(g)
    ensures Finish6(c) == Some(b) <==> Accepted(g + [], c, b)
    ensures Then6(Scan6([], g + [], c)) == Finish6(c)
  {
    hide HexValue, Two, HexVal, GroupBytes;
    var a := Address(if g == [] then [] else [g], false, [], None);
    assert g + [] == g;
    assert Formed(a) && Tail(a) == g by {
      if g != [] { assert [g][1..] == []; assert g + [] == g; }
    }
    var e := Ended(a, c);
    if g != [] {
      OneGroupBytes(g);
      assert Stored(a) == Two(HexVal(g)) + [] + [] == Two(HexVal(g));
    } else {
      NoGroupBytes();
      assert Stored(a) == [] && c.out + [] == c.out;
    }
    assert Finish6(e) == Finish6(c);
    if Finish6(c) == Some(b) {
      assert Reads(a, g + [], c, b);
    }
    if Accepted(g + [], c, b) {
      var a0 :| Reads(a0, g + [], c, b);
      Forms(a0, g, []);
    }
  }

  lemma NoGroupBytes()
    ensures GroupBytes([]) == []
  {
  }

  lemma Elsewhere(s: string, g: string, c: Cursor, b: seq<byte>)
    requires Hexes(g) && s != [] && HexValue(s[0]).None? && s[0] != ':' && s[0] != '.'
    ensures !Accepted(g + s, c, b) && Scan6(s, g + s, c) == None
  {
    hide HexValue, Finish6;
    if a :| Reads(a, g + s, c, b) {
      Forms(a, g, s);
    }
  }

  /** A `::` whose first colon is behind us. */
  lemma {:induction false} AtDouble(s: string, c: Cursor, b: seq<byte>)
    requires s != [] && s[0] == ':' && c.seen == 0 && c.val == 0
    ensures Then6(Scan6(s, [] + s, c)) == Some(b) <==> Accepted([] + s, c, b)
    decreases |s|, 0
  {
    hide HexValue, Finish6, GroupBytes, Parse4;
    NoHex();
    var rest := s[1..];
    assert [] + s == s == ":" + rest && [] + rest == rest;
    if c.colon.Some? {
      if a :| Reads(a, s, c, b) {
        Forms(a, [], s);
      }
    } else {
      var d := c.(colon := Some(|c.out|));
      ScanIff(rest, [], d, b);
      assert Scan6(s, s, c) == Scan6(rest, rest, d);
      if Accepted(rest, d, b) {
        var a :| Reads(a, rest, d, b);
        var a1 := Address([], true, a.left, a.quad);
        DoubleEnds(a, a1, c, d);
        assert Reads(a1, s, c, b);
      }
      if Accepted(s, c, b) {
        var a1 :| Reads(a1, s, c, b);
        Forms(a1, [], s);
        var a := Address(a1.right, false, [], a1.quad);
        DoubleEnds(a, a1, c, d);
        assert Reads(a, rest, d, b);
      }
    }
  }

  lemma DoubleEnds(a: Address, a1: Address, c: Cursor, d: Cursor)
    requires Formed(a) && !a.dots && a1 == Address([], true, a.left, a.quad) && d == c.(colon := Some(|c.out|))
    ensures Formed(a1) && Ended(a1, c) == Ended(a, d)
    ensures a.right == [] && Tail(a1) == ":" + Tail(a)
  {
    hide GroupBytes, HexValue;
    NoGroupBytes();
    assert a == Address(a1.right, false, [], a1.quad);
    assert [] + GroupBytes(a.left) + QuadBytes(a.quad) == GroupBytes(a.left) + [] + QuadBytes(a.quad);
  }

  /** A colon behind a group. */
  lemma {:induction false} AtColon(s: string, g: string, c: Cursor, b: seq<byte>)
    requires s != [] && s[0] == ':' && IsGroup(g) && |g| == c.seen && c.val == HexVal(g)
    ensures Then6(Scan6(s, g + s, c)) == Some(b) <==> Accepted(g + s, c, b)
    decreases |s|, 0
  {
    hide HexValue, Finish6, GroupBytes, HexVal, Two, Parse4;
    NoHex();
    var rest := s[1..];
    assert s == ":" + rest && [] + rest == rest;
    var d := Cursor(c.out + Two(c.val), c.colon, 0, 0);
    if a :| Reads(a, g + s, c, b) {
      Forms(a, g, s);
      var a1 := a.(left := a.left[1..]);
      assert a.left == [g] + a1.left;
      ColonEnds(g, a1, c, d);
      assert rest != [] && |c.out| + 2 <= 16 by { LongOut(Ended(a, c), b); }
      assert Reads(a1, rest, d, b);
    }
    if rest != [] && |c.out| + 2 <= 16 {
      assert HexVal([]) == 0 by { NoDigits(); }
      ScanIff(rest, [], d, b);
      if a1 :| Reads(a1, rest, d, b) {
        ColonEnds(g, a1, c, d);
        assert g + s == g + (":" + rest);
        assert Reads(a1.(left := [g] + a1.left), g + s, c, b);
      }
    }
  }

  lemma NoDigits()
    ensures HexVal([]) == 0
  {
  }

  lemma LongOut(c: Cursor, b: seq<byte>)
    requires Finish6(c) == Some(b)
    ensures |c.out| <= 16
  {
  }

  lemma ColonEnds(g: string, a: Address, c: Cursor, d: Cursor)
    requires Formed(a) && IsGroup(g) && c.val == HexVal(g) && d == Cursor(c.out + Two(c.val), c.colon, 0, 0)
    ensures var a1 := a.(left := [g] + a.left);
      && Formed(a1) && Ended(a1, c) == Ended(a, d) && |Ended(a1, c).out| >= |c.out| + 2
      && (!Ends(a) ==> Tail(a1) == g + (":" + Tail(a)))
  {
    hide IsGroup, HexVal, Two, Tail, GroupBytes, QuadBytes;
    TailGrows(g, a);
    FrontStored(g, a, c.out);
  }

  lemma FrontStored(g: string, a: Address, out: seq<byte>)
    requires Formed(a) && IsGroup(g)
    ensures var a1 := a.(left := [g] + a.left);
      Formed(a1) && out + Stored(a1) == out + Two(HexVal(g)) + Stored(a) && |Stored(a1)| >= 2
  {
    hide HexValue, HexVal, Two, QuadBytes;
    assert ([g] + a.left)[1..] == a.left;
    assert out + (Two(HexVal(g)) + GroupBytes(a.left) + GroupBytes(a.right) + QuadBytes(a.quad))
        == out + Two(HexVal(g)) + (GroupBytes(a.left) + GroupBytes(a.right) + QuadBytes(a.quad));
  }

  lemma TailGrows(g: string, a: Address)
    requires Formed(a) && IsGroup(g)
    ensures Formed(a.(left := [g] + a.left))
    ensures !Ends(a) ==> Tail(a.(left := [g] + a.left)) == g + (":" + Tail(a))
  {
    hide HexValue;
    var a1 := a.(left := [g] + a.left);
    assert a1.left[1..] == a.left && a1.(left := a1.left[1..]) == a;
  }

  lemma AtDot(s: string, g: string, c: Cursor, b: seq<byte>)
    requires s != [] && s[0] == '.' && Hexes(g) && |g| == c.seen
    ensures Then6(Scan6(s, g + s, c)) == Some(b) <==> Accepted(g + s, c, b)
  {
    hide HexValue, Parse4, Quad, Finish6, Tail;
    NoHex();
    if a :| Reads(a, g + s, c, b) {
      Forms(a, g, s);
      var q := a.quad.value;
      Parse4Iff(g + s, q);
      QuadEnds(q, c);
      assert a == Address([], false, [], Some(q));
      LongOut(Ended(a, c), b);
      assert Then6(Scan6(s, g + s, c)) == Some(b);
    }
    if |c.out| + 4 <= 16 && Parse4(g + s).Some? {
      var q := Parse4(g + s).value;
      Parse4Iff(g + s, q);
      QuadEnds(q, c);
      var a := Address([], false, [], Some(q));
      if Finish6(Ended(a, c)) == Some(b) {
        assert Reads(a, g + s, c, b);
      }
    }
  }

  lemma QuadEnds(q: seq<byte>, c: Cursor)
    requires |q| == 4
    ensures var a := Address([], false, [], Some(q));
      && Formed(a) && Tail(a) == Quad(q) && Ended(a, c) == Cursor(c.out + q, c.colon, 0, 0)
      && Finish6(Ended(a, c)) == Finish6(c.(out := c.out + q, seen := 0))
  {
    hide Quad;
    var a := Address([], false, [], Some(q));
    assert Stored(a) == [] + [] + q == q;
  }

  lemma FinishMeans(a: Address, b: seq<byte>)
    requires Formed(a)
    ensures Finish6(Ended(a, START)) == Some(b) <==> Fits(a) && Meaning(a) == b
  {
    hide GroupBytes, ZeroBytes, HexValue;
    var l, r := GroupBytes(a.left), GroupBytes(a.right) + QuadBytes(a.quad);
    assert [] + Stored(a) == l + r;
    if a.dots {
      assert (l + r)[..|l|] == l && (l + r)[|l|..] == r;
    } else {
      NoGroupBytes();
      assert r == QuadBytes(a.quad);
    }
  }

  /** inet_pton6 accepts exactly the texts that are made of up to eight groups of one to four
      digits with colons between them, of which the last two may be a canonical dotted quad and
      one or more, at one place, left out for a `::`; and it stores what they mean. */
  lemma Parse6Iff(s: string, b: seq<byte>)
    ensures Parse6(s) == Some(b) <==> exists a :: Denotes(a, s, b)
  {
    hide Scan6, Finish6, Tail, Meaning, Fits;
    NoDigits();
    var leading := s != [] && s[0] == ':';
    var text := if leading then s[1..] else s;
    ScanIff(text, [], START, b);
    assert [] + text == text;
    if a :| Denotes(a, s, b) {
      FinishMeans(a, b);
      Leads(a, s);
      assert Reads(a, text, START, b);
    }
    if Parse6(s) == Some(b) {
      var a :| Reads(a, text, START, b);
      FinishMeans(a, b);
      LeadsBack(a, s);
      assert Denotes(a, s, b);
    }
  }

  lemma Leads(a: Address, s: string)
    requires Formed(a) && Text(a) == s
    ensures if s != [] && s[0] == ':' then |s| > 1 && s[1] == ':' && Tail(a) == s[1..] else Tail(a) == s
  {
    hide HexValue;
    var t := Tail(a);
    NoHex();
    if t != [] && t[0] == ':' {
      assert [] + t == t;
      Forms(a, [], t);
    }
    if a.left == [] && a.dots {
      assert s[1..] == t;
    }
  }

  lemma LeadsBack(a: Address, s: string)
    requires Formed(a)
    requires if s != [] && s[0] == ':' then |s| > 1 && s[1] == ':' && Tail(a) == s[1..] else Tail(a) == s
    ensures Text(a) == s
  {
    hide HexValue;
    var t := Tail(a);
    NoHex();
    if t != [] && t[0] == ':' {
      assert [] + t == t;
      Forms(a, [], t);
      assert s == ":" + s[1..];
    }
  }
}
