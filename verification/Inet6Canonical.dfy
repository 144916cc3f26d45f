/** The text that inet_ntop6 of src/inet.c prints, without reference to how it is printed: the
    form that section 4 of RFC 5952 recommends. */
module Inet6Canonical {
  import opened Basics
  import opened InetText
  import opened Inet6Text
  import opened Inet6Grammar

  /** One to four digits in lower case, without leading zeros (sections 4.1 and 4.3). */
  predicate Plain(g: string) {
    && 1 <= |g| <= 4 && (forall i :: 0 <= i < |g| ==> g[i] in "0123456789abcdef")
    && (|g| > 1 ==> g[0] != '0')
  }

  lemma HexPlain(n: word)
    ensures Plain(Hex(n)) && IsGroup(Hex(n))
  {
    hide Hex;
    HexIs(n);
    var d := "0123456789abcdef";
    var h := Hex(n);
    assert forall k :: 0 <= k < 16 ==> d[k] in d;
    assert forall k :: 1 <= k < 16 ==> d[k] != '0';
    forall i | 0 <= i < |h| ensures HexValue(h[i]).Some? {
      var k :| 0 <= k < 16 && d[k] == h[i];
      DigitTables(k, h[i]);
    }
  }

  function Groups(ws: seq<word>): (gs: seq<string>)
    ensures |gs| == |ws|
  {
    seq(|ws|, i requires 0 <= i < |ws| => Hex(ws[i]))
  }

  lemma GroupsPlain(ws: seq<word>)
    ensures AllGroups(Groups(ws)) && forall i :: 0 <= i < |ws| ==> Plain(Groups(ws)[i])
  {
    hide IsGroup, Plain, Hex;
    forall i | 0 <= i < |ws| ensures Plain(Groups(ws)[i]) && IsGroup(Groups(ws)[i]) {
      HexPlain(ws[i]);
    }
  }

  lemma {:induction false} JoinFront(ws: seq<word>)
    requires |ws| >= 2
    ensures Join(ws) == Hex(ws[0]) + (":" + Join(ws[1..]))
    decreases |ws|
  {
    hide Join;
    var front, last := ws[..|ws| - 1], ws[|ws| - 1];
    assert ws == front + [last];
    JoinSnoc(front, last);
    if |ws| == 2 {
      OneGroup(ws[0]);
      OneGroup(last);
      assert front == [ws[0]] && ws[1..] == [last];
    } else {
      JoinFront(front);
      JoinSnoc(front[1..], last);
      assert ws[1..] == front[1..] + [last];
    }
  }

  /** Groups in front of something else. */
  lemma {:induction false} TailLeft(ws: seq<word>, rest: Address)
    requires ws != [] && Formed(rest) && rest.left == []
    ensures Formed(rest.(left := Groups(ws)))
    ensures Tail(rest.(left := Groups(ws))) == Join(ws) + if Ends(rest) then [] else ":" + Tail(rest)
    decreases |ws|
  {
    hide Join, Hex, IsGroup, Plain;
    GroupsPlain(ws);
    GroupsPlain(ws[1..]);
    var a := rest.(left := Groups(ws));
    assert Groups(ws)[1..] == Groups(ws[1..]);
    if |ws| == 1 {
      assert ws == [ws[0]];
      OneGroup(ws[0]);
      assert a.(left := a.left[1..]) == rest;
    } else {
      TailLeft(ws[1..], rest);
      JoinFront(ws);
    }
  }

  /** The bytes that are written with a dotted quad at the end: an IPv4-compatible address with
      its run of zeros ending there, or an IPv4-mapped one. */
  predicate WrittenAsIpv4(src: seq<byte>)
    requires |src| == 16
  {
    || ((forall i :: 0 <= i < 12 ==> src[i] == 0) && !(src[12] == 0 && src[13] == 0))
    || ((forall i :: 0 <= i < 10 ==> src[i] == 0) && src[10] == 0xff && src[11] == 0xff)
  }

  /** Four zero bytes where two words are. */
  predicate AdjacentZeros(src: seq<byte>)
    requires |src| == 16
  {
    exists i :: 0 <= i < 7 && ZeroPair(src, i)
  }

  predicate ZeroPair(src: seq<byte>, i: nat)
    requires |src| == 16 && i < 7
  {
    src[2 * i] == 0 && src[2 * i + 1] == 0 && src[2 * i + 2] == 0 && src[2 * i + 3] == 0
  }

  /** The number of words that `::` stands for. */
  function LeftOut(a: Address): int {
    8 - |a.left| - |a.right| - if a.quad.Some? then 2 else 0
  }

  predicate AllPlain(gs: seq<string>) {
    forall i :: 0 <= i < |gs| ==> Plain(gs[i])
  }

  /** What the parts of the printed text are. */
  ghost predicate Recommended(a: Address, src: seq<byte>)
    requires |src| == 16
  {
    && AllPlain(a.left) && AllPlain(a.right)
    && (a.dots <==> AdjacentZeros(src))
    && (a.dots ==> LeftOut(a) >= 2 && IsBest(WordsOf(src), Run(|a.left|, LeftOut(a))))
    && (a.quad.Some? <==> WrittenAsIpv4(src))
  }

  lemma ZeroWord(src: seq<byte>, i: nat)
    requires |src| == 16 && i < 8
    ensures WordsOf(src)[i] / 0x100 == src[2 * i] && WordsOf(src)[i] % 0x100 == src[2 * i + 1]
    ensures WordsOf(src)[i] == 0 <==> src[2 * i] == 0 && src[2 * i + 1] == 0
  {
  }

  lemma ZeroRun(ws: seq<word>, i: nat)
    requires i < |ws|
    ensures Zeros(ws, i) >= 2 <==> i + 1 < |ws| && ws[i] == 0 && ws[i + 1] == 0
  {
  }

  lemma ZerosMean(src: seq<byte>)
    requires |src| == 16
    ensures BestRun(WordsOf(src)).Some? <==> AdjacentZeros(src)
  {
    hide BestRun, WordsOf, Zeros;
    var ws := WordsOf(src);
    BestRunIs(ws, Run(0, 0));
    forall i | 0 <= i < 7 ensures Zeros(ws, i) >= 2 <==> ZeroPair(src, i) {
      ZeroRun(ws, i);
      ZeroWord(src, i);
      ZeroWord(src, i + 1);
    }
    ZeroRun(ws, 7);
    if BestRun(ws).Some? {
      BestRunIs(ws, BestRun(ws).value);
      assert ZeroPair(src, BestRun(ws).value.base);
    }
    if i :| 0 <= i < 7 && ZeroPair(src, i) {
      assert Zeros(ws, i) >= 2;
    }
  }

  predicate Leading(ws: seq<word>, n: nat) {
    n <= |ws| && forall i :: 0 <= i < n ==> ws[i] == 0
  }

  /** Five or more zero words in front of another are the best run. */
  lemma LeadingIsBest(ws: seq<word>, n: nat)
    requires |ws| == 8 && 5 <= n < 8 && Leading(ws, n) && ws[n] != 0
    ensures BestRun(ws) == Some(Run(0, n))
  {
    hide BestRun, Zeros;
    ZerosCount(ws, 0, n);
    forall j | 0 <= j < 8 ensures Zeros(ws, j) <= n {
      if j < n { ZerosCount(ws, j, n - j); }
    }
    BestRunIs(ws, Run(0, n));
  }

  lemma Ipv4Words(ws: seq<word>)
    requires |ws| == 8
    ensures BestRun(ws).Some? && Encapsulated(ws, BestRun(ws).value)
      <==> (Leading(ws, 6) && ws[6] != 0) || (Leading(ws, 5) && ws[5] == 0xffff)
  {
    hide BestRun;
    if BestRun(ws).Some? {
      BestRunIs(ws, BestRun(ws).value);
    }
    hide Zeros;
    if Leading(ws, 6) && ws[6] != 0 {
      LeadingIsBest(ws, 6);
    }
    if Leading(ws, 5) && ws[5] == 0xffff {
      LeadingIsBest(ws, 5);
    }
  }

  lemma Ipv4Means(src: seq<byte>)
    requires |src| == 16
    ensures WrittenAsIpv4(src) <==>
      BestRun(WordsOf(src)).Some? && Encapsulated(WordsOf(src), BestRun(WordsOf(src)).value)
  {
    hide BestRun, WordsOf, Encapsulated;
    var ws := WordsOf(src);
    Ipv4Words(ws);
    LeadingBytes(src, 5);
    LeadingBytes(src, 6);
    ZeroWord(src, 5);
    ZeroWord(src, 6);
  }

  lemma LeadingBytes(src: seq<byte>, n: nat)
    requires |src| == 16 && n <= 8
    ensures Leading(WordsOf(src), n) <==> forall i :: 0 <= i < 2 * n ==> src[i] == 0
  {
    hide WordsOf;
    forall i | 0 <= i < n ensures WordsOf(src)[i] == 0 <==> src[2 * i] == 0 && src[2 * i + 1] == 0 {
      ZeroWord(src, i);
    }
    if Leading(WordsOf(src), n) {
      forall i | 0 <= i < 2 * n ensures src[i] == 0 {
        assert WordsOf(src)[i / 2] == 0;
      }
    }
  }

  /** The canonical text has that form, and means the address. */
  lemma CanonicalForm(src: seq<byte>) returns (a: Address)
    requires |src| == 16
    ensures Denotes(a, Canonical(src), src) && Recommended(a, src)
  {
    hide BestRun, Plain, IsGroup;
    var ws := WordsOf(src);
    ZerosMean(src);
    Ipv4Means(src);
    hide WrittenAsIpv4, AdjacentZeros, Encapsulated;
    match BestRun(ws) {
      case None => a := AllEight(src);
      case Some(r) =>
        LongestRun(src);
        BestRunIs(ws, r);
        if Encapsulated(ws, r) {
          a := WithQuad(src, r);
        } else {
          a := WithoutQuad(src, r);
        }
    }
    MeansItself(a, src);
  }

  lemma MeansItself(a: Address, src: seq<byte>)
    requires |src| == 16 && Formed(a) && Text(a) == Canonical(src) && Fits(a)
    ensures Denotes(a, Canonical(src), src)
  {
    hide Canonical, Parse6, Text, Meaning, Formed, Fits;
    RoundTrip6(src);
    assert Denotes(a, Canonical(src), Meaning(a));
    Parse6Iff(Canonical(src), Meaning(a));
  }

  lemma AllEight(src: seq<byte>) returns (a: Address)
    requires |src| == 16 && BestRun(WordsOf(src)).None?
    ensures Formed(a) && Text(a) == Canonical(src) && Fits(a)
    ensures AllPlain(a.left) && AllPlain(a.right) && !a.dots && a.quad.None?
  {
    hide BestRun, Plain, IsGroup, Join, Tail;
    var ws := WordsOf(src);
    GroupsPlain(ws);
    var rest := Address([], false, [], None);
    a := rest.(left := Groups(ws));
    TailLeft(ws, rest);
    assert Join(ws) + [] == Join(ws);
  }

  lemma TailNothing()
    ensures Tail(Address([], false, [], None)) == []
  {
  }

  lemma TailDots(right: seq<string>, quad: Option<seq<byte>>)
    requires AllGroups(right) && (quad.Some? ==> |quad.value| == 4)
    ensures Tail(Address([], true, right, quad)) == ":" + Tail(Address(right, false, [], quad))
  {
  }

  lemma WithoutQuad(src: seq<byte>, r: Run) returns (a: Address)
    requires |src| == 16 && BestRun(WordsOf(src)) == Some(r) && r.len >= 2 && r.base + r.len <= 8
    requires !Encapsulated(WordsOf(src), r)
    ensures Formed(a) && Text(a) == Canonical(src) && Fits(a)
    ensures AllPlain(a.left) && AllPlain(a.right) && a.dots && a.quad.None? && |a.left| == r.base && LeftOut(a) == r.len
  {
    hide BestRun, Plain, IsGroup, Join, Tail, Encapsulated, Hex;
    var ws := WordsOf(src);
    var left, right := ws[..r.base], ws[r.base + r.len..];
    GroupsPlain(left);
    GroupsPlain(right);
    var rest := Address([], true, Groups(right), None);
    a := rest.(left := Groups(left));
    TailDots(Groups(right), None);
    assert Tail(Address(Groups(right), false, [], None)) == Join(right) by { OnlyGroups(right); }
    Nothing();
    if left == [] {
      assert a == rest;
      assert [] + "::" + Join(right) == ":" + (":" + Join(right));
    } else {
      TailLeft(left, rest);
      assert Join(left) + (":" + (":" + Join(right))) == Join(left) + "::" + Join(right);
    }
  }

  lemma OnlyGroups(ws: seq<word>)
    ensures AllGroups(Groups(ws)) && Tail(Address(Groups(ws), false, [], None)) == Join(ws)
  {
    hide Plain, IsGroup, Join, Tail, Hex;
    GroupsPlain(ws);
    var rest := Address([], false, [], None);
    if ws == [] {
      TailNothing();
      Nothing();
      assert Groups(ws) == [];
    } else {
      TailLeft(ws, rest);
      assert Join(ws) + [] == Join(ws);
    }
  }

  lemma WithQuad(src: seq<byte>, r: Run) returns (a: Address)
    requires |src| == 16 && BestRun(WordsOf(src)) == Some(r) && r.len >= 2 && r.base + r.len <= 8
    requires Encapsulated(WordsOf(src), r)
    ensures Formed(a) && Text(a) == Canonical(src) && Fits(a)
    ensures AllPlain(a.left) && AllPlain(a.right) && a.dots && a.quad.Some? && |a.left| == r.base && LeftOut(a) == r.len
  {
    hide BestRun, Plain, IsGroup, Tail, Quad, Hex;
    var q := src[12..];
    var mapped: seq<word> := if r.len == 5 then [0xffff] else [];
    GroupsPlain(mapped);
    a := Address([], true, Groups(mapped), Some(q));
    TailDots(Groups(mapped), Some(q));
    var rest := Address([], false, [], Some(q));
    assert Tail(rest) == Quad(q) by { TailQuad(q); }
    if r.len == 5 {
      TailLeft(mapped, rest);
      OneGroup(0xffff);
      assert "::" + (Hex(0xffff) + ":") + Quad(q) == ":" + (":" + (Hex(0xffff) + (":" + Quad(q))));
    } else {
      assert Address(Groups(mapped), false, [], Some(q)) == rest;
      assert "::" + [] + Quad(q) == ":" + (":" + Quad(q));
    }
  }

  lemma TailQuad(q: seq<byte>)
    requires |q| == 4
    ensures Tail(Address([], false, [], Some(q))) == Quad(q)
  {
  }

  // The characters.

  predicate OnlyThese(s: string, allowed: string) {
    forall i :: 0 <= i < |s| ==> s[i] in allowed
  }

  /** Two colons next to each other. */
  predicate DoubleColon(s: string) {
    exists i :: 0 <= i < |s| - 1 && s[i] == ':' && s[i + 1] == ':'
  }

  lemma NoColon(g: string)
    requires Plain(g)
    ensures OnlyThese(g, "0123456789abcdef:.") && '.' !in g && ':' !in g
  {
    var d := "0123456789abcdef";
    forall i | 0 <= i < |g| ensures g[i] in "0123456789abcdef:." && g[i] != '.' && g[i] != ':' {
      var k :| 0 <= k < 16 && d[k] == g[i];
      assert "0123456789abcdef:."[k] == d[k];
    }
  }

  lemma QuadChars(q: seq<byte>)
    requires |q| == 4
    ensures OnlyThese(Quad(q), "0123456789abcdef:.") && '.' in Quad(q) && ':' !in Quad(q)
  {
    hide Dec;
    var s := "0123456789abcdef:.";
    forall k | 0 <= k < 4 ensures OnlyThese(Dec(q[k]), s) && ':' !in Dec(q[k]) {
      OctetChars(q[k]);
    }
    assert s[17] == '.';
    var t := Dec(q[0]) + ".";
    assert t[|Dec(q[0])|] == '.' && Quad(q) == t + (Dec(q[1]) + "." + Dec(q[2]) + "." + Dec(q[3]));
    assert '.' in t;
  }

  lemma OctetChars(n: byte)
    ensures OnlyThese(Dec(n), "0123456789abcdef:.") && ':' !in Dec(n)
  {
    hide Dec;
    DecIs(n);
    var d, s := "0123456789", "0123456789abcdef:.";
    assert forall k :: 0 <= k < 10 ==> s[k] == d[k] && d[k] != ':';
  }

  /** Without `::`, colons stand alone and not in front. */
  lemma {:induction false} SingleColons(a: Address)
    requires Formed(a) && AllPlain(a.left) && !a.dots
    ensures OnlyThese(Tail(a), "0123456789abcdef:.") && !DoubleColon(Tail(a))
    ensures '.' in Tail(a) <==> a.quad.Some?
    ensures Tail(a) != [] ==> Tail(a)[0] != ':'
    decreases |a.left|
  {
    hide Plain, IsGroup, Quad, OnlyThese;
    if a.left == [] {
      TailLast(a);
    } else {
      var b := a.(left := a.left[1..]);
      SingleColons(b);
      NoColon(a.left[0]);
      GroupNotEmpty(a.left[0]);
      assert a.left[0] in a.left;
      if Ends(b) {
        assert Tail(a) == a.left[0] + [];
        ColonsApart(a.left[0], []);
      } else {
        ColonsApart(a.left[0], Tail(b));
      }
    }
  }

  lemma GroupNotEmpty(g: string)
    requires Plain(g)
    ensures g != []
  {
  }

  lemma TailLast(a: Address)
    requires Formed(a) && a.left == [] && !a.dots
    ensures OnlyThese(Tail(a), "0123456789abcdef:.") && !DoubleColon(Tail(a))
    ensures '.' in Tail(a) <==> a.quad.Some?
    ensures Tail(a) != [] ==> Tail(a)[0] != ':'
  {
    hide Quad;
    if a.quad.Some? {
      QuadChars(a.quad.value);
    }
  }

  /** A group, and what may follow it behind a colon. */
  lemma ColonsApart(g: string, t: string)
    requires g != [] && OnlyThese(g, "0123456789abcdef:.") && '.' !in g && ':' !in g
    requires OnlyThese(t, "0123456789abcdef:.") && !DoubleColon(t) && (t != [] ==> t[0] != ':')
    ensures var s := g + if t == [] then [] else ":" + t;
      && OnlyThese(s, "0123456789abcdef:.") && !DoubleColon(s) && ('.' in s <==> '.' in t) && s[0] != ':'
  {
    assert "0123456789abcdef:."[16] == ':';
    var s := g + if t == [] then [] else ":" + t;
    forall i | 0 <= i < |s| ensures s[i] == if i < |g| then g[i] else if i == |g| then ':' else t[i - |g| - 1] {}
    if '.' in t {
      var i :| 0 <= i < |t| && t[i] == '.';
      assert s[|g| + 1 + i] == '.';
    }
  }

  lemma Behind(p: string, s: string)
    ensures DoubleColon(s) ==> DoubleColon(p + s)
    ensures OnlyThese(p, "0123456789abcdef:.") && OnlyThese(s, "0123456789abcdef:.")
      ==> OnlyThese(p + s, "0123456789abcdef:.")
    ensures '.' in p + s <==> '.' in p || '.' in s
  {
    if DoubleColon(s) {
      var i :| 0 <= i < |s| - 1 && s[i] == ':' && s[i + 1] == ':';
      assert (p + s)[|p| + i] == ':' && (p + s)[|p| + i + 1] == ':';
    }
  }

  lemma Colon()
    ensures OnlyThese(":", "0123456789abcdef:.") && '.' !in ":"
  {
    assert "0123456789abcdef:."[16] == ':';
  }

  /** With `::`, there are two colons in a row as soon as one is put in front. */
  lemma {:induction false} TwoColons(a: Address)
    requires Formed(a) && AllPlain(a.left) && AllPlain(a.right) && a.dots
    ensures OnlyThese(":" + Tail(a), "0123456789abcdef:.") && DoubleColon(":" + Tail(a))
    ensures '.' in ":" + Tail(a) <==> a.quad.Some?
    decreases |a.left|
  {
    hide Plain, IsGroup, Quad, OnlyThese;
    Colon();
    if a.left == [] {
      var t := Tail(Address(a.right, false, [], a.quad));
      SingleColons(Address(a.right, false, [], a.quad));
      Behind(":", t);
      Behind(":", ":" + t);
      assert (":" + (":" + t))[0] == ':' && (":" + (":" + t))[1] == ':';
    } else {
      var b := a.(left := a.left[1..]);
      TwoColons(b);
      NoColon(a.left[0]);
      assert Tail(a) == a.left[0] + (":" + Tail(b));
      Behind(a.left[0], ":" + Tail(b));
      Behind(":", Tail(a));
    }
  }

  lemma TextChars(a: Address)
    requires Formed(a) && AllPlain(a.left) && AllPlain(a.right)
    ensures OnlyThese(Text(a), "0123456789abcdef:.")
    ensures DoubleColon(Text(a)) <==> a.dots
    ensures '.' in Text(a) <==> a.quad.Some?
  {
    hide Plain, IsGroup, OnlyThese, DoubleColon;
    if !a.dots {
      SingleColons(a);
    } else if a.left == [] {
      TwoColons(a);
    } else {
      var b := a.(left := a.left[1..]);
      TwoColons(b);
      NoColon(a.left[0]);
      assert Tail(a) == a.left[0] + (":" + Tail(b));
      Behind(a.left[0], ":" + Tail(b));
    }
  }

  /** The printed text has lower-case digits, colons and dots only; it has a dotted quad exactly
      for an IPv4-compatible or IPv4-mapped address, and `::` exactly if two adjacent words are
      zero. */
  lemma CanonicalText(src: seq<byte>)
    requires |src| == 16
    ensures OnlyThese(Canonical(src), "0123456789abcdef:.")
    ensures '.' in Canonical(src) <==> WrittenAsIpv4(src)
    ensures DoubleColon(Canonical(src)) <==> AdjacentZeros(src)
  {
    hide Canonical, Text, OnlyThese, DoubleColon, WrittenAsIpv4, AdjacentZeros, Fits, Meaning;
    var a := CanonicalForm(src);
    TextChars(a);
  }
}
