/** The texts of internet addresses, and what the parsers of src/inet.c read: functions on
    strings, a string being the characters before the terminating NUL. */
module InetText {
  import opened Basics

  type word = w: int | 0 <= w < 0x1_0000

  // Numbers.

  /** The digit `d`, as in "0123456789abcdef". */
  function Digit(d: nat): (ch: char)
    requires d < 16
    ensures ch != '.' && ch != ':' && ch != '%' && ch != '\0'
  {
    if d < 10 then '0' + (d as char) else 'a' + ((d - 10) as char)
  }

  /** `strchr(digits, ch) - digits` in "0123456789". */
  function DecValue(ch: char): (d: Option<nat>)
    ensures d.Some? ==> d.value < 10
  {
    if '0' <= ch <= '9' then Some((ch - '0') as nat) else None
  }

  /** The same in "0123456789abcdef" and then in "0123456789ABCDEF". */
  function HexValue(ch: char): (d: Option<nat>)
    ensures d.Some? ==> d.value < 16
    ensures d.Some? ==> ch != '.' && ch != ':' && ch != '%'
  {
    if '0' <= ch <= '9' then Some((ch - '0') as nat)
    else if 'a' <= ch <= 'f' then Some((ch - 'a') as nat + 10)
    else if 'A' <= ch <= 'F' then Some((ch - 'A') as nat + 10)
    else None
  }

  /** The digits are those of the source's tables, lower case when printed, either case when
      read. */
  lemma DigitTables(d: nat, ch: char)
    requires d < 16
    ensures Digit(d) == "0123456789abcdef"[d]
    ensures HexValue(ch) == Some(d) <==> ch == "0123456789abcdef"[d] || ch == "0123456789ABCDEF"[d]
    ensures d < 10 ==> (DecValue(ch) == Some(d) <==> ch == "0123456789"[d])
  {
  }

  lemma DecDigit(d: nat)
    requires d < 10
    ensures DecValue(Digit(d)) == Some(d)
  {
  }

  lemma HexDigit(d: nat)
    requires d < 16
    ensures HexValue(Digit(d)) == Some(d)
  {
  }

  lemma DigitOfValue(ch: char)
    requires DecValue(ch).Some?
    ensures Digit(DecValue(ch).value) == ch
  {
  }

  /** `%u` */
  function Dec(n: nat): (s: string)
    ensures s != [] && (n < 10 ==> |s| == 1) && (n < 100 ==> |s| <= 2) && (n < 1000 ==> |s| <= 3)
  {
    if n < 10 then [Digit(n)] else Dec(n / 10) + [Digit(n % 10)]
  }

  /** `%x` */
  function Hex(n: nat): (s: string)
    ensures s != [] && (n < 0x10 ==> |s| == 1) && (n < 0x100 ==> |s| <= 2)
            && (n < 0x1000 ==> |s| <= 3) && (n < 0x1_0000 ==> |s| <= 4)
  {
    if n < 16 then [Digit(n)] else Hex(n / 16) + [Digit(n % 16)]
  }

  /** An octet in decimal, without leading zeros. */
  lemma DecIs(n: byte)
    ensures var d := "0123456789";
      Dec(n) == if n < 10 then [d[n]] else if n < 100 then [d[n / 10], d[n % 10]]
                else [d[n / 100], d[n / 10 % 10], d[n % 10]]
  {
    hide Digit;
    forall d | 0 <= d < 10 ensures Digit(d) == "0123456789"[d] {
      DigitTables(d, '0');
      assert "0123456789abcdef"[d] == "0123456789"[d];
    }
    assert n >= 100 ==> n / 10 / 10 == n / 100;
  }

  /** A word in hexadecimal, in lower case and without leading zeros. */
  lemma HexIs(n: word)
    ensures var d := "0123456789abcdef";
      Hex(n) == if n < 0x10 then [d[n]] else if n < 0x100 then [d[n / 0x10], d[n % 0x10]]
                else if n < 0x1000 then [d[n / 0x100], d[n / 0x10 % 0x10], d[n % 0x10]]
                else [d[n / 0x1000], d[n / 0x100 % 0x10], d[n / 0x10 % 0x10], d[n % 0x10]]
  {
    hide Digit;
    forall d | 0 <= d < 16 ensures Digit(d) == "0123456789abcdef"[d] {
      DigitTables(d, '0');
    }
    assert n / 0x10 / 0x10 == n / 0x100 && n / 0x100 / 0x10 == n / 0x1000;
    assert Hex(n / 0x1000) == [Digit(n / 0x1000)];
    assert n >= 0x1000 ==> Hex(n / 0x100) == Hex(n / 0x1000) + [Digit(n / 0x100 % 0x10)];
    assert n >= 0x100 ==> Hex(n / 0x10) == Hex(n / 0x100) + [Digit(n / 0x10 % 0x10)];
    assert n >= 0x10 ==> Hex(n) == Hex(n / 0x10) + [Digit(n % 0x10)];
  }

  // IPv4.

  function Quad(b: seq<byte>): (s: string)
    requires |b| == 4
    ensures |s| <= 15
  {
    Dec(b[0]) + "." + Dec(b[1]) + "." + Dec(b[2]) + "." + Dec(b[3])
  }

  /** inet_pton4 with `done` octets finished, `val` being read, `saw` a digit of it. */
  function Parse4From(s: string, done: seq<byte>, val: byte, saw: bool): (r: Option<seq<byte>>)
    requires |done| <= 3
    ensures r.Some? ==> |r.value| == 4
    decreases |s|
  {
    if s == [] then
      if |done| + (if saw then 1 else 0) < 4 then None else Some(done + [val])
    else
      match DecValue(s[0])
      case Some(d) =>
        if saw && val == 0 then None
        else if val * 10 + d > 255 then None
        else Parse4From(s[1..], done, val * 10 + d, true)
      case None =>
        if s[0] == '.' && saw then
          if |done| + 1 == 4 then None else Parse4From(s[1..], done + [val], 0, false)
        else None
  }

  function Parse4(s: string): (r: Option<seq<byte>>)
    ensures r.Some? ==> |r.value| == 4
  {
    Parse4From(s, [], 0, false)
  }

  lemma {:induction false} ReadDec(n: byte, rest: string, done: seq<byte>)
    requires |done| <= 3
    ensures Parse4From(Dec(n) + rest, done, 0, false) == Parse4From(rest, done, n, true)
    decreases n
  {
    hide DecValue, Digit;
    if n < 10 {
      DecDigit(n);
      assert (Dec(n) + rest)[1..] == rest;
    } else {
      var more := [Digit(n % 10)] + rest;
      assert Dec(n) + rest == Dec(n / 10) + more;
      ReadDec(n / 10, more, done);
      DecDigit(n % 10);
      assert more[1..] == rest;
    }
  }

  lemma ReadDot(rest: string, done: seq<byte>, val: byte)
    requires |done| <= 2
    ensures Parse4From("." + rest, done, val, true) == Parse4From(rest, done + [val], 0, false)
  {
    assert ("." + rest)[1..] == rest;
  }

  /** inet_pton4 reads back what inet_ntop4 prints. */
  lemma QuadRoundTrip(b: seq<byte>)
    requires |b| == 4
    ensures Parse4(Quad(b)) == Some(b)
  {
    hide Dec, Parse4From;
    var s3 := Dec(b[3]) + [];
    var s2 := Dec(b[2]) + ("." + s3);
    var s1 := Dec(b[1]) + ("." + s2);
    var s0 := Dec(b[0]) + ("." + s1);
    assert Quad(b) == s0;
    ReadDec(b[0], "." + s1, []);
    ReadDot(s1, [], b[0]);
    ReadDec(b[1], "." + s2, [b[0]]);
    ReadDot(s2, [b[0]], b[1]);
    ReadDec(b[2], "." + s3, [b[0], b[1]]);
    ReadDot(s3, [b[0], b[1]], b[2]);
    ReadDec(b[3], [], [b[0], b[1], b[2]]);
    assert [] + [b[0]] == [b[0]] && [b[0]] + [b[1]] == [b[0], b[1]] && [b[0], b[1]] + [b[2]] == [b[0], b[1], b[2]];
    ReadEnd([b[0], b[1], b[2]], b[3]);
    assert [b[0], b[1], b[2]] + [b[3]] == b;
  }

  lemma ReadEnd(done: seq<byte>, val: byte)
    requires |done| == 3
    ensures Parse4From([], done, val, true) == Some(done + [val])
  {
  }

  /** The characters of a number of finished octets. */
  function Dotted(done: seq<byte>): string {
    if done == [] then [] else Dotted(done[..|done| - 1]) + Dec(done[|done| - 1]) + "."
  }

  /** What inet_pton4 accepts is exactly the rest of a text that inet_ntop4 prints. */
  lemma {:induction false} OnlyQuads(s: string, done: seq<byte>, val: byte, saw: bool)
    requires |done| <= 3 && Parse4From(s, done, val, saw).Some? && (!saw ==> val == 0)
    ensures Dotted(done) + (if saw then Dec(val) else []) + s == Quad(Parse4From(s, done, val, saw).value)
    decreases |s|
  {
    hide DecValue, Digit, Quad, Dotted, Dec;
    var b := Parse4From(s, done, val, saw).value;
    if s == [] {
      QuadByDots(b);
      assert b[..3] == done;
      assert Dotted(done) + Dec(val) + s == Dotted(done) + Dec(val);
    } else {
      var tail := s[1..];
      assert s == [s[0]] + tail;
      match DecValue(s[0])
      case Some(d) =>
        OnlyQuads(tail, done, val * 10 + d, true);
        MoreDigits(val, saw, s[0]);
        assert Dotted(done) + Dec(val * 10 + d) + tail == Dotted(done) + (if saw then Dec(val) else []) + s;
      case None =>
        OnlyQuads(tail, done + [val], 0, false);
        DottedMore(done, val);
        assert Dotted(done) + Dec(val) + "." + [] + tail == Dotted(done) + Dec(val) + s;
    }
  }

  lemma MoreDigits(val: byte, saw: bool, ch: char)
    requires DecValue(ch).Some? && (!saw ==> val == 0) && (saw ==> val != 0)
    ensures Dec(val * 10 + DecValue(ch).value) == (if saw then Dec(val) else []) + [ch]
  {
    DigitOfValue(ch);
  }

  lemma DottedMore(done: seq<byte>, val: byte)
    ensures Dotted(done + [val]) == Dotted(done) + Dec(val) + "."
  {
    assert (done + [val])[..|done|] == done;
  }

  lemma QuadByDots(b: seq<byte>)
    requires |b| == 4
    ensures Quad(b) == Dotted(b[..3]) + Dec(b[3])
  {
    assert b[..3][..2] == b[..2] && b[..2][..1] == b[..1] && b[..1][..0] == [];
    assert Dotted(b[..1]) == Dec(b[0]) + ".";
    assert Dotted(b[..2]) == Dec(b[0]) + "." + Dec(b[1]) + ".";
  }

  /** inet_pton4 accepts the canonical texts and no others: no leading zero, no octet over
      255, no missing or extra dot. */
  lemma Parse4Iff(s: string, b: seq<byte>)
    requires |b| == 4
    ensures Parse4(s) == Some(b) <==> s == Quad(b)
  {
    QuadRoundTrip(b);
    if Parse4(s) == Some(b) {
      OnlyQuads(s, [], 0, false);
      assert Dotted([]) + [] + s == s;
    }
  }
}
