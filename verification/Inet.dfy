/** The printers and parsers of src/inet.c, in their own form: character buffers, a buffer
    cursor, running runs and digit counts. */
module Inet {
  import opened Basics
  import opened InetText
  import opened Inet6Text

  const INET_ADDRSTRLEN := 16
  const INET6_ADDRSTRLEN := 46
  const UV_EINVAL := -22
  const UV_ENOSPC := -28

  /** sprintf into a buffer, without the NUL. */
  method Put(buf: array<char>, at: nat, s: string) returns (end: nat)
    requires at + |s| <= buf.Length
    modifies buf
    ensures end == at + |s| && buf[..end] == old(buf[..at]) + s
    ensures forall k :: end <= k < buf.Length ==> buf[k] == old(buf[k])
  {
    ghost var head := buf[..at];
    var i := 0;
    while i < |s|
      invariant 0 <= i <= |s|
      invariant buf[..at + i] == head + s[..i]
      invariant forall k :: at + i <= k < buf.Length ==> buf[k] == old(buf[k])
    {
      buf[at + i] := s[i];
      i := i + 1;
    }
    end := at + |s|;
  }

  /** inet_ntop4 into the `size` characters of `dst` from `at` on: the text and then NULs, or
      UV_ENOSPC if the text and a NUL do not fit. */
  method Ntop4(src: seq<byte>, dst: array<char>, at: nat, size: nat) returns (err: int)
    requires |src| == 4 && at + size <= dst.Length
    modifies dst
    ensures err == if |Quad(src)| < size then 0 else UV_ENOSPC
    ensures err == 0 ==> dst[..at + |Quad(src)|] == old(dst[..at]) + Quad(src)
    ensures err == 0 ==> forall k :: at + |Quad(src)| <= k < at + size ==> dst[k] == '\0'
    ensures err == 0 ==> forall k :: at + size <= k < dst.Length ==> dst[k] == old(dst[k])
    ensures err != 0 ==> dst[..] == old(dst[..])
  {
    hide Quad;
    var text := Quad(src);
    var l := |text|;
    assert l < INET_ADDRSTRLEN;
    if l >= size {
      return UV_ENOSPC;
    }
    var i := Put(dst, at, text);
    ghost var head := dst[..i];
    while i < at + size
      invariant at + l <= i <= at + size && dst[..at + l] == head
      invariant forall k :: at + l <= k < i ==> dst[k] == '\0'
      invariant forall k :: at + size <= k < dst.Length ==> dst[k] == old(dst[k])
    {
      dst[i] := '\0';
      i := i + 1;
    }
    return 0;
  }

  /** The best run so far, if the words before `end` were all there is: closed runs only. */
  predicate BestBefore(ws: seq<word>, base: int, len: int, end: nat)
    requires end <= |ws|
  {
    && (base == -1 ==> forall j :: 0 <= j < end ==> ws[j] != 0)
    && (base != -1 ==>
          && 0 <= base < end && 1 <= len && Zeros(ws, base) == len
          && (forall j :: 0 <= j < end ==> Zeros(ws, j) <= len)
          && (forall j :: 0 <= j < base ==> Zeros(ws, j) < len))
  }

  /** A run that ends is taken if it is longer than the best so far. */
  lemma RunEnds(ws: seq<word>, base: int, len: int, start: nat, n: nat)
    requires 0 < n && start + n <= |ws| && forall k :: start <= k < start + n ==> ws[k] == 0
    requires start + n < |ws| ==> ws[start + n] != 0
    requires BestBefore(ws, base, len, start)
    ensures var take := base == -1 || n > len;
      BestBefore(ws, if take then start else base, if take then n else len, start + n)
  {
    forall j | start <= j < start + n ensures Zeros(ws, j) == start + n - j {
      ZerosCount(ws, j, start + n - j);
    }
    if base == -1 {
      forall j | 0 <= j < start ensures Zeros(ws, j) == 0 {
        ZerosCount(ws, j, 0);
      }
    }
  }

  /** The first loop over the words: `best`, with base -1 for none. */
  method FindRun(ws: seq<word>) returns (base: int, len: int)
    ensures base == -1 <==> BestRun(ws) == None
    ensures base != -1 ==> base >= 0 && len >= 0 && BestRun(ws) == Some(Run(base, len))
  {
    hide Zeros, BestRun;
    base, len := -1, 0;
    var curBase, curLen := -1, 0;
    var i := 0;
    while i < |ws|
      invariant 0 <= i <= |ws| && -1 <= curBase < i
      invariant curBase != -1 ==> curLen == i - curBase && forall k :: curBase <= k < i ==> ws[k] == 0
      invariant BestBefore(ws, base, len, if curBase == -1 then i else curBase)
    {
      if ws[i] == 0 {
        if curBase == -1 {
          curBase, curLen := i, 1;
        } else {
          curLen := curLen + 1;
        }
      } else {
        if curBase != -1 {
          RunEnds(ws, base, len, curBase, curLen);
          if base == -1 || curLen > len {
            base, len := curBase, curLen;
          }
          curBase := -1;
        }
        ZerosCount(ws, i, 0);
      }
      i := i + 1;
    }
    if curBase != -1 {
      RunEnds(ws, base, len, curBase, curLen);
      if base == -1 || curLen > len {
        base, len := curBase, curLen;
      }
    }
    Decide(ws, base, len);
    if base != -1 && len < 2 {
      base := -1;
    }
  }

  lemma Decide(ws: seq<word>, base: int, len: int)
    requires BestBefore(ws, base, len, |ws|)
    ensures base == -1 || len < 2 ==> BestRun(ws) == None
    ensures base != -1 && len >= 2 ==> BestRun(ws) == Some(Run(base, len))
  {
    if base == -1 {
      forall j | 0 <= j < |ws| ensures Zeros(ws, j) == 0 {
        ZerosCount(ws, j, 0);
      }
      BestRunIs(ws, Run(0, 0));
    } else {
      BestRunIs(ws, Run(base, len));
    }
  }

  /** What the formatting loop prints for word `k`. */
  function Piece(ws: seq<word>, base: int, len: int, k: nat): (s: string)
    requires k < |ws|
    ensures |s| <= 5
  {
    if base != -1 && base <= k < base + len then if k == base then ":" else ""
    else (if k != 0 then ":" else "") + Hex(ws[k])
  }

  function Printed(ws: seq<word>, base: int, len: int, i: nat): (s: string)
    requires i <= |ws|
    ensures |s| <= 5 * i
  {
    if i == 0 then "" else Printed(ws, base, len, i - 1) + Piece(ws, base, len, i - 1)
  }

  /** Before the run, the groups so far joined. */
  lemma {:induction false} PrintedJoin(ws: seq<word>, base: int, len: int, i: nat)
    requires i <= |ws| && (base == -1 || i <= base)
    ensures Printed(ws, base, len, i) == Join(ws[..i])
  {
    hide Join, Hex;
    if i == 0 {
      Nothing();
      assert ws[..0] == [];
    } else {
      PrintedJoin(ws, base, len, i - 1);
      assert ws[..i] == ws[..i - 1] + [ws[i - 1]];
      if i == 1 {
        assert ws[..0] == [] && ws[..1] == [ws[0]];
        OneGroup(ws[0]);
        assert "" + ("" + Hex(ws[0])) == Hex(ws[0]);
      } else {
        JoinSnoc(ws[..i - 1], ws[i - 1]);
        assert Join(ws[..i - 1]) + (":" + Hex(ws[i - 1])) == Join(ws[..i - 1]) + ":" + Hex(ws[i - 1]);
      }
    }
  }

  /** Inside the run: one colon. */
  lemma {:induction false} PrintedInRun(ws: seq<word>, base: nat, len: nat, i: nat)
    requires base < i <= base + len <= |ws|
    ensures Printed(ws, base, len, i) == Join(ws[..base]) + ":"
    decreases i
  {
    hide Join, Hex;
    if i == base + 1 {
      PrintedJoin(ws, base, len, base);
    } else {
      PrintedInRun(ws, base, len, i - 1);
      assert Join(ws[..base]) + ":" + "" == Join(ws[..base]) + ":";
    }
  }

  lemma PrintedNext(ws: seq<word>, base: nat, len: nat, i: nat)
    requires base < base + len < i <= |ws|
    ensures Printed(ws, base, len, i) == Printed(ws, base, len, i - 1) + (":" + Hex(ws[i - 1]))
  {
    hide Hex;
  }

  /** After it: one colon before each group. */
  lemma {:induction false} PrintedRun(ws: seq<word>, base: nat, len: nat, i: nat)
    requires base < base + len <= i <= |ws|
    ensures Printed(ws, base, len, i) == Join(ws[..base]) + ":" + Colons(ws[base + len..i])
    decreases i
  {
    hide Join, Hex, Colons, Printed, Piece;
    var n, so := base + len, Join(ws[..base]) + ":";
    if i == n {
      PrintedInRun(ws, base, len, i);
      ColonsNone();
      assert ws[n..i] == [] && so + [] == so;
    } else {
      PrintedRun(ws, base, len, i - 1);
      PrintedNext(ws, base, len, i);
      assert ws[n..i] == ws[n..i - 1] + [ws[i - 1]];
      BytesSnoc(ws[n..i - 1], ws[i - 1]);
      assert so + Colons(ws[n..i - 1]) + (":" + Hex(ws[i - 1])) == so + (Colons(ws[n..i - 1]) + ":" + Hex(ws[i - 1]));
    }
  }

  lemma ColonsNone()
    ensures Colons([]) == []
  {
  }

  lemma {:induction false} ColonsJoin(ws: seq<word>)
    requires ws != []
    ensures Colons(ws) == ":" + Join(ws)
    decreases |ws|
  {
    var front, last := ws[..|ws| - 1], ws[|ws| - 1];
    assert ws == front + [last];
    if front == [] {
      ColonsNone();
      OneGroup(last);
      BytesSnoc(front, last);
    } else {
      ColonsJoin(front);
      BytesSnoc(front, last);
      JoinSnoc(front, last);
    }
  }

  /** The loop over all eight words and the trailing colon give the canonical text. */
  lemma PrintedAll(src: seq<byte>, base: int, len: int)
    requires |src| == 16
    requires base == -1 <==> BestRun(WordsOf(src)) == None
    requires base != -1 ==> base >= 0 && len >= 0 && BestRun(WordsOf(src)) == Some(Run(base, len))
                            && !Encapsulated(WordsOf(src), Run(base, len))
    ensures Printed(WordsOf(src), base, len, 8) + (if base != -1 && base + len == 8 then ":" else "")
         == Canonical(src)
  {
    hide WordsOf, BestRun, Join, Colons, Printed;
    var ws := WordsOf(src);
    if base == -1 {
      PrintedJoin(ws, base, len, 8);
      assert ws[..8] == ws && Join(ws) + "" == Join(ws);
    } else {
      LongestRun(src);
      PrintedRun(ws, base, len, 8);
      var n := base + len;
      if n == 8 {
        Nothing();
        ColonsNone();
        assert ws[8..] == [] && ws[8..8] == [];
        assert Join(ws[..base]) + ":" + [] + ":" == Join(ws[..base]) + "::" + [];
      } else {
        ColonsJoin(ws[n..]);
        assert ws[n..8] == ws[n..];
        assert Join(ws[..base]) + ":" + (":" + Join(ws[n..])) + "" == Join(ws[..base]) + "::" + Join(ws[n..]);
      }
    }
  }

  /** Stopping before word 6 and printing the last four bytes as IPv4. */
  lemma PrintedQuad(src: seq<byte>, len: nat)
    requires |src| == 16
    ensures BestRun(WordsOf(src)) == Some(Run(0, len)) && Encapsulated(WordsOf(src), Run(0, len)) ==>
      && Printed(WordsOf(src), 0, len, 6) + ":" + Quad(src[12..]) == Canonical(src)
      && |Printed(WordsOf(src), 0, len, 6)| <= 6
  {
    hide WordsOf, BestRun, Join, Hex, Printed, Quad, Colons;
    var ws := WordsOf(src);
    if BestRun(ws) == Some(Run(0, len)) && Encapsulated(ws, Run(0, len)) {
      PrintedRun(ws, 0, len, 6);
      Nothing();
      assert ws[..0] == [];
      if len == 5 {
        assert ws[5..6] == [ws[5]];
        ColonsJoin(ws[5..6]);
        OneGroup(ws[5]);
        assert [] + ":" + (":" + Hex(0xffff)) + ":" + Quad(src[12..]) == "::" + (Hex(0xffff) + ":") + Quad(src[12..]);
      } else {
        ColonsNone();
        assert ws[6..6] == [];
        assert [] + ":" + [] + ":" + Quad(src[12..]) == "::" + [] + Quad(src[12..]);
      }
    }
  }

  /** The test for an encapsulated IPv4 address; a run of seven reaches past word 6, so that
      its part of the test is never what decides. */
  predicate IsIpv4(ws: seq<word>, len: int)
    requires |ws| == 8
  {
    len == 6 || (len == 7 && ws[7] != 1) || (len == 5 && ws[5] == 0xffff)
  }

  /** The formatting loop. */
  method Format(src: seq<byte>, ws: seq<word>, base: int, len: int, tmp: array<char>) returns (tp: nat)
    requires |src| == 16 && ws == WordsOf(src) && tmp.Length == INET6_ADDRSTRLEN
    requires base == -1 <==> BestRun(ws) == None
    requires base != -1 ==> base >= 0 && len >= 0 && BestRun(ws) == Some(Run(base, len))
    modifies tmp
    ensures tp < INET6_ADDRSTRLEN && tmp[..tp] == Canonical(src)
  {
    hide BestRun, Canonical, WordsOf, Hex, Quad;
    tp := 0;
    var i := 0;
    var quad := false;
    while i < 8 && !quad
      invariant 0 <= i <= 8
      invariant tp < INET6_ADDRSTRLEN
      invariant !quad ==> tmp[..tp] == Printed(ws, base, len, i)
      invariant quad ==> tmp[..tp] == Canonical(src) && base + len < 8
      invariant !quad && i > 6 && base != -1 ==> !Encapsulated(ws, Run(base, len))
      decreases 8 - i, !quad
    {
      assert |Printed(ws, base, len, i)| <= 35;
      if base != -1 && base <= i < base + len {
        if i == base {
          tp := Put(tmp, tp, ":");
        }
        i := i + 1;
      } else {
        if i == 6 && base == 0 && IsIpv4(ws, len) {
          PrintedQuad(src, len);
          tp := Put(tmp, tp, ":");
          var err := Ntop4(src[12..], tmp, tp, INET6_ADDRSTRLEN - tp);
          tp := tp + |Quad(src[12..])|;
          quad := true;
        } else {
          tp := PutWord(tmp, tp, i, ws[i]);
          i := i + 1;
        }
      }
    }
    if !quad {
      if base != -1 {
        LongestRun(src);
      }
      PrintedAll(src, base, len);
    }
    if base != -1 && base + len == 8 {
      tp := Put(tmp, tp, ":");
    }
  }

  /** The separator and the group. */
  method PutWord(tmp: array<char>, at: nat, i: nat, w: word) returns (tp: nat)
    requires at + 5 <= tmp.Length
    modifies tmp
    ensures at <= tp <= at + 5 && tmp[..tp] == old(tmp[..at]) + ((if i != 0 then ":" else "") + Hex(w))
  {
    hide Hex;
    ghost var head := tmp[..at];
    tp := at;
    if i != 0 {
      tp := Put(tmp, tp, ":");
    }
    tp := Put(tmp, tp, Hex(w));
    assert head + ":" + Hex(w) == head + (":" + Hex(w)) && head + Hex(w) == head + ("" + Hex(w));
  }

  /** inet_ntop6: the canonical text and a NUL, or UV_ENOSPC; 46 characters are always
      enough. */
  method Ntop6(src: seq<byte>, dst: array<char>, size: nat) returns (err: int)
    requires |src| == 16 && size <= dst.Length
    modifies dst
    ensures err == if |Canonical(src)| + 1 <= size then 0 else UV_ENOSPC
    ensures |Canonical(src)| + 1 <= INET6_ADDRSTRLEN
    ensures err == 0 ==> dst[..|Canonical(src)|] == Canonical(src) && dst[|Canonical(src)|] == '\0'
    ensures err != 0 ==> dst[..] == old(dst[..])
  {
    hide Canonical, WordsOf, BestRun;
    var ws := Preprocess(src);
    var base, len := FindRun(ws);
    var tmp := new char[INET6_ADDRSTRLEN];
    var tp := Format(src, ws, base, len, tmp);
    if tp + 1 > size {
      return UV_ENOSPC;
    }
    var end := Put(dst, 0, tmp[..tp]);
    dst[end] := '\0';
    return 0;
  }

  /** `src[i] << ((1 - (i % 2)) << 3)` */
  function Shifted(src: seq<byte>, i: nat): (n: nat)
    requires i < |src|
    ensures n <= 0xff00 && (i % 2 == 1 ==> n <= 0xff)
  {
    var b: nat := src[i];
    if i % 2 == 0 then b * 0x100 else b
  }

  /** The copy of the bytes into words; the two halves of a word do not overlap, so that
      `|=` adds. */
  method Preprocess(src: seq<byte>) returns (words: seq<word>)
    requires |src| == 16
    ensures words == WordsOf(src)
  {
    var w := new word[8](_ => 0);
    var i := 0;
    while i < 16
      invariant 0 <= i <= 16
      invariant forall k :: 0 <= k < 8 ==>
        w[k] == (if 2 * k < i then Shifted(src, 2 * k) else 0) + (if 2 * k + 1 < i then Shifted(src, 2 * k + 1) else 0)
    {
      w[i / 2] := w[i / 2] + Shifted(src, i);
      i := i + 1;
    }
    words := w[..];
  }

  /** inet_pton4 into four bytes of `dst` from `at` on. */
  method Pton4(src: string, dst: array<byte>, at: nat) returns (err: int)
    requires at + 4 <= dst.Length
    modifies dst
    ensures err == if Parse4(src).Some? then 0 else UV_EINVAL
    ensures err == 0 ==> dst[at..at + 4] == Parse4(src).value
    ensures err == 0 ==> forall k :: 0 <= k < dst.Length && !(at <= k < at + 4) ==> dst[k] == old(dst[k])
    ensures err != 0 ==> dst[..] == old(dst[..])
  {
    hide DecValue;
    var sawDigit, octets := false, 0;
    var tmp := new byte[4](_ => 0);
    var tp, i := 0, 0;
    while i < |src|
      invariant 0 <= i <= |src| && 0 <= tp <= 3 && octets == tp + (if sawDigit then 1 else 0)
      invariant forall k :: tp < k < 4 ==> tmp[k] == 0
      invariant Parse4(src) == Parse4From(src[i..], tmp[..tp], tmp[tp], sawDigit)
      invariant dst[..] == old(dst[..])
    {
      var ch := src[i];
      assert src[i..][0] == ch && src[i..][1..] == src[i + 1..];
      i := i + 1;
      var digit := DecValue(ch);
      if digit.Some? {
        var nw := tmp[tp] * 10 + digit.value;
        if sawDigit && tmp[tp] == 0 {
          return UV_EINVAL;
        }
        if nw > 255 {
          return UV_EINVAL;
        }
        tmp[tp] := nw;
        if !sawDigit {
          octets := octets + 1;
          sawDigit := true;
        }
      } else if ch == '.' && sawDigit {
        if octets == 4 {
          return UV_EINVAL;
        }
        assert tmp[..tp + 1] == tmp[..tp] + [tmp[tp]];
        tp := tp + 1;
        tmp[tp] := 0;
        sawDigit := false;
      } else {
        return UV_EINVAL;
      }
    }
    if octets < 4 {
      return UV_EINVAL;
    }
    assert tmp[..] == tmp[..3] + [tmp[3]];
    Copy(tmp, dst, at);
    return 0;
  }

  /** memcpy of the whole of `from`. */
  method Copy(from: array<byte>, dst: array<byte>, at: nat)
    requires at + from.Length <= dst.Length && from != dst
    modifies dst
    ensures dst[at..at + from.Length] == from[..]
    ensures forall k :: 0 <= k < dst.Length && !(at <= k < at + from.Length) ==> dst[k] == old(dst[k])
  {
    var i := 0;
    while i < from.Length
      invariant 0 <= i <= from.Length
      invariant forall k :: 0 <= k < i ==> dst[at + k] == from[k]
      invariant forall k :: 0 <= k < dst.Length && !(at <= k < at + i) ==> dst[k] == old(dst[k])
    {
      dst[at + i] := from[i];
      i := i + 1;
    }
    forall k | 0 <= k < from.Length ensures dst[at..at + from.Length][k] == from[..][k] {}
  }

  function ColonAt(colonp: int): Option<nat> {
    if colonp >= 0 then Some(colonp) else None
  }

  /** The state of the scan, read off the buffer and the variables. */
  function Current(tmp: array<byte>, tp: nat, colonp: int, seen: nat, val: nat): Cursor
    requires tp <= tmp.Length
    reads tmp
  {
    Cursor(tmp[..tp], ColonAt(colonp), seen, val)
  }

  /** Stores a group at `tp`. */
  method Store(tmp: array<byte>, tp: nat, val: nat)
    requires tp + 2 <= tmp.Length
    modifies tmp
    ensures tmp[..tp + 2] == old(tmp[..tp]) + Two(val)
    ensures forall k :: tp + 2 <= k < tmp.Length ==> tmp[k] == old(tmp[k])
  {
    tmp[tp] := val / 0x100 % 0x100;
    tmp[tp + 1] := val % 0x100;
  }

  /** The loop of inet_pton6 from position `first` on. */
  method Scan(src: string, first: nat, tmp: array<byte>)
    returns (ok: bool, tp: nat, colonp: int, seenXdigits: nat, val: nat)
    requires first <= |src| && tmp.Length == 16 && forall k :: 0 <= k < 16 ==> tmp[k] == 0
    modifies tmp
    ensures ok <==> Scan6(src[first..], src[first..], START).Some?
    ensures ok ==> tp <= 16 && -1 <= colonp <= tp
    ensures ok ==> Scan6(src[first..], src[first..], START) == Some(Current(tmp, tp, colonp, seenXdigits, val))
    ensures ok ==> forall k :: tp <= k < 16 ==> tmp[k] == 0
  {
    hide HexValue, Parse4, Two;
    tp, colonp, seenXdigits, val := 0, -1, 0, 0;
    ghost var goal := Scan6(src[first..], src[first..], START);
    var i, curtok := first, first;
    assert tmp[..0] == [];
    while i < |src|
      invariant first <= i <= |src| && curtok <= i && tp <= 16 && -1 <= colonp <= tp
      invariant forall k :: tp <= k < 16 ==> tmp[k] == 0
      invariant goal == Scan6(src[i..], src[curtok..], Current(tmp, tp, colonp, seenXdigits, val))
    {
      var ch := src[i];
      assert src[i..][0] == ch && src[i..][1..] == src[i + 1..];
      i := i + 1;
      var pch := HexValue(ch);
      if pch.Some? {
        val := val * 16 + pch.value;
        seenXdigits := seenXdigits + 1;
        if seenXdigits > 4 {
          ok := false;
          return;
        }
      } else if ch == ':' {
        curtok := i;
        if seenXdigits == 0 {
          if colonp >= 0 {
            ok := false;
            return;
          }
          colonp := tp;
        } else {
          if i == |src| || tp + 2 > 16 {
            ok := false;
            return;
          }
          Store(tmp, tp, val);
          tp, seenXdigits, val := tp + 2, 0, 0;
        }
      } else if ch == '.' && tp + 4 <= 16 {
        ghost var head := tmp[..tp];
        var err := Pton4(src[curtok..], tmp, tp);
        if err != 0 {
          ok := false;
          return;
        }
        assert tmp[..tp + 4] == head + tmp[tp..tp + 4];
        tp, seenXdigits := tp + 4, 0;
        ok := true;
        return;
      } else {
        ok := false;
        return;
      }
    }
    ok := true;
  }

  /** The shift by hand: what was stored after `::` goes to the end, zeros take its place. */
  method ShiftToEnd(tmp: array<byte>, colonp: nat, tp: nat)
    requires tmp.Length == 16 && colonp <= tp < 16 && forall k :: tp <= k < 16 ==> tmp[k] == 0
    modifies tmp
    ensures tmp[..] == old(tmp[..colonp]) + ZeroBytes(16 - tp) + old(tmp[colonp..tp])
  {
    var n := tp - colonp;
    ghost var was, gap := tmp[..], 16 - tp;
    var i := 1;
    while i <= n
      invariant 1 <= i <= n + 1
      invariant forall k :: 0 <= k <= tp - i ==> tmp[k] == was[k]
      invariant forall k :: tp - i < k <= 16 - i ==> tmp[k] == 0
      invariant forall k :: 16 - i < k < 16 ==> tmp[k] == was[k - gap]
    {
      tmp[16 - i] := tmp[colonp + n - i];
      tmp[colonp + n - i] := 0;
      i := i + 1;
    }
    Moved(was, tmp[..], colonp, tp);
  }

  lemma Moved(was: seq<byte>, now: seq<byte>, colonp: nat, tp: nat)
    requires |was| == |now| == 16 && colonp <= tp < 16
    requires forall k :: 0 <= k < colonp ==> now[k] == was[k]
    requires forall k :: colonp <= k < colonp + 16 - tp ==> now[k] == 0
    requires forall k :: colonp + 16 - tp <= k < 16 ==> now[k] == was[k - (16 - tp)]
    ensures now == was[..colonp] + ZeroBytes(16 - tp) + was[colonp..tp]
  {
  }

  /** What inet_pton6 does after its loop. */
  method Complete(tmp: array<byte>, stored: nat, colonp: int, seenXdigits: nat, val: nat) returns (ok: bool)
    requires tmp.Length == 16 && stored <= 16 && -1 <= colonp <= stored
    requires forall k :: stored <= k < 16 ==> tmp[k] == 0
    modifies tmp
    ensures ok <==> old(Finish6(Current(tmp, stored, colonp, seenXdigits, val))).Some?
    ensures ok ==> Some(tmp[..]) == old(Finish6(Current(tmp, stored, colonp, seenXdigits, val)))
  {
    hide Two, ZeroBytes;
    var tp := stored;
    if seenXdigits > 0 {
      if tp + 2 > 16 {
        return false;
      }
      Store(tmp, tp, val);
      tp := tp + 2;
    }
    if colonp >= 0 {
      if tp == 16 {
        return false;
      }
      ghost var out := tmp[..tp];
      assert out[..colonp] == tmp[..colonp] && out[colonp..] == tmp[colonp..tp];
      ShiftToEnd(tmp, colonp, tp);
      tp := 16;
    } else {
      assert tp == 16 ==> tmp[..tp] == tmp[..];
    }
    return tp == 16;
  }

  /** inet_pton6: the sixteen bytes, or UV_EINVAL and `dst` untouched. */
  method Pton6(src: string, dst: array<byte>) returns (err: int)
    requires dst.Length == 16
    modifies dst
    ensures err == if Parse6(src).Some? then 0 else UV_EINVAL
    ensures dst[..] == if err == 0 then Parse6(src).value else old(dst[..])
  {
    hide Scan6, Finish6;
    var tmp := new byte[16](_ => 0);
    var first := 0;
    if |src| > 0 && src[0] == ':' {
      if |src| == 1 || src[1] != ':' {
        return UV_EINVAL;
      }
      first := 1;
    }
    assert src[0..] == src;
    var ok, tp, colonp, seenXdigits, val := Scan(src, first, tmp);
    if !ok {
      return UV_EINVAL;
    }
    ok := Complete(tmp, tp, colonp, seenXdigits, val);
    if !ok {
      return UV_EINVAL;
    }
    Copy(tmp, dst, 0);
    assert dst[0..16] == dst[..];
    return 0;
  }

  /** strchr(s, '%') - s, or the length. */
  function ScopeAt(s: string): (n: nat)
    ensures n <= |s| && '%' !in s[..n] && (n < |s| ==> s[n] == '%')
  {
    if s == [] || s[0] == '%' then 0 else 1 + ScopeAt(s[1..])
  }

  /** The specification of UvInetPton6. */
  function Uv6(src: string): Option<seq<byte>> {
    var n := ScopeAt(src);
    if n < |src| && n > INET6_ADDRSTRLEN - 1 then None else Parse6(src[..n])
  }

  /** The AF_INET6 case of uv_inet_pton: a scope identifier after `%` is cut off; what is
      before it must fit the buffer. */
  method UvInetPton6(src: string, dst: array<byte>) returns (err: int)
    requires dst.Length == 16
    modifies dst
    ensures err == if Uv6(src).Some? then 0 else UV_EINVAL
    ensures dst[..] == if err == 0 then Uv6(src).value else old(dst[..])
  {
    hide Parse6;
    var s := src;
    var p := ScopeAt(src);
    if p < |src| {
      if p > INET6_ADDRSTRLEN - 1 {
        return UV_EINVAL;
      }
      s := src[..p];
    } else {
      assert src[..p] == src;
    }
    err := Pton6(s, dst);
  }

  /** The printed text fits the 46 characters of the buffer with its NUL. */
  lemma TextFits(src: seq<byte>)
    requires |src| == 16
    ensures |Canonical(src)| <= INET6_ADDRSTRLEN - 1
  {
    hide Canonical, Printed, WordsOf, Quad, BestRun;
    var ws := WordsOf(src);
    match BestRun(ws)
    case None => PrintedAll(src, -1, 0);
    case Some(r) =>
      if Encapsulated(ws, r) {
        PrintedQuad(src, r.len);
      } else {
        PrintedAll(src, r.base, r.len);
      }
  }

  lemma {:induction false} PlainHex(n: nat)
    ensures '%' !in Hex(n)
    decreases n
  {
    if n >= 16 {
      PlainHex(n / 16);
    }
  }

  lemma {:induction false} PlainDec(n: nat)
    ensures '%' !in Dec(n)
    decreases n
  {
    if n >= 10 {
      PlainDec(n / 10);
    }
  }

  lemma {:induction false} PlainJoin(ws: seq<word>)
    ensures '%' !in Colons(ws) && '%' !in Join(ws)
    decreases |ws|
  {
    hide Hex;
    if ws != [] {
      PlainHex(ws[|ws| - 1]);
      PlainHex(ws[0]);
      PlainJoin(ws[..|ws| - 1]);
      PlainJoin(ws[1..]);
    }
  }

  lemma PlainText(src: seq<byte>)
    requires |src| == 16
    ensures '%' !in Canonical(src)
  {
    hide WordsOf, BestRun, Join, Colons, Hex, Dec;
    var ws := WordsOf(src);
    forall k: nat | k <= 8 ensures '%' !in Join(ws[..k]) && '%' !in Join(ws[k..]) {
      PlainJoin(ws[..k]);
      PlainJoin(ws[k..]);
    }
    assert ws[..8] == ws;
    PlainHex(0xffff);
    forall n: nat ensures '%' !in Dec(n) { PlainDec(n); }
  }

  lemma {:induction false} ScopeAfter(s: string, zone: string)
    requires '%' !in s
    ensures ScopeAt(s + "%" + zone) == |s|
  {
    if s == [] {
      assert s + "%" + zone == "%" + zone;
    } else {
      ScopeAfter(s[1..], zone);
      assert (s + "%" + zone)[1..] == s[1..] + "%" + zone;
    }
  }

  /** Every printed address reads back as itself, also with a scope identifier behind it. */
  lemma PrintedReadsBack(src: seq<byte>, zone: string)
    requires |src| == 16
    ensures Uv6(Canonical(src)) == Some(src)
    ensures Uv6(Canonical(src) + "%" + zone) == Some(src)
  {
    hide Canonical, Parse6;
    var s := Canonical(src);
    RoundTrip6(src);
    TextFits(src);
    PlainText(src);
    ScopeAfter(s, zone);
    assert (s + "%" + zone)[..|s|] == s;
    ScopeNone(s);
    assert s[..|s|] == s;
  }

  lemma {:induction false} ScopeNone(s: string)
    requires '%' !in s
    ensures ScopeAt(s) == |s|
  {
    if s != [] {
      ScopeNone(s[1..]);
    }
  }
}
