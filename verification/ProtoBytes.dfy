/** The bytes on the wire by position: type codes, tags, and the order of the bytes of numbers
    and lengths (Core/src/proto.h, Core/src/proto.cpp), without the functions that write them. */
module ProtoBytes {
  import opened Basics
  import opened Powers
  import opened ProtoWire
  import opened ProtoRoundTrip

  /** The low four bits of a value's first byte. */
  function CodeOf(t: Type, v: Value): nat
    requires HasType(v, t)
  {
    match t
    case String => if |v.s| > 255 then 7 else 6
    case ByteVector => 13
    case ListOf(_) => 9
    case MapOf(_, _) => 8
    case _ => NumCode(v.n)
  }

  /** That of a number: none, one, two, four or eight bytes follow. */
  function NumCode(n: int): nat {
    if n == 0 then 12 else if -0x80 <= n < 0x80 then 0 else if -0x8000 <= n < 0x8000 then 1
    else if -0x8000_0000 <= n < 0x8000_0000 then 2 else 3
  }

  /** The bytes of a value's head. */
  predicate HasHead(s: seq<byte>, code: nat, tag: int) {
    if tag < 15 then |s| >= 1 && s[0] == 16 * tag + code
    else |s| >= 2 && s[0] == 240 + code && s[1] == tag
  }

  function HeadLen(tag: int): nat {
    if tag < 15 then 1 else 2
  }

  lemma HeadFirst(ty: nat, tag: int, rest: seq<byte>)
    requires ty < 16 && 0 <= tag < 128
    ensures HasHead(Head(ty, tag) + rest, ty, tag) && (Head(ty, tag) + rest)[HeadLen(tag)..] == rest
  {
  }

  /** Every value begins with its type's code and its tag: in one byte, or in two for tags
      from 15 on. */
  lemma FirstBytes(t: Type, v: Value, tag: int)
    requires HasType(v, t) && 0 <= tag < 128
    ensures HasHead(Encode(t, v, tag), CodeOf(t, v), tag)
  {
    hide Encode;
    match t
    case String => StringHead(v, tag);
    case ByteVector => VectorHead(v, tag);
    case ListOf(e) => ListHead(e, v, tag);
    case MapOf(k, u) => MapHead(k, u, v, tag);
    case _ => NumberHead(t, v, tag);
  }

  lemma StringHead(v: Value, tag: int)
    requires HasType(v, String) && 0 <= tag < 128
    ensures HasHead(Encode(String, v, tag), if |v.s| > 255 then 7 else 6, tag)
  {
    hide Head, BigEndian;
    if |v.s| > 255 {
      HeadFirst(STRING4, tag, BigEndian(|v.s|, 4) + v.s);
      Associate(Head(STRING4, tag), BigEndian(|v.s|, 4), v.s);
    } else {
      HeadFirst(STRING1, tag, [|v.s|] + v.s);
      Associate(Head(STRING1, tag), [|v.s|], v.s);
    }
  }

  lemma VectorHead(v: Value, tag: int)
    requires HasType(v, ByteVector) && 0 <= tag < 128
    ensures HasHead(Encode(ByteVector, v, tag), 13, tag)
  {
    hide Head, EncodeNum;
    var count := EncodeNum(AsChar(|v.b|), 0);
    HeadFirst(SIMPLE_LIST, tag, Head(BYTE, 0) + count + v.b);
    assert Encode(ByteVector, v, tag) == Head(SIMPLE_LIST, tag) + (Head(BYTE, 0) + count + v.b);
  }

  lemma ListHead(e: Type, v: Value, tag: int)
    requires HasType(v, ListOf(e)) && 0 <= tag < 128
    ensures HasHead(Encode(ListOf(e), v, tag), 9, tag)
  {
    hide Head, EncodeNum, EncodeItems;
    HeadFirst(LIST, tag, EncodeNum(|v.items|, 0) + EncodeItems(e, v.items));
    Associate(Head(LIST, tag), EncodeNum(|v.items|, 0), EncodeItems(e, v.items));
  }

  lemma MapHead(k: Type, u: Type, v: Value, tag: int)
    requires HasType(v, MapOf(k, u)) && 0 <= tag < 128
    ensures HasHead(Encode(MapOf(k, u), v, tag), 8, tag)
  {
    hide Head, EncodeNum, EncodeEntries;
    HeadFirst(MAP, tag, EncodeNum(|v.entries|, 0) + EncodeEntries(k, u, v.entries));
    Associate(Head(MAP, tag), EncodeNum(|v.entries|, 0), EncodeEntries(k, u, v.entries));
  }

  lemma NumberHead(t: Type, v: Value, tag: int)
    requires HasType(v, t) && IsNumber(t) && 0 <= tag < 128
    ensures HasHead(Encode(t, v, tag), NumCode(v.n), tag)
  {
    hide EncodeNum;
    NumHead(v.n, tag);
  }

  lemma NumHead(n: int, tag: int)
    requires 0 <= tag < 128
    ensures HasHead(EncodeNum(n, tag), NumCode(n), tag)
    ensures EncodeNum(n, tag)[HeadLen(tag)..] == if n == 0 then [] else BigEndian(n, Needs(n))
  {
    hide Head, BigEndian;
    if n == 0 {
      HeadFirst(ZERO_TAG, tag, []);
      assert Head(ZERO_TAG, tag) + [] == Head(ZERO_TAG, tag);
    } else {
      HeadFirst(TypeCode(Needs(n)), tag, BigEndian(n, Needs(n)));
    }
  }

  lemma {:induction false} BytesInOrder(n: int, k: nat, i: nat)
    requires i < k <= 8
    ensures BigEndian(n, k)[i] == n / Pow256(k - 1 - i) % 0x100
    decreases k
  {
    if i < k - 1 {
      BytesInOrder(n / 0x100, k - 1, i);
      PowStep(k - 1 - i);
      DivTwice(n, Pow256(k - 2 - i));
    }
  }

  lemma DivTwice(n: int, p: nat)
    requires p >= 1
    ensures n / 0x100 / p == n / (0x100 * p)
  {
    var q := n / 0x100 / p;
    Division(n / 0x100, p);
    var r := n / 0x100 - p * q;
    assert n == 0x100 * (p * q + r) + n % 0x100;
    assert n == 0x100 * p * q + (0x100 * r + n % 0x100) by { assert 0x100 * (p * q) == 0x100 * p * q; }
    Quotient(0x100 * p, q, 0x100 * r + n % 0x100);
  }

  lemma Quotient(p: nat, q: int, r: nat)
    requires r < p
    ensures (p * q + r) / p == q
  {
    var a := p * q + r;
    var d := a / p;
    Division(a, p);
    Distribute(p, q, d);
    if q > d {
      AtLeast(p, q - d);
    } else if q < d {
      Distribute(p, d, q);
      AtLeast(p, d - q);
    }
  }

  /** Behind the head of a number its bytes follow, the most significant first, as many as the
      code says; negative numbers in two's complement. */
  lemma NumberBytes(n: int, tag: int)
    requires 0 <= tag < 128
    ensures var s, h := EncodeNum(n, tag), HeadLen(tag);
      var w := if n == 0 then 0 else if -0x80 <= n < 0x80 then 1 else if -0x8000 <= n < 0x8000 then 2
               else if -0x8000_0000 <= n < 0x8000_0000 then 4 else 8;
      && HasHead(s, NumCode(n), tag) && |s| == h + w
      && forall i :: h <= i < h + w ==> s[i] == n / Pow256(w - 1 - (i - h)) % 0x100
  {
    hide BigEndian, Pow256;
    NumHead(n, tag);
    var s, h := EncodeNum(n, tag), HeadLen(tag);
    if n != 0 {
      var w := Needs(n);
      assert |s| == h + w by { assert |s[h..]| == w; }
      forall i | h <= i < h + w ensures s[i] == n / Pow256(w - 1 - (i - h)) % 0x100 {
        BytesInOrder(n, w, i - h);
        assert s[i] == s[h..][i - h];
      }
    }
  }

  /** Behind the head of a string its length follows, in one byte up to 255 and in four from
      then on, and then its characters. */
  lemma StringBytes(x: seq<byte>, tag: int)
    requires 0 <= tag < 128 && |x| < 0x1_0000_0000
    ensures var s, h := EncodeStr(x, tag), HeadLen(tag);
      if |x| <= 255 then HasHead(s, 6, tag) && s[h..] == [|x|] + x
      else HasHead(s, 7, tag) && |s| == h + 4 + |x| && s[h + 4..] == x
           && forall i :: h <= i < h + 4 ==> s[i] == |x| / Pow256(3 - (i - h)) % 0x100
  {
    hide Head, BigEndian, Pow256;
    var s, h := EncodeStr(x, tag), HeadLen(tag);
    if |x| <= 255 {
      HeadFirst(STRING1, tag, [|x|] + x);
      Associate(Head(STRING1, tag), [|x|], x);
    } else {
      var len := BigEndian(|x|, 4);
      HeadFirst(STRING4, tag, len + x);
      Associate(Head(STRING4, tag), len, x);
      assert s[h..] == len + x;
      assert s[h + 4..] == s[h..][4..] == x;
      forall i | h <= i < h + 4 ensures s[i] == |x| / Pow256(3 - (i - h)) % 0x100 {
        BytesInOrder(|x|, 4, i - h);
        assert s[i] == s[h..][i - h];
      }
    }
  }

  /** The number that decimal digits stand for. */
  function ValueOf(s: seq<byte>): int {
    if s == [] then 0 else 10 * ValueOf(s[..|s| - 1]) + s[|s| - 1] - 48
  }

  lemma {:induction false} DecimalIs(n: nat)
    ensures ValueOf(Decimal(n)) == n && Decimal(n) != [] && (n > 0 ==> Decimal(n)[0] != 48)
    ensures forall i :: 0 <= i < |Decimal(n)| ==> 48 <= Decimal(n)[i] <= 57
    decreases n
  {
    if n >= 10 {
      DecimalIs(n / 10);
      assert Decimal(n)[..|Decimal(n)| - 1] == Decimal(n / 10);
    } else {
      assert Decimal(n)[..0] == [];
    }
  }

  /** A number is also read as a string: nothing for 0, the character for one byte, and the
      decimal digits of its bytes' unsigned value for more. */
  lemma NumberAsText(n: int, tag: int, suffix: seq<byte>)
    requires 0 <= tag < 128
    ensures var w := Needs(n);
      DecodeStr(EncodeNum(n, tag) + suffix)
      == Ok((if n == 0 then [] else if w == 1 then [n % 0x100] else Decimal(n % Pow256(w)), tag), suffix)
  {
    hide BigEndian, Head, ReadHead, FromBigEndian, GetNumber, Decimal, Needs;
    var s := EncodeNum(n, tag) + suffix;
    if n == 0 {
      HeadTrip(ZERO_TAG, tag, suffix);
    } else {
      var w := Needs(n);
      var rest := BigEndian(n, w) + suffix;
      assert s == Head(TypeCode(w), tag) + rest;
      HeadTrip(TypeCode(w), tag, rest);
      GetTrip(n, w, suffix);
    }
  }
}
