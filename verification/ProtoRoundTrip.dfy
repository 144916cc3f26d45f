/** Reading what was written: which values come back, with their tag and with exactly their
    bytes used up (Core/src/proto.cpp, Core/src/proto.h). */
module ProtoRoundTrip {
  import opened Basics
  import opened Powers
  import opened ProtoWire

  /** A head comes back if and only if its tag is not negative. */
  lemma HeadTrip(ty: nat, tag: int, suffix: seq<byte>)
    requires ty < 16 && -128 <= tag < 128
    ensures ReadHead(Head(ty, tag) + suffix) == Ok(HeadInfo(ty, tag), suffix) <==> tag >= 0
  {
    var s := Head(ty, tag) + suffix;
    HighNibble(ty, tag);
    if tag < 15 {
      assert s[0] == tag * 16 % 0x100 + ty && s[1..] == suffix;
    } else {
      assert s[0] == ty + 240 && s[1] == tag && s[2..] == suffix;
    }
  }

  lemma HighNibble(ty: nat, tag: int)
    requires ty < 16 && -128 <= tag < 128
    ensures var b := tag * 16 % 0x100 + ty; b % 16 == ty && b / 16 == tag % 16
    ensures (ty + 240) % 16 == ty && (ty + 240) / 16 == 15
    ensures AsChar(tag) == tag
  {
  }

  lemma {:induction false} FromTo(n: nat, k: nat)
    requires k <= 8 && n < Pow256(k)
    ensures FromBigEndian(BigEndian(n, k)) == n
    decreases k
  {
    if k > 0 {
      var s := BigEndian(n, k);
      assert s[..k - 1] == BigEndian(n / 0x100, k - 1);
      FromTo(n / 0x100, k - 1);
    }
  }

  /** Two's complement: the bytes of `n` are those of `n` modulo 256 to the `k`. */
  lemma {:induction false} Complement(n: int, k: nat)
    requires k <= 8
    ensures BigEndian(n, k) == BigEndian(n % Pow256(k), k)
    decreases k
  {
    if k > 0 {
      Complement(n / 0x100, k - 1);
      Complement(n % Pow256(k) / 0x100, k - 1);
      Chop(n, k);
    }
  }

  lemma Chop(n: int, k: nat)
    requires 1 <= k <= 8
    ensures n % Pow256(k) % 0x100 == n % 0x100
    ensures n % Pow256(k) / 0x100 == n / 0x100 % Pow256(k - 1)
  {
    hide Pow256;
    PowStep(k);
    ChopBy(n, Pow256(k - 1));
  }

  lemma PowStep(k: nat)
    requires 1 <= k <= 8
    ensures Pow256(k) == 0x100 * Pow256(k - 1)
  {
  }

  lemma ChopBy(n: int, p: nat)
    requires p >= 1
    ensures n % (0x100 * p) % 0x100 == n % 0x100
    ensures n % (0x100 * p) / 0x100 == n / 0x100 % p
  {
    var q, r := n / (0x100 * p), n % (0x100 * p);
    assert n == 0x100 * p * q + r;
    var m := p * q;
    assert n == 0x100 * m + r by { assert 0x100 * p * q == 0x100 * m; }
    assert n / 0x100 == m + r / 0x100 && n % 0x100 == r % 0x100;
    Remainder(p, q, r / 0x100);
  }

  lemma Remainder(p: nat, q: int, x: nat)
    requires x < p
    ensures (p * q + x) % p == x
  {
    var a := p * q + x;
    var d, r := a / p, a % p;
    Division(a, p);
    Distribute(p, q, d);
    if q > d {
      AtLeast(p, q - d);
    } else if q < d {
      Distribute(p, d, q);
      AtLeast(p, d - q);
    }
  }

  lemma Division(a: int, p: nat)
    requires p > 0
    ensures a == p * (a / p) + a % p && 0 <= a % p < p
  {
  }

  lemma Distribute(p: int, q: int, d: int)
    ensures p * (q - d) == p * q - p * d
  {
  }

  lemma AtLeast(p: nat, m: int)
    requires m >= 1
    ensures p * m >= p
  {
  }

  lemma GetTrip(n: int, k: nat, suffix: seq<byte>)
    requires k <= 8
    ensures GetNumber(BigEndian(n, k) + suffix, k) == Ok(n % Pow256(k), suffix)
  {
    var s := BigEndian(n, k) + suffix;
    assert s[..k] == BigEndian(n, k) && s[k..] == suffix;
    Complement(n, k);
    FromTo(n % Pow256(k), k);
  }

  /** The numbers that come back: a number narrower than its type is read zero-extended, and
      an unsigned one may be written wider than its type's reader takes. */
  predicate FaithfulNum(t: Type, n: int)
    requires IsNumber(t)
  {
    match t
    case Short => n >= 0 || n < -0x80
    case Int => n >= 0 || n < -0x8000
    case Long => n >= 0 || n < -0x8000_0000
    case UShort => n < 0x8000
    case UInt => n < 0x8000_0000
    case _ => true
  }

  function Ret(t: Type, tag: int): int {
    if ReturnsTag(t) then tag else 1
  }

  /** What the reader of a type makes of the low bytes of `n`. */
  lemma StoredBack(t: Type, n: int)
    requires IsNumber(t) && InRange(t, n) && Needs(n) <= Width(t)
    ensures Stored(t, n % Pow256(Needs(n))) == n <==> FaithfulNum(t, n)
  {
    if t.Short? {
      ShortBack(n);
    } else if t.Int? {
      IntBack(n);
    } else if t.Long? {
      LongBack(n);
    } else if t.UShort? || t.UInt? {
      UnsignedBack(n);
    } else {
      CharBack(n);
    }
  }

  lemma UnsignedBack(n: int)
    requires 0 <= n < 0x1_0000_0000
    ensures n % Pow256(Needs(n)) == n
    ensures Needs(n) <= 2 <==> n < 0x8000
    ensures Needs(n) <= 4 <==> n < 0x8000_0000
  {
  }

  lemma CharBack(n: int)
    requires -0x80 <= n < 0x80
    ensures Needs(n) == 1 && Stored(Char, n % Pow256(1)) == n
    ensures 0 <= n <= 1 ==> Stored(Bool, n % Pow256(1)) == n
  {
  }

  /** A signed number comes back from its own width, and from a narrower one if it is not
      negative. */
  lemma ShortBack(n: int)
    requires -0x8000 <= n < 0x8000
    ensures Stored(Short, n % Pow256(Needs(n))) == n <==> n >= 0 || n < -0x80
  {
    if n >= 0 || n < -0x80 {
    } else {
      assert n % 0x100 == n + 0x100;
    }
  }

  lemma IntBack(n: int)
    requires -0x8000_0000 <= n < 0x8000_0000
    ensures Stored(Int, n % Pow256(Needs(n))) == n <==> n >= 0 || n < -0x8000
  {
    if n >= 0 || n < -0x8000 {
    } else if n < -0x80 {
      assert n % 0x1_0000 == n + 0x1_0000;
    } else {
      assert n % 0x100 == n + 0x100;
    }
  }

  lemma LongBack(n: int)
    requires -0x8000_0000_0000_0000 <= n < 0x8000_0000_0000_0000
    ensures Stored(Long, n % Pow256(Needs(n))) == n <==> n >= 0 || n < -0x8000_0000
  {
    hide Stored;
    var w := Needs(n);
    if w == 8 {
      LongWhole(n);
    } else {
      assert n < 0x8000_0000 && (w == 1 ==> n < 0x80) && (w == 2 ==> n < 0x8000);
      LongPart(n, w);
    }
  }

  lemma LongWhole(n: int)
    requires -0x8000_0000_0000_0000 <= n < 0x8000_0000_0000_0000
    ensures Stored(Long, n % Pow256(8)) == n
  {
  }

  lemma LongPart(n: int, w: nat)
    requires w in {1, 2, 4} && n < Pow256(w)
    ensures Stored(Long, n % Pow256(w)) == n % Pow256(w) && n % Pow256(w) >= 0 && (n >= 0 ==> n % Pow256(w) == n)
  {
  }

  lemma {:induction false} NumTrip(t: Type, n: int, tag: int, suffix: seq<byte>)
    requires IsNumber(t) && InRange(t, n) && 0 <= tag < 128
    ensures DecodeNum(t, EncodeNum(n, tag) + suffix) == Ok((n, Ret(t, tag)), suffix) <==> FaithfulNum(t, n)
    ensures DecodeNum(t, EncodeNum(n, tag) + suffix).Ok? && !FaithfulNum(t, n)
        ==> DecodeNum(t, EncodeNum(n, tag) + suffix).value.0 != n
  {
    hide BigEndian, Head, ReadHead, FromBigEndian, GetNumber, Stored, Pow256, Needs;
    var s := EncodeNum(n, tag) + suffix;
    if n == 0 {
      HeadTrip(ZERO_TAG, tag, suffix);
    } else {
      var w := Needs(n);
      var rest := BigEndian(n, w) + suffix;
      assert s == Head(TypeCode(w), tag) + rest;
      HeadTrip(TypeCode(w), tag, rest);
      GetTrip(n, w, suffix);
      Wide(t, n);
      if w <= Width(t) {
        StoredBack(t, n);
      }
    }
  }

  /** A number that needs more bytes than its type has is unsigned and not faithful. */
  lemma Wide(t: Type, n: int)
    requires IsNumber(t) && InRange(t, n)
    ensures Needs(n) > Width(t) ==> !FaithfulNum(t, n)
  {
  }

  lemma StrTrip(s: seq<byte>, tag: int, suffix: seq<byte>)
    requires |s| <= MAX_STRING_LENGTH && 0 <= tag < 128
    ensures DecodeStr(EncodeStr(s, tag) + suffix)
         == if 127 < |s| < 256 then Err(BadLength) else Ok((s, tag), suffix)
  {
    if |s| > 255 {
      LongStrTrip(s, tag, suffix);
    } else {
      ShortStrTrip(s, tag, suffix);
    }
  }

  lemma LongStrTrip(s: seq<byte>, tag: int, suffix: seq<byte>)
    requires 255 < |s| <= MAX_STRING_LENGTH && 0 <= tag < 128
    ensures DecodeStr(EncodeStr(s, tag) + suffix) == Ok((s, tag), suffix)
  {
    hide BigEndian, Head, ReadHead, FromBigEndian, GetNumber, Decimal, Stored, Pow256;
    var rest := BigEndian(|s|, 4) + (s + suffix);
    assert EncodeStr(s, tag) + suffix == Head(STRING4, tag) + rest;
    HeadTrip(STRING4, tag, rest);
    GetTrip(|s|, 4, s + suffix);
    LengthFits(|s|);
    Taken(s, tag, suffix);
  }

  lemma LengthFits(n: nat)
    requires n <= MAX_STRING_LENGTH
    ensures n % Pow256(4) == n && Stored(Int, n) == n
  {
  }

  lemma Taken(s: seq<byte>, tag: int, suffix: seq<byte>)
    requires |s| <= MAX_STRING_LENGTH
    ensures GetString(|s|, tag, s + suffix) == Ok((s, tag), suffix)
  {
    assert (s + suffix)[..|s|] == s && (s + suffix)[|s|..] == suffix;
  }

  lemma ShortStrTrip(s: seq<byte>, tag: int, suffix: seq<byte>)
    requires |s| <= 255 && 0 <= tag < 128
    ensures DecodeStr(EncodeStr(s, tag) + suffix) == if |s| > 127 then Err(BadLength) else Ok((s, tag), suffix)
  {
    hide BigEndian, Head, ReadHead, FromBigEndian, GetNumber, Decimal, Stored, Pow256;
    var rest := [|s|] + (s + suffix);
    assert EncodeStr(s, tag) + suffix == Head(STRING1, tag) + rest;
    HeadTrip(STRING1, tag, rest);
    assert rest[1..] == s + suffix;
    Taken(s, tag, suffix);
  }

  lemma BytesTrip(b: seq<byte>, tag: int, suffix: seq<byte>)
    requires 0 <= tag < 128
    ensures |b| <= 255 ==> DecodeBytes(EncodeBytes(b, tag) + suffix) == Ok((b, tag), suffix)
    ensures |b| > 255 ==> match DecodeBytes(EncodeBytes(b, tag) + suffix)
      case Err(_) => true
      case Ok(x, _) => |x.0| < |b|
  {
    hide Head, ReadHead, EncodeNum, DecodeNum;
    var n := AsChar(|b|);
    var inner := EncodeNum(n, 0) + (b + suffix);
    var rest := Head(BYTE, 0) + inner;
    assert EncodeBytes(b, tag) + suffix == Head(SIMPLE_LIST, tag) + rest;
    HeadTrip(SIMPLE_LIST, tag, rest);
    HeadTrip(BYTE, 0, inner);
    CharAsInt(n, b + suffix);
    var len := n % 0x100;
    assert len == |b| % 0x100;
    assert (b + suffix)[..len] == b[..len];
    if |b| <= 255 {
      assert (b + suffix)[len..] == suffix && b[..len] == b;
    }
  }

  /** A char read as an int is its unsigned value. */
  lemma CharAsInt(n: int, suffix: seq<byte>)
    requires -128 <= n < 128
    ensures DecodeNum(Int, EncodeNum(n, 0) + suffix) == Ok((n % 0x100, 0), suffix)
  {
    hide BigEndian, Head, ReadHead, FromBigEndian, GetNumber;
    if n == 0 {
      HeadTrip(ZERO_TAG, 0, suffix);
    } else {
      var rest := BigEndian(n, 1) + suffix;
      assert EncodeNum(n, 0) + suffix == Head(BYTE, 0) + rest;
      HeadTrip(BYTE, 0, rest);
      GetTrip(n, 1, suffix);
    }
  }

  /** The types whose reader returns the tag. The readers of bool and of lists return 1, which
      the loop over a map's entries does not take for the tag of a key. */
  predicate ReturnsTag(t: Type) {
    !t.Bool? && !t.ListOf?
  }

  /** Every number, string and byte vector in it comes back, and every entry's key is taken
      for one. */
  predicate Faithful(v: Value, t: Type)
    requires HasType(v, t)
    decreases t
  {
    match t
    case String => |v.s| <= 127 || 256 <= |v.s|
    case ByteVector => |v.b| <= 255
    case ListOf(e) => forall i :: 0 <= i < |v.items| ==> Faithful(v.items[i], e)
    case MapOf(k, u) =>
      && (v.entries == [] || ReturnsTag(k))
      && forall i :: 0 <= i < |v.entries| ==> Faithful(v.entries[i].0, k) && Faithful(v.entries[i].1, u)
    case _ => FaithfulNum(t, v.n)
  }

  /** What the writer and reader of a value do between them. */
  predicate Trip(t: Type, v: Value, tag: int, suffix: seq<byte>)
    requires HasType(v, t) && -128 <= tag < 128
  {
    Decode(t, Encode(t, v, tag) + suffix) == Ok((v, Ret(t, tag)), suffix)
  }

  lemma Associate(x: seq<byte>, y: seq<byte>, z: seq<byte>)
    ensures x + y + z == x + (y + z)
  {
  }

  lemma Neutral(x: seq<byte>)
    ensures [] + x == x && x + [] == x
  {
  }

  lemma MiddleTail<T>(q: seq<T>)
    requires |q| >= 2
    ensures q[1..] == q[..|q| - 1][1..] + [q[|q| - 1]] && q[..|q| - 1][0] == q[0]
  {
  }

  lemma ItemsLast(e: Type, items: seq<Value>, last: Value)
    requires AllOf(items, e) && HasType(last, e)
    ensures AllOf(items + [last], e)
    ensures EncodeItems(e, items + [last]) == EncodeItems(e, items) + Encode(e, last, 0)
  {
    hide HasType, Encode;
    assert (items + [last])[..|items|] == items;
  }

  lemma {:induction false} ItemsFront(e: Type, items: seq<Value>)
    requires AllOf(items, e) && items != []
    ensures AllOf(items[1..], e)
    ensures EncodeItems(e, items) == Encode(e, items[0], 0) + EncodeItems(e, items[1..])
    decreases |items|
  {
    hide Encode, HasType, EncodeItems;
    var front, last := items[..|items| - 1], items[|items| - 1];
    assert items == front + [last];
    ItemsLast(e, front, last);
    if front == [] {
      NoItems(e);
      assert items[1..] == [];
      Neutral(Encode(e, last, 0));
    } else {
      ItemsFront(e, front);
      ItemsLast(e, front[1..], last);
      MiddleTail(items);
      Associate(Encode(e, items[0], 0), EncodeItems(e, front[1..]), Encode(e, last, 0));
    }
  }

  lemma EntriesLast(k: Type, u: Type, entries: seq<(Value, Value)>, last: (Value, Value))
    requires AllPairs(entries, k, u) && HasType(last.0, k) && HasType(last.1, u)
    ensures AllPairs(entries + [last], k, u)
    ensures EncodeEntries(k, u, entries + [last]) == EncodeEntries(k, u, entries) + EncodePair(k, u, last)
  {
    hide HasType, Encode;
    assert (entries + [last])[..|entries|] == entries;
    Associate(EncodeEntries(k, u, entries), Encode(k, last.0, 0), Encode(u, last.1, 1));
  }

  function EncodePair(k: Type, u: Type, e: (Value, Value)): seq<byte>
    requires HasType(e.0, k) && HasType(e.1, u)
  {
    Encode(k, e.0, 0) + Encode(u, e.1, 1)
  }

  lemma PairsSplit(k: Type, u: Type, entries: seq<(Value, Value)>)
    requires AllPairs(entries, k, u) && entries != []
    ensures AllPairs(entries[..|entries| - 1], k, u) && AllPairs(entries[1..], k, u)
    ensures HasType(entries[|entries| - 1].0, k) && HasType(entries[|entries| - 1].1, u)
    ensures HasType(entries[0].0, k) && HasType(entries[0].1, u)
    ensures entries == entries[..|entries| - 1] + [entries[|entries| - 1]]
  {
    hide HasType;
  }

  lemma {:induction false} EntriesFront(k: Type, u: Type, entries: seq<(Value, Value)>)
    requires AllPairs(entries, k, u) && entries != []
    ensures AllPairs(entries[1..], k, u) && HasType(entries[0].0, k) && HasType(entries[0].1, u)
    ensures EncodeEntries(k, u, entries) == EncodePair(k, u, entries[0]) + EncodeEntries(k, u, entries[1..])
    decreases |entries|
  {
    hide Encode, HasType, EncodeEntries, EncodePair, AllPairs;
    PairsSplit(k, u, entries);
    var front, last := entries[..|entries| - 1], entries[|entries| - 1];
    EntriesLast(k, u, front, last);
    if |entries| == 1 {
      NoEntries(k, u);
      assert front == [] && entries[1..] == [];
      Neutral(EncodePair(k, u, last));
    } else {
      PairsSplit(k, u, front);
      EntriesFront(k, u, front);
      EntriesLast(k, u, front[1..], last);
      MiddleTail(entries);
      Associate(EncodePair(k, u, entries[0]), EncodeEntries(k, u, front[1..]), EncodePair(k, u, last));
    }
  }

  /** Reading back returns the value and the tag and leaves the suffix. */
  lemma {:induction false} RoundTrip(t: Type, v: Value, tag: int, suffix: seq<byte>)
    requires Supported(t) && HasType(v, t) && Writable(v, t) && Faithful(v, t) && 0 <= tag < 128
    ensures Trip(t, v, tag, suffix)
    decreases t, 1, 0
  {
    hide EncodeNum, DecodeNum, Head, ReadHead, EncodeStr, DecodeStr, EncodeBytes, DecodeBytes, EncodeItems,
      EncodeEntries, DecodeItems, DecodeEntries;
    match t
    case String => StrTrip(v.s, tag, suffix);
    case ByteVector => BytesTrip(v.b, tag, suffix);
    case ListOf(e) =>
      var body := EncodeItems(e, v.items) + suffix;
      var rest := EncodeNum(|v.items|, 0) + body;
      assert Encode(t, v, tag) + suffix == Head(LIST, tag) + rest;
      HeadTrip(LIST, tag, rest);
      NumTrip(Int, |v.items|, 0, body);
      ItemsTrip(e, v.items, suffix, []);
      assert [] + v.items == v.items;
    case MapOf(k, u) =>
      var body := EncodeEntries(k, u, v.entries) + suffix;
      var rest := EncodeNum(|v.entries|, 0) + body;
      assert Encode(t, v, tag) + suffix == Head(MAP, tag) + rest;
      HeadTrip(MAP, tag, rest);
      NumTrip(Int, |v.entries|, 0, body);
      EntriesTrip(k, u, v.entries, suffix, []);
      assert [] + v.entries == v.entries;
    case _ => NumTrip(t, v.n, tag, suffix);
  }

  lemma {:induction false} ItemsTrip(e: Type, items: seq<Value>, suffix: seq<byte>, done: seq<Value>)
    requires Supported(e) && AllOf(items, e)
    requires forall i :: 0 <= i < |items| ==> Writable(items[i], e) && Faithful(items[i], e)
    ensures DecodeItems(e, |items|, EncodeItems(e, items) + suffix, done) == Ok(done + items, suffix)
    decreases e, 2, |items|
  {
    hide Encode, Decode, EncodeItems, Writable, Faithful, HasType;
    if items == [] {
      NoItems(e);
      assert [] + suffix == suffix && done + [] == done;
    } else {
      ItemsFront(e, items);
      var rest := EncodeItems(e, items[1..]) + suffix;
      assert EncodeItems(e, items) + suffix == Encode(e, items[0], 0) + rest;
      RoundTrip(e, items[0], 0, rest);
      ItemsTrip(e, items[1..], suffix, done + [items[0]]);
      assert done + [items[0]] + items[1..] == done + items;
    }
  }

  lemma NoItems(e: Type)
    ensures EncodeItems(e, []) == []
  {
  }

  lemma NoEntries(k: Type, u: Type)
    ensures EncodeEntries(k, u, []) == []
  {
  }

  predicate HasKey(entries: seq<(Value, Value)>, k: Value) {
    exists i :: 0 <= i < |entries| && entries[i].0 == k
  }

  lemma {:induction false} AssignNew(entries: seq<(Value, Value)>, k: Value, v: Value)
    requires !HasKey(entries, k)
    ensures Assign(entries, k, v) == entries + [(k, v)]
  {
    if entries != [] {
      assert entries[0].0 != k;
      assert forall i :: 0 <= i < |entries[1..]| ==> entries[1..][i] == entries[i + 1];
      AssignNew(entries[1..], k, v);
    }
  }

  predicate DistinctKeys(entries: seq<(Value, Value)>) {
    forall i, j :: 0 <= i < j < |entries| ==> entries[i].0 != entries[j].0
  }

  /** One turn of the loop over the entries. */
  lemma {:induction false} EntryTrip(k: Type, u: Type, entries: seq<(Value, Value)>, suffix: seq<byte>,
                                     done: seq<(Value, Value)>)
    requires Supported(MapOf(k, u)) && AllPairs(entries, k, u) && DistinctKeys(done + entries)
    requires entries != [] && ReturnsTag(k) && HasType(entries[0].0, k) && HasType(entries[0].1, u)
    requires Writable(entries[0].0, k) && Faithful(entries[0].0, k)
    requires Writable(entries[0].1, u) && Faithful(entries[0].1, u)
    ensures AllPairs(entries[1..], k, u)
    ensures DecodeEntries(k, u, |entries|, EncodeEntries(k, u, entries) + suffix, done)
         == DecodeEntries(k, u, |entries| - 1, EncodeEntries(k, u, entries[1..]) + suffix, done + [entries[0]])
    decreases MapOf(k, u), 0, |entries| - 1
  {
    hide Encode, Decode, EncodeEntries, Writable, Faithful, HasType, Assign;
    EntriesFront(k, u, entries);
    var e := entries[0];
    var rest := EncodeEntries(k, u, entries[1..]) + suffix;
    var rest1 := Encode(u, e.1, 1) + rest;
    assert EncodeEntries(k, u, entries) + suffix == Encode(k, e.0, 0) + rest1;
    RoundTrip(k, e.0, 0, rest1);
    RoundTrip(u, e.1, 1, rest);
    assert (done + entries)[|done|] == e;
    assert !HasKey(done, e.0) by {
      assert forall i :: 0 <= i < |done| ==> (done + entries)[i] == done[i];
    }
    AssignNew(done, e.0, e.1);
  }

  lemma {:induction false} EntriesTrip(k: Type, u: Type, entries: seq<(Value, Value)>, suffix: seq<byte>,
                                       done: seq<(Value, Value)>)
    requires Supported(MapOf(k, u)) && AllPairs(entries, k, u) && DistinctKeys(done + entries)
    requires entries == [] || ReturnsTag(k)
    requires forall i :: 0 <= i < |entries| ==>
      Writable(entries[i].0, k) && Faithful(entries[i].0, k) && Writable(entries[i].1, u) && Faithful(entries[i].1, u)
    ensures DecodeEntries(k, u, |entries|, EncodeEntries(k, u, entries) + suffix, done) == Ok(done + entries, suffix)
    decreases MapOf(k, u), 0, |entries|
  {
    hide Encode, Decode, EncodeEntries, Writable, Faithful, HasType, Assign;
    if entries == [] {
      NoEntries(k, u);
      assert [] + suffix == suffix && done + [] == done;
    } else {
      EntryTrip(k, u, entries, suffix, done);
      assert done + [entries[0]] + entries[1..] == done + entries;
      EntriesTrip(k, u, entries[1..], suffix, done + [entries[0]]);
    }
  }

  // And nothing else comes back.

  /** What is read is an error or another value. */
  predicate Differs(t: Type, v: Value, s: seq<byte>) {
    match Decode(t, s)
    case Err(_) => true
    case Ok(x, _) => x.0 != v
  }

  lemma {:induction false} ItemsKeepPrefix(e: Type, count: nat, s: seq<byte>, done: seq<Value>)
    ensures match DecodeItems(e, count, s, done)
      case Err(_) => true
      case Ok(items, _) => |done| <= |items| && items[..|done|] == done
    decreases count
  {
    hide Decode;
    if count > 0 && Decode(e, s).Ok? {
      var x := Decode(e, s);
      ItemsKeepPrefix(e, count - 1, x.rest, done + [x.value.0]);
      match DecodeItems(e, count, s, done)
      case Err(_) =>
      case Ok(items, _) => assert items[..|done|] == items[..|done| + 1][..|done|];
    }
  }

  lemma {:induction false} Lost(t: Type, v: Value, tag: int, suffix: seq<byte>)
    requires Supported(t) && HasType(v, t) && Writable(v, t) && !Faithful(v, t) && 0 <= tag < 128
    ensures Differs(t, v, Encode(t, v, tag) + suffix)
    decreases t, 1, 0
  {
    hide EncodeNum, DecodeNum, Head, ReadHead, EncodeStr, DecodeStr, EncodeBytes, DecodeBytes, EncodeItems, DecodeItems,
      EncodeEntries, DecodeEntries;
    if IsNumber(t) {
      NumTrip(t, v.n, tag, suffix);
      return;
    }
    match t
    case String => StrTrip(v.s, tag, suffix);
    case ByteVector => BytesTrip(v.b, tag, suffix);
    case ListOf(e) =>
      var body := EncodeItems(e, v.items) + suffix;
      var rest := EncodeNum(|v.items|, 0) + body;
      assert Encode(t, v, tag) + suffix == Head(LIST, tag) + rest;
      HeadTrip(LIST, tag, rest);
      NumTrip(Int, |v.items|, 0, body);
      ItemsLost(e, v.items, suffix, []);
      assert [] + v.items == v.items;
    case MapOf(k, u) =>
      var body := EncodeEntries(k, u, v.entries) + suffix;
      var rest := EncodeNum(|v.entries|, 0) + body;
      assert Encode(t, v, tag) + suffix == Head(MAP, tag) + rest;
      HeadTrip(MAP, tag, rest);
      NumTrip(Int, |v.entries|, 0, body);
      if ReturnsTag(k) {
        EntriesLost(k, u, v.entries, suffix, []);
        assert [] + v.entries == v.entries;
      } else {
        NothingAssigned(k, u, |v.entries|, body, []);
      }
  }

  lemma {:induction false} ItemsLost(e: Type, items: seq<Value>, suffix: seq<byte>, done: seq<Value>)
    requires Supported(e) && AllOf(items, e)
    requires forall i :: 0 <= i < |items| ==> Writable(items[i], e)
    requires exists i :: 0 <= i < |items| && !Faithful(items[i], e)
    ensures match DecodeItems(e, |items|, EncodeItems(e, items) + suffix, done)
      case Err(_) => true
      case Ok(r, _) => r != done + items
    decreases e, 2, |items|
  {
    hide Encode, Decode, EncodeItems, Writable, Faithful, HasType;
    ItemsFront(e, items);
    var rest := EncodeItems(e, items[1..]) + suffix;
    Associate(Encode(e, items[0], 0), EncodeItems(e, items[1..]), suffix);
    var s := Encode(e, items[0], 0) + rest;
    if Faithful(items[0], e) {
      RoundTrip(e, items[0], 0, rest);
      var i :| 0 <= i < |items| && !Faithful(items[i], e);
      assert items[1..][i - 1] == items[i];
      ItemsLost(e, items[1..], suffix, done + [items[0]]);
      assert done + [items[0]] + items[1..] == done + items;
    } else {
      Lost(e, items[0], 0, rest);
      if Decode(e, s).Ok? {
        var x := Decode(e, s);
        ItemsKeepPrefix(e, |items| - 1, x.rest, done + [x.value.0]);
        assert (done + [x.value.0])[|done|] != (done + items)[|done|];
        match DecodeItems(e, |items|, s, done)
        case Err(_) =>
        case Ok(r, _) => assert r[..|done| + 1][|done|] == r[|done|];
      }
    }
  }

  /** Assigning to a key that is there keeps the number of entries. */
  lemma {:induction false} AssignSize(entries: seq<(Value, Value)>, k: Value, v: Value)
    ensures |Assign(entries, k, v)| == |entries| || Assign(entries, k, v) == entries + [(k, v)]
  {
    if entries != [] && entries[0].0 != k {
      AssignSize(entries[1..], k, v);
      assert Assign(entries[1..], k, v) == entries[1..] + [(k, v)] ==> Assign(entries, k, v) == entries + [(k, v)];
    }
  }

  /** Each turn adds at most one entry, so that none may be wasted or go back to an earlier
      key if as many are to be there in the end as were written. */
  lemma {:induction false} Grow(k: Type, u: Type, count: nat, s: seq<byte>, done: seq<(Value, Value)>)
    ensures match DecodeEntries(k, u, count, s, done)
      case Err(_) => true
      case Ok(r, _) => |r| <= |done| + count && (|r| == |done| + count ==> r[..|done|] == done)
    decreases count
  {
    hide Decode, Assign;
    if count > 0 && Decode(k, s).Ok? {
      var x := Decode(k, s);
      if x.value.1 != 0 {
        Grow(k, u, count - 1, x.rest, done);
      } else if Decode(u, x.rest).Ok? {
        var y := Decode(u, x.rest);
        var more := if y.value.1 == 1 then Assign(done, x.value.0, y.value.0) else done;
        AssignSize(done, x.value.0, y.value.0);
        Grow(k, u, count - 1, y.rest, more);
        match DecodeEntries(k, u, count - 1, y.rest, more)
        case Err(_) =>
        case Ok(r, _) => assert |more| == |done| + 1 && |r| >= |more| ==> r[..|done|] == r[..|more|][..|done|];
      }
    }
  }

  /** A key type whose reader does not return the tag: no entry is ever taken. */
  lemma {:induction false} NothingAssigned(k: Type, u: Type, count: nat, s: seq<byte>, done: seq<(Value, Value)>)
    requires !ReturnsTag(k)
    ensures match DecodeEntries(k, u, count, s, done)
      case Err(_) => true
      case Ok(r, _) => r == done
    decreases count
  {
    hide ReadHead, GetNumber, DecodeItems, Stored;
    if count > 0 && Decode(k, s).Ok? {
      NothingAssigned(k, u, count - 1, Decode(k, s).rest, done);
    }
  }

  lemma {:induction false} EntriesLost(k: Type, u: Type, entries: seq<(Value, Value)>, suffix: seq<byte>,
                                       done: seq<(Value, Value)>)
    requires Supported(MapOf(k, u)) && AllPairs(entries, k, u) && DistinctKeys(done + entries) && ReturnsTag(k)
    requires forall i :: 0 <= i < |entries| ==> Writable(entries[i].0, k) && Writable(entries[i].1, u)
    requires exists i :: 0 <= i < |entries| && !(Faithful(entries[i].0, k) && Faithful(entries[i].1, u))
    ensures match DecodeEntries(k, u, |entries|, EncodeEntries(k, u, entries) + suffix, done)
      case Err(_) => true
      case Ok(r, _) => r != done + entries
    decreases MapOf(k, u), 0, |entries|
  {
    hide Encode, Decode, EncodeEntries, Writable, Faithful, HasType, Assign;
    EntriesFront(k, u, entries);
    var e := entries[0];
    var rest := EncodeEntries(k, u, entries[1..]) + suffix;
    var rest1 := Encode(u, e.1, 1) + rest;
    assert EncodeEntries(k, u, entries) + suffix == Encode(k, e.0, 0) + rest1;
    if Faithful(e.0, k) && Faithful(e.1, u) {
      EntryTrip(k, u, entries, suffix, done);
      assert done + [e] + entries[1..] == done + entries;
      var i :| 0 <= i < |entries| && !(Faithful(entries[i].0, k) && Faithful(entries[i].1, u));
      assert entries[1..][i - 1] == entries[i];
      EntriesLost(k, u, entries[1..], suffix, done + [e]);
    } else {
      if Faithful(e.0, k) {
        RoundTrip(k, e.0, 0, rest1);
        Lost(u, e.1, 1, rest);
      } else {
        Lost(k, e.0, 0, rest1);
      }
      FirstEntryLost(k, u, entries, Encode(k, e.0, 0) + rest1, done);
    }
  }

  /** If the first key or its value is not read back, it is not there in the end either. */
  lemma FirstEntryLost(k: Type, u: Type, entries: seq<(Value, Value)>, s: seq<byte>, done: seq<(Value, Value)>)
    requires entries != []
    requires match Decode(k, s)
      case Err(_) => true
      case Ok(x, rest) => x.0 != entries[0].0 || Differs(u, entries[0].1, rest)
    ensures match DecodeEntries(k, u, |entries|, s, done)
      case Err(_) => true
      case Ok(r, _) => r != done + entries
  {
    hide Decode, Assign;
    if Decode(k, s).Ok? {
      var x := Decode(k, s);
      assert (done + entries)[|done|] == entries[0];
      if x.value.1 != 0 {
        Grow(k, u, |entries| - 1, x.rest, done);
      } else if Decode(u, x.rest).Ok? {
        var y := Decode(u, x.rest);
        var more := if y.value.1 == 1 then Assign(done, x.value.0, y.value.0) else done;
        AssignSize(done, x.value.0, y.value.0);
        Grow(k, u, |entries| - 1, y.rest, more);
        match DecodeEntries(k, u, |entries| - 1, y.rest, more)
        case Err(_) =>
        case Ok(r, _) => assert |more| == |done| + 1 && |r| >= |more| ==> r[..|more|][|done|] == r[|done|];
      }
    }
  }

  /** For every type and value the reader gives back the value, its tag and the suffix if and
      only if every number, string and byte vector in it is one of those that come back and
      no map with entries has keys of bool or of a list type. */
  lemma RoundTripIff(t: Type, v: Value, tag: int, suffix: seq<byte>)
    requires Supported(t) && HasType(v, t) && Writable(v, t) && 0 <= tag < 128
    ensures Trip(t, v, tag, suffix) <==> Faithful(v, t)
  {
    if Faithful(v, t) {
      RoundTrip(t, v, tag, suffix);
    } else {
      Lost(t, v, tag, suffix);
    }
  }

  /** Values written one behind the other are read one after the other. */
  lemma {:induction false} StreamTrip(types: seq<Type>, values: seq<Value>, tags: seq<int>, suffix: seq<byte>)
    requires |types| == |values| == |tags|
    requires forall i :: 0 <= i < |types| ==>
      (Supported(types[i]) && HasType(values[i], types[i]) && Writable(values[i], types[i])
       && Faithful(values[i], types[i]) && 0 <= tags[i] < 128)
    ensures ReadAll(types, WriteAll(types, values, tags) + suffix) == Ok(values, suffix)
    decreases |types|
  {
    hide Encode, Decode, HasType, Writable, Faithful;
    if types == [] {
      Neutral(suffix);
    } else {
      var rest := WriteAll(types[1..], values[1..], tags[1..]) + suffix;
      Associate(Encode(types[0], values[0], tags[0]), WriteAll(types[1..], values[1..], tags[1..]), suffix);
      RoundTrip(types[0], values[0], tags[0], rest);
      StreamTrip(types[1..], values[1..], tags[1..], suffix);
      assert [values[0]] + values[1..] == values;
    }
  }

  function WriteAll(types: seq<Type>, values: seq<Value>, tags: seq<int>): seq<byte>
    requires |types| == |values| == |tags|
    requires forall i :: 0 <= i < |types| ==> HasType(values[i], types[i]) && -128 <= tags[i] < 128
    decreases |types|
  {
    if types == [] then []
    else Encode(types[0], values[0], tags[0]) + WriteAll(types[1..], values[1..], tags[1..])
  }

  function ReadAll(types: seq<Type>, s: seq<byte>): Result<seq<Value>>
    decreases |types|
  {
    if types == [] then Ok([], s)
    else match Decode(types[0], s)
      case Err(e) => Err(e)
      case Ok(x, rest) =>
        match ReadAll(types[1..], rest)
        case Err(e) => Err(e)
        case Ok(more, rest1) => Ok([x.0] + more, rest1)
  }

  /** Five values that do not come back: -1 as an int is read as 255, */
  lemma NegativeIntLost()
    ensures Decode(Int, Encode(Int, Num(-1), 0)) == Ok((Num(255), 0), [])
  {
    hide EncodeNum, DecodeNum;
    CharAsInt(-1, []);
    Neutral(EncodeNum(-1, 0));
  }

  /** 40000 as an unsigned short is written as an int, which its reader refuses, */
  lemma UnsignedShortLost(suffix: seq<byte>)
    ensures Decode(UShort, Encode(UShort, Num(40000), 0) + suffix) == Err(BadType)
  {
    hide BigEndian, Head, ReadHead, GetNumber, Stored;
    var rest := BigEndian(40000, 4) + suffix;
    HeadTrip(INT, 0, rest);
    Associate(Head(INT, 0), BigEndian(40000, 4), suffix);
  }

  /** a map's int key -1 comes back as 255, */
  lemma MapKeyLost(suffix: seq<byte>)
    ensures Decode(MapOf(Int, Int), Encode(MapOf(Int, Int), Dict([(Num(-1), Num(7))]), 0) + suffix)
         == Ok((Dict([(Num(255), Num(7))]), 0), suffix)
  {
    hide EncodeNum, DecodeNum, EncodeEntries, Head, ReadHead;
    var e := (Num(-1), Num(7));
    var rest1 := EncodeNum(7, 1) + suffix;
    var body := EncodeNum(-1, 0) + rest1;
    assert EncodeEntries(Int, Int, [e]) + suffix == body by {
      assert [e][..0] == [];
      EntriesLast(Int, Int, [], e);
      NoEntries(Int, Int);
      assert [] + [e] == [e];
      assert [] + (EncodeNum(-1, 0) + EncodeNum(7, 1)) + suffix == body;
    }
    var rest := EncodeNum(1, 0) + body;
    assert Encode(MapOf(Int, Int), Dict([e]), 0) + suffix == Head(MAP, 0) + rest;
    HeadTrip(MAP, 0, rest);
    NumTrip(Int, 1, 0, body);
    CharAsInt(-1, rest1);
    NumTrip(Int, 7, 1, suffix);
  }

  /** a map's bool key is taken for a wrong tag, so that its entry is not there, */
  lemma BoolKeyLost(suffix: seq<byte>)
    ensures var v := Dict([(Num(1), Num(7))]); Differs(MapOf(Bool, Int), v, Encode(MapOf(Bool, Int), v, 0) + suffix)
  {
    hide Encode;
    Lost(MapOf(Bool, Int), Dict([(Num(1), Num(7))]), 0, suffix);
  }

  /** and a string of 128 bytes has its length byte read as -128. */
  lemma StringLost(s: seq<byte>, suffix: seq<byte>)
    requires |s| == 128
    ensures Decode(String, Encode(String, Str(s), 0) + suffix) == Err(BadLength)
  {
    hide EncodeStr, DecodeStr;
    StrTrip(s, 0, suffix);
  }
}
