/** A std::map does not keep the order in which its entries were assigned. So a value that does
    not come back is told from what is read by what no reordering of entries changes. */
module ProtoOrder {
  import opened Basics
  import opened Powers
  import opened ProtoWire
  import opened ProtoRoundTrip

  /** The number of parts of a value. */
  function Size(v: Value): nat {
    match v
    case List(items) => 1 + SizeOf(items)
    case Dict(entries) => 1 + SizeIn(entries)
    case _ => 1
  }

  function SizeOf(items: seq<Value>): nat {
    if items == [] then 0 else Size(items[0]) + SizeOf(items[1..])
  }

  function SizeIn(entries: seq<(Value, Value)>): nat {
    if entries == [] then 0
    else SizeOfPair(entries[0]) + SizeIn(entries[1..])
  }

  function SizeOfPair(e: (Value, Value)): nat {
    Size(e.0) + Size(e.1)
  }

  /** The sum of its numbers. */
  function Sum(v: Value): int {
    match v
    case Num(n) => n
    case List(items) => SumOf(items)
    case Dict(entries) => SumIn(entries)
    case _ => 0
  }

  function SumOf(items: seq<Value>): int {
    if items == [] then 0 else Sum(items[0]) + SumOf(items[1..])
  }

  function SumIn(entries: seq<(Value, Value)>): int {
    if entries == [] then 0
    else SumOfPair(entries[0]) + SumIn(entries[1..])
  }

  function SumOfPair(e: (Value, Value)): int {
    Sum(e.0) + Sum(e.1)
  }

  /** Its reader takes just the bytes that were written for it: no byte vector of more than 255
      bytes, and no entries whose keys' reader does not return the tag. */
  predicate Aligned(v: Value, t: Type)
    requires HasType(v, t)
    decreases t
  {
    match t
    case ByteVector => |v.b| <= 255
    case ListOf(e) => forall i :: 0 <= i < |v.items| ==> Aligned(v.items[i], e)
    case MapOf(k, u) =>
      && (v.entries == [] || ReturnsTag(k))
      && forall i :: 0 <= i < |v.entries| ==> Aligned(v.entries[i].0, k) && Aligned(v.entries[i].1, u)
    case _ => true
  }

  /** What is read has fewer parts, or a greater sum, or is what was written. */
  predicate Tells(size: nat, sum: int, size0: nat, sum0: int, faithful: bool) {
    size < size0 || (size == size0 && sum >= sum0 && (sum == sum0 ==> faithful))
  }

  predicate ItemsTell(r: Result<seq<Value>>, suffix: seq<byte>, size: nat, sum: int, faithful: bool) {
    r.Err? || (r.rest == suffix && Tells(SizeOf(r.value), SumOf(r.value), size, sum, faithful))
  }

  predicate EntriesTell(r: Result<seq<(Value, Value)>>, suffix: seq<byte>, size: nat, sum: int, faithful: bool) {
    r.Err? || (r.rest == suffix && Tells(SizeIn(r.value), SumIn(r.value), size, sum, faithful))
  }

  lemma StoredAbove(t: Type, n: int)
    requires IsNumber(t) && InRange(t, n) && Needs(n) <= Width(t)
    ensures Stored(t, n % Pow256(Needs(n))) >= n
  {
    if t.Short? {
      ShortAbove(n);
    } else if t.Int? {
      IntAbove(n);
    } else if t.Long? {
      LongAbove(n);
    } else if t.UShort? || t.UInt? {
      UnsignedBack(n);
    } else {
      CharBack(n);
    }
  }

  lemma ShortAbove(n: int)
    requires -0x8000 <= n < 0x8000
    ensures Stored(Short, n % Pow256(Needs(n))) >= n
  {
    ShortBack(n);
    assert Needs(n) == 1 ==> n % 0x100 >= n;
  }

  lemma IntAbove(n: int)
    requires -0x8000_0000 <= n < 0x8000_0000
    ensures Stored(Int, n % Pow256(Needs(n))) >= n
  {
    IntBack(n);
    assert Needs(n) == 1 ==> n % 0x100 >= n;
    assert Needs(n) == 2 ==> n % 0x1_0000 >= n;
  }

  lemma LongAbove(n: int)
    requires -0x8000_0000_0000_0000 <= n < 0x8000_0000_0000_0000
    ensures Stored(Long, n % Pow256(Needs(n))) >= n
  {
    hide Stored;
    LongBack(n);
    var w := Needs(n);
    if w < 8 {
      assert n < 0x8000_0000 && (w == 1 ==> n < 0x80) && (w == 2 ==> n < 0x8000);
      LongPart(n, w);
    }
  }

  lemma NumReads(t: Type, n: int, tag: int, suffix: seq<byte>)
    requires IsNumber(t) && InRange(t, n) && 0 <= tag < 128
    ensures match DecodeNum(t, EncodeNum(n, tag) + suffix)
      case Err(_) => true
      case Ok(x, after) => after == suffix && x.1 == Ret(t, tag) && x.0 >= n && (x.0 == n ==> FaithfulNum(t, n))
  {
    hide BigEndian, Head, ReadHead, FromBigEndian, GetNumber, Stored, Pow256, Needs, InRange;
    NumTrip(t, n, tag, suffix);
    var s := EncodeNum(n, tag) + suffix;
    if n == 0 {
      HeadTrip(ZERO_TAG, tag, suffix);
      ZeroBack(t);
    } else {
      var w := Needs(n);
      var rest := BigEndian(n, w) + suffix;
      assert s == Head(TypeCode(w), tag) + rest;
      HeadTrip(TypeCode(w), tag, rest);
      GetTrip(n, w, suffix);
      if w <= Width(t) {
        StoredAbove(t, n);
        StoredBack(t, n);
      }
    }
  }

  lemma ZeroBack(t: Type)
    requires IsNumber(t)
    ensures FaithfulNum(t, 0)
  {
  }

  /** Reading stops where the value's bytes stop, and what was read tells. */
  predicate ReadTells(t: Type, v: Value, tag: int, suffix: seq<byte>)
    requires HasType(v, t) && -128 <= tag < 128
  {
    match Decode(t, Encode(t, v, tag) + suffix)
    case Err(_) => true
    case Ok(x, rest) =>
      rest == suffix && x.1 == Ret(t, tag) && Tells(Size(x.0), Sum(x.0), Size(v), Sum(v), Faithful(v, t))
  }

  lemma ScalarReads(t: Type, v: Value, tag: int, suffix: seq<byte>)
    requires !t.ListOf? && !t.MapOf? && HasType(v, t) && Writable(v, t) && Aligned(v, t) && 0 <= tag < 128
    ensures ReadTells(t, v, tag, suffix)
  {
    hide EncodeNum, DecodeNum, EncodeStr, DecodeStr, EncodeBytes, DecodeBytes;
    if t.String? {
      StrTrip(v.s, tag, suffix);
    } else if t.ByteVector? {
      BytesTrip(v.b, tag, suffix);
    } else {
      NumReads(t, v.n, tag, suffix);
    }
  }

  lemma {:induction false} Reads(t: Type, v: Value, tag: int, suffix: seq<byte>)
    requires Supported(t) && HasType(v, t) && Writable(v, t) && Aligned(v, t) && 0 <= tag < 128
    ensures ReadTells(t, v, tag, suffix)
    decreases t, 1, 0
  {
    hide Encode, Decode, EncodeItems, EncodeEntries, DecodeItems, DecodeEntries;
    match t
    case ListOf(e) =>
      ItemsRead(e, v.items, suffix, []);
      ListTells(e, v, tag, suffix);
    case MapOf(k, u) =>
      EntriesRead(k, u, v.entries, suffix, []);
      MapTells(k, u, v, tag, suffix);
    case _ => ScalarReads(t, v, tag, suffix);
  }

  lemma ListTells(e: Type, v: Value, tag: int, suffix: seq<byte>)
    requires HasType(v, ListOf(e)) && AllOf(v.items, e) && 0 <= tag < 128
    requires ItemsTell(DecodeItems(e, |v.items|, EncodeItems(e, v.items) + suffix, []), suffix,
      SizeOf(v.items), SumOf(v.items), AllFaithful(v.items, e))
    ensures ReadTells(ListOf(e), v, tag, suffix)
  {
    hide Encode, Decode, EncodeItems, DecodeItems, SizeOf, SumOf;
    ListReads(e, v, tag, suffix);
  }

  lemma MapTells(k: Type, u: Type, v: Value, tag: int, suffix: seq<byte>)
    requires HasType(v, MapOf(k, u)) && AllPairs(v.entries, k, u) && (v.entries == [] || ReturnsTag(k)) && 0 <= tag < 128
    requires EntriesTell(DecodeEntries(k, u, |v.entries|, EncodeEntries(k, u, v.entries) + suffix, []), suffix,
      SizeIn(v.entries), SumIn(v.entries), AllEntriesFaithful(v.entries, k, u))
    ensures ReadTells(MapOf(k, u), v, tag, suffix)
  {
    hide Encode, Decode, EncodeEntries, DecodeEntries, SizeIn, SumIn;
    MapReads(k, u, v, tag, suffix);
  }

  function AsList(r: Result<seq<Value>>): Result<(Value, int)> {
    match r case Err(e) => Err(e) case Ok(items, rest) => Ok((List(items), 1), rest)
  }

  function AsDict(r: Result<seq<(Value, Value)>>, tag: int): Result<(Value, int)> {
    match r case Err(e) => Err(e) case Ok(entries, rest) => Ok((Dict(entries), tag), rest)
  }

  lemma ListReads(e: Type, v: Value, tag: int, suffix: seq<byte>)
    requires HasType(v, ListOf(e)) && 0 <= tag < 128
    ensures Decode(ListOf(e), Encode(ListOf(e), v, tag) + suffix)
         == AsList(DecodeItems(e, |v.items|, EncodeItems(e, v.items) + suffix, []))
  {
    hide EncodeNum, DecodeNum, Head, ReadHead, EncodeItems, DecodeItems;
    var body := EncodeItems(e, v.items) + suffix;
    var code := EncodeNum(|v.items|, 0) + body;
    assert Encode(ListOf(e), v, tag) + suffix == Head(LIST, tag) + code;
    HeadTrip(LIST, tag, code);
    NumTrip(Int, |v.items|, 0, body);
  }

  lemma MapReads(k: Type, u: Type, v: Value, tag: int, suffix: seq<byte>)
    requires HasType(v, MapOf(k, u)) && 0 <= tag < 128
    ensures Decode(MapOf(k, u), Encode(MapOf(k, u), v, tag) + suffix)
         == AsDict(DecodeEntries(k, u, |v.entries|, EncodeEntries(k, u, v.entries) + suffix, []), tag)
  {
    hide EncodeNum, DecodeNum, Head, ReadHead, EncodeEntries, DecodeEntries;
    var body := EncodeEntries(k, u, v.entries) + suffix;
    var code := EncodeNum(|v.entries|, 0) + body;
    assert Encode(MapOf(k, u), v, tag) + suffix == Head(MAP, tag) + code;
    HeadTrip(MAP, tag, code);
    NumTrip(Int, |v.entries|, 0, body);
  }

  lemma {:induction false} SumsSnoc(items: seq<Value>, x: Value)
    ensures SizeOf(items + [x]) == SizeOf(items) + Size(x)
    ensures SumOf(items + [x]) == SumOf(items) + Sum(x)
    decreases |items|
  {
    hide Size, Sum;
    if items == [] {
      assert [] + [x] == [x] && [x][1..] == [];
    } else {
      assert (items + [x])[1..] == items[1..] + [x];
      SumsSnoc(items[1..], x);
    }
  }

  predicate AllFaithful(items: seq<Value>, e: Type)
    requires AllOf(items, e)
  {
    forall i :: 0 <= i < |items| ==> Faithful(items[i], e)
  }

  lemma {:induction false} ItemsRead(e: Type, items: seq<Value>, suffix: seq<byte>, done: seq<Value>)
    requires Supported(e) && AllOf(items, e)
    requires forall i :: 0 <= i < |items| ==> Writable(items[i], e) && Aligned(items[i], e)
    ensures ItemsTell(DecodeItems(e, |items|, EncodeItems(e, items) + suffix, done), suffix,
      SizeOf(done) + SizeOf(items), SumOf(done) + SumOf(items), AllFaithful(items, e))
    decreases e, 2, |items|
  {
    hide Encode, Decode, EncodeItems, Writable, Faithful, Aligned, HasType, Size, Sum;
    if items == [] {
      NoItems(e);
      assert [] + suffix == suffix;
    } else {
      ItemsFront(e, items);
      var rest := EncodeItems(e, items[1..]) + suffix;
      assert EncodeItems(e, items) + suffix == Encode(e, items[0], 0) + rest;
      Reads(e, items[0], 0, rest);
      var x := Decode(e, Encode(e, items[0], 0) + rest);
      if x.Ok? {
        ItemsRead(e, items[1..], suffix, done + [x.value.0]);
        SumsSnoc(done, x.value.0);
        assert AllFaithful(items, e) <==> Faithful(items[0], e) && AllFaithful(items[1..], e) by {
          assert items == [items[0]] + items[1..];
        }
      }
    }
  }

  predicate AllEntriesFaithful(entries: seq<(Value, Value)>, k: Type, u: Type)
    requires AllPairs(entries, k, u)
  {
    forall i :: 0 <= i < |entries| ==> Faithful(entries[i].0, k) && Faithful(entries[i].1, u)
  }

  /** Assigning to a key that is there loses at least one part. */
  lemma {:induction false} SumsAssign(entries: seq<(Value, Value)>, k: Value, v: Value)
    ensures var r := Assign(entries, k, v); var all := SizeIn(entries) + Size(k) + Size(v);
      SizeIn(r) < all || (SizeIn(r) == all && SumIn(r) == SumIn(entries) + Sum(k) + Sum(v))
    decreases |entries|
  {
    hide Sum;
    if entries == [] {
      assert [(k, v)][1..] == [];
    } else if entries[0].0 == k {
      assert ([(k, v)] + entries[1..])[1..] == entries[1..];
      SizeSome(k);
    } else {
      SumsAssign(entries[1..], k, v);
      assert ([entries[0]] + Assign(entries[1..], k, v))[1..] == Assign(entries[1..], k, v);
    }
  }

  lemma SizeSome(v: Value)
    ensures Size(v) >= 1
  {
  }

  /** The first entry was read, and then the others into what it left. */
  lemma EntryTells(k: Type, u: Type, entries: seq<(Value, Value)>, done: seq<(Value, Value)>, x: Value, y: Value,
                   r: Result<seq<(Value, Value)>>, suffix: seq<byte>)
    requires AllPairs(entries, k, u) && entries != [] && AllPairs(entries[1..], k, u)
    requires HasType(entries[0].0, k) && HasType(entries[0].1, u)
    requires Tells(Size(x), Sum(x), Size(entries[0].0), Sum(entries[0].0), Faithful(entries[0].0, k))
    requires Tells(Size(y), Sum(y), Size(entries[0].1), Sum(entries[0].1), Faithful(entries[0].1, u))
    requires var more := Assign(done, x, y);
      EntriesTell(r, suffix, SizeIn(more) + SizeIn(entries[1..]), SumIn(more) + SumIn(entries[1..]),
                  AllEntriesFaithful(entries[1..], k, u))
    ensures EntriesTell(r, suffix, SizeIn(done) + SizeIn(entries), SumIn(done) + SumIn(entries),
                        AllEntriesFaithful(entries, k, u))
  {
    hide Faithful, HasType, Assign, Size, Sum;
    SumsAssign(done, x, y);
    assert AllEntriesFaithful(entries, k, u)
      <==> Faithful(entries[0].0, k) && Faithful(entries[0].1, u) && AllEntriesFaithful(entries[1..], k, u) by {
      assert entries == [entries[0]] + entries[1..];
    }
  }

  lemma {:induction false} EntriesRead(k: Type, u: Type, entries: seq<(Value, Value)>, suffix: seq<byte>,
                                       done: seq<(Value, Value)>)
    requires Supported(MapOf(k, u)) && AllPairs(entries, k, u) && (entries == [] || ReturnsTag(k))
    requires forall i :: 0 <= i < |entries| ==>
      Writable(entries[i].0, k) && Aligned(entries[i].0, k) && Writable(entries[i].1, u) && Aligned(entries[i].1, u)
    ensures EntriesTell(DecodeEntries(k, u, |entries|, EncodeEntries(k, u, entries) + suffix, done), suffix,
      SizeIn(done) + SizeIn(entries), SumIn(done) + SumIn(entries), AllEntriesFaithful(entries, k, u))
    decreases MapOf(k, u), 0, |entries|
  {
    hide Encode, Decode, EncodeEntries, Writable, Faithful, Aligned, HasType, Assign, Size, Sum;
    if entries == [] {
      NoEntries(k, u);
      assert [] + suffix == suffix;
    } else {
      EntriesFront(k, u, entries);
      var e := entries[0];
      var rest := EncodeEntries(k, u, entries[1..]) + suffix;
      var rest1 := Encode(u, e.1, 1) + rest;
      assert EncodeEntries(k, u, entries) + suffix == Encode(k, e.0, 0) + rest1;
      Reads(k, e.0, 0, rest1);
      Reads(u, e.1, 1, rest);
      var x, y := Decode(k, Encode(k, e.0, 0) + rest1), Decode(u, rest1);
      if x.Ok? && y.Ok? {
        var more := Assign(done, x.value.0, y.value.0);
        EntriesRead(k, u, entries[1..], suffix, more);
        EntryTells(k, u, entries, done, x.value.0, y.value.0, DecodeEntries(k, u, |entries| - 1, rest, more), suffix);
      }
    }
  }

  /** A value that does not come back is not read as itself with the entries of its maps in
      another order either: what is read has fewer parts or a greater sum. */
  lemma LostInAnyOrder(t: Type, v: Value, tag: int, suffix: seq<byte>)
    requires Supported(t) && HasType(v, t) && Writable(v, t) && Aligned(v, t) && !Faithful(v, t) && 0 <= tag < 128
    ensures match Decode(t, Encode(t, v, tag) + suffix)
      case Err(_) => true
      case Ok(x, _) => Size(x.0) < Size(v) || Sum(x.0) > Sum(v)
  {
    hide Encode, Decode, Faithful, Size, Sum;
    Reads(t, v, tag, suffix);
  }

  lemma TakenOut<T>(q: seq<T>, i: nat)
    requires i < |q|
    ensures multiset(q[..i] + q[i + 1..]) == multiset(q) - multiset{q[i]}
  {
    assert q == q[..i] + [q[i]] + q[i + 1..];
  }

  lemma SumsTakenOut(q: seq<(Value, Value)>, i: nat)
    requires i < |q|
    ensures var rest := q[..i] + q[i + 1..];
      SizeIn(q) == SizeOfPair(q[i]) + SizeIn(rest) && SumIn(q) == SumOfPair(q[i]) + SumIn(rest)
  {
    hide SizeOfPair, SumOfPair;
    var tail := [q[i]] + q[i + 1..];
    assert q == q[..i] + tail && tail[1..] == q[i + 1..];
    SumsApart(q[..i], tail);
    SumsApart(q[..i], q[i + 1..]);
  }

  /** Neither depends on the order of a map's entries. */
  lemma {:induction false} OrderForgotten(a: seq<(Value, Value)>, b: seq<(Value, Value)>)
    requires multiset(a) == multiset(b)
    ensures SizeIn(a) == SizeIn(b) && SumIn(a) == SumIn(b)
    decreases |a|
  {
    hide SizeIn, SumIn;
    if a == [] {
      assert |multiset(b)| == |b|;
    } else {
      assert a[0] in multiset(b);
      var i :| 0 <= i < |b| && b[i] == a[0];
      TakenOut(a, 0);
      TakenOut(b, i);
      SumsTakenOut(a, 0);
      SumsTakenOut(b, i);
      OrderForgotten(a[..0] + a[1..], b[..i] + b[i + 1..]);
    }
  }

  /** So a map that does not come back as it is does not come back in another order. */
  lemma MapLostInAnyOrder(k: Type, u: Type, v: Value, tag: int, suffix: seq<byte>)
    requires var t := MapOf(k, u); Supported(t) && HasType(v, t) && Writable(v, t) && Aligned(v, t) && !Faithful(v, t)
    requires 0 <= tag < 128
    ensures var d := Decode(MapOf(k, u), Encode(MapOf(k, u), v, tag) + suffix);
      d.Err? || (d.value.0.Dict? && multiset(d.value.0.entries) != multiset(v.entries))
  {
    hide Encode, Decode, Faithful;
    LostInAnyOrder(MapOf(k, u), v, tag, suffix);
    MapReads(k, u, v, tag, suffix);
    var d := Decode(MapOf(k, u), Encode(MapOf(k, u), v, tag) + suffix);
    if d.Ok? && multiset(d.value.0.entries) == multiset(v.entries) {
      OrderForgotten(d.value.0.entries, v.entries);
    }
  }

  lemma {:induction false} SumsApart(a: seq<(Value, Value)>, b: seq<(Value, Value)>)
    ensures SizeIn(a + b) == SizeIn(a) + SizeIn(b) && SumIn(a + b) == SumIn(a) + SumIn(b)
  {
    hide Size, Sum;
    if a == [] {
      assert [] + b == b;
    } else {
      assert (a + b)[1..] == a[1..] + b;
      SumsApart(a[1..], b);
    }
  }
}
