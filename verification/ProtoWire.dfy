/** The bytes that ProtoOut writes and the values that ProtoIn reads, as functions
    (Core/src/proto.cpp, Core/src/proto.h). A C++ overload is a type passed as parameter. */
module ProtoWire {
  import opened Basics
  import opened Powers

  const BYTE := 0
  const SHORT := 1
  const INT := 2
  const LONG := 3
  const STRING1 := 6
  const STRING4 := 7
  const MAP := 8
  const LIST := 9
  const ZERO_TAG := 12
  const SIMPLE_LIST := 13
  const MAX_STRING_LENGTH := 104857600

  /** bool, char, short, unsigned short, int, unsigned int, long, std::string,
      std::vector<char>, other vectors, std::map. */
  datatype Type = Bool | Char | Short | UShort | Int | UInt | Long | String | ByteVector
                | ListOf(elem: Type) | MapOf(key: Type, val: Type)

  /** A map is given by its entries in the order of iteration. */
  datatype Value = Num(n: int) | Str(s: seq<byte>) | Bytes(b: seq<byte>) | List(items: seq<Value>)
                 | Dict(entries: seq<(Value, Value)>)

  datatype Error = BadType | TooLong | BadLength | EndOfData | FloatText

  datatype Result<T> = Ok(value: T, rest: seq<byte>) | Err(error: Error)

  predicate IsNumber(t: Type) {
    t.Bool? || t.Char? || t.Short? || t.UShort? || t.Int? || t.UInt? || t.Long?
  }

  /** The bytes of an integer type. */
  function Width(t: Type): (w: nat)
    requires IsNumber(t)
    ensures w in {1, 2, 4, 8}
  {
    match t
    case Short => 2
    case UShort => 2
    case Int => 4
    case UInt => 4
    case Long => 8
    case _ => 1
  }

  predicate InRange(t: Type, n: int)
    requires IsNumber(t)
  {
    if t.Bool? then 0 <= n <= 1
    else if t.UShort? then 0 <= n < 0x1_0000
    else if t.UInt? then 0 <= n < 0x1_0000_0000
    else -(Pow256(Width(t)) / 2) <= n < Pow256(Width(t)) / 2
  }

  /** The types that the templates accept: a vector of char is a ByteVector. */
  predicate Supported(t: Type) {
    match t
    case ListOf(e) => !e.Char? && Supported(e)
    case MapOf(k, v) => Supported(k) && Supported(v)
    case _ => true
  }

  predicate HasType(v: Value, t: Type)
    decreases t
  {
    match t
    case String => v.Str?
    case ByteVector => v.Bytes?
    case ListOf(e) => v.List? && |v.items| < 0x8000_0000 && forall i :: 0 <= i < |v.items| ==> HasType(v.items[i], e)
    case MapOf(k, u) =>
      && v.Dict? && |v.entries| < 0x8000_0000
      && (forall i :: 0 <= i < |v.entries| ==> HasType(v.entries[i].0, k) && HasType(v.entries[i].1, u))
      && (forall i, j :: 0 <= i < j < |v.entries| ==> v.entries[i].0 != v.entries[j].0)
    case _ => v.Num? && InRange(t, v.n)
  }

  // Writing.

  /** The low byte of `tag << 4 | type`, or the long form for tags from 15. */
  function Head(ty: nat, tag: int): (s: seq<byte>)
    requires ty < 16 && -128 <= tag < 128
    ensures |s| == if tag < 15 then 1 else 2
  {
    if tag < 15 then [tag * 16 % 0x100 + ty] else [ty + 240, tag]
  }

  /** The `k` low bytes of `n`, the highest first. */
  function BigEndian(n: int, k: nat): (s: seq<byte>)
    ensures |s| == k
    decreases k
  {
    if k == 0 then [] else BigEndian(n / 0x100, k - 1) + [n % 0x100]
  }

  /** The bytes that the cascade of write overloads ends up with. */
  function Needs(n: int): (w: nat)
    ensures w in {1, 2, 4, 8}
  {
    if -0x80 <= n < 0x80 then 1
    else if -0x8000 <= n < 0x8000 then 2
    else if -0x8000_0000 <= n < 0x8000_0000 then 4
    else 8
  }

  function TypeCode(w: nat): (ty: nat)
    requires w in {1, 2, 4, 8}
    ensures ty < 4
  {
    if w == 1 then BYTE else if w == 2 then SHORT else if w == 4 then INT else LONG
  }

  function EncodeNum(n: int, tag: int): seq<byte>
    requires -128 <= tag < 128
  {
    if n == 0 then Head(ZERO_TAG, tag)
    else Head(TypeCode(Needs(n)), tag) + BigEndian(n, Needs(n))
  }

  function EncodeStr(s: seq<byte>, tag: int): seq<byte>
    requires -128 <= tag < 128
  {
    if |s| > 255 then Head(STRING4, tag) + BigEndian(|s|, 4) + s
    else Head(STRING1, tag) + [|s|] + s
  }

  /** `(char)n` */
  function AsChar(n: int): (c: int)
    ensures -128 <= c < 128
  {
    (n + 128) % 0x100 - 128
  }

  function EncodeBytes(b: seq<byte>, tag: int): seq<byte>
    requires -128 <= tag < 128
  {
    Head(SIMPLE_LIST, tag) + Head(BYTE, 0) + EncodeNum(AsChar(|b|), 0) + b
  }

  /** No string in it is too long to be written. */
  predicate Writable(v: Value, t: Type)
    requires HasType(v, t)
    decreases t
  {
    match t
    case String => |v.s| <= MAX_STRING_LENGTH
    case ListOf(e) => forall i :: 0 <= i < |v.items| ==> Writable(v.items[i], e)
    case MapOf(k, u) =>
      forall i :: 0 <= i < |v.entries| ==> Writable(v.entries[i].0, k) && Writable(v.entries[i].1, u)
    case _ => true
  }

  predicate AllOf(items: seq<Value>, e: Type) {
    forall i :: 0 <= i < |items| ==> HasType(items[i], e)
  }

  predicate AllPairs(entries: seq<(Value, Value)>, k: Type, u: Type) {
    forall i :: 0 <= i < |entries| ==> HasType(entries[i].0, k) && HasType(entries[i].1, u)
  }

  function Encode(t: Type, v: Value, tag: int): seq<byte>
    requires HasType(v, t) && -128 <= tag < 128
    decreases t, 1, 0
  {
    match t
    case String => EncodeStr(v.s, tag)
    case ByteVector => EncodeBytes(v.b, tag)
    case ListOf(e) => Head(LIST, tag) + EncodeNum(|v.items|, 0) + EncodeItems(e, v.items)
    case MapOf(k, u) => Head(MAP, tag) + EncodeNum(|v.entries|, 0) + EncodeEntries(k, u, v.entries)
    case _ => EncodeNum(v.n, tag)
  }

  function EncodeItems(e: Type, items: seq<Value>): seq<byte>
    requires AllOf(items, e)
    decreases e, 2, |items|
  {
    if items == [] then []
    else EncodeItems(e, items[..|items| - 1]) + Encode(e, items[|items| - 1], 0)
  }

  function EncodeEntries(k: Type, u: Type, entries: seq<(Value, Value)>): seq<byte>
    requires AllPairs(entries, k, u)
    decreases MapOf(k, u), 0, |entries|
  {
    if entries == [] then []
    else
      var last := entries[|entries| - 1];
      EncodeEntries(k, u, entries[..|entries| - 1]) + Encode(k, last.0, 0) + Encode(u, last.1, 1)
  }

  // Reading.

  datatype HeadInfo = HeadInfo(ty: nat, tag: int)

  function ReadHead(s: seq<byte>): (r: Result<HeadInfo>)
    ensures r.Ok? ==> r.value.ty < 16 && |r.rest| < |s|
  {
    if s == [] then Err(EndOfData)
    else
      var ty, tag := s[0] % 16, s[0] / 16;
      if tag != 15 then Ok(HeadInfo(ty, tag), s[1..])
      else if |s| == 1 then Err(EndOfData)
      else Ok(HeadInfo(ty, AsChar(s[1])), s[2..])
  }

  function FromBigEndian(s: seq<byte>): nat {
    if s == [] then 0 else FromBigEndian(s[..|s| - 1]) * 0x100 + s[|s| - 1]
  }

  /** get_char, get_short, get_int, get_long: `k` bytes as an unsigned number. */
  function GetNumber(s: seq<byte>, k: nat): Result<nat> {
    if |s| < k then Err(EndOfData) else Ok(FromBigEndian(s[..k]), s[k..])
  }

  /** The value of an unsigned number stored in a variable of type `t`. */
  function Stored(t: Type, n: nat): int
    requires IsNumber(t)
  {
    if t.Bool? then if n == 0 then 0 else 1
    else if t.UShort? || t.UInt? then n
    else (n + Pow256(Width(t)) / 2) % Pow256(Width(t)) - Pow256(Width(t)) / 2
  }

  /** The bytes that follow a head of an integer type. */
  function CodeWidth(ty: nat): (w: nat)
    requires ty <= LONG
    ensures w in {1, 2, 4, 8}
  {
    if ty == BYTE then 1 else if ty == SHORT then 2 else if ty == INT then 4 else 8
  }

  /** The integer overloads of read: each takes the heads up to its own width. */
  function DecodeNum(t: Type, s: seq<byte>): Result<(int, int)>
    requires IsNumber(t)
  {
    match ReadHead(s)
    case Err(e) => Err(e)
    case Ok(h, rest) =>
      var ret := if t.Bool? then 1 else h.tag;
      if h.ty == ZERO_TAG then Ok((0, ret), rest)
      else if h.ty <= LONG && CodeWidth(h.ty) <= Width(t) then
        match GetNumber(rest, CodeWidth(h.ty))
        case Err(e) => Err(e)
        case Ok(n, rest') => Ok((Stored(t, n), ret), rest')
      else Err(BadType)
  }

  /** Decimal digits, as an output stream prints an unsigned number. */
  function Decimal(n: nat): seq<byte> {
    if n < 10 then [48 + n] else Decimal(n / 10) + [48 + n % 10]
  }

  function DecodeStr(s: seq<byte>): Result<(seq<byte>, int)> {
    match ReadHead(s)
    case Err(e) => Err(e)
    case Ok(h, rest) =>
      if h.ty == ZERO_TAG then Ok(([], h.tag), rest)
      else if h.ty == STRING1 then
        if rest == [] then Err(EndOfData) else GetString(AsChar(rest[0]), h.tag, rest[1..])
      else if h.ty == STRING4 then
        match GetNumber(rest, 4)
        case Err(e) => Err(e)
        case Ok(n, rest') => GetString(Stored(Int, n), h.tag, rest')
      else if h.ty <= LONG then
        match GetNumber(rest, CodeWidth(h.ty))
        case Err(e) => Err(e)
        case Ok(n, rest') => Ok((if h.ty == BYTE then [n % 0x100] else Decimal(n), h.tag), rest')
      else if h.ty == 4 || h.ty == 5 then Err(FloatText)
      else Ok(([], h.tag), rest)
  }

  /** The length check and get_string; a negative length is a std::length_error. */
  function GetString(len: int, tag: int, s: seq<byte>): Result<(seq<byte>, int)> {
    if len > MAX_STRING_LENGTH then Err(TooLong)
    else if len < 0 then Err(BadLength)
    else if |s| < len then Err(EndOfData)
    else Ok((s[..len], tag), s[len..])
  }

  function DecodeBytes(s: seq<byte>): Result<(seq<byte>, int)> {
    match ReadHead(s)
    case Err(e) => Err(e)
    case Ok(h, rest) =>
      if h.ty == SIMPLE_LIST then
        match ReadHead(rest)
        case Err(e) => Err(e)
        case Ok(inner, rest1) => if inner.ty != BYTE then Err(BadType) else GetBytes(h.tag, rest1)
      else GetBytes(h.tag, rest)
  }

  function GetBytes(tag: int, s: seq<byte>): Result<(seq<byte>, int)> {
    match DecodeNum(Int, s)
    case Err(e) => Err(e)
    case Ok(len, rest) =>
      if len.0 <= 0 then Ok(([], tag), rest)
      else if |rest| < len.0 then Err(EndOfData)
      else Ok((rest[..len.0], tag), rest[len.0..])
  }

  /** A value and what read returns: the tag, but 1 for bool and for a list. */
  function Decode(t: Type, s: seq<byte>): Result<(Value, int)>
    decreases t, 1, 0
  {
    match t
    case String =>
      (match DecodeStr(s) case Err(e) => Err(e) case Ok(x, rest) => Ok((Str(x.0), x.1), rest))
    case ByteVector =>
      (match DecodeBytes(s) case Err(e) => Err(e) case Ok(x, rest) => Ok((Bytes(x.0), x.1), rest))
    case ListOf(e) =>
      (match ReadHead(s)
       case Err(e) => Err(e)
       case Ok(h, rest) =>
         if h.ty != LIST then Err(BadType)
         else match DecodeNum(Int, rest)
           case Err(e) => Err(e)
           case Ok(len, rest1) =>
             if len.0 < 0 then Err(BadLength)
             else match DecodeItems(e, len.0, rest1, [])
               case Err(e) => Err(e)
               case Ok(items, rest2) => Ok((List(items), 1), rest2))
    case MapOf(k, u) =>
      (match ReadHead(s)
       case Err(e) => Err(e)
       case Ok(h, rest) =>
         if h.ty != MAP then Err(BadType)
         else match DecodeNum(Int, rest)
           case Err(e) => Err(e)
           case Ok(len, rest1) =>
             match DecodeEntries(k, u, if len.0 < 0 then 0 else len.0, rest1, [])
             case Err(e) => Err(e)
             case Ok(entries, rest2) => Ok((Dict(entries), h.tag), rest2))
    case _ =>
      (match DecodeNum(t, s) case Err(e) => Err(e) case Ok(x, rest) => Ok((Num(x.0), x.1), rest))
  }

  /** `count` more elements pushed behind `items`. */
  function DecodeItems(e: Type, count: nat, s: seq<byte>, items: seq<Value>): Result<seq<Value>>
    decreases e, 2, count
  {
    if count == 0 then Ok(items, s)
    else match Decode(e, s)
      case Err(e) => Err(e)
      case Ok(x, rest) => DecodeItems(e, count - 1, rest, items + [x.0])
  }

  /** `m[k] = v` */
  function Assign(entries: seq<(Value, Value)>, k: Value, v: Value): seq<(Value, Value)> {
    if entries == [] then [(k, v)]
    else if entries[0].0 == k then [(k, v)] + entries[1..]
    else [entries[0]] + Assign(entries[1..], k, v)
  }

  /** The loop of the map template: an entry counts if its key returned 0 and its value 1; a
      value is not read after another key. */
  function DecodeEntries(k: Type, u: Type, count: nat, s: seq<byte>, entries: seq<(Value, Value)>)
    : Result<seq<(Value, Value)>>
    decreases MapOf(k, u), 0, count
  {
    if count == 0 then Ok(entries, s)
    else match Decode(k, s)
      case Err(e) => Err(e)
      case Ok(x, rest) =>
        if x.1 != 0 then DecodeEntries(k, u, count - 1, rest, entries)
        else match Decode(u, rest)
          case Err(e) => Err(e)
          case Ok(y, rest1) =>
            DecodeEntries(k, u, count - 1, rest1, if y.1 == 1 then Assign(entries, x.0, y.0) else entries)
  }
}
