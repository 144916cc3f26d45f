/** The tagged serializer's writer and reader on their streams (Core/src/proto.cpp and the
    templates of Core/src/proto.h). An exception is `ok` being false.
    The writer appends to its bytes and the reader takes bytes off the front of its own. The
    contracts name the encoding and decoding functions of module ProtoWire; that reading
    undoes writing is then the round trip proved about those functions in module
    ProtoRoundTrip, for any list of values written to one stream. */
module Proto {
  import opened Basics
  import opened ProtoWire
  import opened ProtoRoundTrip

  /** `p[j]` of a number's bytes on a little-endian machine. */
  function ByteOf(n: int, j: nat): byte
    decreases j
  {
    if j == 0 then n % 0x100 else ByteOf(n / 0x100, j - 1)
  }

  lemma {:induction false} BigEndianAt(n: int, k: nat, i: nat)
    requires i < k
    ensures BigEndian(n, k)[i] == ByteOf(n, k - 1 - i)
    decreases k
  {
    if i < k - 1 {
      BigEndianAt(n / 0x100, k - 1, i);
    }
  }

  lemma TwoBytes(s: int)
    ensures BigEndian(s, 2) == [s % 0x1_0000 / 0x100] + [s % 0x100]
  {
    Chop(s, 2);
    BigEndianAt(s, 2, 0);
    BigEndianAt(s, 2, 1);
    assert ByteOf(s, 1) == s / 0x100 % 0x100;
  }

  class ProtoOut {
    var stream: seq<byte>

    constructor ()
      ensures stream == []
    {
      stream := [];
    }

    method Put(b: byte)
      modifies this
      ensures stream == old(stream) + [b]
    {
      stream := stream + [b];
    }

    /** The loops over `p[j]`, from the highest byte down. */
    method PutNumber(n: int, k: nat)
      modifies this
      ensures stream == old(stream) + BigEndian(n, k)
    {
      ghost var was := stream;
      var j := k;
      while j > 0
        invariant 0 <= j <= k && stream == was + BigEndian(n, k)[..k - j]
      {
        j := j - 1;
        BigEndianAt(n, k, k - 1 - j);
        Put(ByteOf(n, j));
      }
    }

    method PutAll(s: seq<byte>)
      modifies this
      ensures stream == old(stream) + s
    {
      ghost var was := stream;
      var i := 0;
      while i < |s|
        invariant 0 <= i <= |s| && stream == was + s[..i]
      {
        Put(s[i]);
        i := i + 1;
      }
    }

    method WriteHead(ty: nat, tag: int)
      requires ty < 16 && -128 <= tag < 128
      modifies this
      ensures stream == old(stream) + Head(ty, tag)
    {
      if tag < 15 {
        Put(tag * 16 % 0x100 + ty);
      } else {
        Put(ty + 240);
        Put(tag);
      }
    }

    method WriteChar(c: int, tag: int)
      requires -0x80 <= c < 0x80 && -128 <= tag < 128
      modifies this
      ensures stream == old(stream) + EncodeNum(c, tag)
    {
      hide Head;
      if c == 0 {
        WriteHead(ZERO_TAG, tag);
        return;
      }
      WriteHead(BYTE, tag);
      Put(c % 0x100);
      assert BigEndian(c, 1) == [c % 0x100];
      Associate(old(stream), Head(BYTE, tag), [c % 0x100]);
    }

    method WriteShort(s: int, tag: int)
      requires -0x8000 <= s < 0x8000 && -128 <= tag < 128
      modifies this
      ensures stream == old(stream) + EncodeNum(s, tag)
    {
      hide Head;
      if s < -0x80 || s > 0x7f {
        WriteHead(SHORT, tag);
        Put(s % 0x1_0000 / 0x100);
        Put(s % 0x100);
        TwoBytes(s);
        Associate(old(stream) + Head(SHORT, tag), [s % 0x1_0000 / 0x100], [s % 0x100]);
        Associate(old(stream), Head(SHORT, tag), BigEndian(s, 2));
        return;
      }
      WriteChar(s, tag);
    }

    method WriteInt(i: int, tag: int)
      requires -0x8000_0000 <= i < 0x8000_0000 && -128 <= tag < 128
      modifies this
      ensures stream == old(stream) + EncodeNum(i, tag)
    {
      hide Head, BigEndian;
      if i < -0x8000 || i > 0x7fff {
        WriteHead(INT, tag);
        PutNumber(i, 4);
        Associate(old(stream), Head(INT, tag), BigEndian(i, 4));
        return;
      }
      WriteShort(i, tag);
    }

    method WriteLong(l: int, tag: int)
      requires InRange(Long, l) && -128 <= tag < 128
      modifies this
      ensures stream == old(stream) + EncodeNum(l, tag)
    {
      hide Head, BigEndian;
      if l < -0x8000_0000 || l > 0x7fff_ffff {
        WriteHead(LONG, tag);
        PutNumber(l, 8);
        Associate(old(stream), Head(LONG, tag), BigEndian(l, 8));
        return;
      }
      WriteInt(l, tag);
    }

    /** The integer overloads: unsigned ones go through the next wider signed one. */
    method WriteNumber(t: Type, n: int, tag: int)
      requires IsNumber(t) && InRange(t, n) && -128 <= tag < 128
      modifies this
      ensures stream == old(stream) + EncodeNum(n, tag)
    {
      if t.Short? {
        WriteShort(n, tag);
      } else if t.UShort? || t.Int? {
        WriteInt(n, tag);
      } else if t.UInt? || t.Long? {
        WriteLong(n, tag);
      } else {
        WriteChar(n, tag);
      }
    }

    method WriteString(s: seq<byte>, tag: int) returns (ok: bool)
      requires -128 <= tag < 128
      modifies this
      ensures ok <==> |s| <= 104857600
      ensures stream == if ok then old(stream) + EncodeStr(s, tag) else old(stream)
    {
      hide Head, BigEndian;
      var len := |s|;
      if len > MAX_STRING_LENGTH {
        return false;
      }
      if len > 255 {
        WriteHead(STRING4, tag);
        PutNumber(len, 4);
        PutAll(s);
        Associate(old(stream), Head(STRING4, tag), BigEndian(len, 4));
        Associate(old(stream), Head(STRING4, tag) + BigEndian(len, 4), s);
        return true;
      }
      WriteHead(STRING1, tag);
      Put(len);
      PutAll(s);
      Associate(old(stream), Head(STRING1, tag), [len]);
      Associate(old(stream), Head(STRING1, tag) + [len], s);
      return true;
    }

    method WriteByteVector(v: seq<byte>, tag: int)
      requires -128 <= tag < 128
      modifies this
      ensures stream == old(stream) + EncodeBytes(v, tag)
    {
      WriteHead(SIMPLE_LIST, tag);
      WriteHead(BYTE, 0);
      WriteChar(AsChar(|v|), 0);
      PutAll(v);
    }

    /** The overload for the static type. */
    method Write(t: Type, v: Value, tag: int) returns (ok: bool)
      requires HasType(v, t) && -128 <= tag < 128
      modifies this
      ensures ok <==> Writable(v, t)
      ensures ok ==> stream == old(stream) + Encode(t, v, tag)
      decreases t, 1
    {
      hide EncodeNum, EncodeStr, EncodeBytes, Head, EncodeItems, EncodeEntries;
      if IsNumber(t) {
        WriteNumber(t, v.n, tag);
        return true;
      }
      match t
      case String => ok := WriteString(v.s, tag);
      case ByteVector =>
        WriteByteVector(v.b, tag);
        ok := true;
      case ListOf(e) =>
        WriteHead(LIST, tag);
        WriteNumber(Int, |v.items|, 0);
        ok := WriteItems(e, v.items);
      case MapOf(k, u) =>
        WriteHead(MAP, tag);
        WriteNumber(Int, |v.entries|, 0);
        ok := WriteEntries(k, u, v.entries);
    }

    method WriteItems(e: Type, items: seq<Value>) returns (ok: bool)
      requires AllOf(items, e)
      modifies this
      ensures ok <==> forall i :: 0 <= i < |items| ==> Writable(items[i], e)
      ensures ok ==> stream == old(stream) + EncodeItems(e, items)
      decreases e, 2
    {
      hide Encode, Writable, HasType, EncodeItems;
      NoItems(e);
      ghost var was := stream;
      var i := 0;
      assert items[..0] == [];
      while i < |items|
        invariant 0 <= i <= |items|
        invariant AllOf(items[..i], e) && forall j :: 0 <= j < i ==> Writable(items[j], e)
        invariant stream == was + EncodeItems(e, items[..i])
      {
        ok := Write(e, items[i], 0);
        if !ok {
          return;
        }
        assert items[..i + 1] == items[..i] + [items[i]];
        ItemsLast(e, items[..i], items[i]);
        Associate(was, EncodeItems(e, items[..i]), Encode(e, items[i], 0));
        i := i + 1;
      }
      assert items[..i] == items;
      return true;
    }

    /** A key with tag 0 and its value with tag 1. */
    method WriteEntry(k: Type, u: Type, e: (Value, Value)) returns (ok: bool)
      requires HasType(e.0, k) && HasType(e.1, u)
      modifies this
      ensures ok <==> Writable(e.0, k) && Writable(e.1, u)
      ensures ok ==> stream == old(stream) + EncodePair(k, u, e)
      decreases MapOf(k, u), 0, 0
    {
      hide Encode, Writable, HasType;
      ghost var was := stream;
      ok := Write(k, e.0, 0);
      if ok {
        ok := Write(u, e.1, 1);
        Associate(was, Encode(k, e.0, 0), Encode(u, e.1, 1));
      }
    }

    method WriteEntries(k: Type, u: Type, entries: seq<(Value, Value)>) returns (ok: bool)
      requires AllPairs(entries, k, u)
      modifies this
      ensures ok <==> forall i :: 0 <= i < |entries| ==> Writable(entries[i].0, k) && Writable(entries[i].1, u)
      ensures ok ==> stream == old(stream) + EncodeEntries(k, u, entries)
      decreases MapOf(k, u), 0, 1
    {
      hide Encode, Writable, HasType, EncodeEntries, EncodePair;
      NoEntries(k, u);
      ghost var was := stream;
      var i := 0;
      assert entries[..0] == [];
      while i < |entries|
        invariant 0 <= i <= |entries|
        invariant AllPairs(entries[..i], k, u)
        invariant forall j :: 0 <= j < i ==> Writable(entries[j].0, k) && Writable(entries[j].1, u)
        invariant stream == was + EncodeEntries(k, u, entries[..i])
      {
        ok := WriteEntry(k, u, entries[i]);
        if !ok {
          return;
        }
        assert entries[..i + 1] == entries[..i] + [entries[i]];
        EntriesLast(k, u, entries[..i], entries[i]);
        Associate(was, EncodeEntries(k, u, entries[..i]), EncodePair(k, u, entries[i]));
        i := i + 1;
      }
      assert entries[..i] == entries;
      return true;
    }
  }

  class ProtoIn {
    const stream: seq<byte>
    var pos: nat

    constructor (s: seq<byte>)
      ensures stream == s && pos == 0
    {
      stream, pos := s, 0;
    }

    /** What has not been read yet. */
    function Rest(): seq<byte>
      reads this
    {
      if pos <= |stream| then stream[pos..] else []
    }

    method Get() returns (ok: bool, b: byte)
      modifies this
      ensures ok <==> old(Rest()) != []
      ensures ok ==> b == old(Rest())[0] && Rest() == old(Rest())[1..]
    {
      if pos < |stream| {
        b := stream[pos];
        pos := pos + 1;
        ok := true;
      } else {
        ok, b := false, 0;
      }
    }

    method ReadHead() returns (ok: bool, ty: nat, tag: int)
      modifies this
      ensures match ProtoWire.ReadHead(old(Rest()))
        case Err(_) => !ok
        case Ok(h, rest) => ok && h == HeadInfo(ty, tag) && Rest() == rest
    {
      tag := 0;
      var b;
      ok, b := Get();
      ty := b % 16;
      if !ok {
        return;
      }
      tag := b / 16;
      if tag == 15 {
        ok, b := Get();
        tag := AsChar(b);
      }
    }

    /** get_char, get_short, get_int and get_long. */
    method GetNumber(k: nat) returns (ok: bool, n: nat)
      modifies this
      ensures match ProtoWire.GetNumber(old(Rest()), k)
        case Err(_) => !ok
        case Ok(m, rest) => ok && n == m && Rest() == rest
    {
      ghost var s := Rest();
      n := 0;
      var i := 0;
      while i < k
        invariant 0 <= i <= k && i <= |s| && Rest() == s[i..] && n == FromBigEndian(s[..i])
      {
        var b;
        ok, b := Get();
        if !ok {
          return;
        }
        assert s[..i + 1][..i] == s[..i];
        n := n * 0x100 + b;
        i := i + 1;
      }
      ok := true;
    }

    method GetString(len: nat) returns (ok: bool, s: seq<byte>)
      modifies this
      ensures ok <==> len <= |old(Rest())|
      ensures ok ==> s == old(Rest())[..len] && Rest() == old(Rest())[len..]
    {
      ghost var all := Rest();
      s := [];
      while |s| < len
        invariant |s| <= len && |s| <= |all| && s == all[..|s|] && Rest() == all[|s|..]
      {
        var b;
        ok, b := Get();
        if !ok {
          return;
        }
        s := s + [b];
      }
      ok := true;
    }

    /** The integer overloads: each accepts the heads up to its own width. */
    method ReadNumber(t: Type) returns (ok: bool, n: int, ret: int)
      requires IsNumber(t)
      modifies this
      ensures match DecodeNum(t, old(Rest()))
        case Err(_) => !ok
        case Ok(x, rest) => ok && x == (n, ret) && Rest() == rest
    {
      hide FromBigEndian, Stored;
      var ty, tag, m;
      n := 0;
      ok, ty, tag := ReadHead();
      ret := if t.Bool? then 1 else tag;
      if !ok {
        return;
      }
      if ty == ZERO_TAG {
        return;
      } else if ty == BYTE {
        ok, m := GetNumber(1);
      } else if ty == SHORT && Width(t) >= 2 {
        ok, m := GetNumber(2);
      } else if ty == INT && Width(t) >= 4 {
        ok, m := GetNumber(4);
      } else if ty == LONG && Width(t) >= 8 {
        ok, m := GetNumber(8);
      } else {
        ok := false;
        return;
      }
      n := Stored(t, m);
    }

    method ReadString() returns (ok: bool, s: seq<byte>, ret: int)
      modifies this
      ensures match DecodeStr(old(Rest()))
        case Err(_) => !ok
        case Ok(x, rest) => ok && x == (s, ret) && Rest() == rest
    {
      hide FromBigEndian, Decimal;
      var ty, len, m;
      s := [];
      ok, ty, ret := ReadHead();
      if !ok || ty == ZERO_TAG {
        return;
      }
      if ty == STRING1 {
        var a;
        ok, a := Get();
        len := AsChar(a);
      } else if ty == STRING4 {
        ok, m := GetNumber(4);
        len := Stored(Int, m);
      } else if ty <= LONG {
        ok, m := GetNumber(CodeWidth(ty));
        s := if ty == BYTE then [m % 0x100] else Decimal(m);
        return;
      } else {
        ok := ty != 4 && ty != 5;
        return;
      }
      if !ok || len > MAX_STRING_LENGTH || len < 0 {
        ok := false;
        return;
      }
      ok, s := GetString(len);
    }

    method ReadByteVector() returns (ok: bool, bl: seq<byte>, ret: int)
      modifies this
      ensures match DecodeBytes(old(Rest()))
        case Err(_) => !ok
        case Ok(x, rest) => ok && x == (bl, ret) && Rest() == rest
    {
      hide DecodeNum;
      var ty, inner, innerTag, len, lenTag;
      bl := [];
      ok, ty, ret := ReadHead();
      if !ok {
        return;
      }
      if ty == SIMPLE_LIST {
        ok, inner, innerTag := ReadHead();
        if !ok || inner != BYTE {
          ok := false;
          return;
        }
      }
      ok, len, lenTag := ReadNumber(Int);
      if !ok || len <= 0 {
        return;
      }
      ok, bl := GetString(len);
    }

    /** The overload for the static type; what was read and what read returned. */
    method Read(t: Type) returns (ok: bool, v: Value, ret: int)
      modifies this
      ensures match Decode(t, old(Rest()))
        case Err(_) => !ok
        case Ok(x, rest) => ok && x == (v, ret) && Rest() == rest
      decreases t, 1
    {
      hide DecodeNum, DecodeStr, DecodeBytes, DecodeItems, DecodeEntries, ProtoWire.ReadHead;
      v, ret := Num(0), 0;
      if IsNumber(t) {
        var n;
        ok, n, ret := ReadNumber(t);
        v := Num(n);
        return;
      }
      match t
      case String =>
        var s;
        ok, s, ret := ReadString();
        v := Str(s);
      case ByteVector =>
        var b;
        ok, b, ret := ReadByteVector();
        v := Bytes(b);
      case ListOf(e) =>
        var ty, len, lenTag, items;
        ok, ty, ret := ReadHead();
        if !ok || ty != LIST {
          ok := false;
          return;
        }
        ok, len, lenTag := ReadNumber(Int);
        if !ok || len < 0 {
          ok := false;
          return;
        }
        ok, items := ReadItems(e, len);
        v, ret := List(items), 1;
      case MapOf(k, u) =>
        var ty, len, lenTag, entries;
        ok, ty, ret := ReadHead();
        if !ok || ty != MAP {
          ok := false;
          return;
        }
        ok, len, lenTag := ReadNumber(Int);
        if !ok {
          return;
        }
        ok, entries := ReadEntries(k, u, if len < 0 then 0 else len);
        v := Dict(entries);
    }

    method ReadItems(e: Type, len: nat) returns (ok: bool, items: seq<Value>)
      modifies this
      ensures match DecodeItems(e, len, old(Rest()), [])
        case Err(_) => !ok
        case Ok(x, rest) => ok && x == items && Rest() == rest
      decreases e, 2
    {
      hide Decode;
      ghost var s := Rest();
      items := [];
      var i := 0;
      while i < len
        invariant 0 <= i <= len
        invariant DecodeItems(e, len, s, []) == DecodeItems(e, len - i, Rest(), items)
      {
        var element, ret;
        ok, element, ret := Read(e);
        if !ok {
          return;
        }
        items := items + [element];
        i := i + 1;
      }
      ok := true;
    }

    method ReadEntries(k: Type, u: Type, len: nat) returns (ok: bool, m: seq<(Value, Value)>)
      modifies this
      ensures match DecodeEntries(k, u, len, old(Rest()), [])
        case Err(_) => !ok
        case Ok(x, rest) => ok && x == m && Rest() == rest
      decreases MapOf(k, u), 0
    {
      hide Decode, Assign;
      ghost var s := Rest();
      m := [];
      var i := 0;
      while i < len
        invariant 0 <= i <= len
        invariant DecodeEntries(k, u, len, s, []) == DecodeEntries(k, u, len - i, Rest(), m)
      {
        var key, val, ret;
        ok, key, ret := Read(k);
        if !ok {
          return;
        }
        if ret == 0 {
          ok, val, ret := Read(u);
          if !ok {
            return;
          }
          if ret == 1 {
            m := Assign(m, key, val);
          }
        }
        i := i + 1;
      }
      ok := true;
    }
  }
}
