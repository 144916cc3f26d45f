/** The packet header and its eight-byte wire form (src/net_base.h). */
module NetBase {
  import opened Basics
  import opened Powers

  /** The fixed packet header; the payload follows it on the wire. */
  datatype NetPacket = NetPacket(version: byte, header: byte, tail: byte, kind: byte, datalen: uint32)

  /** NET_PACKAGE_HEADLEN: the size of the packed header. */
  const HEADLEN := 8

  /** The four bytes of `n`, most significant first. */
  function Be32(n: uint32): (s: seq<byte>)
    ensures |s| == 4
  {
    [n / 0x100_0000, n / 0x1_0000 % 0x100, n / 0x100 % 0x100, n % 0x100]
  }

  /** The number whose big-endian bytes start `s`. */
  function FromBe32(s: seq<byte>): uint32
    requires |s| >= 4
  {
    Word(s[0], s[1], s[2], s[3])
  }

  function Word(a: int, b: int, c: int, d: int): int {
    a * 0x100_0000 + b * 0x1_0000 + c * 0x100 + d
  }

  lemma Be32RoundTrip(n: uint32, s: seq<byte>)
    requires |s| == 4
    ensures FromBe32(Be32(n)) == n
    ensures Be32(FromBe32(s)) == s
  {
    WordDigits(s[0], s[1], s[2], s[3]);
    assert n / 0x1_0000 == n / 0x100_0000 * 0x100 + n / 0x1_0000 % 0x100;
    assert n / 0x100 == n / 0x1_0000 * 0x100 + n / 0x100 % 0x100;
  }

  lemma WordDigits(a: int, b: int, c: int, d: int)
    requires 0 <= a < 0x100 && 0 <= b < 0x100 && 0 <= c < 0x100 && 0 <= d < 0x100
    ensures var m := Word(a, b, c, d);
            m / 0x100_0000 == a && m / 0x1_0000 % 0x100 == b && m / 0x100 % 0x100 == c && m % 0x100 == d
  {
    var m := Word(a, b, c, d);
    assert m / 0x1_0000 == a * 0x100 + b;
    assert m / 0x100 == a * 0x1_0000 + b * 0x100 + c;
  }

  /** Byte by byte: the most significant one comes first. */
  lemma Be32At(n: uint32)
    ensures forall i :: 0 <= i < 4 ==> Be32(n)[i] == n / Pow256(3 - i) % 0x100
  {
  }

  /** The wire form of a header. */
  function HeaderBytes(p: NetPacket): (s: seq<byte>)
    ensures |s| == HEADLEN
  {
    [p.version, p.header, p.tail, p.kind] + Be32(p.datalen)
  }

  /** The header read from the first eight bytes of `s`. */
  function ParseHeader(s: seq<byte>): NetPacket
    requires |s| >= HEADLEN
  {
    NetPacket(s[0], s[1], s[2], s[3], FromBe32(s[4..8]))
  }

  /** Headers and eight-byte strings are in one-to-one correspondence. */
  lemma HeaderRoundTrip(p: NetPacket, s: seq<byte>)
    requires |s| == HEADLEN
    ensures ParseHeader(HeaderBytes(p)) == p
    ensures HeaderBytes(ParseHeader(s)) == s
  {
    assert HeaderBytes(p)[4..8] == Be32(p.datalen);
    Be32RoundTrip(p.datalen, s[4..8]);
    assert HeaderBytes(ParseHeader(s)) == s[..4] + s[4..8];
  }

  /** Writes `n` big-endian into `buf` at `off`, by masking and shifting. */
  method Int32ToChar(n: uint32, buf: array<byte>, off: nat)
    requires off + 4 <= buf.Length
    modifies buf
    ensures buf[..] == old(buf[..off]) + Be32(n) + old(buf[off + 4..])
  {
    buf[off] := n / 0x100_0000;
    buf[off + 1] := n / 0x1_0000 % 0x100;
    buf[off + 2] := n / 0x100 % 0x100;
    buf[off + 3] := n % 0x100;
  }

  /** Writes the eight header bytes into `buf`. */
  method NetPacketToChar(p: NetPacket, buf: array<byte>)
    requires buf.Length >= HEADLEN
    modifies buf
    ensures buf[..] == HeaderBytes(p) + old(buf[HEADLEN..])
    ensures buf[0] == p.version && buf[1] == p.header && buf[2] == p.tail && buf[3] == p.kind
    ensures forall i :: 4 <= i < 8 ==> buf[i] == p.datalen / Pow256(7 - i) % 0x100
    ensures forall i :: 8 <= i < buf.Length ==> buf[i] == old(buf[i])
  {
    hide Be32, Pow256;
    buf[0], buf[1], buf[2], buf[3] := p.version, p.header, p.tail, p.kind;
    Int32ToChar(p.datalen, buf, 4);
    assert buf[..4] == [p.version, p.header, p.tail, p.kind];
    ByPosition(p, buf[..]);
  }

  /** What stands where in a header's bytes, whatever follows them. */
  lemma ByPosition(p: NetPacket, s: seq<byte>)
    requires HeaderBytes(p) <= s
    ensures s[0] == p.version && s[1] == p.header && s[2] == p.tail && s[3] == p.kind
    ensures forall i :: 4 <= i < 8 ==> s[i] == p.datalen / Pow256(7 - i) % 0x100
  {
    Be32At(p.datalen);
    assert forall i :: 4 <= i < 8 ==> s[i] == HeaderBytes(p)[i] == Be32(p.datalen)[i - 4];
  }

  /** Reads the header that starts at `off`. */
  method CharToNetPacket(buf: array<byte>, off: nat) returns (p: NetPacket)
    requires off + HEADLEN <= buf.Length
    ensures p == ParseHeader(buf[off..off + HEADLEN])
    ensures HeaderBytes(p) == buf[off..off + HEADLEN]
    ensures p.version == buf[off] && p.header == buf[off + 1] && p.tail == buf[off + 2] && p.kind == buf[off + 3]
    ensures forall i :: off + 4 <= i < off + 8 ==> buf[i] == p.datalen / Pow256(off + 7 - i) % 0x100
  {
    var n := Word(buf[off + 4], buf[off + 5], buf[off + 6], buf[off + 7]);
    p := NetPacket(buf[off], buf[off + 1], buf[off + 2], buf[off + 3], n);
    assert buf[off..off + HEADLEN][4..8] == buf[off + 4..off + 8];
    ghost var s := buf[off..off + HEADLEN];
    HeaderRoundTrip(p, s);
    ByPosition(p, s);
    assert forall i :: off + 4 <= i < off + 8 ==> buf[i] == s[i - off];
  }
}
