/** Bytes in words and back, low byte first (Core/src/xxtea.cpp:95-165). */
module XxteaPacking {
  import opened Basics
  import opened Powers
  import opened XxteaSpec

  /** The byte at `i`, or the zero that pads the last word. */
  function ByteAt(data: seq<byte>, i: nat): byte {
    if i < |data| then data[i] else 0
  }

  function WordAt(data: seq<byte>, w: nat): uint32 {
    ByteAt(data, 4 * w) + ByteAt(data, 4 * w + 1) * 0x100
    + ByteAt(data, 4 * w + 2) * 0x1_0000 + ByteAt(data, 4 * w + 3) * 0x100_0000
  }

  function WordsOf(data: seq<byte>): (words: seq<uint32>)
    ensures |words| == (|data| + 3) / 4
  {
    seq((|data| + 3) / 4, w requires 0 <= w < (|data| + 3) / 4 => WordAt(data, w))
  }

  /** The words of `data` followed by its length. */
  function Tagged(data: seq<byte>): (words: seq<uint32>)
    ensures |words| == (|data| + 3) / 4 + 1
  {
    WordsOf(data) + [|data| % M32]
  }

  /** `(uint8_t)(w >> (j << 3))` */
  function Octet(w: uint32, j: nat): byte
    requires j < 4
  {
    w / Pow256(j) % 0x100
  }

  lemma OctetIs(w: uint32, j: nat)
    requires j < 4
    ensures Octet(w, j) == w / Pow256(j) % 0x100
  {
  }

  function BytesOf(words: seq<uint32>, n: nat): (data: seq<byte>)
    requires n <= 4 * |words|
    ensures |data| == n
  {
    seq(n, i requires 0 <= i < n => Octet(words[i / 4], i % 4))
  }

  /** The byte count that the last word announces, if the other words can hold exactly it. */
  function LengthWord(words: seq<uint32>): (n: Option<nat>)
    requires |words| >= 1
    ensures n.Some? ==> 0 < n.value <= 4 * |words|
  {
    var m, room := words[|words| - 1], 4 * (|words| - 1);
    if |words| >= 2 && room - 3 <= m <= room then Some(m) else None
  }

  lemma NothingYet(w: nat)
    ensures WordAt([], w) == 0
  {
  }

  /** Storing byte `i` in its word changes no other word and does not carry, because that
      field of the word is still zero: there `|=` is addition. */
  lemma OneMoreByte(data: seq<byte>, i: nat)
    requires i < |data|
    ensures WordAt(data[..i], i / 4) < Pow256(i % 4)
    ensures WordAt(data[..i + 1], i / 4) == WordAt(data[..i], i / 4) + data[i] * Pow256(i % 4)
    ensures forall w: nat :: w != i / 4 ==> WordAt(data[..i + 1], w) == WordAt(data[..i], w)
  {
  }

  /** The four octets of a word are its four bytes. */
  lemma OctetOfWord(data: seq<byte>, i: nat)
    ensures Octet(WordAt(data, i / 4), i % 4) == ByteAt(data, i)
  {
    hide ByteAt;
    var w := i / 4;
    var a, b, c, d := ByteAt(data, 4 * w), ByteAt(data, 4 * w + 1), ByteAt(data, 4 * w + 2), ByteAt(data, 4 * w + 3);
    FourOctets(a, b, c, d);
  }

  lemma FourOctets(a: byte, b: byte, c: byte, d: byte)
    ensures var w := a + b * 0x100 + c * 0x1_0000 + d * 0x100_0000;
      0 <= w < M32 && Octet(w, 0) == a && Octet(w, 1) == b && Octet(w, 2) == c && Octet(w, 3) == d
  {
  }

  lemma WordOfOctets(w: uint32)
    ensures w == Octet(w, 0) + Octet(w, 1) * 0x100 + Octet(w, 2) * 0x1_0000 + Octet(w, 3) * 0x100_0000
  {
    var w1, w2, w3 := w / 0x100, w / 0x1_0000, w / 0x100_0000;
    assert w == w1 * 0x100 + w % 0x100 && w1 == w2 * 0x100 + w1 % 0x100 && w2 == w3 * 0x100 + w2 % 0x100;
    assert Octet(w, 0) == w % 0x100 && Octet(w, 1) == w1 % 0x100 && Octet(w, 2) == w2 % 0x100 && Octet(w, 3) == w3;
  }

  /** Unpacking what was packed. */
  lemma BytesOfWords(data: seq<byte>)
    ensures BytesOf(WordsOf(data), |data|) == data
  {
    hide Octet, WordAt;
    forall i | 0 <= i < |data| ensures BytesOf(WordsOf(data), |data|)[i] == data[i] {
      OctetOfWord(data, i);
    }
  }

  /** Packing what was unpacked. */
  lemma WordsOfBytes(words: seq<uint32>)
    ensures WordsOf(BytesOf(words, 4 * |words|)) == words
  {
    hide Octet;
    var data := BytesOf(words, 4 * |words|);
    forall w | 0 <= w < |words| ensures WordsOf(data)[w] == words[w] {
      WordOfOctets(words[w]);
      assert (4 * w + 1) / 4 == (4 * w + 2) / 4 == (4 * w + 3) / 4 == w;
    }
  }

  lemma Unpacked(data: seq<byte>)
    ensures BytesOf(Tagged(data), |data|) == data
  {
    hide Octet, WordAt;
    BytesOfWords(data);
    forall i | 0 <= i < |data| ensures BytesOf(Tagged(data), |data|)[i] == BytesOf(WordsOf(data), |data|)[i] {
      assert i / 4 < |WordsOf(data)|;
    }
  }

  /** The length word put in by encryption passes the range check of decryption. */
  lemma TagFits(data: seq<byte>)
    requires 0 < |data| < M32
    ensures LengthWord(Tagged(data)) == Some(|data|)
  {
  }

  /** The bytes of the words before the last that `n` does not count are zero. */
  predicate ZeroPadded(words: seq<uint32>, n: nat) {
    forall i :: n <= i < 4 * (|words| - 1) ==> Octet(words[i / 4], i % 4) == 0
  }

  /** Packing the announced bytes again gives the same words exactly if the rest was zero. */
  lemma Padding(words: seq<uint32>, n: nat)
    requires |words| >= 1 && LengthWord(words) == Some(n)
    ensures Tagged(BytesOf(words, n)) == words <==> ZeroPadded(words, n)
  {
    hide Octet, WordAt;
    var data := BytesOf(words, n);
    var t := Tagged(data);
    assert |t| == |words| && t[|t| - 1] == n;
    if t == words {
      forall i: nat | n <= i < 4 * (|words| - 1) ensures Octet(words[i / 4], i % 4) == 0 {
        OctetOfWord(data, i);
        assert t[i / 4] == WordAt(data, i / 4);
      }
    }
    if ZeroPadded(words, n) {
      forall w | 0 <= w < |words| - 1 ensures t[w] == words[w] {
        PaddedWord(words, n, w);
      }
      assert t == words;
    }
  }

  lemma PaddedWord(words: seq<uint32>, n: nat, w: nat)
    requires n <= 4 * |words| && w < |words| - 1 && ZeroPadded(words, n)
    ensures WordAt(BytesOf(words, n), w) == words[w]
  {
    hide Octet;
    WordOfOctets(words[w]);
    forall j: nat | j < 4 ensures ByteAt(BytesOf(words, n), 4 * w + j) == Octet(words[w], j) {
      assert (4 * w + j) / 4 == w && (4 * w + j) % 4 == j;
    }
  }
}
