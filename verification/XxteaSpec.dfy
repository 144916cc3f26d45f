/** The XXTEA block cipher as functions on sequences of 32-bit words, and the
    packing of bytes into words (Core/src/xxtea.cpp). */
module XxteaSpec {
  import opened Basics
  import opened Powers

  const M32 := 0x1_0000_0000
  /** The modulus of size_t. */
  const M64 := 0x1_0000_0000_0000_0000
  const DELTA: uint32 := 0x9e37_79b9

  /** Exclusive or of the `n` low bits. */
  function Xor(n: nat, a: nat, b: nat): (r: nat)
    ensures r < Pow2(n)
    decreases n
  {
    if n == 0 then 0 else 2 * Xor(n - 1, a / 2, b / 2) + (a + b) % 2
  }

  /** The mixing word `((z >> 5 ^ y << 2) + (y >> 3 ^ z << 4)) ^ ((sum ^ y) + (k ^ z))`, from
      the neighbours, the running sum and a key word, in 32 bits. */
  function Mx(z: uint32, y: uint32, sum: uint32, k: uint32): uint32 {
    Pow32();
    Xor(32, (Xor(32, z / 0x20, y * 4 % M32) + Xor(32, y / 8, z * 0x10 % M32)) % M32,
        (Xor(32, sum, y) + Xor(32, k, z)) % M32)
  }

  /** The key word used at position `p`: `key[(p & 3) ^ (sum >> 2 & 3)]`. */
  function KeyWord(key: seq<uint32>, p: nat, sum: uint32): uint32
    requires |key| == 4
  {
    Pow32();
    key[Xor(2, p % 4, sum / 4 % 4)]
  }

  function Prev(n: nat, p: nat): (q: nat)
    requires p < n
    ensures q < n && (n >= 2 ==> q != p)
  {
    if p == 0 then n - 1 else p - 1
  }

  function Next(n: nat, p: nat): (q: nat)
    requires p < n
    ensures q < n && (n >= 2 ==> q != p)
  {
    if p == n - 1 then 0 else p + 1
  }

  /** What is added to the word at `p`; it does not depend on that word. */
  function Mask(v: seq<uint32>, p: nat, sum: uint32, key: seq<uint32>): uint32
    requires p < |v| && |key| == 4
  {
    Mx(v[Prev(|v|, p)], v[Next(|v|, p)], sum, KeyWord(key, p, sum))
  }

  function Add32(a: uint32, b: uint32): uint32 {
    (a + b) % M32
  }

  function Sub32(a: uint32, b: uint32): uint32 {
    (a - b) % M32
  }

  lemma AddSub(a: uint32, b: uint32)
    ensures Sub32(Add32(a, b), b) == a && Add32(Sub32(a, b), b) == a
  {
  }

  function EncAt(v: seq<uint32>, p: nat, sum: uint32, key: seq<uint32>): (w: seq<uint32>)
    requires p < |v| && |key| == 4
    ensures |w| == |v|
  {
    v[p := Add32(v[p], Mask(v, p, sum, key))]
  }

  function DecAt(v: seq<uint32>, p: nat, sum: uint32, key: seq<uint32>): (w: seq<uint32>)
    requires p < |v| && |key| == 4
    ensures |w| == |v|
  {
    v[p := Sub32(v[p], Mask(v, p, sum, key))]
  }

  /** Positions 0, 1, .., `i`-1 in turn, each using its predecessor's new word. */
  function EncSweep(v: seq<uint32>, sum: uint32, key: seq<uint32>, i: nat): (w: seq<uint32>)
    requires i <= |v| && |key| == 4
    ensures |w| == |v|
    decreases i
  {
    if i == 0 then v else EncAt(EncSweep(v, sum, key, i - 1), i - 1, sum, key)
  }

  /** Positions `i`-1, .., 1, 0 in turn. */
  function DecSweep(v: seq<uint32>, sum: uint32, key: seq<uint32>, i: nat): (w: seq<uint32>)
    requires i <= |v| && |key| == 4
    ensures |w| == |v|
    decreases i
  {
    if i == 0 then v else DecSweep(DecAt(v, i - 1, sum, key), sum, key, i - 1)
  }

  /** The running sum after `r` rounds. */
  function SumAt(r: nat): uint32 {
    r * DELTA % M32
  }

  function EncRounds(v: seq<uint32>, key: seq<uint32>, r: nat): (w: seq<uint32>)
    requires |key| == 4
    ensures |w| == |v|
    decreases r
  {
    if r == 0 then v else EncSweep(EncRounds(v, key, r - 1), SumAt(r), key, |v|)
  }

  function DecRounds(v: seq<uint32>, key: seq<uint32>, r: nat): (w: seq<uint32>)
    requires |key| == 4
    ensures |w| == |v|
    decreases r
  {
    if r == 0 then v else DecRounds(DecSweep(v, SumAt(r), key, |v|), key, r - 1)
  }

  /** The number of rounds for `len` words. */
  function RoundsFor(len: nat): (q: nat)
    requires len >= 1
    ensures 6 <= q && (len >= 2 ==> q <= 32)
  {
    6 + 52 / len
  }

  /** A single word is left as it is. */
  function EncWords(v: seq<uint32>, key: seq<uint32>): (w: seq<uint32>)
    requires |v| >= 1 && |key| == 4
    ensures |w| == |v|
  {
    if |v| < 2 then v else EncRounds(v, key, RoundsFor(|v|))
  }

  function DecWords(v: seq<uint32>, key: seq<uint32>): (w: seq<uint32>)
    requires |v| >= 1 && |key| == 4
    ensures |w| == |v|
  {
    if |v| < 2 then v else DecRounds(v, key, RoundsFor(|v|))
  }

  /** One step and its inverse; the mask is the same because it looks only at other words. */
  lemma StepInverse(v: seq<uint32>, p: nat, sum: uint32, key: seq<uint32>)
    requires p < |v| && |v| >= 2 && |key| == 4
    ensures DecAt(EncAt(v, p, sum, key), p, sum, key) == v
    ensures EncAt(DecAt(v, p, sum, key), p, sum, key) == v
  {
    hide Mx, KeyWord, Add32, Sub32;
    AddSub(v[p], Mask(v, p, sum, key));
    assert Mask(EncAt(v, p, sum, key), p, sum, key) == Mask(v, p, sum, key);
    assert Mask(DecAt(v, p, sum, key), p, sum, key) == Mask(v, p, sum, key);
  }

  /** The backward sweep undoes the forward sweep, and the other way round. */
  lemma {:induction false} SweepInverse(v: seq<uint32>, sum: uint32, key: seq<uint32>, i: nat)
    requires i <= |v| && |v| >= 2 && |key| == 4
    ensures DecSweep(EncSweep(v, sum, key, i), sum, key, i) == v
    ensures EncSweep(DecSweep(v, sum, key, i), sum, key, i) == v
    decreases i
  {
    hide EncAt, DecAt;
    if i > 0 {
      StepInverse(EncSweep(v, sum, key, i - 1), i - 1, sum, key);
      SweepInverse(v, sum, key, i - 1);
      StepInverse(v, i - 1, sum, key);
      SweepInverse(DecAt(v, i - 1, sum, key), sum, key, i - 1);
    }
  }

  lemma {:induction false} RoundsInverse(v: seq<uint32>, key: seq<uint32>, r: nat)
    requires |v| >= 2 && |key| == 4
    ensures DecRounds(EncRounds(v, key, r), key, r) == v
    ensures EncRounds(DecRounds(v, key, r), key, r) == v
    decreases r
  {
    hide EncSweep, DecSweep, SumAt;
    if r > 0 {
      SweepInverse(EncRounds(v, key, r - 1), SumAt(r), key, |v|);
      RoundsInverse(v, key, r - 1);
      SweepInverse(v, SumAt(r), key, |v|);
      RoundsInverse(DecSweep(v, SumAt(r), key, |v|), key, r - 1);
    }
  }

  /** For every key the cipher is a permutation of the word sequences of each length. */
  lemma WordsInverse(v: seq<uint32>, key: seq<uint32>)
    requires |v| >= 1 && |key| == 4
    ensures DecWords(EncWords(v, key), key) == v && EncWords(DecWords(v, key), key) == v
  {
    if |v| >= 2 {
      RoundsInverse(v, key, RoundsFor(|v|));
    }
  }

  /** DELTA is 57 modulo 64, and 9 * 57 is 1 modulo 64: a multiple of DELTA that is zero
      modulo 2^32 is a multiple by a multiple of 64. So `while (sum != 0)` counts the
      rounds, of which there are never more than 32. */
  lemma SumNeverZero(r: nat)
    ensures SumAt(0) == 0
    ensures 1 <= r < 64 ==> SumAt(r) != 0
  {
    if SumAt(r) == 0 {
      var k := r * DELTA / M32;
      assert r * DELTA == M32 * k;
      assert r == 64 * (9 * 0x400_0000 * k - 9 * (DELTA / 64) * r - 8 * r);
    }
  }

  lemma WrapStep(x: nat, d: uint32)
    ensures Sub32((x + d) % M32, d) == x % M32 && Add32(x % M32, d) == (x + d) % M32
  {
  }

  lemma SumStep(r: nat)
    requires r >= 1
    ensures Sub32(SumAt(r), DELTA) == SumAt(r - 1) && Add32(SumAt(r - 1), DELTA) == SumAt(r)
  {
    hide Add32, Sub32;
    WrapStep((r - 1) * DELTA, DELTA);
    assert r * DELTA == (r - 1) * DELTA + DELTA;
  }
}
