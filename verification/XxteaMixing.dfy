/** What the cipher of Core/src/xxtea.cpp mixes, bit by bit and word by word: facts about the
    mixing word, the key schedule, the running sum and one sweep that do not follow from
    decryption undoing encryption. */
module XxteaMixing {
  import opened Basics
  import opened Bits
  import opened Powers
  import opened XxteaSpec

  /** Bit `i` of `a`. */
  function Bit(a: nat, i: nat): nat
    decreases i
  {
    if i == 0 then a % 2 else Bit(a / 2, i - 1)
  }

  lemma {:induction false} XorBit(n: nat, a: nat, b: nat, i: nat)
    requires i < n
    ensures Bit(Xor(n, a, b), i) == (Bit(a, i) + Bit(b, i)) % 2
    decreases i
  {
    hide Xor;
    XorUnfold(n, a, b);
    if i == 0 {
      Parity(a, b);
    } else {
      XorBit(n - 1, a / 2, b / 2, i - 1);
    }
  }

  lemma XorUnfold(n: nat, a: nat, b: nat)
    requires n > 0
    ensures Xor(n, a, b) % 2 == (a + b) % 2 && Xor(n, a, b) / 2 == Xor(n - 1, a / 2, b / 2)
  {
    hide Pow2;
  }

  /** Numbers of `n` bits are determined by their bits. */
  lemma {:induction false} SameBits(n: nat, a: nat, b: nat)
    requires a < Pow2(n) && b < Pow2(n) && forall i :: 0 <= i < n ==> Bit(a, i) == Bit(b, i)
    ensures a == b
    decreases n
  {
    if n > 0 {
      assert Bit(a, 0) == Bit(b, 0);
      forall i | 0 <= i < n - 1 ensures Bit(a / 2, i) == Bit(b / 2, i) {
        assert Bit(a, i + 1) == Bit(b, i + 1);
      }
      SameBits(n - 1, a / 2, b / 2);
    }
  }

  lemma {:induction false} BitRange(a: nat, i: nat)
    ensures 0 <= Bit(a, i) < 2
    decreases i
  {
    if i > 0 {
      BitRange(a / 2, i - 1);
    }
  }

  /** Multiples of 2^n have no bits below `n`, and their others are those of the factor. */
  lemma {:induction false} BitUp(a: nat, n: nat, r: nat, i: nat)
    requires i < n ==> r < Pow2(n)
    ensures i < n ==> Bit(Shifted(a, n) + r, i) == Bit(r, i)
    ensures i >= n ==> Bit(Shifted(a, n), i) == Bit(a, i - n)
    decreases n
  {
    if n > 0 && i > 0 {
      BitUp(a, n - 1, r / 2, i - 1);
      assert (Shifted(a, n) + r) / 2 == Shifted(a, n - 1) + r / 2;
    }
  }

  /** Dropping the bits from 32 on. */
  lemma BitKept(a: nat, i: nat)
    requires i < 32
    ensures Bit(a % M32, i) == Bit(a, i)
  {
    hide Bit, Pow2, Shifted;
    Pow32();
    ShiftedIs(a / M32, 32);
    BitUp(a / M32, 32, a % M32, i);
    assert a == a / M32 * M32 + a % M32;
  }

  lemma {:induction false} HighBit(a: nat, n: nat, i: nat)
    requires a < Pow2(n) && i >= n
    ensures Bit(a, i) == 0
    decreases i
  {
    if n > 0 {
      HighBit(a / 2, n - 1, i - 1);
    } else if i > 0 {
      HighBit(0, 0, i - 1);
    }
  }

  /** Bit `i` of the 32-bit word `a` shifted to the left by `k`, to the right if `k` is negative. */
  function ShiftedBit(a: uint32, k: int, i: nat): nat {
    if 0 <= i - k < 32 then Bit(a, i - k) else 0
  }

  lemma Below(a: uint32, i: nat)
    ensures i >= 32 ==> Bit(a, i) == 0
  {
    Pow32();
    if i >= 32 {
      HighBit(a, 32, i);
    }
  }

  lemma Right(a: uint32, i: nat)
    ensures Bit(a / 8, i) == ShiftedBit(a, -3, i) && Bit(a / 0x20, i) == ShiftedBit(a, -5, i)
  {
    hide Bit;
    Below(a, i + 3);
    Below(a, i + 5);
    Eighth(a, i);
    Eighth(a, i + 2);
    Half(a / 8, i + 1);
    Half(a / 0x10, i);
    assert a / 8 / 2 == a / 0x10 && a / 0x10 / 2 == a / 0x20;
  }

  lemma Half(a: nat, i: nat)
    ensures Bit(a, i + 1) == Bit(a / 2, i)
  {
  }

  lemma Eighth(a: nat, i: nat)
    ensures Bit(a, i + 3) == Bit(a / 8, i)
  {
    hide Bit;
    Half(a, i + 2);
    Half(a / 2, i + 1);
    Half(a / 4, i);
    assert a / 2 / 2 == a / 4 && a / 4 / 2 == a / 8;
  }

  lemma Left(a: uint32, i: nat)
    requires i < 32
    ensures Bit(a * 4 % M32, i) == ShiftedBit(a, 2, i) && Bit(a * 0x10 % M32, i) == ShiftedBit(a, 4, i)
  {
    hide Bit;
    BitKept(a * 4, i);
    BitKept(a * 0x10, i);
    SmallShifts(a);
    BitUp(a, 2, 0, i);
    BitUp(a, 4, 0, i);
    ZeroBits(i);
  }

  lemma SmallShifts(a: nat)
    ensures Shifted(a, 2) == a * 4 && Shifted(a, 4) == a * 0x10
  {
    assert Shifted(a, 2) == 2 * Shifted(a, 1);
    assert Shifted(a, 4) == 2 * Shifted(a, 3) == 4 * Shifted(a, 2);
  }

  lemma {:induction false} ZeroBits(i: nat)
    ensures Bit(0, i) == 0
    decreases i
  {
    if i > 0 {
      ZeroBits(i - 1);
    }
  }

  /** The four numbers that the mixing word is made of, bit by bit: `z` shifted right by 5 with
      `y` shifted left by 2, `y` right by 3 with `z` left by 4, `sum` with `y`, and `k` with `z`. */
  ghost predicate Parts(z: uint32, y: uint32, sum: uint32, k: uint32, a: uint32, b: uint32, c: uint32, d: uint32) {
    && (forall i :: 0 <= i < 32 ==> Bit(a, i) == (ShiftedBit(z, -5, i) + ShiftedBit(y, 2, i)) % 2)
    && (forall i :: 0 <= i < 32 ==> Bit(b, i) == (ShiftedBit(y, -3, i) + ShiftedBit(z, 4, i)) % 2)
    && (forall i :: 0 <= i < 32 ==> Bit(c, i) == (Bit(sum, i) + Bit(y, i)) % 2)
    && (forall i :: 0 <= i < 32 ==> Bit(d, i) == (Bit(k, i) + Bit(z, i)) % 2)
  }

  /** Exclusive or is the one number with the sums of the bits. */
  lemma XorIs(a: nat, b: nat, x: uint32)
    requires forall i :: 0 <= i < 32 ==> Bit(x, i) == (Bit(a, i) + Bit(b, i)) % 2
    ensures Xor(32, a, b) == x
  {
    hide Bit, Xor, Pow2;
    Pow32();
    forall i | 0 <= i < 32 ensures Bit(Xor(32, a, b), i) == Bit(x, i) {
      XorBit(32, a, b, i);
    }
    SameBits(32, Xor(32, a, b), x);
  }

  lemma PartsAre(z: uint32, y: uint32, sum: uint32, k: uint32, a: uint32, b: uint32, c: uint32, d: uint32)
    requires Parts(z, y, sum, k, a, b, c, d)
    ensures Mx(z, y, sum, k) == Xor(32, (a + b) % M32, (c + d) % M32)
  {
    hide Bit, ShiftedBit, Xor, Pow2;
    forall i | 0 <= i < 32
      ensures Bit(z / 0x20, i) == ShiftedBit(z, -5, i) && Bit(y * 4 % M32, i) == ShiftedBit(y, 2, i)
      ensures Bit(y / 8, i) == ShiftedBit(y, -3, i) && Bit(z * 0x10 % M32, i) == ShiftedBit(z, 4, i)
    {
      Right(z, i);
      Left(y, i);
      Right(y, i);
      Left(z, i);
    }
    XorIs(z / 0x20, y * 4 % M32, a);
    XorIs(y / 8, z * 0x10 % M32, b);
    XorIs(sum, y, c);
    XorIs(k, z, d);
  }

  /** The mixing word's bits are those of the two sums, added without carry. */
  lemma MixingBits(z: uint32, y: uint32, sum: uint32, k: uint32, a: uint32, b: uint32, c: uint32, d: uint32)
    requires Parts(z, y, sum, k, a, b, c, d)
    ensures forall i :: 0 <= i < 32 ==>
      Bit(Mx(z, y, sum, k), i) == (Bit((a + b) % M32, i) + Bit((c + d) % M32, i)) % 2
  {
    hide Bit, Parts, Xor, Mx;
    PartsAre(z, y, sum, k, a, b, c, d);
    forall i | 0 <= i < 32
      ensures Bit(Mx(z, y, sum, k), i) == (Bit((a + b) % M32, i) + Bit((c + d) % M32, i)) % 2
    {
      XorBit(32, (a + b) % M32, (c + d) % M32, i);
    }
  }

  /** There are such numbers for all words. */
  lemma PartsExist(z: uint32, y: uint32, sum: uint32, k: uint32)
    ensures exists a, b, c, d :: Parts(z, y, sum, k, a, b, c, d)
  {
    hide Bit, ShiftedBit, Xor, Pow2;
    Pow32();
    var a, b := Xor(32, z / 0x20, y * 4 % M32), Xor(32, y / 8, z * 0x10 % M32);
    var c, d := Xor(32, sum, y), Xor(32, k, z);
    forall i | 0 <= i < 32
      ensures Bit(a, i) == (ShiftedBit(z, -5, i) + ShiftedBit(y, 2, i)) % 2
      ensures Bit(b, i) == (ShiftedBit(y, -3, i) + ShiftedBit(z, 4, i)) % 2
      ensures Bit(c, i) == (Bit(sum, i) + Bit(y, i)) % 2
      ensures Bit(d, i) == (Bit(k, i) + Bit(z, i)) % 2
    {
      Right(z, i);
      Left(y, i);
      Right(y, i);
      Left(z, i);
      XorBit(32, z / 0x20, y * 4 % M32, i);
      XorBit(32, y / 8, z * 0x10 % M32, i);
      XorBit(32, sum, y, i);
      XorBit(32, k, z, i);
    }
    assert Parts(z, y, sum, k, a, b, c, d);
  }

  // No key word and no round is without effect.

  lemma {:induction false} XorCancels(n: nat, a: nat, b: nat, c: nat)
    requires b < Pow2(n) && c < Pow2(n)
    requires Xor(n, a, b) == Xor(n, a, c) || Xor(n, b, a) == Xor(n, c, a)
    ensures b == c
    decreases n
  {
    hide Xor;
    if n > 0 {
      XorUnfold(n, a, b);
      XorUnfold(n, a, c);
      XorUnfold(n, b, a);
      XorUnfold(n, c, a);
      Parity(a, b);
      Parity(a, c);
      XorCancels(n - 1, a / 2, b / 2, c / 2);
    }
  }

  lemma SumCancels(a: uint32, b: uint32, c: uint32)
    requires (a + b) % M32 == (a + c) % M32
    ensures b == c
  {
  }

  /** Different key words give different mixing words, and so do different running sums. */
  lemma EveryKeyCounts(z: uint32, y: uint32, sum1: uint32, sum2: uint32, k1: uint32, k2: uint32)
    ensures Mx(z, y, sum1, k1) == Mx(z, y, sum1, k2) <==> k1 == k2
    ensures Mx(z, y, sum1, k1) == Mx(z, y, sum2, k1) <==> sum1 == sum2
  {
    hide Pow2, Xor;
    Pow32();
    var s := (Xor(32, z / 0x20, y * 4 % M32) + Xor(32, y / 8, z * 0x10 % M32)) % M32;
    if Mx(z, y, sum1, k1) == Mx(z, y, sum1, k2) {
      XorCancels(32, s, (Xor(32, sum1, y) + Xor(32, k1, z)) % M32, (Xor(32, sum1, y) + Xor(32, k2, z)) % M32);
      SumCancels(Xor(32, sum1, y), Xor(32, k1, z), Xor(32, k2, z));
      XorCancels(32, z, k1, k2);
    }
    if Mx(z, y, sum1, k1) == Mx(z, y, sum2, k1) {
      XorCancels(32, s, (Xor(32, sum1, y) + Xor(32, k1, z)) % M32, (Xor(32, sum2, y) + Xor(32, k1, z)) % M32);
      SumCancels(Xor(32, k1, z), Xor(32, sum1, y), Xor(32, sum2, y));
      XorCancels(32, y, sum1, sum2);
    }
  }

  /** The key word at a position: the low two bits of the position and the third and fourth of
      the sum, added without carry, number it. So four positions in a row use all four. */
  lemma KeySchedule(key: seq<uint32>, p: nat, sum: uint32)
    requires |key| == 4
    ensures KeyWord(key, p, sum) == key[(p + sum / 4) % 2 + 2 * ((p / 2 + sum / 8) % 2)]
  {
    hide Xor;
    var q := sum / 4;
    XorTwo(p % 4, q % 4);
    LowTwo(p);
    LowTwo(q);
    assert sum / 8 == q / 2;
    Parity(p, q);
    Parity(p / 2, q / 2);
  }

  lemma LowTwo(q: nat)
    ensures q % 4 % 2 == q % 2 && q % 4 / 2 == q / 2 % 2
  {
  }

  lemma Parity(a: nat, b: nat)
    ensures (a + b) % 2 == (a % 2 + b % 2) % 2
  {
  }

  lemma XorTwo(a: nat, b: nat)
    requires a < 4 && b < 4
    ensures Xor(2, a, b) == (a % 2 + b % 2) % 2 + 2 * ((a / 2 + b / 2) % 2)
  {
    assert Xor(2, a, b) == 2 * Xor(1, a / 2, b / 2) + (a + b) % 2;
    assert Xor(1, a / 2, b / 2) == 2 * Xor(0, a / 2 / 2, b / 2 / 2) + (a / 2 + b / 2) % 2;
  }

  /** DELTA is 2^32 divided by the golden ratio: the greatest number whose square and 2^32 times
      itself are together not more than 2^64. */
  lemma DeltaIsGolden()
    ensures DELTA * DELTA + M32 * DELTA <= M32 * M32 < (DELTA + 1) * (DELTA + 1) + M32 * (DELTA + 1)
  {
  }

  /** Six rounds and as many more as `len` goes into 52. */
  lemma RoundsAre(len: nat)
    requires len >= 1
    ensures len * (RoundsFor(len) - 6) <= 52 < len * (RoundsFor(len) - 5)
  {
    var q := 52 / len;
    assert 52 == len * q + 52 % len;
    assert len * (q + 1) == len * q + len;
  }

  /** What a sweep leaves at a position: the old word plus the mixing word of the new word
      before it and of the word behind it, which is old unless it is the first one. */
  ghost predicate SweptAt(v: seq<uint32>, w: seq<uint32>, sum: uint32, key: seq<uint32>, p: nat)
    requires |key| == 4 && |w| == |v| && p < |v|
  {
    var before := if p == 0 then v[|v| - 1] else w[p - 1];
    var behind := if p == |v| - 1 then w[0] else v[p + 1];
    w[p] == (v[p] + Mx(before, behind, sum, KeyWord(key, p, sum))) % M32
  }

  /** The sweep stores at `i` - 1 what is wanted there. */
  lemma SweptNow(v: seq<uint32>, u: seq<uint32>, sum: uint32, key: seq<uint32>, i: nat)
    requires |key| == 4 && |u| == |v| >= 2 && 0 < i <= |v| && forall p :: i - 1 <= p < |v| ==> u[p] == v[p]
    ensures SweptAt(v, EncAt(u, i - 1, sum, key), sum, key, i - 1)
  {
    hide Mx, KeyWord;
  }

  /** Positions done before stay right. */
  lemma SweptStays(v: seq<uint32>, u: seq<uint32>, sum: uint32, key: seq<uint32>, i: nat, p: nat)
    requires |key| == 4 && |u| == |v| && p < i - 1 < |v| && SweptAt(v, u, sum, key, p)
    ensures SweptAt(v, EncAt(u, i - 1, sum, key), sum, key, p)
  {
    hide Mx, KeyWord;
  }

  lemma {:induction false} SweepStep(v: seq<uint32>, sum: uint32, key: seq<uint32>, i: nat)
    requires |key| == 4 && |v| >= 2 && i <= |v|
    ensures forall p :: 0 <= p < i ==> SweptAt(v, EncSweep(v, sum, key, i), sum, key, p)
    ensures forall p :: i <= p < |v| ==> EncSweep(v, sum, key, i)[p] == v[p]
    decreases i
  {
    hide SweptAt, Add32, Mask;
    if i > 0 {
      SweepStep(v, sum, key, i - 1);
      var u := EncSweep(v, sum, key, i - 1);
      SweptNow(v, u, sum, key, i);
      forall p: nat | p < i - 1 ensures SweptAt(v, EncSweep(v, sum, key, i), sum, key, p) {
        SweptStays(v, u, sum, key, i, p);
      }
    }
  }

  /** One sweep, position by position. */
  lemma SweepEquations(v: seq<uint32>, sum: uint32, key: seq<uint32>)
    requires |key| == 4 && |v| >= 2
    ensures forall p :: 0 <= p < |v| ==> SweptAt(v, EncSweep(v, sum, key, |v|), sum, key, p)
  {
    SweepStep(v, sum, key, |v|);
  }

  /** The blocks between the rounds: the r-th sweep uses r times DELTA. */
  ghost predicate Rounds(blocks: seq<seq<uint32>>, key: seq<uint32>)
    requires |key| == 4
  {
    forall r :: 1 <= r < |blocks| ==> Round(blocks[r - 1], blocks[r], r * DELTA % M32, key)
  }

  ghost predicate Round(v: seq<uint32>, w: seq<uint32>, sum: uint32, key: seq<uint32>)
    requires |key| == 4
  {
    |w| == |v| && forall p :: 0 <= p < |v| ==> SweptAt(v, w, sum, key, p)
  }

  lemma {:induction false} RoundByRound(v: seq<uint32>, key: seq<uint32>, r: nat) returns (blocks: seq<seq<uint32>>)
    requires |key| == 4 && |v| >= 2
    ensures |blocks| == r + 1 && blocks[0] == v && blocks[r] == EncRounds(v, key, r) && Rounds(blocks, key)
    decreases r
  {
    hide EncSweep, SweptAt;
    if r == 0 {
      blocks := [v];
    } else {
      var before := RoundByRound(v, key, r - 1);
      blocks := before + [EncRounds(v, key, r)];
      SweepEquations(EncRounds(v, key, r - 1), SumAt(r), key);
      forall i | 1 <= i < |blocks| ensures Round(blocks[i - 1], blocks[i], i * DELTA % M32, key) {
        if i < r {
          assert Round(before[i - 1], before[i], i * DELTA % M32, key);
        }
      }
    }
  }

  /** Encryption, round by round and position by position. A single word is left alone. */
  lemma CipherEquations(v: seq<uint32>, key: seq<uint32>) returns (blocks: seq<seq<uint32>>)
    requires |key| == 4 && |v| >= 1
    ensures blocks != [] && blocks[0] == v && blocks[|blocks| - 1] == EncWords(v, key) && Rounds(blocks, key)
    ensures if |v| == 1 then |blocks| == 1 else |v| * (|blocks| - 7) <= 52 < |v| * (|blocks| - 6)
  {
    hide EncRounds, RoundsFor, Round;
    if |v| == 1 {
      blocks := [v];
    } else {
      RoundsAre(|v|);
      blocks := RoundByRound(v, key, RoundsFor(|v|));
    }
  }
}
