/** Bitwise or on natural numbers, and the rounding up to a power of two of
    src/unix/core.c:785-794. */
module Bits {

  import opened Powers

  /** `a | b` */
  function Or(a: nat, b: nat): (r: nat)
    ensures a <= r && b <= r
    decreases a + b
  {
    if a == 0 then b else if b == 0 then a
    else 2 * Or(a / 2, b / 2) + (if a % 2 == 1 || b % 2 == 1 then 1 else 0)
  }

  lemma {:induction false} OrBound(a: nat, b: nat, k: nat)
    requires a < Pow2(k) && b < Pow2(k)
    ensures Or(a, b) < Pow2(k)
    decreases k
  {
    if a > 0 && b > 0 {
      OrBound(a / 2, b / 2, k - 1);
    }
  }

  /** `c << k` */
  function Shifted(c: nat, k: nat): nat {
    if k == 0 then c else 2 * Shifted(c, k - 1)
  }

  lemma {:induction false} ShiftedIs(c: nat, k: nat)
    ensures Shifted(c, k) == c * Pow2(k)
  {
    hide Pow2;
    PowUnfold(k);
    if k > 0 {
      ShiftedIs(c, k - 1);
      Twice(c, Pow2(k - 1));
    }
  }

  /** Bits above the `k` low ones are not touched by a number of `k` bits. */
  lemma {:induction false} OrHigh(c: nat, k: nat, a: nat, b: nat)
    requires a < Pow2(k) && b < Pow2(k)
    ensures Or(Shifted(c, k) + a, b) == Shifted(c, k) + Or(a, b)
    decreases k
  {
    hide Or, Pow2;
    PowUnfold(k);
    if k == 0 {
      OrNothing(c);
      OrNothing(0);
    } else {
      OrHigh(c, k - 1, a / 2, b / 2);
      OrHalves(Shifted(c, k) + a, b);
      OrHalves(a, b);
    }
  }

  lemma PowUnfold(k: nat)
    ensures Pow2(k) == if k == 0 then 1 else 2 * Pow2(k - 1)
  {
  }

  lemma OrNothing(a: nat)
    ensures Or(a, 0) == a
  {
  }

  lemma Twice(c: nat, p: nat)
    ensures c * (2 * p) == 2 * (c * p)
  {
  }

  lemma OrHalves(a: nat, b: nat)
    ensures Or(a, b) == 2 * Or(a / 2, b / 2) + (if a % 2 == 1 || b % 2 == 1 then 1 else 0)
  {
  }

  /** Of the `m` bits of `v` the highest `t` are ones. */
  predicate Ones(v: nat, m: nat, t: nat) {
    v < Pow2(m) && v + Pow2(if t < m then m - t else 0) >= Pow2(m)
  }

  /** `v |= v >> t` doubles the number of leading ones. */
  lemma Smear(v: nat, m: nat, t: nat)
    requires t >= 1 && Ones(v, m, t)
    ensures Ones(Or(v, v / Pow2(t)), m, 2 * t)
  {
    hide Pow2, Or;
    if t >= m {
      Quotient(v, Pow2(t));
      OrBound(v, v / Pow2(t), m);
    } else {
      SmallQuotient(v, t, m - t);
      SmearOver(v, v / Pow2(t), m, t);
    }
  }

  lemma SmearOver(v: nat, w: nat, m: nat, t: nat)
    requires 1 <= t < m && Ones(v, m, t) && w < Pow2(m - t)
    requires w + Pow2(if t < m - t then m - 2 * t else 0) >= Pow2(m - t)
    ensures Ones(Or(v, w), m, 2 * t)
  {
    hide Pow2, Or;
    var k := m - t;
    var c := Top(t, k);
    OrHigh(Pow2(t) - 1, k, v - c, w);
    OrBound(v - c, w, k);
  }

  /** The number of `t` ones followed by `k` zeros. */
  lemma Top(t: nat, k: nat) returns (c: nat)
    ensures c == Shifted(Pow2(t) - 1, k) == Pow2(t + k) - Pow2(k)
  {
    hide Pow2;
    PowSum(t, k);
    c := Shifted(Pow2(t) - 1, k);
    ShiftedIs(Pow2(t) - 1, k);
    assert (Pow2(t) - 1) * Pow2(k) == Pow2(t) * Pow2(k) - Pow2(k);
  }

  lemma Quotient(v: nat, p: nat)
    requires p >= 1
    ensures p * (v / p) <= v < p * (v / p) + p && v / p <= v
  {
    var w := v / p;
    assert v == p * w + v % p;
    assert p * w == w + (p - 1) * w;
  }

  lemma Cancel(p: nat, a: nat, b: nat)
    requires p * a < p * b
    ensures a < b
  {
    if a >= b {
      Grow(p, a, b);
    }
  }

  lemma Grow(p: nat, a: nat, b: nat)
    requires a >= b
    ensures p * a >= p * b
  {
    assert p * a == p * b + p * (a - b);
  }

  /** The high part of a number of `t + k` bits whose `t` highest are ones. */
  lemma SmallQuotient(v: nat, t: nat, k: nat)
    requires v < Pow2(t + k) && v + Pow2(k) >= Pow2(t + k)
    ensures v / Pow2(t) < Pow2(k)
    ensures v / Pow2(t) + Pow2(if t < k then k - t else 0) >= Pow2(k)
  {
    hide Pow2;
    var p, q, w, h := Pow2(t), Pow2(k), v / Pow2(t), Pow2(if t < k then k - t else 0);
    Quotient(v, p);
    PowSum(t, k);
    Shortfall(t, k);
    Squeeze(p, q, w, h, v);
  }

  lemma Squeeze(p: nat, q: nat, w: nat, h: nat, v: nat)
    requires q >= 1 && p * w <= v < p * w + p && v < p * q && v + q >= p * q && p * h >= q
    ensures w < q && w + h >= q
  {
    Cancel(p, w, q);
    assert p * (w + h) == p * w + p * h;
    assert p * (q - 1) == p * q - p;
    Cancel(p, q - 1, w + h);
  }

  lemma Shortfall(t: nat, k: nat)
    ensures Pow2(t) * Pow2(if t < k then k - t else 0) >= Pow2(k)
  {
    hide Pow2;
    if t < k {
      PowSum(t, k - t);
    } else {
      PowUp(k, t);
      One();
    }
  }

  lemma {:induction false} BitLength(x: nat) returns (m: nat)
    requires 1 <= x < 0x1_0000_0000
    ensures 1 <= m <= 32 && Pow2(m - 1) <= x < Pow2(m)
  {
    m := 1;
    while Pow2(m) <= x
      invariant 1 <= m && Pow2(m - 1) <= x
      decreases x - Pow2(m)
    {
      m := m + 1;
    }
    if m > 32 {
      PowUp(32, m - 1);
      Pow32();
    }
  }

  /** The least power of two that is not below `val`; 0 where 32 bits do not hold it, and for
      0. */
  predicate IsRoundedUp(val: nat, r: nat) {
    if 1 <= val <= 0x8000_0000 then val <= r < 2 * val && exists k :: 0 <= k <= 31 && r == Pow2(k) else r == 0
  }

  /** next_power_of_two() on an unsigned int. */
  method NextPowerOfTwo(n: nat) returns (r: nat)
    requires n < 0x1_0000_0000
    ensures IsRoundedUp(n, r)
  {
    var val: nat := (n - 1) % 0x1_0000_0000;
    ghost var m := 1;
    if val > 0 {
      m := BitLength(val);
      FirstOne(val, m);
    }
    hide Pow2, Or;
    ghost var x := val;
    Pow32();
    val := SmearBy(val, 1, m, x);
    val := SmearBy(val, 2, m, x);
    val := SmearBy(val, 4, m, x);
    val := SmearBy(val, 8, m, x);
    val := SmearBy(val, 16, m, x);
    r := (val + 1) % 0x1_0000_0000;
    Rounded(n, x, m, val);
  }

  lemma FirstOne(x: nat, m: nat)
    requires m >= 1 && Pow2(m - 1) <= x < Pow2(m)
    ensures Ones(x, m, 1)
  {
    assert Pow2(m) == 2 * Pow2(m - 1);
  }

  /** All ones and one more. */
  lemma Rounded(n: nat, x: nat, m: nat, val: nat)
    requires n < 0x1_0000_0000 && x == (n - 1) % 0x1_0000_0000
    requires if x == 0 then val == 0 else 1 <= m <= 32 && Pow2(m - 1) <= x < Pow2(m) && Ones(val, m, 32)
    ensures IsRoundedUp(n, (val + 1) % 0x1_0000_0000)
  {
    Pow32();
    if x > 0 {
      assert Pow2(m) == 2 * Pow2(m - 1);
      hide Pow2;
      assert val + 1 == Pow2(m);
      if m < 32 {
        PowUp(m, 31);
        assert n == x + 1 && (val + 1) % 0x1_0000_0000 == Pow2(m);
      } else {
        assert m == 32 && (val + 1) % 0x1_0000_0000 == 0;
      }
    }
  }

  lemma NoBits(p: nat)
    requires p >= 1
    ensures Or(0, 0 / p) == 0
  {
  }

  /** `val |= val >> t` with 2 to the `t` written out. */
  method SmearBy(val: nat, t: nat, ghost m: nat, ghost x: nat) returns (r: nat)
    requires t in {1, 2, 4, 8, 16} && val < 0x1_0000_0000 && m <= 32
    requires if x == 0 then val == 0 else Ones(val, m, t)
    ensures r == Or(val, val / Pow2(t)) && r < 0x1_0000_0000
    ensures if x == 0 then r == 0 else Ones(r, m, 2 * t)
  {
    hide Pow2, Or;
    r := Or(val, val / Pow2(t));
    if x == 0 {
      NoBits(Pow2(t));
    } else {
      Smear(val, m, t);
    }
    Quotient(val, Pow2(t));
    Pow32();
    OrBound(val, val / Pow2(t), 32);
  }
}
