/** Powers of two and of 256. */
module Powers {

  function Pow2(k: nat): (p: nat)
    ensures p >= 1
  {
    if k == 0 then 1 else 2 * Pow2(k - 1)
  }

  lemma {:induction false} PowUp(a: nat, b: nat)
    requires a <= b
    ensures Pow2(a) <= Pow2(b)
    decreases b
  {
    if a < b {
      PowUp(a, b - 1);
    }
  }

  lemma {:induction false} PowSum(a: nat, b: nat)
    ensures Pow2(a + b) == Pow2(a) * Pow2(b)
    decreases a
  {
    if a > 0 {
      PowSum(a - 1, b);
      assert Pow2(a) * Pow2(b) == 2 * (Pow2(a - 1) * Pow2(b));
    }
  }

  lemma One()
    ensures Pow2(0) == 1
  {
  }

  lemma Pow32()
    ensures Pow2(0) == 1 && Pow2(1) == 2 && Pow2(2) == 4 && Pow2(4) == 0x10 && Pow2(8) == 0x100
    ensures Pow2(16) == 0x1_0000 && Pow2(31) == 0x8000_0000 && Pow2(32) == 0x1_0000_0000
  {
    PowSum(1, 1);
    hide Pow2;
    PowSum(2, 2);
    PowSum(4, 4);
    PowSum(8, 8);
    PowSum(16, 16);
    PowSum(1, 31);
    One();
  }

  /** Powers of 256, up to the width of a long. */
  function Pow256(k: nat): (p: nat)
    requires k <= 8
    ensures p >= 1
  {
    if k == 0 then 1 else if k == 1 then 0x100 else if k == 2 then 0x1_0000
    else if k == 3 then 0x100_0000 else if k == 4 then 0x1_0000_0000
    else if k == 5 then 0x100_0000_0000 else if k == 6 then 0x1_0000_0000_0000
    else if k == 7 then 0x100_0000_0000_0000 else 0x1_0000_0000_0000_0000
  }
}
