/** Bit operations on the 64-bit words of the frame bitmap, as arithmetic on binary digits. */
module Words {

  /** A word of n bits: 2^n values. */
  function Pow2(n: nat): (r: nat)
    ensures r > 0
  {
    if n == 0 then 1 else 2 * Pow2(n - 1)
  }

  const UINT64_MAX: nat := 0xFFFF_FFFF_FFFF_FFFF

  type Word = w: nat | w <= UINT64_MAX

  lemma Pow2Of64()
    ensures Pow2(64) == UINT64_MAX + 1
  {
    assert Pow2(8) == 0x100;
    assert Pow2(16) == 0x1_0000;
    assert Pow2(24) == 0x100_0000;
    assert Pow2(32) == 0x1_0000_0000;
    assert Pow2(40) == 0x100_0000_0000;
    assert Pow2(48) == 0x1_0000_0000_0000;
    assert Pow2(56) == 0x100_0000_0000_0000;
  }

  /** `w & (1 << k)` is non-zero. */
  predicate Test(w: nat, k: nat) {
    if k == 0 then w % 2 == 1 else Test(w / 2, k - 1)
  }

  /** `w | (1 << k)`. */
  function SetBit(w: nat, k: nat): nat {
    if k == 0 then w / 2 * 2 + 1 else SetBit(w / 2, k - 1) * 2 + w % 2
  }

  /** `w & ~(1 << k)`. */
  function ClearBit(w: nat, k: nat): nat {
    if k == 0 then w / 2 * 2 else ClearBit(w / 2, k - 1) * 2 + w % 2
  }

  /** The complement of an n-bit word. */
  function Complement(w: nat, n: nat): (r: nat)
    requires w < Pow2(n)
    ensures r < Pow2(n)
  {
    Pow2(n) - 1 - w
  }

  lemma Digit(x: nat, d: nat)
    requires d < 2
    ensures (x * 2 + d) / 2 == x && (x * 2 + d) % 2 == d
  {
  }

  lemma {:induction false} SetBitTests(w: nat, k: nat, j: nat)
    ensures Test(SetBit(w, k), j) <==> j == k || Test(w, j)
    decreases k
  {
    if k == 0 {
      Digit(w / 2, 1);
    } else {
      Digit(SetBit(w / 2, k - 1), w % 2);
      if j > 0 { SetBitTests(w / 2, k - 1, j - 1); }
    }
  }

  lemma {:induction false} ClearBitTests(w: nat, k: nat, j: nat)
    ensures Test(ClearBit(w, k), j) <==> j != k && Test(w, j)
    decreases k
  {
    if k == 0 {
      Digit(w / 2, 0);
    } else {
      Digit(ClearBit(w / 2, k - 1), w % 2);
      if j > 0 { ClearBitTests(w / 2, k - 1, j - 1); }
    }
  }

  lemma {:induction false} BitOpsBound(w: nat, k: nat, n: nat)
    requires w < Pow2(n) && k < n
    ensures SetBit(w, k) < Pow2(n) && ClearBit(w, k) < Pow2(n)
    decreases k
  {
    var half := Pow2(n - 1);
    assert Pow2(n) == 2 * half && w / 2 < half;
    if k > 0 { BitOpsBound(w / 2, k - 1, n - 1); }
  }

  lemma {:induction false} ComplementTests(w: nat, n: nat, k: nat)
    requires w < Pow2(n) && k < n
    ensures Test(Complement(w, n), k) <==> !Test(w, k)
    decreases k
  {
    ComplementHalf(w, Pow2(n - 1));
    if k > 0 { ComplementTests(w / 2, n - 1, k - 1); }
  }

  lemma ComplementHalf(w: nat, half: nat)
    requires w < 2 * half
    ensures (2 * half - 1 - w) / 2 == half - 1 - w / 2
    ensures (2 * half - 1 - w) % 2 == 1 - w % 2
  {
  }

  lemma {:induction false} OnesTest(n: nat, k: nat)
    requires k < n
    ensures Test(Pow2(n) - 1, k)
  {
    if k > 0 {
      OnesTest(n - 1, k - 1);
      assert (Pow2(n) - 1) / 2 == Pow2(n - 1) - 1;
    }
  }

  /** Count trailing zeros: the position of the lowest set bit. */
  function Ctz(m: nat): (k: nat)
    requires m != 0
    ensures Test(m, k) && forall j: nat | j < k :: !Test(m, j)
  {
    if m % 2 == 1 then 0 else
      assert forall j: nat | 0 < j :: Test(m, j) == Test(m / 2, j - 1);
      1 + Ctz(m / 2)
  }

  lemma {:induction false} CtzBound(m: nat, n: nat)
    requires 0 < m < Pow2(n)
    ensures Ctz(m) < n
  {
    if m % 2 == 0 { CtzBound(m / 2, n - 1); }
  }
}
