/** The bitwise operators of C on non-negative integers, and the 16-bit reversal of
    apps/gview/stb_image.h written with them. */
module Bits {

  function Pow2(n: nat): (p: nat)
    ensures p > 0
  {
    if n == 0 then 1 else 2 * Pow2(n - 1)
  }

  /** x >> n */
  function Shr(x: nat, n: nat): nat
    decreases n
  {
    if n == 0 then x else Shr(x / 2, n - 1)
  }

  /** x << n */
  function Shl(x: nat, n: nat): nat {
    if n == 0 then x else 2 * Shl(x, n - 1)
  }

  /** x & y */
  function And(x: nat, y: nat): (r: nat)
    ensures r <= y
    decreases y
  {
    if y == 0 then 0 else (if x % 2 == 1 && y % 2 == 1 then 1 else 0) + 2 * And(x / 2, y / 2)
  }

  /** x | y */
  function Or(x: nat, y: nat): (r: nat)
    ensures r <= x + y
    decreases x + y
  {
    if x == 0 && y == 0 then 0 else (if x % 2 == 1 || y % 2 == 1 then 1 else 0) + 2 * Or(x / 2, y / 2)
  }

  predicate TestBit(x: nat, k: nat)
    decreases k
  {
    if k == 0 then x % 2 == 1 else TestBit(x / 2, k - 1)
  }

  /** The low n bits of x. */
  function Low(x: nat, n: nat): (r: nat)
    ensures r < Pow2(n)
    decreases n
  {
    if n == 0 then 0 else x % 2 + 2 * Low(x / 2, n - 1)
  }

  /** Masking with (1 << n) - 1 keeps the low n bits. */
  lemma {:induction false} MaskIsLow(x: nat, n: nat)
    ensures And(x, Pow2(n) - 1) == Low(x, n)
    decreases n
  {
    if n > 0 {
      MaskIsLow(x / 2, n - 1);
      assert (Pow2(n) - 1) / 2 == Pow2(n - 1) - 1;
    }
  }

  lemma {:induction false} ShlOne(n: nat)
    ensures Shl(1, n) == Pow2(n)
  {
    if n > 0 {
      ShlOne(n - 1);
    }
  }

  lemma {:induction false} LowOfSmall(x: nat, n: nat)
    requires x < Pow2(n)
    ensures Low(x, n) == x
    decreases n
  {
    if n > 0 {
      LowOfSmall(x / 2, n - 1);
    }
  }

  lemma {:induction false} TestAnd(x: nat, y: nat, k: nat)
    ensures TestBit(And(x, y), k) <==> TestBit(x, k) && TestBit(y, k)
    decreases k
  {
    if k > 0 {
      TestAnd(x / 2, y / 2, k - 1);
      if y == 0 {
        NoBitOfZero(k);
      }
    }
  }

  lemma {:induction false} NoBitOfZero(k: nat)
    ensures !TestBit(0, k)
  {
    if k > 0 {
      NoBitOfZero(k - 1);
    }
  }

  lemma {:induction false} TestOr(x: nat, y: nat, k: nat)
    ensures TestBit(Or(x, y), k) <==> TestBit(x, k) || TestBit(y, k)
    decreases k
  {
    if k > 0 {
      TestOr(x / 2, y / 2, k - 1);
    }
  }

  lemma {:induction false} TestShr(x: nat, n: nat, k: nat)
    ensures TestBit(Shr(x, n), k) <==> TestBit(x, n + k)
    decreases n
  {
    if n > 0 {
      TestShr(x / 2, n - 1, k);
    }
  }

  lemma {:induction false} TestShl(x: nat, n: nat, k: nat)
    ensures TestBit(Shl(x, n), k) <==> n <= k && TestBit(x, k - n)
    decreases n
  {
    if n > 0 && k > 0 {
      TestShl(x, n - 1, k - 1);
    }
  }

  lemma {:induction false} SameBits(x: nat, y: nat, n: nat)
    requires x < Pow2(n) && y < Pow2(n)
    requires forall k: nat :: k < n ==> (TestBit(x, k) <==> TestBit(y, k))
    ensures x == y
    decreases n
  {
    if n > 0 {
      assert TestBit(x, 0) <==> TestBit(y, 0);
      forall k: nat | k < n - 1
        ensures TestBit(x / 2, k) <==> TestBit(y / 2, k)
      {
        assert TestBit(x, k + 1) <==> TestBit(y, k + 1);
      }
      SameBits(x / 2, y / 2, n - 1);
    }
  }

  /** Comparing with a shifted bound is comparing the bits above the shift. */
  lemma {:induction false} BelowShifted(x: nat, c: nat, n: nat)
    ensures x < Shl(c, n) <==> Shr(x, n) < c
    decreases n
  {
    if n > 0 {
      BelowShifted(x / 2, c, n - 1);
    }
  }

  lemma {:induction false} ShlSum(x: nat, m: nat, n: nat)
    ensures Shl(Shl(x, m), n) == Shl(x, m + n)
    decreases n
  {
    if n > 0 {
      ShlSum(x, m, n - 1);
    }
  }

  /** The low n bits of x in the opposite order. */
  function Reversed(x: nat, n: nat): (r: nat)
    ensures r < Pow2(n)
    decreases n
  {
    if n == 0 then 0 else (if x % 2 == 1 then Pow2(n - 1) else 0) + Reversed(x / 2, n - 1)
  }

  lemma {:induction false} TestReversed(x: nat, n: nat, k: nat)
    requires k < n
    ensures TestBit(Reversed(x, n), k) <==> TestBit(x, n - 1 - k)
    decreases n
  {
    if k == n - 1 {
      TopBit(Reversed(x / 2, n - 1), n - 1, x % 2 == 1, n - 1);
    } else {
      TestReversed(x / 2, n - 1, k);
      TopBit(Reversed(x / 2, n - 1), n - 1, x % 2 == 1, k);
    }
  }

  lemma {:induction false} TopBit(x: nat, n: nat, top: bool, k: nat)
    requires x < Pow2(n) && k <= n
    ensures TestBit((if top then Pow2(n) else 0) + x, k) <==> if k == n then top else TestBit(x, k)
    decreases n
  {
    if k > 0 {
      TopBit(x / 2, n - 1, top, k - 1);
      assert ((if top then Pow2(n) else 0) + x) / 2 == (if top then Pow2(n - 1) else 0) + x / 2;
    }
  }

  /** Reversing n bits twice gives them back. */
  lemma ReversedTwice(x: nat, n: nat)
    ensures Reversed(Reversed(x, n), n) == Low(x, n)
  {
    forall k: nat | k < n
      ensures TestBit(Reversed(Reversed(x, n), n), k) <==> TestBit(Low(x, n), k)
    {
      TestReversed(Reversed(x, n), n, k);
      TestReversed(x, n, n - 1 - k);
      TestLow(x, n, k);
    }
    SameBits(Reversed(Reversed(x, n), n), Low(x, n), n);
  }

  lemma {:induction false} TestLow(x: nat, n: nat, k: nat)
    requires k < n
    ensures TestBit(Low(x, n), k) <==> TestBit(x, k)
    decreases n
  {
    if k > 0 {
      TestLow(x / 2, n - 1, k - 1);
    }
  }

  lemma {:induction false} OrZero(x: nat)
    ensures Or(0, x) == x
  {
    if x > 0 {
      OrZero(x / 2);
    }
  }

  lemma {:induction false} OrNothing(x: nat)
    ensures Or(x, 0) == x
  {
    if x > 0 {
      OrNothing(x / 2);
    }
  }

  lemma {:induction false} ShlZero(n: nat)
    ensures Shl(0, n) == 0
  {
    if n > 0 {
      ShlZero(n - 1);
    }
  }

  /** The low n bits and the m bits above them, joined again. */
  lemma {:induction false} JoinParts(x: nat, n: nat, m: nat)
    requires x < Pow2(n + m)
    ensures Or(Low(x, n), Shl(Low(Shr(x, n), m), n)) == x
    decreases n
  {
    if n == 0 {
      LowOfSmall(x, m);
      OrZero(x);
    } else {
      JoinParts(x / 2, n - 1, m);
    }
  }

  /** x ^ y */
  function Xor(x: nat, y: nat): nat
    decreases x + y
  {
    if x == 0 && y == 0 then 0 else (if (x % 2 == 1) != (y % 2 == 1) then 1 else 0) + 2 * Xor(x / 2, y / 2)
  }

  /** Complementing n bits subtracts from all ones. */
  lemma {:induction false} XorOnes(x: nat, n: nat)
    requires x < Pow2(n)
    ensures Xor(x, Pow2(n) - 1) == Pow2(n) - 1 - x
    decreases n
  {
    if n > 0 {
      XorOnes(x / 2, n - 1);
      assert (Pow2(n) - 1) / 2 == Pow2(n - 1) - 1;
    }
  }

  // ---- The reversal by masks

  /** One stage of the reversal: the bits under the high mask go down by m, the others up. */
  function Swap(n: nat, high: nat, low: nat, m: nat): nat {
    Or(Shr(And(n, high), m), Shl(And(n, low), m))
  }

  function BitReverse16(n: nat): nat {
    var n := Swap(n, 0xAAAA, 0x5555, 1);
    var n := Swap(n, 0xCCCC, 0x3333, 2);
    var n := Swap(n, 0xF0F0, 0x0F0F, 4);
    Swap(n, 0xFF00, 0x00FF, 8)
  }

  /** The reversal of the low bits: reverse sixteen and shift. */
  function BitReverse(v: nat, bits: nat): nat
    requires bits <= 16
  {
    Shr(BitReverse16(v), 16 - bits)
  }

  /** Whether place k lies in an odd run of m places. */
  predicate OddRun(k: nat, m: nat)
    requires m > 0
  {
    if k < m then false else !OddRun(k - m, m)
  }

  /** The mask of places k..16, shifted to start at k, that lie in odd or in even runs. */
  function Runs(k: nat, m: nat, odd: bool): nat
    requires m > 0
    decreases 16 - k
  {
    if k >= 16 then 0 else (if OddRun(k, m) == odd then 1 else 0) + 2 * Runs(k + 1, m, odd)
  }

  lemma {:induction false} TestRuns(k: nat, m: nat, odd: bool, j: nat)
    requires m > 0
    ensures TestBit(Runs(k, m, odd), j) <==> k + j < 16 && OddRun(k + j, m) == odd
    decreases j
  {
    if k >= 16 {
      NoBitOfZero(j);
    } else if j > 0 {
      TestRuns(k + 1, m, odd, j - 1);
    }
  }

  /** The neighbour of place k when runs of m places are swapped. */
  function Across(k: nat, m: nat): nat
    requires m > 0
  {
    if OddRun(k, m) then k - m else k + m
  }

  /** Masks that pick the odd and the even runs of m places swap neighbouring runs. */
  lemma TestSwap(n: nat, m: nat, k: nat)
    requires m > 0 && k < 16 && Across(k, m) < 16
    ensures TestBit(Swap(n, Runs(0, m, true), Runs(0, m, false), m), k) <==> TestBit(n, Across(k, m))
  {
    hide Runs, And, Or, Shr, Shl, TestBit;
    var high, low := Runs(0, m, true), Runs(0, m, false);
    assert OddRun(m + k, m) == !OddRun(k, m);
    TestOr(Shr(And(n, high), m), Shl(And(n, low), m), k);
    TestShr(And(n, high), m, k);
    TestShl(And(n, low), m, k);
    TestAnd(n, high, m + k);
    TestRuns(0, m, true, m + k);
    if m <= k {
      TestAnd(n, low, k - m);
      TestRuns(0, m, false, k - m);
    }
  }

  lemma {:induction false} OddRunIs(k: nat, m: nat)
    requires k < 16
    ensures m == 1 ==> (OddRun(k, m) <==> k % 2 == 1)
    ensures m == 2 ==> (OddRun(k, m) <==> k % 4 >= 2)
    ensures m == 4 ==> (OddRun(k, m) <==> k % 8 >= 4)
    ensures m == 8 ==> (OddRun(k, m) <==> k >= 8)
  {
    if m > 0 && k >= m + m {
      assert OddRun(k, m) == !OddRun(k - m, m) == OddRun(k - m - m, m);
      OddRunIs(k - m - m, m);
    }
  }

  lemma MaskValueOdd1()
    ensures Runs(0, 1, true) == 0xAAAA
  {
    OddRunIs(15, 1);
    assert Runs(14, 1, true) == 0x2;
    assert Runs(12, 1, true) == 0xA;
    assert Runs(10, 1, true) == 0x2A;
    assert Runs(8, 1, true) == 0xAA;
    assert Runs(6, 1, true) == 0x2AA;
    assert Runs(4, 1, true) == 0xAAA;
    assert Runs(2, 1, true) == 0x2AAA;
    assert Runs(0, 1, true) == 0xAAAA;
  }

  lemma MaskValueEven1()
    ensures Runs(0, 1, false) == 0x5555
  {
    OddRunIs(15, 1);
    assert Runs(14, 1, false) == 0x1;
    assert Runs(12, 1, false) == 0x5;
    assert Runs(10, 1, false) == 0x15;
    assert Runs(8, 1, false) == 0x55;
    assert Runs(6, 1, false) == 0x155;
    assert Runs(4, 1, false) == 0x555;
    assert Runs(2, 1, false) == 0x1555;
    assert Runs(0, 1, false) == 0x5555;
  }

  lemma MaskValueOdd2()
    ensures Runs(0, 2, true) == 0xCCCC
  {
    assert Runs(12, 2, true) == 0xC;
    assert Runs(8, 2, true) == 0xCC;
    assert Runs(4, 2, true) == 0xCCC;
    assert Runs(0, 2, true) == 0xCCCC;
  }

  lemma MaskValueEven2()
    ensures Runs(0, 2, false) == 0x3333
  {
    assert Runs(12, 2, false) == 0x3;
    assert Runs(8, 2, false) == 0x33;
    assert Runs(4, 2, false) == 0x333;
    assert Runs(0, 2, false) == 0x3333;
  }

  lemma MaskValueOdd4()
    ensures Runs(0, 4, true) == 0xF0F0
  {
    assert Runs(12, 4, true) == 0xF;
    assert Runs(8, 4, true) == 0xF0;
    assert Runs(4, 4, true) == 0xF0F;
    assert Runs(0, 4, true) == 0xF0F0;
  }

  lemma MaskValueEven4()
    ensures Runs(0, 4, false) == 0x0F0F
  {
    assert Runs(12, 4, false) == 0x0;
    assert Runs(8, 4, false) == 0xF;
    assert Runs(4, 4, false) == 0xF0;
    assert Runs(0, 4, false) == 0xF0F;
  }

  lemma MaskValueOdd8()
    ensures Runs(0, 8, true) == 0xFF00
  {
    assert Runs(12, 8, true) == 0xF;
    assert Runs(8, 8, true) == 0xFF;
    assert Runs(4, 8, true) == 0xFF0;
    assert Runs(0, 8, true) == 0xFF00;
  }

  lemma MaskValueEven8()
    ensures Runs(0, 8, false) == 0x00FF
  {
    assert Runs(12, 8, false) == 0x0;
    assert Runs(8, 8, false) == 0x0;
    assert Runs(4, 8, false) == 0xF;
    assert Runs(0, 8, false) == 0xFF;
  }

  /** Swapping runs of eight, four, two and one mirrors a place. */
  lemma AcrossMirrors(k: nat)
    requires k < 16
    ensures Across(k, 8) < 16 && Across(Across(k, 8), 4) < 16 && Across(Across(Across(k, 8), 4), 2) < 16
    ensures Across(Across(Across(Across(k, 8), 4), 2), 1) == 15 - k
  {
    var k8 := Across(k, 8);
    var k4 := if k8 % 8 < 4 then k8 + 4 else k8 - 4;
    var k2 := if k4 % 4 < 2 then k4 + 2 else k4 - 2;
    OddRunIs(k, 8);
    OddRunIs(k8, 4);
    OddRunIs(k4, 2);
    OddRunIs(k2, 1);
  }

  /** The four mask stages reverse the low sixteen bits and drop the rest. */
  lemma BitReverse16Reverses(n: nat)
    ensures BitReverse16(n) == Reversed(n, 16)
  {
    hide Swap, Reversed, TestBit, Runs, Across;
    MaskValueOdd1();
    MaskValueEven1();
    MaskValueOdd2();
    MaskValueEven2();
    MaskValueOdd4();
    MaskValueEven4();
    MaskValueOdd8();
    MaskValueEven8();
    var a := Swap(n, 0xAAAA, 0x5555, 1);
    var b := Swap(a, 0xCCCC, 0x3333, 2);
    var c := Swap(b, 0xF0F0, 0x0F0F, 4);
    var d := Swap(c, 0xFF00, 0x00FF, 8);
    forall k: nat | k < 16
      ensures TestBit(d, k) <==> TestBit(Reversed(n, 16), k)
    {
      AcrossMirrors(k);
      var k8 := Across(k, 8);
      var k4 := Across(k8, 4);
      var k2 := Across(k4, 2);
      TestSwap(c, 8, k);
      TestSwap(b, 4, k8);
      TestSwap(a, 2, k4);
      TestSwap(n, 1, k2);
      TestReversed(n, 16, k);
    }
    SwapSmall(c);
    SameBits(d, Reversed(n, 16), 16);
  }

  lemma SwapSmall(n: nat)
    ensures Swap(n, 0xFF00, 0x00FF, 8) < Pow2(16)
  {
    hide And, Or;
    ShrIsMonotone(And(n, 0xFF00), 0xFF00, 8);
    ShlIsMonotone(And(n, 0x00FF), 0x00FF, 8);
    assert Pow2(8) == 0x100;
    assert Pow2(16) == 0x1_0000;
  }

  lemma {:induction false} ShrIsMonotone(x: nat, y: nat, n: nat)
    requires x <= y
    ensures Shr(x, n) <= Shr(y, n)
    decreases n
  {
    if n > 0 {
      ShrIsMonotone(x / 2, y / 2, n - 1);
    }
  }

  lemma {:induction false} ShlIsMonotone(x: nat, y: nat, n: nat)
    requires x <= y
    ensures Shl(x, n) <= Shl(y, n)
  {
    if n > 0 {
      ShlIsMonotone(x, y, n - 1);
    }
  }

  /** Reverse sixteen bits and shift: the low bits reversed. */
  lemma {:induction false} BitReverseReverses(v: nat, bits: nat)
    requires bits <= 16
    ensures BitReverse(v, bits) == Reversed(v, bits)
  {
    BitReverse16Reverses(v);
    DropReversed(v, 16, bits);
  }

  lemma DropReversed(v: nat, n: nat, bits: nat)
    requires bits <= n
    ensures Shr(Reversed(v, n), n - bits) == Reversed(v, bits)
  {
    forall k: nat | k < bits
      ensures TestBit(Shr(Reversed(v, n), n - bits), k) <==> TestBit(Reversed(v, bits), k)
    {
      TestShr(Reversed(v, n), n - bits, k);
      TestReversed(v, n, n - bits + k);
      TestReversed(v, bits, k);
    }
    ShrBelow(Reversed(v, n), n - bits, bits);
    SameBits(Shr(Reversed(v, n), n - bits), Reversed(v, bits), bits);
  }

  lemma {:induction false} ShrBelow(x: nat, m: nat, n: nat)
    requires x < Pow2(m + n)
    ensures Shr(x, m) < Pow2(n)
    decreases m
  {
    if m > 0 {
      ShrBelow(x / 2, m - 1, n);
    }
  }
}
