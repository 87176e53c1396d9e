/** One 64-bit line of the frame bitmap: single-bit tests and updates by mask.
    `Mask(i)` is 1 shifted left i times. */
module MapLine {

  const BITS_PER_MAP_LINE: nat := 64

  function Mask(i: nat): bv64 {
    if i == 0 then 1 else Mask(i - 1) << 1
  }

  predicate Test(w: bv64, m: bv64) {
    w & m != 0
  }

  predicate Disjoint(m: bv64, n: bv64) {
    m & n == 0
  }

  function Put(w: bv64, m: bv64, b: bool): bv64 {
    if b then w | m else w & !m
  }

  /** A bit written at i reads back. */
  lemma PutReadsBack(w: bv64, i: nat, b: bool)
    requires i < BITS_PER_MAP_LINE
    ensures Test(Put(w, Mask(i), b), Mask(i)) == b
  {
    MaskNonZero(i);
    if b { OrSelf(w, Mask(i)); } else { AndNotSelf(w, Mask(i)); }
  }

  /** Writing bit i leaves every other bit of the line alone. */
  lemma PutKeepsOthers(w: bv64, i: nat, b: bool, j: nat)
    requires i < BITS_PER_MAP_LINE && j < BITS_PER_MAP_LINE && i != j
    ensures Test(Put(w, Mask(i), b), Mask(j)) == Test(w, Mask(j))
  {
    MaskDisjoint(i, j);
    PutOther(w, Mask(i), Mask(j), b);
  }

  lemma MaskDisjoint(i: nat, j: nat)
    requires i < BITS_PER_MAP_LINE && j < BITS_PER_MAP_LINE && i != j
    ensures Disjoint(Mask(i), Mask(j))
  {
    if i == 0 {
      LowBit(Mask(j - 1));
    } else if j == 0 {
      LowBit(Mask(i - 1));
    } else {
      MaskDisjoint(i - 1, j - 1);
      ShiftBoth(Mask(i - 1), Mask(j - 1));
    }
  }

  lemma LowBit(m: bv64)
    ensures Disjoint(m << 1, 1) && Disjoint(1, m << 1)
  {}

  lemma ShiftBoth(a: bv64, b: bv64)
    requires Disjoint(a, b)
    ensures Disjoint(a << 1, b << 1)
  {}

  function ShiftLeft(w: bv64, k: nat): bv64
    decreases k
  {
    if k == 0 then w else ShiftLeft(w << 1, k - 1)
  }

  // A zero mask would stay zero when shifted on to bit 63.
  lemma MaskNonZero(i: nat)
    requires i < BITS_PER_MAP_LINE
    ensures Mask(i) != 0
  {
    ShiftLeftMask(i, 63 - i);
    ShiftLeftZero(63 - i);
    MaskTop();
  }

  lemma ShiftLeftMask(i: nat, k: nat)
    ensures ShiftLeft(Mask(i), k) == Mask(i + k)
    decreases k
  {
    if k > 0 {
      assert Mask(i + 1) == Mask(i) << 1;
      ShiftLeftMask(i + 1, k - 1);
    }
  }

  lemma ShiftLeftZero(k: nat)
    ensures ShiftLeft(0, k) == 0
  {
    if k > 0 {
      assert (0 as bv64) << 1 == 0;
      ShiftLeftZero(k - 1);
    }
  }

  lemma MaskTop()
    ensures Mask(63) == 0x8000_0000_0000_0000
  {
    assert Mask(8) == 0x100;
    assert Mask(16) == 0x1_0000;
    assert Mask(24) == 0x100_0000;
    assert Mask(32) == 0x1_0000_0000;
    assert Mask(40) == 0x100_0000_0000;
    assert Mask(48) == 0x1_0000_0000_0000;
    assert Mask(56) == 0x100_0000_0000_0000;
  }

  lemma OrSelf(w: bv64, m: bv64)
    requires m != 0
    ensures Test(w | m, m)
  {}

  lemma AndNotSelf(w: bv64, m: bv64)
    ensures !Test(w & !m, m)
  {}

  lemma PutOther(w: bv64, m: bv64, n: bv64, b: bool)
    requires Disjoint(m, n)
    ensures Test(Put(w, m, b), n) == Test(w, n)
  {
    if b { OrOther(w, m, n); } else { AndNotOther(w, m, n); }
  }

  lemma OrOther(w: bv64, m: bv64, n: bv64)
    requires Disjoint(m, n)
    ensures Test(w | m, n) == Test(w, n)
  {
    assert (w | m) & n == w & n;
  }

  lemma AndNotOther(w: bv64, m: bv64, n: bv64)
    requires Disjoint(m, n)
    ensures Test(w & !m, n) == Test(w, n)
  {
    assert (w & !m) & n == w & n;
  }
}
