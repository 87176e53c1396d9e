/** The Huffman tables of apps/gview/stb_image.h: how they are built from code lengths. */
module Huffman {
  import opened Bits
  import opened PrefixCode

  const FAST_BITS: nat := 9
  const FAST_SIZE: nat := 512

  /** A fast-table entry: the code length above nine bits of symbol. */
  function Entry(s: nat, i: nat): nat {
    Or(Shl(s, FAST_BITS), i)
  }

  lemma {:induction false} OrOfParts(s: nat, i: nat, n: nat)
    requires i < Pow2(n)
    ensures Shr(Or(Shl(s, n), i), n) == s
    ensures Low(Or(Shl(s, n), i), n) == i
    decreases n
  {
    if n == 0 {
      OrNothing(s);
    } else {
      OrOfParts(s, i / 2, n - 1);
    }
  }

  /** An entry gives back the length and the symbol, and fits in sixteen bits. */
  lemma EntryParts(s: nat, i: nat)
    requires 0 < s <= 15 && i < 288
    ensures Shr(Entry(s, i), FAST_BITS) == s
    ensures And(Entry(s, i), 511) == i
    ensures 0 < Entry(s, i) < 0x1_0000
  {
    assert Pow2(9) == 512;
    OrOfParts(s, i, 9);
    MaskIsLow(Entry(s, i), 9);
    ShlIsMonotone(s, 15, 9);
    assert Shl(15, 9) == 15 * 512;
  }

  // ---- What the tables hold

  /** The first n of the fifteen lengths have their starting code, place and limit. */
  predicate Rows(sizes: seq<nat>, firstCode: seq<nat>, firstSymbol: seq<nat>, maxCode: seq<nat>, n: nat)
    requires n <= 16 && |firstCode| == 16 && |firstSymbol| == 16 && |maxCode| == 17
  {
    forall l: nat :: 1 <= l < n ==>
      firstCode[l] == FirstCode(sizes, l) && firstSymbol[l] == FirstSymbol(sizes, l) && maxCode[l] == Shl(Limit(sizes, l), 16 - l)
  }

  /** The first n symbols are in the sorted table. */
  predicate Sorted(sizes: seq<nat>, size: seq<nat>, value: seq<nat>, n: nat)
    requires n <= |sizes| && |size| == |value| == 288
  {
    forall i: nat :: i < n && sizes[i] > 0 ==>
      Slot(sizes, i) < 288 && size[Slot(sizes, i)] == sizes[i] && value[Slot(sizes, i)] == i
  }

  /** Nine bits of input are enough to recognise symbol i. */
  predicate Hits(sizes: seq<nat>, x: nat, i: nat) {
    Starts(sizes, x, i) && sizes[i] <= FAST_BITS
  }

  /** The fast table answers exactly for the first n symbols with short codes. */
  predicate Fast(sizes: seq<nat>, fast: seq<nat>, n: nat)
    requires n <= |sizes| && |fast| == FAST_SIZE
  {
    && (forall i: nat, x: nat :: i < n && x < FAST_SIZE && Hits(sizes, x, i) ==> fast[x] == Entry(sizes[i], i))
    && (forall x: nat :: x < FAST_SIZE && fast[x] != 0 ==> exists i: nat :: i < n && Hits(sizes, x, i))
  }

  /** One more symbol in the fast table: its code's windows are set, the others kept. */
  lemma FastStep(sizes: seq<nat>, before: seq<nat>, after: seq<nat>, n: nat)
    requires Legal(sizes) && n < |sizes| && sizes[n] > 0
    requires |before| == |after| == FAST_SIZE && Fast(sizes, before, n)
    requires forall x: nat :: x < FAST_SIZE ==>
      after[x] == if Hits(sizes, x, n) then Entry(sizes[n], n) else before[x]
    ensures Fast(sizes, after, n + 1)
  {
    hide Starts;
    forall i: nat, x: nat | i < n + 1 && x < FAST_SIZE && Hits(sizes, x, i)
      ensures after[x] == Entry(sizes[i], i)
    {
      if i < n && Hits(sizes, x, n) {
        StartsUnique(sizes, x, i, n);
      }
    }
    forall x: nat | x < FAST_SIZE && after[x] != 0
      ensures exists i: nat :: i < n + 1 && Hits(sizes, x, i)
    {
      if Hits(sizes, x, n) {
      } else {
        var i: nat :| i < n && Hits(sizes, x, i);
        assert i < n + 1;
      }
    }
  }

  lemma FastSkip(sizes: seq<nat>, fast: seq<nat>, n: nat)
    requires n < |sizes| && sizes[n] == 0
    requires |fast| == FAST_SIZE && Fast(sizes, fast, n)
    ensures Fast(sizes, fast, n + 1)
  {
    forall x: nat | x < FAST_SIZE && fast[x] != 0
      ensures exists i: nat :: i < n + 1 && Hits(sizes, x, i)
    {
      var i: nat :| i < n && Hits(sizes, x, i);
      assert i < n + 1;
    }
  }

  lemma SortedStep(sizes: seq<nat>, size: seq<nat>, value: seq<nat>, n: nat)
    requires Legal(sizes) && n < |sizes| && sizes[n] > 0 && |size| == |value| == 288
    requires Sorted(sizes, size, value, n)
    ensures Slot(sizes, n) < 288
    ensures Sorted(sizes, size[Slot(sizes, n) := sizes[n]], value[Slot(sizes, n) := n], n + 1)
  {
    SlotInTable(sizes, n);
    forall i: nat | i < n && sizes[i] > 0
      ensures Slot(sizes, i) != Slot(sizes, n)
    {
      if Slot(sizes, i) == Slot(sizes, n) {
        SlotUnique(sizes, i, n);
      }
    }
  }

  // ---- Windows of one code

  lemma {:induction false} LowAdds(x: nat, n: nat)
    ensures Low(x + Pow2(n), n) == Low(x, n)
    decreases n
  {
    if n > 0 {
      LowAdds(x / 2, n - 1);
      assert (x + Pow2(n)) / 2 == x / 2 + Pow2(n - 1);
    }
  }

  lemma {:induction false} LowGap(x: nat, y: nat, n: nat)
    requires x < y && Low(x, n) == Low(y, n)
    ensures x + Pow2(n) <= y
    decreases n
  {
    if n > 0 {
      LowGap(x / 2, y / 2, n - 1);
    }
  }

  lemma {:induction false} LowIsLeast(x: nat, n: nat)
    ensures Low(x, n) <= x
    decreases n
  {
    if n > 0 {
      LowIsLeast(x / 2, n - 1);
    }
  }

  lemma {:induction false} ReversedOfLow(x: nat, n: nat)
    ensures Reversed(Low(x, n), n) == Reversed(x, n)
    decreases n
  {
    if n > 0 {
      ReversedOfLow(x / 2, n - 1);
    }
  }

  /** A window starts with a code when its low bits are the reversed code. */
  lemma WindowOfCode(x: nat, code: nat, s: nat)
    requires code < Pow2(s)
    ensures Reversed(x, s) == code <==> Low(x, s) == Reversed(code, s)
  {
    ReversedTwice(x, s);
    ReversedTwice(code, s);
    LowOfSmall(code, s);
    ReversedOfLow(x, s);
  }

  // ---- The tables

  class Table {
    const fast: array<nat>
    const firstcode: array<nat>
    const maxcode: array<nat>
    const firstsymbol: array<nat>
    const size: array<nat>
    const value: array<nat>

    ghost const arrays: set<array<nat>> := {fast, firstcode, maxcode, firstsymbol, size, value}

    ghost predicate Valid() {
      && fast.Length == FAST_SIZE && firstcode.Length == 16 && maxcode.Length == 17
      && firstsymbol.Length == 16 && size.Length == 288 && value.Length == 288
      && fast != firstcode && fast != maxcode && fast != firstsymbol && fast != size && fast != value
      && firstcode != maxcode && firstcode != firstsymbol && firstcode != size && firstcode != value
      && maxcode != firstsymbol && maxcode != size && maxcode != value
      && firstsymbol != size && firstsymbol != value && size != value
    }

    /** The tables describe the code with these lengths. */
    ghost predicate Describes(sizes: seq<nat>)
      requires Valid()
      reads arrays
    {
      && Legal(sizes) && Fits(sizes)
      && Rows(sizes, firstcode[..], firstsymbol[..], maxcode[..], 16) && maxcode[16] == 0x1_0000
      && Sorted(sizes, size[..], value[..], |sizes|)
      && Fast(sizes, fast[..], |sizes|)
    }

    constructor ()
      ensures Valid() && fresh(arrays)
    {
      fast := new nat[FAST_SIZE];
      firstcode := new nat[16];
      maxcode := new nat[17];
      firstsymbol := new nat[16];
      size := new nat[288];
      value := new nat[288];
    }

    /** Sets every window that starts with a code, stepping by 1 << s from the reversed code. */
    method FillFast(code: nat, s: nat, entry: nat)
      requires Valid() && 1 <= s <= FAST_BITS && code < Pow2(s)
      modifies fast
      ensures forall x: nat :: x < FAST_SIZE ==> fast[x] == if Reversed(x, s) == code then entry else old(fast[x])
    {
      hide Reversed, Low, Shl, BitReverse;
      var j := BitReverse(code, s);
      BitReverseReverses(code, s);
      ghost var first := Reversed(code, s);
      LowOfSmall(first, s);
      ShlOne(s);
      forall x: nat
        ensures Low(x, s) == first ==> first <= x
        ensures Reversed(x, s) == code <==> Low(x, s) == first
      {
        LowIsLeast(x, s);
        WindowOfCode(x, code, s);
      }
      while j < FAST_SIZE
        invariant Low(j, s) == first
        invariant forall x: nat :: x < FAST_SIZE ==>
          fast[x] == if x < j && Low(x, s) == first then entry else old(fast[x])
        decreases FAST_SIZE - j
      {
        fast[j] := entry;
        forall x: nat | j < x && Low(x, s) == first
          ensures j + Pow2(s) <= x
        {
          LowGap(j, x, s);
        }
        LowAdds(j, s);
        j := j + Shl(1, s);
      }
    }

    /** How many symbols have each length. */
    method CountSizes(sizelist: seq<nat>) returns (sizes: array<nat>)
      requires Legal(sizelist)
      ensures fresh(sizes) && sizes.Length == 17
      ensures forall l: nat :: 1 <= l <= 15 ==> sizes[l] == CountAll(sizelist, l)
    {
      sizes := new nat[17](_ => 0);
      var i := 0;
      while i < |sizelist|
        invariant 0 <= i <= |sizelist|
        invariant forall l: nat :: l <= 15 ==> sizes[l] == Count(sizelist, i, l)
      {
        sizes[sizelist[i]] := sizes[sizelist[i]] + 1;
        i := i + 1;
      }
      sizes[0] := 0;
    }

    /** The first code, first place and limit of each length; fails when a code does not fit. */
    method AssignCodes(ghost sizelist: seq<nat>, sizes: array<nat>) returns (ok: bool, nextCode: array<nat>)
      requires Valid() && Legal(sizelist) && sizes.Length == 17 && sizes !in arrays
      requires forall l: nat :: 1 <= l <= 15 ==> sizes[l] == CountAll(sizelist, l)
      modifies firstcode, firstsymbol, maxcode
      ensures ok <==> Fits(sizelist)
      ensures fresh(nextCode) && nextCode.Length == 16
      ensures ok ==> Rows(sizelist, firstcode[..], firstsymbol[..], maxcode[..], 16) && maxcode[16] == 0x1_0000
      ensures ok ==> forall l: nat :: 1 <= l <= 15 ==> nextCode[l] == FirstCode(sizelist, l)
    {
      hide Rows, FirstCode, CountAll, Limit, FirstSymbol, Shl, Pow2, FitsTo, Fits, Legal;
      nextCode := new nat[16];
      for i: nat := 1 to 16
        invariant forall l: nat :: 1 <= l < i ==> sizes[l] <= Pow2(l)
      {
        ShlOne(i);
        if sizes[i] > Shl(1, i) {
          TooMany(sizelist, i);
          return false, nextCode;
        }
      }
      var code: nat, k: nat := 0, 0;
      LengthOne(sizelist);
      RowsNone(sizelist, firstcode[..], firstsymbol[..], maxcode[..]);
      for i: nat := 1 to 16
        invariant code == FirstCode(sizelist, i) <= Pow2(i)
        invariant k == FirstSymbol(sizelist, i)
        invariant FitsTo(sizelist, i)
        invariant forall l: nat :: 1 <= l < i ==> nextCode[l] == FirstCode(sizelist, l)
        invariant Rows(sizelist, firstcode[..], firstsymbol[..], maxcode[..], i)
        invariant forall l: nat :: 1 <= l <= 15 ==> sizes[l] == CountAll(sizelist, l)
      {
        NextLength(sizelist, i);
        ShlOne(i);
        ghost var f: seq<nat>, m: seq<nat>, x: seq<nat> := firstcode[..], firstsymbol[..], maxcode[..];
        nextCode[i] := code;
        firstcode[i] := code % 0x1_0000;
        firstsymbol[i] := k % 0x1_0000;
        code := code + sizes[i];
        if sizes[i] > 0 {
          if code - 1 >= Shl(1, i) {
            DoesNotFit(sizelist, i);
            return false, nextCode;
          }
        }
        maxcode[i] := Shl(code, 16 - i);
        RowsStep(sizelist, f, m, x, i);
        assert firstcode[..] == f[i := FirstCode(sizelist, i)];
        assert firstsymbol[..] == m[i := FirstSymbol(sizelist, i)];
        assert maxcode[..] == x[i := Shl(Limit(sizelist, i), 16 - i)];
        code := Shl(code, 1);
        k := k + sizes[i];
      }
      FitsToAll(sizelist);
      ghost var x: seq<nat> := maxcode[..];
      RowsKept(sizelist, firstcode[..], firstsymbol[..], x);
      maxcode[16] := 0x1_0000;
      assert maxcode[..] == x[16 := 0x1_0000];
      ok := true;
    }

    /** One used symbol: its place in the sorted table, and its windows when the code is short. */
    method PlaceSymbol(sizelist: seq<nat>, nextCode: array<nat>, i: nat)
      requires Valid() && Legal(sizelist) && Fits(sizelist) && nextCode.Length == 16 && nextCode !in arrays
      requires i < |sizelist| && 0 < sizelist[i] <= 15
      requires Rows(sizelist, firstcode[..], firstsymbol[..], maxcode[..], 16)
      requires Assigned(sizelist, nextCode[..], i)
      requires Sorted(sizelist, size[..], value[..], i) && Fast(sizelist, fast[..], i)
      modifies fast, size, value, nextCode
      ensures Assigned(sizelist, nextCode[..], i + 1)
      ensures Sorted(sizelist, size[..], value[..], i + 1) && Fast(sizelist, fast[..], i + 1)
    {
      hide Rows, Sorted, Fast, Assigned, Fits, Slot, FirstCode, CodeOf, Entry, Reversed, Pow2, Legal, FirstSymbol, Count, CountAll;
      var s: nat := sizelist[i];
      SymbolFacts(sizelist, firstcode[..], firstsymbol[..], maxcode[..], nextCode[..], i);
      SortedStep(sizelist, size[..], value[..], i);
      EntryParts(s, i);
      ghost var c0: seq<nat>, s0: seq<nat>, v0: seq<nat>, f0: seq<nat> := nextCode[..], size[..], value[..], fast[..];
      var c: nat := nextCode[s] - firstcode[s] + firstsymbol[s];
      var fastv := Entry(s, i) % 0x1_0000;
      size[c] := s;
      value[c] := i;
      if s <= FAST_BITS {
        FillFast(nextCode[s], s, fastv);
      }
      FastAfter(sizelist, f0, fast[..], i);
      AssignedStep(sizelist, c0, i);
      nextCode[s] := nextCode[s] + 1;
      assert nextCode[..] == c0[s := c0[s] + 1];
      assert size[..] == s0[c := s];
      assert value[..] == v0[c := i];
    }

    /** Puts every used symbol into the sorted table, and the short ones into the fast table. */
    method PlaceSymbols(sizelist: seq<nat>, nextCode: array<nat>)
      requires Valid() && Legal(sizelist) && Fits(sizelist) && nextCode.Length == 16 && nextCode !in arrays
      requires Rows(sizelist, firstcode[..], firstsymbol[..], maxcode[..], 16)
      requires forall l: nat :: 1 <= l <= 15 ==> nextCode[l] == FirstCode(sizelist, l)
      requires forall x: nat :: x < FAST_SIZE ==> fast[x] == 0
      modifies fast, size, value, nextCode
      ensures Sorted(sizelist, size[..], value[..], |sizelist|)
      ensures Fast(sizelist, fast[..], |sizelist|)
    {
      hide Rows, Sorted, Fast, Assigned, Fits, Slot, FirstCode;
      TablesEmpty(sizelist, fast[..], size[..], value[..], nextCode[..]);
      for i: nat := 0 to |sizelist|
        invariant Assigned(sizelist, nextCode[..], i)
        invariant Sorted(sizelist, size[..], value[..], i)
        invariant Fast(sizelist, fast[..], i)
      {
        var s: nat := sizelist[i];
        if s > 0 {
          PlaceSymbol(sizelist, nextCode, i);
        } else {
          SymbolSkip(sizelist, fast[..], size[..], value[..], nextCode[..], i);
        }
      }
    }

    /** Builds the tables; refuses exactly the lengths whose codes do not fit. */
    method Build(sizelist: seq<nat>) returns (ok: bool)
      requires Valid() && Legal(sizelist)
      modifies arrays
      ensures ok <==> Fits(sizelist)
      ensures ok ==> Describes(sizelist)
    {
      hide Fast, Sorted, Rows, Fits;
      var sizes := CountSizes(sizelist);
      forall x | 0 <= x < FAST_SIZE {
        fast[x] := 0;
      }
      var nextCode;
      ok, nextCode := AssignCodes(sizelist, sizes);
      if ok {
        PlaceSymbols(sizelist, nextCode);
      }
    }
  }

  // ---- Steps of the loops

  lemma RowsNone(sizes: seq<nat>, firstCode: seq<nat>, firstSymbol: seq<nat>, maxCode: seq<nat>)
    requires |firstCode| == 16 && |firstSymbol| == 16 && |maxCode| == 17
    ensures Rows(sizes, firstCode, firstSymbol, maxCode, 1)
  {
  }

  lemma RowsStep(sizes: seq<nat>, f: seq<nat>, m: seq<nat>, x: seq<nat>, l: nat)
    requires 1 <= l <= 15 && |f| == |m| == 16 && |x| == 17 && Rows(sizes, f, m, x, l)
    ensures Rows(sizes, f[l := FirstCode(sizes, l)], m[l := FirstSymbol(sizes, l)], x[l := Shl(Limit(sizes, l), 16 - l)], l + 1)
  {
  }

  lemma RowsKept(sizes: seq<nat>, f: seq<nat>, m: seq<nat>, x: seq<nat>)
    requires |f| == |m| == 16 && |x| == 17 && Rows(sizes, f, m, x, 16)
    ensures Rows(sizes, f, m, x[16 := 0x1_0000], 16)
  {
  }

  /** The codes shorter than l fit. */
  predicate FitsTo(sizes: seq<nat>, l: nat) {
    forall k: nat :: 1 <= k < l && k <= 15 && CountAll(sizes, k) > 0 ==> Limit(sizes, k) <= Pow2(k)
  }

  lemma LengthOne(sizes: seq<nat>)
    ensures FirstCode(sizes, 1) == 0 && FirstSymbol(sizes, 1) == 0 && FitsTo(sizes, 1) && 0 <= Pow2(1)
  {
  }

  lemma FitsToAll(sizes: seq<nat>)
    requires FitsTo(sizes, 16)
    ensures Fits(sizes)
  {
  }

  lemma TooMany(sizes: seq<nat>, l: nat)
    requires 1 <= l <= 15 && CountAll(sizes, l) > Pow2(l)
    ensures !Fits(sizes)
  {
    assert Limit(sizes, l) > Pow2(l);
  }

  lemma DoesNotFit(sizes: seq<nat>, l: nat)
    requires 1 <= l <= 15 && CountAll(sizes, l) > 0 && FirstCode(sizes, l) + CountAll(sizes, l) > Pow2(l)
    ensures !Fits(sizes)
  {
    assert Limit(sizes, l) > Pow2(l);
  }

  /** From one length to the next. */
  lemma NextLength(sizes: seq<nat>, l: nat)
    requires Legal(sizes) && 1 <= l <= 15 && FirstCode(sizes, l) <= Pow2(l) && FitsTo(sizes, l)
    ensures FirstCode(sizes, l) + CountAll(sizes, l) == Limit(sizes, l)
    ensures FirstCode(sizes, l) < 0x1_0000 && FirstSymbol(sizes, l) < 0x1_0000
    ensures FirstCode(sizes, l + 1) == Shl(Limit(sizes, l), 1)
    ensures FirstSymbol(sizes, l + 1) == FirstSymbol(sizes, l) + CountAll(sizes, l)
    ensures CountAll(sizes, l) == 0 || Limit(sizes, l) <= Pow2(l) ==> FitsTo(sizes, l + 1) && FirstCode(sizes, l + 1) <= Pow2(l + 1)
  {
    PowerFits(l);
    FirstSymbolIsUsed(sizes, l);
    assert Shl(Limit(sizes, l), 1) == 2 * Shl(Limit(sizes, l), 0);
  }

  /** The next code of each length after n symbols. */
  predicate Assigned(sizes: seq<nat>, nextCode: seq<nat>, n: nat)
    requires n <= |sizes| && |nextCode| == 16
  {
    forall l: nat :: 1 <= l <= 15 ==> nextCode[l] == FirstCode(sizes, l) + Count(sizes, n, l)
  }

  lemma AssignedStep(sizes: seq<nat>, nextCode: seq<nat>, n: nat)
    requires n < |sizes| && |nextCode| == 16 && Assigned(sizes, nextCode, n) && 0 < sizes[n] <= 15
    ensures Assigned(sizes, nextCode[sizes[n] := nextCode[sizes[n]] + 1], n + 1)
  {
  }

  lemma SymbolFacts(sizes: seq<nat>, f: seq<nat>, m: seq<nat>, x: seq<nat>, nextCode: seq<nat>, n: nat)
    requires Legal(sizes) && Fits(sizes) && n < |sizes| && 0 < sizes[n] <= 15
    requires |f| == |m| == |nextCode| == 16 && |x| == 17 && Rows(sizes, f, m, x, 16) && Assigned(sizes, nextCode, n)
    ensures |sizes| <= 288
    ensures nextCode[sizes[n]] == CodeOf(sizes, n) < Pow2(sizes[n])
    ensures nextCode[sizes[n]] >= f[sizes[n]]
    ensures nextCode[sizes[n]] - f[sizes[n]] + m[sizes[n]] == Slot(sizes, n)
  {
    CodeFits(sizes, n);
  }

  lemma SymbolSkip(sizes: seq<nat>, fast: seq<nat>, size: seq<nat>, value: seq<nat>, nextCode: seq<nat>, n: nat)
    requires n < |sizes| && sizes[n] == 0 && |size| == |value| == 288 && |fast| == FAST_SIZE && |nextCode| == 16
    requires Sorted(sizes, size, value, n) && Fast(sizes, fast, n) && Assigned(sizes, nextCode, n)
    ensures Sorted(sizes, size, value, n + 1) && Fast(sizes, fast, n + 1) && Assigned(sizes, nextCode, n + 1)
  {
    FastSkip(sizes, fast, n);
  }

  lemma RowAt(sizes: seq<nat>, f: seq<nat>, m: seq<nat>, x: seq<nat>, l: nat)
    requires 1 <= l <= 15 && |f| == |m| == 16 && |x| == 17 && Rows(sizes, f, m, x, 16)
    ensures f[l] == FirstCode(sizes, l) && m[l] == FirstSymbol(sizes, l) && x[l] == Shl(Limit(sizes, l), 16 - l)
  {
  }

  lemma PowerFits(l: nat)
    requires l <= 15
    ensures Pow2(l) < 0x1_0000
  {
    assert Pow2(8) == 256;
    assert Pow2(15) == 0x8000;
    ShlOne(l);
    ShlOne(15);
    ShlSum(1, l, 15 - l);
    GrowsShl(Pow2(l), 15 - l);
  }

  lemma {:induction false} GrowsShl(x: nat, n: nat)
    ensures Shl(x, n) >= x
  {
    if n > 0 {
      GrowsShl(x, n - 1);
    }
  }

  lemma TablesEmpty(sizes: seq<nat>, fast: seq<nat>, size: seq<nat>, value: seq<nat>, nextCode: seq<nat>)
    requires |fast| == FAST_SIZE && |size| == |value| == 288 && |nextCode| == 16
    requires forall l: nat :: 1 <= l <= 15 ==> nextCode[l] == FirstCode(sizes, l)
    requires forall x: nat :: x < FAST_SIZE ==> fast[x] == 0
    ensures Sorted(sizes, size, value, 0) && Fast(sizes, fast, 0) && Assigned(sizes, nextCode, 0)
  {
  }

  lemma FastAfter(sizes: seq<nat>, before: seq<nat>, after: seq<nat>, n: nat)
    requires Legal(sizes) && n < |sizes| && sizes[n] > 0 && |before| == |after| == FAST_SIZE && Fast(sizes, before, n)
    requires sizes[n] > FAST_BITS ==> after == before
    requires sizes[n] <= FAST_BITS ==>
      forall x: nat :: x < FAST_SIZE ==> after[x] == if Reversed(x, sizes[n]) == CodeOf(sizes, n) then Entry(sizes[n], n) else before[x]
    ensures Fast(sizes, after, n + 1)
  {
    FastStep(sizes, before, after, n);
  }
}
