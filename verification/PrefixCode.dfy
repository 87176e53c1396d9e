/** The canonical prefix code of RFC 1951, section 3.2.2: what a list of code lengths means. */
module PrefixCode {
  import opened Bits

  /** Code lengths by symbol; length zero means the symbol is not used. */
  predicate Legal(sizes: seq<nat>) {
    |sizes| <= 288 && forall i :: 0 <= i < |sizes| ==> sizes[i] <= 15
  }

  /** How many of the first n symbols have length l. */
  function Count(sizes: seq<nat>, n: nat, l: nat): (c: nat)
    requires n <= |sizes|
    ensures c <= n
  {
    if n == 0 then 0 else Count(sizes, n - 1, l) + if sizes[n - 1] == l then 1 else 0
  }

  function CountAll(sizes: seq<nat>, l: nat): nat {
    Count(sizes, |sizes|, l)
  }

  /** The smallest code of length l. */
  function FirstCode(sizes: seq<nat>, l: nat): nat {
    if l <= 1 then 0 else 2 * (FirstCode(sizes, l - 1) + CountAll(sizes, l - 1))
  }

  /** One past the largest code of length l. */
  function Limit(sizes: seq<nat>, l: nat): nat {
    FirstCode(sizes, l) + CountAll(sizes, l)
  }

  /** The code of symbol i. */
  function CodeOf(sizes: seq<nat>, i: nat): nat
    requires i < |sizes|
  {
    FirstCode(sizes, sizes[i]) + Count(sizes, i, sizes[i])
  }

  /** Every code fits in its length. */
  predicate Fits(sizes: seq<nat>) {
    forall l: nat :: 1 <= l <= 15 && CountAll(sizes, l) > 0 ==> Limit(sizes, l) <= Pow2(l)
  }

  // ---- Counting

  lemma {:induction false} CountMono(sizes: seq<nat>, m: nat, n: nat, l: nat)
    requires m <= n <= |sizes|
    ensures Count(sizes, m, l) <= Count(sizes, n, l)
    ensures m < n && sizes[m] == l ==> Count(sizes, m, l) < Count(sizes, n, l)
  {
    if m < n {
      CountMono(sizes, m, n - 1, l);
    }
  }

  /** The r-th symbol of length l. */
  function Nth(sizes: seq<nat>, n: nat, l: nat, r: nat): (i: nat)
    requires n <= |sizes| && r < Count(sizes, n, l)
    ensures i < n && sizes[i] == l && Count(sizes, i, l) == r
  {
    if sizes[n - 1] == l && Count(sizes, n - 1, l) == r then n - 1 else Nth(sizes, n - 1, l, r)
  }

  lemma CodeBelowLimit(sizes: seq<nat>, i: nat)
    requires i < |sizes|
    ensures FirstCode(sizes, sizes[i]) <= CodeOf(sizes, i) < Limit(sizes, sizes[i])
  {
    CountMono(sizes, i, |sizes|, sizes[i]);
  }

  // ---- Prefixes

  /** Symbol i's code is the first sizes[i] bits of the window x, read lowest bit first. */
  predicate Starts(sizes: seq<nat>, x: nat, i: nat) {
    i < |sizes| && sizes[i] > 0 && Reversed(x, sizes[i]) == CodeOf(sizes, i)
  }

  /** The first l bits of the window are a code of that length. */
  predicate InRange(sizes: seq<nat>, x: nat, l: nat) {
    FirstCode(sizes, l) <= Reversed(x, l) < Limit(sizes, l)
  }

  lemma {:induction false} ReversedHalf(x: nat, l: nat)
    ensures Reversed(x, l + 1) / 2 == Reversed(x, l)
    decreases l
  {
    if l > 0 {
      ReversedHalf(x / 2, l - 1);
    }
  }

  /** Once the window is below a limit it is below the first code of every longer length. */
  lemma {:induction false} BelowStays(sizes: seq<nat>, x: nat, l: nat, m: nat)
    requires 1 <= l < m && Reversed(x, l) < Limit(sizes, l)
    ensures Reversed(x, m) < FirstCode(sizes, m)
    decreases m
  {
    if l < m - 1 {
      BelowStays(sizes, x, l, m - 1);
    }
    ReversedHalf(x, m - 1);
  }

  /** Above every shorter limit, the window is at or past the first code. */
  lemma AboveFirst(sizes: seq<nat>, x: nat, l: nat)
    requires l >= 1 && (l > 1 ==> Reversed(x, l - 1) >= Limit(sizes, l - 1))
    ensures FirstCode(sizes, l) <= Reversed(x, l)
  {
    if l > 1 {
      ReversedHalf(x, l - 1);
    }
  }

  lemma StartsInRange(sizes: seq<nat>, x: nat, i: nat)
    requires Starts(sizes, x, i)
    ensures InRange(sizes, x, sizes[i])
  {
    CodeBelowLimit(sizes, i);
  }

  /** At most one symbol's code starts a window: the code is uniquely decodable. */
  lemma StartsUnique(sizes: seq<nat>, x: nat, i: nat, j: nat)
    requires Starts(sizes, x, i) && Starts(sizes, x, j)
    ensures i == j
  {
    StartsInRange(sizes, x, i);
    StartsInRange(sizes, x, j);
    if sizes[i] < sizes[j] {
      BelowStays(sizes, x, sizes[i], sizes[j]);
    } else if sizes[j] < sizes[i] {
      BelowStays(sizes, x, sizes[j], sizes[i]);
    } else if i < j {
      CountMono(sizes, i, j, sizes[i]);
    } else if j < i {
      CountMono(sizes, j, i, sizes[i]);
    }
  }

  /** The symbol found from the length at which the window is first below the limit. */
  lemma NthStarts(sizes: seq<nat>, x: nat, l: nat)
    requires l >= 1 && InRange(sizes, x, l)
    ensures Reversed(x, l) - FirstCode(sizes, l) < CountAll(sizes, l)
    ensures Starts(sizes, x, Nth(sizes, |sizes|, l, Reversed(x, l) - FirstCode(sizes, l)))
  {
  }

  // ---- When the codes fit

  lemma {:induction false} FirstCodeFits(sizes: seq<nat>, l: nat)
    requires Fits(sizes) && 1 <= l <= 16
    ensures FirstCode(sizes, l) <= Pow2(l)
    decreases l
  {
    if l > 1 {
      FirstCodeFits(sizes, l - 1);
    }
  }

  lemma CodeFits(sizes: seq<nat>, i: nat)
    requires Legal(sizes) && Fits(sizes) && i < |sizes| && sizes[i] > 0
    ensures CodeOf(sizes, i) < Pow2(sizes[i])
  {
    CodeBelowLimit(sizes, i);
  }

  /** Each code of length l takes 2^(15-l) of the 2^15 words of fifteen bits. */
  function Words(sizes: seq<nat>, l: nat): nat
    requires l <= 15
  {
    if l == 0 then 0 else Words(sizes, l - 1) + Shl(CountAll(sizes, l), 15 - l)
  }

  lemma {:induction false} WordsOfLimit(sizes: seq<nat>, l: nat)
    requires 1 <= l <= 15
    ensures Words(sizes, l) == Shl(Limit(sizes, l), 15 - l)
    decreases l
  {
    if l > 1 {
      WordsOfLimit(sizes, l - 1);
      ShlAdds(FirstCode(sizes, l), CountAll(sizes, l), 15 - l);
      ShlDouble(Limit(sizes, l - 1), 15 - l);
    }
  }

  lemma {:induction false} ShlAdds(x: nat, y: nat, n: nat)
    ensures Shl(x + y, n) == Shl(x, n) + Shl(y, n)
  {
    if n > 0 {
      ShlAdds(x, y, n - 1);
    }
  }

  lemma {:induction false} ShlDouble(x: nat, n: nat)
    ensures Shl(x, n + 1) == Shl(2 * x, n)
  {
    if n > 0 {
      ShlDouble(x, n - 1);
    }
  }

  lemma {:induction false} ShlCancels(x: nat, y: nat, n: nat)
    ensures Shl(x, n) <= Shl(y, n) <==> x <= y
  {
    if n > 0 {
      ShlCancels(x, y, n - 1);
    }
  }

  lemma {:induction false} WordsMono(sizes: seq<nat>, l: nat, m: nat)
    requires l <= m <= 15
    ensures Words(sizes, l) <= Words(sizes, m)
    decreases m
  {
    if l < m {
      WordsMono(sizes, l, m - 1);
    }
  }

  /** The Kraft inequality: codes of the given lengths fit exactly when they do not
      need more than all words of fifteen bits. */
  lemma FitsIsKraft(sizes: seq<nat>)
    ensures Fits(sizes) <==> Words(sizes, 15) <= Pow2(15)
  {
    if Fits(sizes) {
      FitsToWords(sizes, 15);
    }
    if Words(sizes, 15) <= Pow2(15) {
      forall l: nat | 1 <= l <= 15 && CountAll(sizes, l) > 0
        ensures Limit(sizes, l) <= Pow2(l)
      {
        WordsMono(sizes, l, 15);
        WordsOfLimit(sizes, l);
        PowerOfParts(l, 15);
        ShlCancels(Limit(sizes, l), Pow2(l), 15 - l);
      }
    }
  }

  lemma PowerOfParts(l: nat, n: nat)
    requires l <= n
    ensures Shl(Pow2(l), n - l) == Pow2(n)
  {
    ShlOne(l);
    ShlOne(n);
    ShlSum(1, l, n - l);
  }

  lemma FitsToWords(sizes: seq<nat>, l: nat)
    requires Fits(sizes) && 1 <= l <= 15
    ensures Words(sizes, l) <= Pow2(15)
  {
    WordsOfLimit(sizes, l);
    FirstCodeFits(sizes, l);
    PowerOfParts(l, 15);
    ShlCancels(Limit(sizes, l), Pow2(l), 15 - l);
  }

  /** No code is a prefix of another symbol's code. */
  lemma PrefixFree(sizes: seq<nat>, i: nat, j: nat)
    requires Legal(sizes) && Fits(sizes)
    requires i < |sizes| && j < |sizes| && i != j && 0 < sizes[i] <= sizes[j]
    ensures Shr(CodeOf(sizes, j), sizes[j] - sizes[i]) != CodeOf(sizes, i)
  {
    // The window holding j's code starts with it.
    var x := Reversed(CodeOf(sizes, j), sizes[j]);
    CodeFits(sizes, j);
    ReversedTwice(CodeOf(sizes, j), sizes[j]);
    LowOfSmall(CodeOf(sizes, j), sizes[j]);
    DropReversed(x, sizes[j], sizes[i]);
    if Starts(sizes, x, i) {
      StartsUnique(sizes, x, i, j);
    }
  }

  // ---- Places in the sorted table

  /** The number of used symbols with codes shorter than l. */
  function FirstSymbol(sizes: seq<nat>, l: nat): nat {
    if l <= 1 then 0 else FirstSymbol(sizes, l - 1) + CountAll(sizes, l - 1)
  }

  /** The place of symbol i among the used symbols in order of code. */
  function Slot(sizes: seq<nat>, i: nat): nat
    requires i < |sizes|
  {
    FirstSymbol(sizes, sizes[i]) + Count(sizes, i, sizes[i])
  }

  lemma {:induction false} FirstSymbolMono(sizes: seq<nat>, l: nat, m: nat)
    requires 1 <= l < m
    ensures FirstSymbol(sizes, l) + CountAll(sizes, l) <= FirstSymbol(sizes, m)
    decreases m
  {
    if l < m - 1 {
      FirstSymbolMono(sizes, l, m - 1);
    }
  }

  lemma SlotUnique(sizes: seq<nat>, i: nat, j: nat)
    requires i < |sizes| && j < |sizes| && sizes[i] > 0 && sizes[j] > 0
    requires Slot(sizes, i) == Slot(sizes, j)
    ensures i == j
  {
    CodeBelowLimit(sizes, i);
    CodeBelowLimit(sizes, j);
    if sizes[i] < sizes[j] {
      FirstSymbolMono(sizes, sizes[i], sizes[j]);
    } else if sizes[j] < sizes[i] {
      FirstSymbolMono(sizes, sizes[j], sizes[i]);
    } else if i < j {
      CountMono(sizes, i, j, sizes[i]);
    } else if j < i {
      CountMono(sizes, j, i, sizes[i]);
    }
  }

  /** How many of the first n symbols have a length in 1..l. */
  function Used(sizes: seq<nat>, n: nat, l: nat): (c: nat)
    requires n <= |sizes|
    ensures c <= n
  {
    if n == 0 then 0 else Used(sizes, n - 1, l) + if 1 <= sizes[n - 1] < l then 1 else 0
  }

  lemma {:induction false} UsedStep(sizes: seq<nat>, n: nat, l: nat)
    requires n <= |sizes| && l >= 1
    ensures Used(sizes, n, l + 1) == Used(sizes, n, l) + Count(sizes, n, l)
  {
    if n > 0 {
      UsedStep(sizes, n - 1, l);
    }
  }

  lemma {:induction false} NoneBelowOne(sizes: seq<nat>, n: nat)
    requires n <= |sizes|
    ensures Used(sizes, n, 1) == 0
  {
    if n > 0 {
      NoneBelowOne(sizes, n - 1);
    }
  }

  lemma {:induction false} FirstSymbolIsUsed(sizes: seq<nat>, l: nat)
    requires l >= 1
    ensures FirstSymbol(sizes, l) == Used(sizes, |sizes|, l) <= |sizes|
    decreases l
  {
    if l == 1 {
      NoneBelowOne(sizes, |sizes|);
    } else {
      FirstSymbolIsUsed(sizes, l - 1);
      UsedStep(sizes, |sizes|, l - 1);
    }
  }

  /** The table has a place for every used symbol. */
  lemma SlotInTable(sizes: seq<nat>, i: nat)
    requires i < |sizes| && sizes[i] > 0
    ensures Slot(sizes, i) < |sizes|
  {
    CodeBelowLimit(sizes, i);
    FirstSymbolIsUsed(sizes, sizes[i] + 1);
  }
}
