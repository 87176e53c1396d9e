/** What several models share: optional values, bytes, and multiples. */
module Common {

  datatype Option<+T> = None | Some(value: T)

  predicate Bytes(s: seq<nat>) {
    forall k :: 0 <= k < |s| ==> s[k] < 256
  }

  /** n * k, as the k-th multiple of n. */
  function Times(n: nat, k: nat): nat {
    if k == 0 then 0 else Times(n, k - 1) + n
  }

  lemma {:induction false} TimesMono(n: nat, j: nat, k: nat)
    requires j < k
    ensures Times(n, j) + n <= Times(n, k)
  {
    if j < k - 1 {
      TimesMono(n, j, k - 1);
    }
  }

  lemma {:induction false} TimesFirst(n: nat, k: nat)
    ensures Times(n, k + 1) == n + Times(n, k)
  {
    if k > 0 {
      TimesFirst(n, k - 1);
    }
  }

  /** A multiple of d is not between -d and d, unless it is zero. */
  lemma MultipleIsFar(d: nat, e: int)
    ensures e >= 1 ==> d * e >= d
    ensures e <= -1 ==> d * e <= 0 - d
  {
    if e >= 1 {
      assert d * (e - 1) >= 0;
    } else if e <= -1 {
      assert d * (-e - 1) >= 0;
    }
  }
}
