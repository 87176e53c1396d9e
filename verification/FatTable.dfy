/** The file allocation table of kernel/io/fat.cpp: cluster chains as linked lists in an
    array, and their allocation. */
module FatTable {

  const END_OF_CLUSTERCHAIN: nat := 0x0fffffff

  predicate IsEndOfClusterchain(cluster: nat) {
    cluster >= 0x0ffffff8
  }

  /** The entries of the volume's clusters; no cluster number reads as an end mark. */
  predicate Table(fat: seq<nat>) {
    2 <= |fat| <= 0x0ffffff8
  }

  /** The entry of c's i-th cluster leads on: to the next one, or to the end. */
  predicate Leads(fat: seq<nat>, c: seq<nat>, i: nat)
    requires i < |c|
  {
    2 <= c[i] < |fat| && if i < |c| - 1 then fat[c[i]] == c[i + 1] else IsEndOfClusterchain(fat[c[i]])
  }

  /** c lists the clusters reached from c[0], up to the end mark. */
  predicate Chain(fat: seq<nat>, c: seq<nat>) {
    |c| > 0 && forall i: nat :: i < |c| ==> Leads(fat, c, i)
  }

  lemma ChainRest(fat: seq<nat>, c: seq<nat>, i: nat)
    requires Chain(fat, c) && i < |c|
    ensures Chain(fat, c[i..])
  {
    forall j: nat | j < |c[i..]|
      ensures Leads(fat, c[i..], j)
    {
      assert Leads(fat, c, i + j);
    }
  }

  /** Clusters of a chain are in use. */
  lemma ChainUsed(fat: seq<nat>, c: seq<nat>, k: nat)
    requires Table(fat) && Chain(fat, c) && k in c
    ensures 2 <= k < |fat| && !IsFree(fat, k)
  {
    var i: nat :| i < |c| && c[i] == k;
    assert Leads(fat, c, i);
    if i < |c| - 1 {
      assert Leads(fat, c, i + 1);
    }
  }

  /** There is one chain from a cluster. */
  lemma {:induction false} ChainUnique(fat: seq<nat>, c: seq<nat>, d: seq<nat>)
    requires Table(fat) && Chain(fat, c) && Chain(fat, d) && c[0] == d[0]
    ensures c == d
    decreases |c|
  {
    assert Leads(fat, c, 0) && Leads(fat, d, 0);
    if |c| > 1 {
      assert Leads(fat, c, 1);
    }
    if |d| > 1 {
      assert Leads(fat, d, 1);
    }
    if |c| > 1 && |d| > 1 {
      ChainRest(fat, c, 1);
      ChainRest(fat, d, 1);
      ChainUnique(fat, c[1..], d[1..]);
      assert c == [c[0]] + c[1..] && d == [d[0]] + d[1..];
    }
  }

  /** A terminated chain has no cycle. */
  lemma ChainAcyclic(fat: seq<nat>, c: seq<nat>, i: nat, j: nat)
    requires Table(fat) && Chain(fat, c) && i < |c| && j < |c| && c[i] == c[j]
    ensures i == j
  {
    ChainRest(fat, c, i);
    ChainRest(fat, c, j);
    ChainUnique(fat, c[i..], c[j..]);
  }

  /** Chains that meet end together. */
  lemma ChainsMerge(fat: seq<nat>, c: seq<nat>, d: seq<nat>, i: nat, j: nat)
    requires Table(fat) && Chain(fat, c) && Chain(fat, d) && i < |c| && j < |d| && c[i] == d[j]
    ensures c[i..] == d[j..]
  {
    ChainRest(fat, c, i);
    ChainRest(fat, d, j);
    ChainUnique(fat, c[i..], d[j..]);
  }

  // ---- Free clusters

  predicate IsFree(fat: seq<nat>, k: nat) {
    2 <= k < |fat| && fat[k] == 0
  }

  /** The free clusters from k on, lowest first. */
  function FreeFrom(fat: seq<nat>, k: nat): (f: seq<nat>)
    requires k >= 2
    ensures forall i :: 0 <= i < |f| ==> f[i] >= k && IsFree(fat, f[i])
    ensures forall i, j :: 0 <= i < j < |f| ==> f[i] < f[j]
    decreases |fat| - k
  {
    if k >= |fat| then [] else (if fat[k] == 0 then [k] else []) + FreeFrom(fat, k + 1)
  }

  lemma {:induction false} FreeFromAll(fat: seq<nat>, k: nat, c: nat)
    requires 2 <= k <= c && IsFree(fat, c)
    ensures c in FreeFrom(fat, k)
    decreases |fat| - k
  {
    if k < c {
      FreeFromAll(fat, k + 1, c);
    }
  }

  // ---- Linking

  /** The table after new clusters are linked behind last and the end is marked. */
  predicate Linked(before: seq<nat>, after: seq<nat>, last: nat, more: seq<nat>) {
    && |after| == |before|
    && Chain(after, [last] + more)
    && (forall k: nat :: k < |before| && k != last && k !in more ==> after[k] == before[k])
  }

  /** A chain grows by the clusters linked behind its last one. */
  lemma LinkedExtends(before: seq<nat>, after: seq<nat>, c: seq<nat>, more: seq<nat>)
    requires Table(before) && Chain(before, c) && Linked(before, after, c[|c| - 1], more)
    requires forall k :: k in more ==> IsFree(before, k)
    ensures Chain(after, c + more)
  {
    var last := |c| - 1;
    var all, tail := c + more, [c[last]] + more;
    forall i: nat | i < |all|
      ensures Leads(after, all, i)
    {
      if i < last {
        assert Leads(before, c, i);
        ChainUsed(before, c, c[i]);
        if c[i] == c[last] {
          ChainAcyclic(before, c, i, last);
        }
      } else {
        assert Leads(after, tail, i - last);
        assert all[i] == tail[i - last];
        assert i < |all| - 1 ==> all[i + 1] == tail[i - last + 1];
      }
    }
  }

  /** Any other chain stays as it is. */
  lemma LinkedKeeps(before: seq<nat>, after: seq<nat>, last: nat, more: seq<nat>, d: seq<nat>)
    requires Table(before) && Chain(before, d) && Linked(before, after, last, more) && last !in d
    requires forall k :: k in more ==> IsFree(before, k)
    ensures Chain(after, d)
    ensures forall k :: k in d ==> k !in more
  {
    forall i: nat | i < |d|
      ensures Leads(after, d, i) && d[i] !in more
    {
      ChainUsed(before, d, d[i]);
      assert Leads(before, d, i);
    }
  }

  // ---- Steps of the allocation loop

  /** Distinct clusters of which each points to the next; the last one is not yet set. */
  predicate Linking(before: seq<nat>, after: seq<nat>, s: seq<nat>) {
    && |after| == |before| && |s| > 0
    && (forall k :: k in s ==> 2 <= k < |before|)
    && (forall i, j :: 0 <= i < j < |s| ==> s[i] != s[j])
    && (forall i: nat :: i < |s| - 1 ==> Points(after, s, i))
    && (forall k: nat :: k < |before| && k !in s[..|s| - 1] ==> after[k] == before[k])
  }

  predicate Points(fat: seq<nat>, s: seq<nat>, i: nat)
    requires i < |s| - 1
  {
    s[i] < |fat| && fat[s[i]] == s[i + 1]
  }

  lemma LinkStep(before: seq<nat>, after: seq<nat>, s: seq<nat>, candidate: nat)
    requires Linking(before, after, s) && 2 <= candidate < |before| && candidate !in s
    ensures s[|s| - 1] < |after|
    ensures Linking(before, after[s[|s| - 1] := candidate], s + [candidate])
  {
    var last := s[|s| - 1];
    assert last in s;
    var now, t := after[last := candidate], s + [candidate];
    forall i: nat | i < |t| - 1
      ensures Points(now, t, i)
    {
      if i < |s| - 1 {
        assert Points(after, s, i);
      }
    }
    assert t[..|t| - 1] == s[..|s| - 1] + [last];
  }

  lemma LinkEnd(before: seq<nat>, after: seq<nat>, s: seq<nat>)
    requires Linking(before, after, s)
    ensures s[|s| - 1] < |after|
    ensures Linked(before, after[s[|s| - 1] := END_OF_CLUSTERCHAIN], s[0], s[1..])
  {
    var last := s[|s| - 1];
    assert last in s;
    var now := after[last := END_OF_CLUSTERCHAIN];
    assert [s[0]] + s[1..] == s;
    forall i: nat | i < |s|
      ensures Leads(now, s, i)
    {
      assert s[i] in s;
      if i < |s| - 1 {
        assert Points(after, s, i);
      }
    }
    forall k: nat | k < |before| && k != s[0] && k !in s[1..]
      ensures now[k] == before[k]
    {
      assert k !in s;
    }
  }

  /** The free clusters after those below t are taken. */
  lemma {:induction false} FreeAbove(before: seq<nat>, after: seq<nat>, k: nat, t: nat)
    requires 2 <= k && 2 <= t && |before| == |after|
    requires forall i: nat :: i < |before| && i >= t ==> (after[i] == 0 <==> before[i] == 0)
    requires forall i: nat :: 2 <= i < |before| && i < t ==> after[i] != 0
    ensures FreeFrom(after, k) == FreeFrom(before, if k < t then t else k)
    decreases |before| - k
  {
    if k < |before| {
      FreeAbove(before, after, k + 1, t);
    }
  }
}
