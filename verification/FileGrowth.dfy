/** How a write moves over a file's chain and extends it. */
module FileGrowth {
  import opened FatTable
  import opened FileBytes
  import opened FileSystem

  lemma ChainHeld(fat: seq<nat>, data: seq<seq<nat>>, size: nat, c: seq<nat>)
    requires Disk(fat, data, size) && (c == [] || Chain(fat, c))
    ensures Held(data, size, c)
    ensures forall i, j :: 0 <= i < j < |c| ==> c[i] != c[j]
  {
    forall i: nat | i < |c|
      ensures c[i] < |data| && |data[c[i]]| == size
    {
      ChainLeads(fat, c, i);
    }
    forall i: nat, j: nat | i < j < |c|
      ensures c[i] != c[j]
    {
      if c[i] == c[j] {
        ChainAcyclic(fat, c, i, j);
      }
    }
  }

  // ---- Free clusters a write may need

  /** 1 + 2 + ... + k. */
  function Sum(k: nat): nat {
    if k == 0 then 0 else k + Sum(k - 1)
  }

  /** How many of the left bytes lie past the end of a chain of n clusters, written from
      off in its k-th cluster. */
  function Beyond(size: nat, n: nat, k: nat, off: nat, left: nat): nat {
    if Start(size, k) + off + left > Start(size, n) then Start(size, k) + off + left - Start(size, n) else 0
  }

  /** The free clusters suffice even for repeated extensions. */
  predicate Suffices(free: nat, size: nat, n: nat, k: nat, off: nat, left: nat)
    requires size > 0
  {
    Sum(NumCluster(size, Beyond(size, n, k, off, left))) <= free
  }

  lemma SufficesGrow(free: nat, size: nat, n: nat, left: nat)
    requires size > 0 && n > 0 && left > 0 && Suffices(free, size, n, n - 1, size, left)
    ensures var more := NumCluster(size, left);
      && 1 <= more <= free
      && Start(size, n) + left <= Start(size, n + more)
      && (more == 1 <==> left <= size)
      && Suffices(free - more, size, n + more, n + more - 1, 0, left)
  {
    var more := NumCluster(size, left);
    NumClusterStep(size, left);
    StartAdds(size, n, more);
    NumClusterHolds(size, left);
    assert Beyond(size, n, n - 1, size, left) == left;
    assert Sum(more) == more + Sum(more - 1);
    var rest := Beyond(size, n + more, n + more - 1, 0, left);
    assert rest == if left > size then left - size else 0;
    NumClusterStep(size, rest);
  }

  lemma {:induction false} StartAdds(size: nat, m: nat, n: nat)
    ensures Start(size, m + n) == Start(size, m) + Start(size, n)
  {
    if n > 0 {
      StartAdds(size, m, n - 1);
    }
  }

  // ---- The state of a write

  /** The lowest free clusters were taken, in order. */
  predicate Took(free0: seq<nat>, free: seq<nat>, taken: seq<nat>) {
    free0 == taken + free
  }

  /** The file's chain has only grown, by clusters that were free; nothing else changed. */
  predicate Grown(fat0: seq<nat>, data0: seq<seq<nat>>, fat: seq<nat>, data: seq<seq<nat>>, size: nat, chain0: seq<nat>, chain: seq<nat>) {
    && Disk(fat0, data0, size) && Disk(fat, data, size) && |fat| == |fat0|
    && Chain(fat, chain) && chain0 <= chain
    && Took(FreeFrom(fat0, 2), FreeFrom(fat, 2), chain[|chain0|..])
    && KeptOutside(fat0, fat, chain)
    && (forall c: nat :: c < |data| && c !in chain ==> data[c] == data0[c])
  }

  /** The bytes written so far stand in the file where they belong, and the next byte will. */
  predicate Straight(data0: seq<seq<nat>>, data: seq<seq<nat>>, size: nat, chain: seq<nat>, k: nat, off: nat, p: nat, part: seq<nat>) {
    && Held(data0, size, chain) && Held(data, size, chain) && k < |chain| && off <= size
    && Start(size, k) + off == p + |part| <= Start(size, |chain|)
    && Bytes(data, size, chain) == Splice(Bytes(data0, size, chain), p, part)
  }

  /** The write has skipped the file's next cluster and will not come back to it. */
  predicate Skewed(data0: seq<seq<nat>>, data: seq<seq<nat>>, size: nat, n0: nat, chain: seq<nat>, k: nat) {
    && n0 < k && k == |chain| - 1 && chain[n0] < |data| && chain[n0] < |data0|
    && data[chain[n0]] == data0[chain[n0]]
  }

  lemma GrownStart(fat: seq<nat>, data: seq<seq<nat>>, size: nat, chain: seq<nat>, k: nat, off: nat)
    requires Disk(fat, data, size) && Chain(fat, chain) && k < |chain| && off <= size
    ensures Grown(fat, data, fat, data, size, chain, chain)
    ensures Straight(data, data, size, chain, k, off, Start(size, k) + off, [])
  {
    ChainHeld(fat, data, size, chain);
    StartMono(size, k, |chain|);
  }

  /** One cluster's worth of bytes. */
  lemma PutStep(fat0: seq<nat>, data0: seq<seq<nat>>, fat: seq<nat>, data: seq<seq<nat>>, size: nat, chain0: seq<nat>, chain: seq<nat>, k: nat, off: nat, part: seq<nat>)
    requires Grown(fat0, data0, fat, data, size, chain0, chain) && k < |chain| && off + |part| <= size
    ensures chain[k] < |data| && |data[chain[k]]| == size
    ensures Grown(fat0, data0, fat, data[chain[k] := Splice(data[chain[k]], off, part)], size, chain0, chain)
  {
    ChainHeld(fat, data, size, chain);
    assert chain[k] in chain;
  }

  lemma PutStraight(fat: seq<nat>, data0: seq<seq<nat>>, data: seq<seq<nat>>, size: nat, chain: seq<nat>, k: nat, off: nat, p: nat, done: seq<nat>, part: seq<nat>)
    requires Disk(fat, data, size) && Chain(fat, chain)
    requires Straight(data0, data, size, chain, k, off, p, done) && off + |part| <= size
    ensures chain[k] < |data| && |data[chain[k]]| == size
    ensures Straight(data0, data[chain[k] := Splice(data[chain[k]], off, part)], size, chain, k, off + |part|, p, done + part)
  {
    hide Splice, Bytes, Start;
    ChainHeld(fat, data, size, chain);
    ClusterWritten(data, data[chain[k] := Splice(data[chain[k]], off, part)], size, chain, k, off, part);
    SpliceTwice(Bytes(data0, size, chain), p, done, part);
  }

  lemma PutSkewed(fat: seq<nat>, data0: seq<seq<nat>>, data: seq<seq<nat>>, size: nat, n0: nat, chain: seq<nat>, k: nat, sector: seq<nat>)
    requires Disk(fat, data, size) && Chain(fat, chain) && Skewed(data0, data, size, n0, chain, k)
    ensures chain[k] < |data| && Skewed(data0, data[chain[k] := sector], size, n0, chain, k)
  {
    ChainHeld(fat, data, size, chain);
  }

  /** On to the next cluster of the chain. */
  lemma MoveStraight(data0: seq<seq<nat>>, data: seq<seq<nat>>, size: nat, chain: seq<nat>, k: nat, p: nat, part: seq<nat>)
    requires Straight(data0, data, size, chain, k, size, p, part) && k + 1 < |chain|
    ensures Straight(data0, data, size, chain, k + 1, 0, p, part)
  {
  }

  /** More clusters behind the last one. */
  lemma GrowStep(fat0: seq<nat>, data0: seq<seq<nat>>, fat: seq<nat>, fat': seq<nat>, data: seq<seq<nat>>, size: nat, chain0: seq<nat>, chain: seq<nat>, more: seq<nat>)
    requires Grown(fat0, data0, fat, data, size, chain0, chain)
    requires Linked(fat, fat', chain[|chain| - 1], more) && Chain(fat', chain + more)
    requires FreeFrom(fat, 2) == more + FreeFrom(fat', 2)
    ensures Grown(fat0, data0, fat', data, size, chain0, chain + more)
    ensures forall c :: c in more ==> c < |data| && data[c] == data0[c]
  {
    forall c | c in more
      ensures IsFree(fat, c) && c !in chain
    {
      assert c in FreeFrom(fat, 2);
      if c in chain {
        ChainUsed(fat, chain, c);
      }
    }
    assert (chain + more)[|chain0|..] == chain[|chain0|..] + more;
    assert chain[|chain| - 1] in chain;
  }

  lemma GrowStraight(fat: seq<nat>, data0: seq<seq<nat>>, data: seq<seq<nat>>, size: nat, chain: seq<nat>, next: nat, p: nat, part: seq<nat>)
    requires Disk(fat, data, size) && Chain(fat, chain + [next]) && |data0| == |data|
    requires chain != [] && Straight(data0, data, size, chain, |chain| - 1, size, p, part)
    requires next < |data| && data[next] == data0[next]
    ensures Straight(data0, data, size, chain + [next], |chain|, 0, p, part)
  {
    var c := chain + [next];
    ChainHeld(fat, data, size, c);
    assert c[..|c| - 1] == chain;
    assert c[|chain|] == next;
    SpliceFront(Bytes(data0, size, chain), data[next], p, part);
  }
}
