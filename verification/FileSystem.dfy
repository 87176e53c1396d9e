/** Files on a FAT volume (kernel/io/fat.cpp): cluster allocation, and reading and writing
    through file descriptors. */
module FileSystem {
  import opened FatTable

  /** A volume: one entry and one full cluster per cluster number. */
  predicate Disk(fat: seq<nat>, data: seq<seq<nat>>, size: nat) {
    Table(fat) && size > 0 && |data| == |fat| && forall k :: 0 <= k < |data| ==> |data[k]| == size
  }

  class Volume {
    const fat: array<nat>
    const data: array<seq<nat>>
    const bytesPerCluster: nat

    ghost predicate Valid()
      reads fat, data
    {
      Disk(fat[..], data[..], bytesPerCluster)
    }

    constructor (fat: array<nat>, data: array<seq<nat>>, bytesPerCluster: nat)
      ensures this.fat == fat && this.data == data && this.bytesPerCluster == bytesPerCluster
    {
      this.fat, this.data, this.bytesPerCluster := fat, data, bytesPerCluster;
    }

    method NextCluster(cluster: nat, ghost c: seq<nat>, ghost i: nat) returns (next: nat)
      requires Table(fat[..]) && Chain(fat[..], c) && i < |c| && c[i] == cluster
      ensures next == if i < |c| - 1 then c[i + 1] else END_OF_CLUSTERCHAIN
      ensures cluster < fat.Length && next == if fat[cluster] >= 0x0fff_fff8 then 0x0fff_ffff else fat[cluster]
    {
      assert Leads(fat[..], c, i);
      if i < |c| - 1 {
        assert Leads(fat[..], c, i + 1);
      }
      next := fat[cluster];
      if IsEndOfClusterchain(next) {
        return END_OF_CLUSTERCHAIN;
      }
    }

    /** Walks a chain from any of its clusters to its end. */
    method LastCluster(cluster: nat, ghost c: seq<nat>) returns (eoc: nat)
      requires Table(fat[..]) && Chain(fat[..], c) && cluster in c
      ensures eoc == c[|c| - 1] && 2 <= eoc < fat.Length && fat[eoc] != 0
    {
      hide Chain;
      eoc := cluster;
      ghost var i: nat :| i < |c| && c[i] == eoc;
      ChainLeads(fat[..], c, i);
      while !IsEndOfClusterchain(fat[eoc])
        invariant i < |c| && c[i] == eoc < fat.Length && Leads(fat[..], c, i)
        decreases |c| - i
      {
        eoc := fat[eoc];
        i := i + 1;
        ChainLeads(fat[..], c, i);
      }
      EndsAt(fat[..], c, i);
    }

    /** Extends the chain of any of its clusters by the n lowest free clusters, in order;
        returns the new last cluster. */
    method ExtendCluster(eocCluster: nat, n: nat, ghost c: seq<nat>) returns (last: nat)
      requires Table(fat[..]) && Chain(fat[..], c) && eocCluster in c
      requires n <= |FreeFrom(fat[..], 2)|
      modifies fat
      ensures Linked(old(fat[..]), fat[..], c[|c| - 1], old(FreeFrom(fat[..], 2)[..n]))
      ensures Chain(fat[..], c + old(FreeFrom(fat[..], 2)[..n]))
      ensures FreeFrom(fat[..], 2) == old(FreeFrom(fat[..], 2)[n..])
      ensures last == (c + old(FreeFrom(fat[..], 2)[..n]))[|c| + n - 1]
    {
      hide Chain, Linking, Linked, FreeFrom, Table;
      ghost var before: seq<nat> := fat[..];
      ghost var free := FreeFrom(before, 2);
      var eoc := LastCluster(eocCluster, c);
      var numAllocated, current, candidate: nat := 0, eoc, 2;
      ghost var s: seq<nat> := [eoc];
      StartLinking(before, eoc);
      assert fat[..] == before;
      while numAllocated < n
        invariant numAllocated <= n && 2 <= candidate
        invariant s == [eoc] + free[..numAllocated] && current == s[|s| - 1]
        invariant FreeFrom(before, candidate) == free[numAllocated..]
        invariant Linking(before, fat[..], s)
        decreases fat.Length - candidate
      {
        FreeStep(before, candidate);
        UnsetAbove(before, fat[..], s, candidate, free, numAllocated);
        if fat[candidate] != 0 {
          candidate := candidate + 1;
          continue;
        }
        LinkStep(before, fat[..], s, candidate);
        fat[current] := candidate;
        current := candidate;
        numAllocated := numAllocated + 1;
        s := s + [candidate];
        candidate := candidate + 1;
      }
      LinkEnd(before, fat[..], s);
      fat[current] := END_OF_CLUSTERCHAIN;
      assert s[1..] == free[..n];
      LinkedExtends(before, fat[..], c, free[..n]);
      FreeAfterLinks(before, fat[..], eoc, free, n, candidate);
      last := current;
    }

    /** A new chain of the n lowest free clusters, of one at least. */
    method AllocateClusterChain(n: nat) returns (first: nat)
      requires Table(fat[..]) && 1 <= |FreeFrom(fat[..], 2)| && n <= |FreeFrom(fat[..], 2)|
      modifies fat
      ensures var c := old(FreeFrom(fat[..], 2)[..if n == 0 then 1 else n]);
        Chain(fat[..], c) && first == c[0] && KeptOutside(old(fat[..]), fat[..], c)
      ensures FreeFrom(fat[..], 2) == old(FreeFrom(fat[..], 2)[if n == 0 then 1 else n..])
    {
      hide Chain, FreeFrom, Linked, Table;
      ghost var before: seq<nat> := fat[..];
      ghost var free := FreeFrom(before, 2);
      first := 2;
      TableFacts(before);
      while fat[first] != 0
        invariant 2 <= first < fat.Length && FreeFrom(before, first) == free
        decreases fat.Length - first
        modifies {}
      {
        FreeStep(before, first);
        first := first + 1;
        FreeInTable(before, first);
      }
      FreeStep(before, first);
      fat[first] := END_OF_CLUSTERCHAIN;
      FirstTaken(before, fat[..], first, free);
      if n > 1 {
        var last := ExtendCluster(first, n - 1, [first]);
        assert [first] + free[1..][..n - 1] == free[..n];
        AllKept(before, fat[..], first, free, n);
        assert free[1..][n - 1..] == free[n..];
      } else {
        assert [first] == free[..1];
        KeptOne(before, fat[..], first, free);
      }
    }
  }

  // ---- Steps of the walk and of the search

  lemma ChainLeads(fat: seq<nat>, c: seq<nat>, i: nat)
    requires Chain(fat, c) && i < |c|
    ensures Leads(fat, c, i)
  {
  }

  lemma EndsAt(fat: seq<nat>, c: seq<nat>, i: nat)
    requires Table(fat) && Chain(fat, c) && i < |c| && c[i] < |fat| && IsEndOfClusterchain(fat[c[i]])
    ensures i == |c| - 1 && 2 <= c[i] < |fat|
    ensures forall k :: k in FreeFrom(fat, 2) ==> IsFree(fat, k) && k != c[i]
  {
    hide Chain;
    ChainLeads(fat, c, i);
    if i + 1 < |c| {
      ChainLeads(fat, c, i + 1);
    }
  }

  lemma StartLinking(fat: seq<nat>, eoc: nat)
    requires 2 <= eoc < |fat|
    ensures Linking(fat, fat, [eoc])
  {
  }

  lemma FreeStep(fat: seq<nat>, k: nat)
    requires k >= 2 && FreeFrom(fat, k) != []
    ensures k < |fat|
    ensures fat[k] == 0 ==> FreeFrom(fat, k)[0] == k && FreeFrom(fat, k + 1) == FreeFrom(fat, k)[1..]
    ensures fat[k] != 0 ==> FreeFrom(fat, k + 1) == FreeFrom(fat, k)
  {
  }

  lemma FreeBelow(fat: seq<nat>, candidate: nat, k: nat)
    requires 2 <= candidate && IsFree(fat, k) && k !in FreeFrom(fat, candidate)
    ensures k < candidate
  {
    if candidate <= k {
      FreeFromAll(fat, candidate, k);
    }
  }

  lemma SmallerTaken(fat: seq<nat>, candidate: nat, free: seq<nat>, n: nat, i: nat)
    requires 2 <= candidate && free == FreeFrom(fat, 2) && i < n <= |free| && FreeFrom(fat, candidate) == free[n..]
    ensures free[i] < candidate
  {
    forall j | 0 <= j < |free[n..]|
      ensures free[i] < free[n..][j]
    {
      assert free[n..][j] == free[n + j];
    }
    FreeBelow(fat, candidate, free[i]);
  }

  /** The entry of a candidate is not yet touched, except that of the chain's old end. */
  lemma UnsetAbove(before: seq<nat>, after: seq<nat>, s: seq<nat>, candidate: nat, free: seq<nat>, n: nat)
    requires Linking(before, after, s) && 2 <= candidate < |before| && s[0] < |before| && before[s[0]] != 0
    requires free == FreeFrom(before, 2) && n < |free| && s == [s[0]] + free[..n]
    requires FreeFrom(before, candidate) == free[n..]
    ensures after[candidate] == 0 <==> before[candidate] == 0
    ensures before[candidate] == 0 ==> candidate !in s
  {
    hide FreeFrom, IsFree;
    forall i | 1 <= i < |s|
      ensures s[i] < candidate
    {
      SmallerTaken(before, candidate, free, n, i - 1);
    }
    if candidate == s[0] {
      if |s| > 1 {
        assert Points(after, s, 0);
        assert s[1] in s;
      } else {
        assert s[..|s| - 1] == [];
      }
    }
  }

  lemma FreeAfterLinks(before: seq<nat>, after: seq<nat>, last: nat, free: seq<nat>, n: nat, candidate: nat)
    requires free == FreeFrom(before, 2) && n <= |free| && 2 <= candidate && FreeFrom(before, candidate) == free[n..]
    requires Linked(before, after, last, free[..n]) && 2 <= last < |before| && before[last] != 0
    ensures FreeFrom(after, 2) == free[n..]
  {
    var s := [last] + free[..n];
    forall k | k in free[..n]
      ensures k < candidate && before[k] == 0
    {
      var j: nat :| j < n && free[j] == k;
      SmallerTaken(before, candidate, free, n, j);
    }
    forall k | k in s
      ensures after[k] != 0
    {
      LinkedUsed(after, s, k);
    }
    forall k: nat | 2 <= k < |before| && before[k] == 0 && k !in s
      ensures k >= candidate
    {
      FreeFromAll(before, 2, k);
      assert free == free[..n] + free[n..];
      assert k in FreeFrom(before, candidate);
    }
    FreeAbove(before, after, 2, candidate);
  }

  lemma LinkedUsed(fat: seq<nat>, s: seq<nat>, k: nat)
    requires Chain(fat, s) && k in s
    ensures k < |fat| && fat[k] != 0
  {
    var j: nat :| j < |s| && s[j] == k;
    ChainLeads(fat, s, j);
    if j + 1 < |s| {
      ChainLeads(fat, s, j + 1);
    }
  }

  lemma TableFacts(fat: seq<nat>)
    requires Table(fat) && FreeFrom(fat, 2) != []
    ensures |fat| > 2
  {
  }

  lemma FreeInTable(fat: seq<nat>, k: nat)
    requires k >= 2 && FreeFrom(fat, k) != []
    ensures k < |fat|
  {
  }

  /** The tables agree outside the clusters of c. */
  predicate KeptOutside(before: seq<nat>, after: seq<nat>, c: seq<nat>) {
    |before| == |after| && forall k: nat :: k < |before| && k !in c ==> after[k] == before[k]
  }

  lemma FirstTaken(before: seq<nat>, after: seq<nat>, first: nat, free: seq<nat>)
    requires Table(before) && 2 <= first < |before| && free == FreeFrom(before, 2) == FreeFrom(before, first)
    requires before[first] == 0 && free != [] && free[0] == first && after == before[first := END_OF_CLUSTERCHAIN]
    requires FreeFrom(before, first + 1) == free[1..]
    ensures Table(after) && Chain(after, [first]) && FreeFrom(after, 2) == free[1..]
  {
    hide FreeFrom;
    assert Leads(after, [first], 0);
    forall k: nat | 2 <= k < first
      ensures before[k] != 0
    {
      if before[k] == 0 {
        FreeFromAll(before, 2, k);
      }
    }
    FreeAbove(before, after, 2, first + 1);
  }

  lemma AllKept(before: seq<nat>, after: seq<nat>, first: nat, free: seq<nat>, n: nat)
    requires 1 <= n <= |free| && free[0] == first < |before|
    requires Linked(before[first := END_OF_CLUSTERCHAIN], after, first, free[1..][..n - 1])
    ensures KeptOutside(before, after, free[..n])
  {
    assert [first] + free[1..][..n - 1] == free[..n];
    assert first in free[..n] by {
      assert free[..n][0] == first;
    }
  }

  lemma KeptOne(before: seq<nat>, after: seq<nat>, first: nat, free: seq<nat>)
    requires free != [] && free[0] == first < |before| && after == before[first := END_OF_CLUSTERCHAIN]
    ensures KeptOutside(before, after, free[..1])
  {
    assert free[..1] == [first];
  }
}
