/** Directory entries and file descriptors of kernel/io/fat.cpp: sequential reading, loading
    at an offset, and writing. */
module Files {
  import opened Bits
  import opened FatTable
  import opened FileBytes
  import opened FileGrowth
  import opened FileSystem

  /** A file is its chain of clusters; a new file has none. */
  predicate FileOk(fat: seq<nat>, size: nat, chain: seq<nat>, first: nat, fileSize: nat) {
    if chain == [] then first == 0 && fileSize == 0
    else Chain(fat, chain) && first == chain[0] && fileSize <= Start(size, |chain|)
  }

  /** The bytes of a file. */
  ghost function Content(fat: seq<nat>, data: seq<seq<nat>>, size: nat, chain: seq<nat>, fileSize: nat): (b: seq<nat>)
    requires Disk(fat, data, size) && (chain == [] || Chain(fat, chain)) && fileSize <= Start(size, |chain|)
    ensures |b| == fileSize
  {
    ChainHeld(fat, data, size, chain);
    Bytes(data, size, chain)[..fileSize]
  }

  /** A place in a chain: the k-th cluster, or the end mark behind the last one. */
  predicate At(chain: seq<nat>, k: nat, cluster: nat) {
    if k < |chain| then cluster == chain[k] else k == |chain| && cluster == END_OF_CLUSTERCHAIN
  }

  /** Offset pos of the file is clusterOff bytes into this cluster of the chain. */
  predicate Reading(size: nat, chain: seq<nat>, pos: nat, k: nat, cluster: nat, clusterOff: nat) {
    && pos == Start(size, k) + clusterOff && clusterOff < size
    && if chain == [] then cluster == 0 else cluster != 0 && At(chain, k, cluster)
  }

  /** A read position: not started, or at its offset's place in the chain. */
  predicate ReadOk(size: nat, chain: seq<nat>, fileSize: nat, off: nat, k: nat, cluster: nat, clusterOff: nat) {
    && off <= fileSize
    && if cluster == 0 then off == 0 && clusterOff == 0 else Reading(size, chain, off, k, cluster, clusterOff)
  }

  /** Where reading starts: at the first cluster, unless the file is empty. */
  lemma ReadStarts(fat: seq<nat>, size: nat, chain: seq<nat>, first: nat, fileSize: nat, off: nat, k: nat, cluster: nat, clusterOff: nat)
    requires size > 0 && FileOk(fat, size, chain, first, fileSize)
    requires ReadOk(size, chain, fileSize, off, k, cluster, clusterOff)
    ensures off <= fileSize <= Start(size, |chain|)
    ensures Reading(size, chain, off, if cluster == 0 then 0 else k, if cluster == 0 then first else cluster, clusterOff)
    ensures chain != [] ==> Chain(fat, chain)
  {
    if chain != [] {
      ChainLeads(fat, chain, 0);
    }
  }

  /** Inside the file a read position is in one of its clusters. */
  lemma ReadInside(size: nat, chain: seq<nat>, fileSize: nat, pos: nat, k: nat, cluster: nat, clusterOff: nat)
    requires pos < fileSize <= Start(size, |chain|) && Reading(size, chain, pos, k, cluster, clusterOff)
    ensures k < |chain| && cluster == chain[k] && clusterOff < size && pos == Start(size, k) + clusterOff
  {
  }

  /** n bytes on, in this cluster or at the start of the next. */
  lemma ReadOn(fat: seq<nat>, size: nat, chain: seq<nat>, pos: nat, k: nat, cluster: nat, clusterOff: nat, n: nat)
    requires Chain(fat, chain) && k < |chain| && Reading(size, chain, pos, k, cluster, clusterOff) && clusterOff + n <= size
    ensures clusterOff + n < size ==> Reading(size, chain, pos + n, k, cluster, clusterOff + n)
    ensures clusterOff + n == size ==>
      Reading(size, chain, pos + n, k + 1, if k < |chain| - 1 then chain[k + 1] else END_OF_CLUSTERCHAIN, 0)
  {
    if k + 1 < |chain| {
      ChainLeads(fat, chain, k + 1);
    }
  }

  /** Some bytes into the cluster that starts at Start(size, k). */
  lemma SkipInto(size: nat, chain: seq<nat>, k: nat, cluster: nat, rest: nat)
    requires Reading(size, chain, Start(size, k), k, cluster, 0) && rest < size
    ensures Reading(size, chain, Start(size, k) + rest, k, cluster, rest)
  {
  }

  lemma ReadDone(size: nat, chain: seq<nat>, fileSize: nat, off: nat, k: nat, cluster: nat, clusterOff: nat)
    requires off <= fileSize <= Start(size, |chain|) && Reading(size, chain, off, k, cluster, clusterOff)
    ensures ReadOk(size, chain, fileSize, off, k, cluster, clusterOff)
  {
  }

  lemma JoinSlices(s: seq<nat>, p: nat, q: nat, r: nat)
    requires p <= q <= r <= |s|
    ensures s[p..q] + s[q..r] == s[p..r]
  {
  }

  lemma SizeIsPositive(fat: seq<nat>, data: seq<seq<nat>>, size: nat)
    requires Disk(fat, data, size)
    ensures size > 0 && Table(fat) && |fat| == |data|
  {
  }

  /** A piece of a cluster is a piece of the file. */
  lemma ReadPiece(fat: seq<nat>, data: seq<seq<nat>>, size: nat, chain: seq<nat>, fileSize: nat, k: nat, off: nat, n: nat)
    requires Disk(fat, data, size) && Chain(fat, chain) && fileSize <= Start(size, |chain|)
    requires k < |chain| && off + n <= size && Start(size, k) + off + n <= fileSize
    ensures chain[k] < |data| && |data[chain[k]]| == size
    ensures data[chain[k]][off..off + n] == Content(fat, data, size, chain, fileSize)[Start(size, k) + off..Start(size, k) + off + n]
  {
    hide Disk, Chain, Bytes, Start;
    ChainHeld(fat, data, size, chain);
    PieceOfCluster(data, size, chain, k, off, n);
    var b, p := Bytes(data, size, chain), Start(size, k) + off;
    assert data[chain[k]][off..off + n] == data[chain[k]][off..][..n];
    assert b[..fileSize][p..p + n] == b[p..][..n];
  }

  // ---- Write positions

  /** A write position: not started, or at its offset's place in the chain. */
  predicate WriteOk(size: nat, chain: seq<nat>, off: nat, k: nat, cluster: nat, clusterOff: nat) {
    if cluster == 0 then off == 0 && clusterOff == 0
    else k < |chain| && cluster == chain[k] && clusterOff <= size && off == Start(size, k) + clusterOff
  }

  lemma GrownFacts(fat0: seq<nat>, data0: seq<seq<nat>>, fat: seq<nat>, data: seq<seq<nat>>, size: nat, chain0: seq<nat>, chain: seq<nat>)
    requires Grown(fat0, data0, fat, data, size, chain0, chain)
    ensures Table(fat) && Chain(fat, chain) && chain != [] && Disk(fat, data, size) && size > 0
    ensures |data| == |data0| == |fat|
  {
  }

  lemma InChain(fat: seq<nat>, chain: seq<nat>, k: nat)
    requires Table(fat) && Chain(fat, chain) && k < |chain|
    ensures chain[k] in chain && chain[k] < |fat| && (k + 1 < |chain| ==> chain[k + 1] != END_OF_CLUSTERCHAIN)
  {
    ChainLeads(fat, chain, k);
    if k + 1 < |chain| {
      ChainLeads(fat, chain, k + 1);
    }
  }

  lemma SufficesPut(free: nat, size: nat, n: nat, k: nat, off: nat, left: nat, done: nat)
    requires size > 0 && done <= left && Suffices(free, size, n, k, off, left)
    ensures Suffices(free, size, n, k, off + done, left - done)
  {
  }

  lemma SufficesMove(free: nat, size: nat, n: nat, k: nat, left: nat)
    requires size > 0 && Suffices(free, size, n, k, size, left)
    ensures Suffices(free, size, n, k + 1, 0, left)
  {
  }

  // ---- What a write does

  /** The write of buf at p to a file whose chain was base: in place, or with the cluster
      after base skipped. */
  predicate Outcome(size: nat, data0: seq<seq<nat>>, data: seq<seq<nat>>, base: seq<nat>, chain: seq<nat>, p: nat, k: nat, off: nat, buf: seq<nat>) {
    if p + |buf| <= Start(size, |base|) + size then
      && Straight(data0, data, size, chain, k, off, p, buf)
      && |chain| == if p + |buf| <= Start(size, |base|) then |base| else |base| + 1
    else
      Skewed(data0, data, size, |base|, chain, k)
  }

  /** The same inside the loop, with total bytes written. */
  predicate Progress(size: nat, data0: seq<seq<nat>>, data: seq<seq<nat>>, base: seq<nat>, chain: seq<nat>, p: nat, k: nat, off: nat, buf: seq<nat>, total: nat, skewed: bool)
    requires total <= |buf|
  {
    if skewed then Start(size, |base|) + size < p + |buf| && Skewed(data0, data, size, |base|, chain, k)
    else
      && Straight(data0, data, size, chain, k, off, p, buf[..total])
      && (|chain| > |base| ==> |chain| == |base| + 1 && Start(size, |base|) < p + |buf| <= Start(size, |base|) + size)
  }

  lemma ProgressStarts(fat0: seq<nat>, data: seq<seq<nat>>, fat: seq<nat>, size: nat, chain0: seq<nat>, base: seq<nat>, k: nat, off: nat, buf: seq<nat>)
    requires Grown(fat0, data, fat, data, size, chain0, base) && k < |base| && off <= size
    ensures Progress(size, data, data, base, base, Start(size, k) + off, k, off, buf, 0, false)
  {
    assert buf[..0] == [];
    GrownStart(fat, data, size, base, k, off);
  }

  /** Growing the chain when the bytes so far are in place. */
  lemma StraightGrows(data0: seq<seq<nat>>, fat: seq<nat>, data: seq<seq<nat>>, size: nat, base: seq<nat>, chain: seq<nat>, p: nat, k: nat, buf: seq<nat>, total: nat)
    requires total < |buf| && base < chain && k + 1 == |base|
    requires Straight(data0, data, size, base, k, size, p, buf[..total])
    requires Disk(fat, data, size) && Chain(fat, chain) && |data0| == |data|
    requires |chain| == |base| + 1 <==> |buf| - total <= size
    requires forall c :: c in chain[|base|..] ==> c < |data0| && data[c] == data0[c]
    ensures Progress(size, data0, data, base, chain, p, |chain| - 1, 0, buf, total, |chain| > |base| + 1)
  {
    hide Bytes, Splice, Chain, Held, Start, Straight;
    StraightPlace(data0, data, size, base, k, size, p, buf[..total]);
    var next := chain[|base|];
    assert next == chain[|base|..][0];
    if |chain| == |base| + 1 {
      assert chain == base + [next];
      GrowStraight(fat, data0, data, size, base, next, p, buf[..total]);
    }
  }

  /** Going to the next cluster, or growing the chain. */
  lemma ProgressMoves(data0: seq<seq<nat>>, fat: seq<nat>, data: seq<seq<nat>>, size: nat, base: seq<nat>, chain: seq<nat>, chain': seq<nat>, p: nat, k: nat, k': nat, buf: seq<nat>, total: nat, skewed: bool)
    requires total < |buf| && base <= chain && base != []
    requires Progress(size, data0, data, base, chain, p, k, size, buf, total, skewed)
    requires chain == base || p + |buf| <= Start(size, |chain|)
    requires Disk(fat, data, size) && Chain(fat, chain') && |data0| == |data| && k < |chain|
    requires k + 1 < |chain| ==> chain' == chain && k' == k + 1
    requires k + 1 == |chain| ==>
      && k' == |chain'| - 1 && chain < chain' && (|chain'| == |chain| + 1 <==> |buf| - total <= size)
      && Start(size, |chain|) + |buf| - total <= Start(size, |chain'|)
      && forall c :: c in chain'[|chain|..] ==> c < |data0| && data[c] == data0[c]
    ensures base <= chain'
    ensures chain' == base || p + |buf| <= Start(size, |chain'|)
    ensures Progress(size, data0, data, base, chain', p, k', 0, buf, total, skewed || |chain'| > |chain| + 1)
  {
    hide Bytes, Splice, Chain, Held, Start, Straight;
    if skewed {
      if k + 1 == |chain| {
        StartMono(size, |chain|, |chain'|);
      }
    } else if k + 1 < |chain| {
      MoveStraight(data0, data, size, chain, k, p, buf[..total]);
    } else {
      StraightPlace(data0, data, size, chain, k, size, p, buf[..total]);
      StraightGrows(data0, fat, data, size, base, chain', p, k, buf, total);
    }
  }

  lemma StraightPlace(data0: seq<seq<nat>>, data: seq<seq<nat>>, size: nat, chain: seq<nat>, k: nat, off: nat, p: nat, part: seq<nat>)
    requires Straight(data0, data, size, chain, k, off, p, part)
    ensures k < |chain| && Start(size, k) + off == p + |part|
    ensures k + 1 == |chain| && off == size ==> Start(size, |chain|) == p + |part|
  {
  }

  /** Copying bytes into the current cluster. */
  lemma ProgressPuts(fat: seq<nat>, data0: seq<seq<nat>>, data: seq<seq<nat>>, size: nat, base: seq<nat>, chain: seq<nat>, p: nat, k: nat, off: nat, buf: seq<nat>, total: nat, n: nat, skewed: bool)
    requires total + n <= |buf| && off + n <= size && k < |chain|
    requires Disk(fat, data, size) && Chain(fat, chain)
    requires Progress(size, data0, data, base, chain, p, k, off, buf, total, skewed)
    ensures chain[k] < |data| && |data[chain[k]]| == size
    ensures Progress(size, data0, data[chain[k] := Splice(data[chain[k]], off, buf[total..total + n])], base, chain, p, k, off + n, buf, total + n, skewed)
  {
    hide Bytes, Splice, Chain, Held, Start;
    ChainHeld(fat, data, size, chain);
    HeldAt(data, size, chain, k);
    if skewed {
      PutSkewed(fat, data0, data, size, |base|, chain, k, Splice(data[chain[k]], off, buf[total..total + n]));
    } else {
      PutStraight(fat, data0, data, size, chain, k, off, p, buf[..total], buf[total..total + n]);
      assert buf[..total] + buf[total..total + n] == buf[..total + n];
    }
  }

  lemma HeldAt(data: seq<seq<nat>>, size: nat, c: seq<nat>, k: nat)
    requires Held(data, size, c) && k < |c|
    ensures c[k] < |data| && |data[c[k]]| == size
  {
  }

  /** At the end of the loop: no cluster is skipped exactly when at most one was needed. */
  lemma ProgressEnds(size: nat, data0: seq<seq<nat>>, data: seq<seq<nat>>, base: seq<nat>, chain: seq<nat>, p: nat, k: nat, off: nat, buf: seq<nat>, skewed: bool)
    requires Progress(size, data0, data, base, chain, p, k, off, buf, |buf|, skewed) && base <= chain
    requires chain == base || p + |buf| <= Start(size, |chain|)
    ensures p + |buf| <= Start(size, |chain|)
    ensures Outcome(size, data0, data, base, chain, p, k, off, buf)
  {
    assert buf[..|buf|] == buf;
  }

  // ---- Starting a write

  lemma FirstOfChain(fat: seq<nat>, size: nat, chain: seq<nat>, first: nat, fileSize: nat)
    requires FileOk(fat, size, chain, first, fileSize)
    ensures first == 0 <==> chain == []
    ensures chain != [] ==> chain[0] == first && Chain(fat, chain)
  {
    if chain != [] {
      ChainLeads(fat, chain, 0);
    }
  }

  lemma AllocGrown(fat: seq<nat>, fat': seq<nat>, data: seq<seq<nat>>, size: nat, free: seq<nat>, n: nat)
    requires Disk(fat, data, size) && free == FreeFrom(fat, 2) && n <= |free| && FreeFrom(fat', 2) == free[n..]
    requires Chain(fat', free[..n]) && KeptOutside(fat, fat', free[..n])
    ensures Grown(fat, data, fat', data, size, [], free[..n])
  {
    var none: seq<nat> := [];
    assert free[..n][|none|..] == free[..n];
  }

  /** The halves of the first cluster's number, as a directory entry stores them. */
  lemma HalvesJoin(fat: seq<nat>, chain: seq<nat>)
    requires Table(fat) && Chain(fat, chain)
    ensures Or(And(chain[0], 0xffff), Shl(And(Shr(chain[0], 16), 0xffff), 16)) == chain[0]
  {
    hide And, Or, Shl, Shr;
    ChainLeads(fat, chain, 0);
    Powers16();
    MaskIsLow(chain[0], 16);
    MaskIsLow(Shr(chain[0], 16), 16);
    JoinParts(chain[0], 16, 16);
  }

  lemma Powers16()
    ensures Pow2(16) == 0x1_0000 && Pow2(32) == 0x1_0000_0000
  {
    assert Pow2(8) == 0x100;
    assert Pow2(16) == 0x1_0000;
    assert Pow2(24) == 0x100_0000;
  }

  lemma NoneBeyond(free: nat, size: nat, n: nat, len: nat)
    requires size > 0 && len <= Start(size, n)
    ensures Suffices(free, size, n, 0, 0, len)
  {
    NumClusterStep(size, 0);
  }

  /** The bytes from p on were overwritten with buf, and no other byte of the file. */
  predicate Wrote(data0: seq<seq<nat>>, data: seq<seq<nat>>, size: nat, chain: seq<nat>, p: nat, buf: seq<nat>) {
    && Held(data0, size, chain) && Held(data, size, chain) && p + |buf| <= Start(size, |chain|)
    && Bytes(data, size, chain) == Splice(Bytes(data0, size, chain), p, buf)
  }

  /** The most clusters a write that stays in place can take. */
  function Most(size: nat, len: nat): nat
    requires size > 0
  {
    if len == 0 then 1 else NumCluster(size, len)
  }

  /** What WriteBytes did, seen from before the write. */
  lemma WriteEnds(fat0: seq<nat>, data0: seq<seq<nat>>, fat: seq<nat>, data: seq<seq<nat>>, size: nat, chain0: seq<nat>, base: seq<nat>, chain: seq<nat>, p: nat, k: nat, off: nat, buf: seq<nat>, first: nat, fileSize: nat)
    requires Grown(fat0, data0, fat, data, size, chain0, chain) && base != [] && base <= chain
    requires Outcome(size, data0, data, base, chain, p, k, off, buf) && first == base[0]
    requires fileSize <= p + |buf|
    requires p + |buf| <= Start(size, |chain|)
    requires chain0 != [] ==> base == chain0
    requires chain0 == [] ==> p == 0 && |buf| <= Start(size, |base|) && |base| == Most(size, |buf|)
    ensures Disk(fat, data, size) && FileOk(fat, size, chain, first, fileSize)
    ensures (chain0 == [] || p + |buf| <= Start(size, |chain0|) + size) ==>
      && Wrote(data0, data, size, chain, p, buf) && |chain| <= |chain0| + Most(size, |buf|)
      && k < |chain| && off <= size && Start(size, k) + off == p + |buf|
    ensures k < |chain| ==> chain[k] != 0
    ensures !(chain0 == [] || p + |buf| <= Start(size, |chain0|) + size) ==>
      Skewed(data0, data, size, |chain0|, chain, k)
  {
    hide Start, Bytes, Splice, Held, Grown, NumCluster, Chain;
    GrownFacts(fat0, data0, fat, data, size, chain0, chain);
    NumClusterStep(size, |buf|);
    if k < |chain| {
      ChainLeads(fat, chain, k);
    }
  }

  class DirectoryEntry {
    var firstClusterLow: nat
    var firstClusterHigh: nat
    var fileSize: nat
    ghost var chain: seq<nat>

    constructor (low: nat, high: nat, size: nat, ghost clusters: seq<nat>)
      ensures firstClusterLow == low && firstClusterHigh == high && fileSize == size && chain == clusters
    {
      firstClusterLow, firstClusterHigh, fileSize, chain := low, high, size, clusters;
    }

    function FirstCluster(): nat
      reads this`firstClusterLow, this`firstClusterHigh
    {
      Or(firstClusterLow, Shl(firstClusterHigh, 16))
    }

    ghost predicate Valid(volume: Volume)
      reads this, volume.fat
    {
      FileOk(volume.fat[..], volume.bytesPerCluster, chain, FirstCluster(), fileSize)
    }
  }

  class FileDescriptor {
    const volume: Volume
    const entry: DirectoryEntry
    var rdOff: nat
    var rdCluster: nat
    var rdClusterOff: nat
    var wrOff: nat
    var wrCluster: nat
    var wrClusterOff: nat
    ghost var rdIndex: nat
    ghost var wrIndex: nat

    constructor (volume: Volume, entry: DirectoryEntry)
      ensures this.volume == volume && this.entry == entry
      ensures rdOff == rdCluster == rdClusterOff == rdIndex == wrOff == wrCluster == wrClusterOff == wrIndex == 0
    {
      this.volume, this.entry := volume, entry;
      rdOff, rdCluster, rdClusterOff, wrOff, wrCluster, wrClusterOff := 0, 0, 0, 0, 0, 0;
      rdIndex, wrIndex := 0, 0;
    }

    ghost predicate Valid()
      reads this, entry, volume.fat, volume.data
    {
      && volume.Valid() && entry.Valid(volume)
      && ReadOk(volume.bytesPerCluster, entry.chain, entry.fileSize, rdOff, rdIndex, rdCluster, rdClusterOff)
    }

    ghost function Contents(): seq<nat>
      requires volume.Valid() && entry.Valid(volume)
      reads entry, volume.fat, volume.data
    {
      Content(volume.fat[..], volume.data[..], volume.bytesPerCluster, entry.chain, entry.fileSize)
    }

    /** The bytes at a position as far as its cluster and left allow, with the position moved on. */
    method ReadChunk(pos: nat, left: nat) returns (part: seq<nat>)
      requires volume.Valid() && entry.Valid(volume) && left > 0 && pos + left <= entry.fileSize
      requires Reading(volume.bytesPerCluster, entry.chain, pos, rdIndex, rdCluster, rdClusterOff)
      modifies this`rdCluster, this`rdClusterOff, this`rdIndex
      ensures 0 < |part| <= left
      ensures Reading(volume.bytesPerCluster, entry.chain, pos + |part|, rdIndex, rdCluster, rdClusterOff)
      ensures part == Contents()[pos..pos + |part|]
    {
      hide Start, Chain, Disk, Content, Reading;
      var size := volume.bytesPerCluster;
      ghost var fat, data, chain: seq<nat> := volume.fat[..], volume.data[..], entry.chain;
      SizeIsPositive(fat, data, size);
      ReadInside(size, chain, entry.fileSize, pos, rdIndex, rdCluster, rdClusterOff);
      var n: nat := if left < size - rdClusterOff then left else size - rdClusterOff;
      ReadPiece(fat, data, size, chain, entry.fileSize, rdIndex, rdClusterOff, n);
      ReadOn(fat, size, chain, pos, rdIndex, rdCluster, rdClusterOff, n);
      part := volume.data[rdCluster][rdClusterOff..rdClusterOff + n];
      rdClusterOff := rdClusterOff + n;
      if rdClusterOff == size {
        rdCluster := volume.NextCluster(rdCluster, chain, rdIndex);
        rdIndex := rdIndex + 1;
        rdClusterOff := 0;
      }
    }

    /** The next len bytes of the file, or those left. */
    method Read(len: nat) returns (buf: seq<nat>)
      requires Valid()
      modifies this`rdOff, this`rdCluster, this`rdClusterOff, this`rdIndex
      ensures Valid()
      ensures rdOff == if len < entry.fileSize - old(rdOff) then old(rdOff) + len else entry.fileSize
      ensures buf == Contents()[old(rdOff)..rdOff]
    {
      hide Start, Chain, Disk, Content, Reading, ReadOk, FileOk;
      var size := volume.bytesPerCluster;
      ghost var fat, data, chain: seq<nat> := volume.fat[..], volume.data[..], entry.chain;
      SizeIsPositive(fat, data, size);
      ReadStarts(fat, size, chain, entry.FirstCluster(), entry.fileSize, rdOff, rdIndex, rdCluster, rdClusterOff);
      if rdCluster == 0 {
        rdCluster := entry.FirstCluster();
        rdIndex := 0;
      }
      var n: nat := if len < entry.fileSize - rdOff then len else entry.fileSize - rdOff;
      var total := 0;
      buf := [];
      while total < n
        invariant total <= n && rdOff == old(rdOff)
        invariant Reading(size, chain, rdOff + total, rdIndex, rdCluster, rdClusterOff)
        invariant buf == Contents()[rdOff..rdOff + total]
      {
        var part := ReadChunk(rdOff + total, n - total);
        JoinSlices(Contents(), rdOff, rdOff + total, rdOff + total + |part|);
        buf := buf + part;
        total := total + |part|;
      }
      ReadDone(size, chain, entry.fileSize, rdOff + total, rdIndex, rdCluster, rdClusterOff);
      rdOff := rdOff + total;
    }

    /** The len bytes at an offset, or those left; this descriptor does not move. */
    method Load(len: nat, offset: nat) returns (buf: seq<nat>)
      requires volume.Valid() && entry.Valid(volume) && offset <= entry.fileSize
      ensures buf == Contents()[offset..if len < entry.fileSize - offset then offset + len else entry.fileSize]
    {
      hide Chain, Disk, Content, Reading, ReadOk, FileOk;
      var size := volume.bytesPerCluster;
      ghost var fat, chain: seq<nat> := volume.fat[..], entry.chain;
      SizeIsPositive(fat, volume.data[..], size);
      ReadStarts(fat, size, chain, entry.FirstCluster(), entry.fileSize, 0, 0, 0, 0);
      var fd := new FileDescriptor(volume, entry);
      fd.rdOff := offset;
      var rest, cluster := offset, entry.FirstCluster();
      ghost var k: nat := 0;
      while rest >= size
        invariant offset == Start(size, k) + rest
        invariant Reading(size, chain, Start(size, k), k, cluster, 0)
        decreases rest
        modifies {}
      {
        ReadInside(size, chain, entry.fileSize, Start(size, k), k, cluster, 0);
        ReadOn(fat, size, chain, Start(size, k), k, cluster, 0, size);
        cluster := volume.NextCluster(cluster, chain, k);
        rest := rest - size;
        k := k + 1;
      }
      SkipInto(size, chain, k, cluster, rest);
      ReadDone(size, chain, entry.fileSize, offset, k, cluster, rest);
      fd.rdCluster := cluster;
      fd.rdClusterOff := rest;
      fd.rdIndex := k;
      buf := fd.Read(len);
    }

    // ---- Writing

    ghost predicate WriteReady()
      reads this, entry, volume.fat, volume.data
    {
      && volume.Valid() && entry.Valid(volume)
      && WriteOk(volume.bytesPerCluster, entry.chain, wrOff, wrIndex, wrCluster, wrClusterOff)
    }

    /** Writing may go on: what has been done since the state fat0, data0, chain0 of the
        volume and the file, with a chain of n0 clusters before the bytes at p. */
    ghost predicate Writing(fat0: seq<nat>, data0: seq<seq<nat>>, chain0: seq<nat>)
      reads this, entry, volume.fat, volume.data
    {
      && Grown(fat0, data0, volume.fat[..], volume.data[..], volume.bytesPerCluster, chain0, entry.chain)
      && wrIndex < |entry.chain| && wrCluster == entry.chain[wrIndex] && wrClusterOff <= volume.bytesPerCluster
    }

    /** Goes to the chain's next cluster, or extends the chain for the bytes left. */
    method NextWriteCluster(left: nat, ghost fat0: seq<nat>, ghost data0: seq<seq<nat>>, ghost chain0: seq<nat>)
      requires Writing(fat0, data0, chain0) && left > 0 && wrClusterOff == volume.bytesPerCluster
      requires Suffices(|FreeFrom(volume.fat[..], 2)|, volume.bytesPerCluster, |entry.chain|, wrIndex, wrClusterOff, left)
      modifies this`wrCluster, this`wrClusterOff, this`wrIndex, entry`chain, volume.fat
      ensures Writing(fat0, data0, chain0) && wrClusterOff == 0
      ensures Suffices(|FreeFrom(volume.fat[..], 2)|, volume.bytesPerCluster, |entry.chain|, wrIndex, 0, left)
      ensures old(wrIndex) + 1 < |old(entry.chain)| ==> entry.chain == old(entry.chain) && wrIndex == old(wrIndex) + 1
      ensures old(wrIndex) + 1 == |old(entry.chain)| ==>
        && wrIndex == |entry.chain| - 1 && old(entry.chain) < entry.chain
        && (|entry.chain| == |old(entry.chain)| + 1 <==> left <= volume.bytesPerCluster)
        && Start(volume.bytesPerCluster, |old(entry.chain)|) + left <= Start(volume.bytesPerCluster, |entry.chain|)
        && forall c :: c in entry.chain[|old(entry.chain)|..] ==> c < |data0| && volume.data[c] == data0[c]
    {
      hide Chain, Disk, Grown, Suffices, Linked, FreeFrom, Start, NumCluster;
      ghost var fat, data, chain: seq<nat> := volume.fat[..], volume.data[..], entry.chain;
      ghost var size := volume.bytesPerCluster;
      GrownFacts(fat0, data0, fat, data, size, chain0, chain);
      var next := volume.NextCluster(wrCluster, chain, wrIndex);
      InChain(fat, chain, wrIndex);
      if next == END_OF_CLUSTERCHAIN {
        ghost var free := FreeFrom(fat, 2);
        SufficesGrow(|free|, size, |chain|, left);
        var n := NumCluster(volume.bytesPerCluster, left);
        wrCluster := volume.ExtendCluster(wrCluster, n, chain);
        ghost var more := free[..n];
        GrowStep(fat0, data0, fat, volume.fat[..], data, size, chain0, chain, more);
        entry.chain := chain + more;
        wrIndex := |entry.chain| - 1;
      } else {
        SufficesMove(|FreeFrom(fat, 2)|, size, |chain|, wrIndex, left);
        wrCluster := next;
        wrIndex := wrIndex + 1;
      }
      wrClusterOff := 0;
    }

    /** One memcpy into the current cluster. */
    method PutChunk(part: seq<nat>, ghost fat0: seq<nat>, ghost data0: seq<seq<nat>>, ghost chain0: seq<nat>)
      requires Writing(fat0, data0, chain0) && wrClusterOff + |part| <= volume.bytesPerCluster
      modifies this`wrClusterOff, volume.data
      ensures Writing(fat0, data0, chain0) && wrClusterOff == old(wrClusterOff) + |part|
      ensures wrCluster < |old(volume.data[..])| && |old(volume.data[wrCluster])| == volume.bytesPerCluster
      ensures volume.data[..] == old(volume.data[..])[wrCluster := Splice(old(volume.data[wrCluster]), old(wrClusterOff), part)]
    {
      hide Grown, Splice;
      PutStep(fat0, data0, volume.fat[..], volume.data[..], volume.bytesPerCluster, chain0, entry.chain, wrIndex, wrClusterOff, part);
      volume.data[wrCluster] := Splice(volume.data[wrCluster], wrClusterOff, part);
      wrClusterOff := wrClusterOff + |part|;
    }

    /** Writes the bytes from the current position, cluster by cluster. They end up where they
        belong exactly when at most one cluster's worth lies past the end of the chain;
        otherwise the cluster that should come next is skipped. */
    method WriteBytes(buf: seq<nat>, ghost fat0: seq<nat>, ghost data0: seq<seq<nat>>, ghost chain0: seq<nat>)
      requires Writing(fat0, data0, chain0) && volume.data[..] == data0
      requires Suffices(|FreeFrom(volume.fat[..], 2)|, volume.bytesPerCluster, |entry.chain|, wrIndex, wrClusterOff, |buf|)
      modifies this`wrCluster, this`wrClusterOff, this`wrIndex, entry`chain, volume.fat, volume.data
      ensures Writing(fat0, data0, chain0) && old(entry.chain) <= entry.chain
      ensures old(Start(volume.bytesPerCluster, wrIndex) + wrClusterOff) + |buf| <= Start(volume.bytesPerCluster, |entry.chain|)
      ensures Outcome(volume.bytesPerCluster, data0, volume.data[..], old(entry.chain), entry.chain,
        old(Start(volume.bytesPerCluster, wrIndex) + wrClusterOff), wrIndex, wrClusterOff, buf)
    {
      hide Grown, Suffices, Progress, Outcome, Start, Splice, FreeFrom, Chain, Disk, Beyond;
      var size := volume.bytesPerCluster;
      ghost var base, p := entry.chain, Start(size, wrIndex) + wrClusterOff;
      GrownFacts(fat0, data0, volume.fat[..], data0, size, chain0, base);
      ProgressStarts(fat0, data0, volume.fat[..], size, chain0, base, wrIndex, wrClusterOff, buf);
      var total := 0;
      ghost var skewed := false;
      while total < |buf|
        invariant total <= |buf| && Writing(fat0, data0, chain0) && base <= entry.chain
        invariant Suffices(|FreeFrom(volume.fat[..], 2)|, size, |entry.chain|, wrIndex, wrClusterOff, |buf| - total)
        invariant entry.chain == base || p + |buf| <= Start(size, |entry.chain|)
        invariant Progress(size, data0, volume.data[..], base, entry.chain, p, wrIndex, wrClusterOff, buf, total, skewed)
      {
        if wrClusterOff == size {
          ghost var k, chain := wrIndex, entry.chain;
          NextWriteCluster(|buf| - total, fat0, data0, chain0);
          GrownFacts(fat0, data0, volume.fat[..], volume.data[..], size, chain0, entry.chain);
          ProgressMoves(data0, volume.fat[..], volume.data[..], size, base, chain, entry.chain, p, k, wrIndex, buf, total, skewed);
          skewed := skewed || |entry.chain| > |chain| + 1;
        }
        var n: nat := if |buf| - total < size - wrClusterOff then |buf| - total else size - wrClusterOff;
        ghost var fat, data := volume.fat[..], volume.data[..];
        GrownFacts(fat0, data0, fat, data, size, chain0, entry.chain);
        ProgressPuts(fat, data0, data, size, base, entry.chain, p, wrIndex, wrClusterOff, buf, total, n, skewed);
        SufficesPut(|FreeFrom(fat, 2)|, size, |entry.chain|, wrIndex, wrClusterOff, |buf| - total, n);
        PutChunk(buf[total..total + n], fat0, data0, chain0);
        total := total + n;
      }
      ProgressEnds(size, data0, volume.data[..], base, entry.chain, p, wrIndex, wrClusterOff, buf, skewed);
    }

    /** Enough clusters are free to write len bytes from the current position. */
    ghost predicate Room(len: nat)
      requires volume.Valid()
      reads this, entry, volume.fat, volume.data
    {
      var free := |FreeFrom(volume.fat[..], 2)|;
      if entry.chain == [] then 1 <= free && NumCluster(volume.bytesPerCluster, len) <= free
      else Suffices(free, volume.bytesPerCluster, |entry.chain|, if wrCluster == 0 then 0 else wrIndex, wrClusterOff, len)
    }

    /** A new file's first clusters: as many as the bytes take, one at least. */
    method AllocateFirst(len: nat)
      requires volume.Valid() && entry.Valid(volume) && entry.chain == [] && Room(len)
      modifies this`wrCluster, entry`firstClusterLow, entry`firstClusterHigh, entry`chain, volume.fat
      ensures Grown(old(volume.fat[..]), volume.data[..], volume.fat[..], volume.data[..], volume.bytesPerCluster, [], entry.chain)
      ensures entry.FirstCluster() == wrCluster == entry.chain[0]
      ensures |entry.chain| == if len == 0 then 1 else NumCluster(volume.bytesPerCluster, len)
    {
      hide Chain, Disk, FreeFrom, KeptOutside, NumCluster, And, Or, Shl, Shr;
      ghost var fat, data, size := volume.fat[..], volume.data[..], volume.bytesPerCluster;
      ghost var free := FreeFrom(fat, 2);
      SizeIsPositive(fat, data, size);
      NumClusterStep(size, len);
      var n := NumCluster(volume.bytesPerCluster, len);
      wrCluster := volume.AllocateClusterChain(n);
      AllocGrown(fat, volume.fat[..], data, size, free, if n == 0 then 1 else n);
      HalvesJoin(volume.fat[..], free[..if n == 0 then 1 else n]);
      entry.firstClusterLow := And(wrCluster, 0xffff);
      entry.firstClusterHigh := And(Shr(wrCluster, 16), 0xffff);
      entry.chain := free[..if n == 0 then 1 else n];
    }

    /** Sets the write position on first use. */
    method StartWriting(len: nat)
      requires WriteReady() && Room(len)
      modifies this`wrCluster, this`wrIndex, entry`firstClusterLow, entry`firstClusterHigh, entry`chain, volume.fat
      ensures Writing(old(volume.fat[..]), volume.data[..], old(entry.chain))
      ensures entry.FirstCluster() == entry.chain[0]
      ensures wrOff == Start(volume.bytesPerCluster, wrIndex) + wrClusterOff
      ensures old(entry.chain) != [] ==> entry.chain == old(entry.chain)
      ensures old(entry.chain) == [] ==>
        && wrOff == 0 && |entry.chain| == (if len == 0 then 1 else NumCluster(volume.bytesPerCluster, len))
        && len <= Start(volume.bytesPerCluster, |entry.chain|)
      ensures Suffices(|FreeFrom(volume.fat[..], 2)|, volume.bytesPerCluster, |entry.chain|, wrIndex, wrClusterOff, len)
    {
      hide Chain, Disk, FreeFrom, Suffices, KeptOutside, NumCluster, Grown, FileOk;
      ghost var fat, data, size, chain := volume.fat[..], volume.data[..], volume.bytesPerCluster, entry.chain;
      SizeIsPositive(fat, data, size);
      FirstOfChain(fat, size, chain, entry.FirstCluster(), entry.fileSize);
      if chain != [] {
        GrownStart(fat, data, size, chain, 0, 0);
        if wrCluster != 0 {
          GrownStart(fat, data, size, chain, wrIndex, wrClusterOff);
        }
      }
      if wrCluster == 0 {
        if entry.FirstCluster() != 0 {
          wrCluster := entry.FirstCluster();
        } else {
          NumClusterHolds(size, len);
          AllocateFirst(len);
          NoneBeyond(|FreeFrom(volume.fat[..], 2)|, size, |entry.chain|, len);
        }
        wrIndex := 0;
      }
    }

    /** Writes the bytes at the write position. They end up where they belong exactly when the
        file is new or at most one cluster's worth lies past the end of its chain. */
    method Write(buf: seq<nat>) returns (total: nat)
      requires WriteReady() && Room(|buf|)
      modifies this`wrOff, this`wrCluster, this`wrClusterOff, this`wrIndex, entry, volume.fat, volume.data
      ensures total == |buf| && wrOff == old(wrOff) + |buf| && entry.fileSize == wrOff % 0x1_0000_0000
      ensures volume.Valid() && entry.Valid(volume)
      ensures Grown(old(volume.fat[..]), old(volume.data[..]), volume.fat[..], volume.data[..], volume.bytesPerCluster, old(entry.chain), entry.chain)
      ensures (old(entry.chain) == [] || wrOff <= Start(volume.bytesPerCluster, |old(entry.chain)|) + volume.bytesPerCluster) ==>
        WriteReady() && wrCluster != 0 && Wrote(old(volume.data[..]), volume.data[..], volume.bytesPerCluster, entry.chain, old(wrOff), buf)
      ensures !(old(entry.chain) == [] || wrOff <= Start(volume.bytesPerCluster, |old(entry.chain)|) + volume.bytesPerCluster) ==>
        Skewed(old(volume.data[..]), volume.data[..], volume.bytesPerCluster, |old(entry.chain)|, entry.chain, wrIndex)
      ensures (old(entry.chain) == [] || wrOff <= Start(volume.bytesPerCluster, |old(entry.chain)|) + volume.bytesPerCluster) ==>
        |entry.chain| <= |old(entry.chain)| + Most(volume.bytesPerCluster, |buf|)
    {
      hide Chain, Disk, FreeFrom, Suffices, KeptOutside, NumCluster, Grown, Outcome, Straight, Skewed, FileOk, Start;
      ghost var fat0, data0, size, chain0 := volume.fat[..], volume.data[..], volume.bytesPerCluster, entry.chain;
      StartWriting(|buf|);
      ghost var base, first := entry.chain, entry.FirstCluster();
      WriteBytes(buf, fat0, data0, chain0);
      total := |buf|;
      wrOff := wrOff + total;
      entry.fileSize := wrOff % 0x1_0000_0000;
      WriteEnds(fat0, data0, volume.fat[..], volume.data[..], size, chain0, base, entry.chain, old(wrOff), wrIndex, wrClusterOff, buf, first, entry.fileSize);
    }
  }
}
