/** Whole uses of files: what is written is what is read, and no other file changes. */
module FileSession {
  import opened Bits
  import opened FatTable
  import opened FileBytes
  import opened FileSystem
  import opened FileGrowth
  import opened Files

  /** Every other file keeps its chain and its bytes. */
  lemma OtherFileKept(fat0: seq<nat>, data0: seq<seq<nat>>, fat: seq<nat>, data: seq<seq<nat>>, size: nat, chain0: seq<nat>, chain: seq<nat>, d: seq<nat>)
    requires Grown(fat0, data0, fat, data, size, chain0, chain) && Chain(fat0, d)
    requires forall c :: c in d ==> c !in chain0
    ensures Chain(fat, d) && forall c :: c in d ==> c !in chain
    ensures Held(data0, size, d) && Held(data, size, d) && Bytes(data, size, d) == Bytes(data0, size, d)
  {
    hide Bytes, FreeFrom;
    assert chain == chain0 + chain[|chain0|..];
    forall c | c in chain[|chain0|..]
      ensures IsFree(fat0, c)
    {
      assert c in FreeFrom(fat0, 2);
    }
    forall c | c in d
      ensures c !in chain && c < |data|
    {
      ChainUsed(fat0, d, c);
    }
    forall i: nat | i < |d|
      ensures Leads(fat, d, i) && data[d[i]] == data0[d[i]]
    {
      ChainLeads(fat0, d, i);
      assert d[i] in d;
    }
    ChainHeld(fat0, data0, size, d);
    ChainHeld(fat, data, size, d);
    BytesOfSame(data0, data, size, d);
  }

  /** One growth after another. */
  lemma GrownTwice(fat0: seq<nat>, data0: seq<seq<nat>>, fat1: seq<nat>, data1: seq<seq<nat>>, fat2: seq<nat>, data2: seq<seq<nat>>,
      size: nat, chain0: seq<nat>, chain1: seq<nat>, chain2: seq<nat>)
    requires Grown(fat0, data0, fat1, data1, size, chain0, chain1)
    requires Grown(fat1, data1, fat2, data2, size, chain1, chain2)
    ensures Grown(fat0, data0, fat2, data2, size, chain0, chain2)
  {
    assert chain2[|chain0|..] == chain1[|chain0|..] + chain2[|chain1|..];
    assert forall c :: c in chain1 ==> c in chain2;
  }

  function Flat(writes: seq<seq<nat>>): seq<nat> {
    if writes == [] then [] else Flat(writes[..|writes| - 1]) + writes[|writes| - 1]
  }

  /** Clusters that suffice for these writes. */
  function Needed(size: nat, writes: seq<seq<nat>>): nat
    requires size > 0
  {
    if writes == [] then 0 else Most(size, |writes[0]|) + Needed(size, writes[1..])
  }

  /** The file's first bytes. */
  predicate Starts(data: seq<seq<nat>>, size: nat, chain: seq<nat>, s: seq<nat>) {
    Held(data, size, chain) && |s| <= Start(size, |chain|) && Bytes(data, size, chain)[..|s|] == s
  }

  /** A write behind the first bytes adds to them. */
  lemma Appended(data0: seq<seq<nat>>, data: seq<seq<nat>>, size: nat, chain0: seq<nat>, chain: seq<nat>, s: seq<nat>, buf: seq<nat>)
    requires Starts(data0, size, chain0, s) && chain0 <= chain && Wrote(data0, data, size, chain, |s|, buf)
    ensures Starts(data, size, chain, s + buf)
  {
    var more := chain[|chain0|..];
    assert chain == chain0 + more;
    forall i | 0 <= i < |more|
      ensures more[i] < |data0| && |data0[more[i]]| == size
    {
      assert more[i] == chain[|chain0| + i];
    }
    BytesOfSum(data0, size, chain0, more);
    assert Bytes(data0, size, chain)[..|s|] == s;
  }

  lemma RoomForWrite(free: nat, size: nat, n: nat, k: nat, off: nat, len: nat)
    requires size > 0 && Start(size, k) + off + len <= Start(size, n) + size && Most(size, len) <= free
    ensures Suffices(free, size, n, k, off, len)
  {
    var beyond := Beyond(size, n, k, off, len);
    NumClusterStep(size, beyond);
    NumClusterStep(size, len);
    assert Sum(1) == 1 + Sum(0);
  }

  lemma NeededStep(size: nat, writes: seq<seq<nat>>, i: nat)
    requires size > 0 && i < |writes|
    ensures Needed(size, writes[i..]) == Most(size, |writes[i]|) + Needed(size, writes[i + 1..])
    ensures Flat(writes[..i + 1]) == Flat(writes[..i]) + writes[i]
  {
    assert writes[i..][1..] == writes[i + 1..];
    assert writes[..i + 1][..i] == writes[..i];
  }

  lemma {:induction false} FlatShort(writes: seq<seq<nat>>, i: nat)
    requires i <= |writes|
    ensures |Flat(writes[..i])| <= |Flat(writes)|
    decreases |writes| - i
  {
    if i < |writes| {
      NeededStep(1, writes, i);
      FlatShort(writes, i + 1);
    } else {
      assert writes[..i] == writes;
    }
  }

  lemma TookLess(free0: seq<nat>, free: seq<nat>, taken: seq<nat>)
    requires Took(free0, free, taken)
    ensures |free| == |free0| - |taken|
  {
  }

  lemma GrownTook(fat0: seq<nat>, data0: seq<seq<nat>>, fat: seq<nat>, data: seq<seq<nat>>, size: nat, chain0: seq<nat>, chain: seq<nat>)
    requires Grown(fat0, data0, fat, data, size, chain0, chain)
    ensures chain0 <= chain && chain != [] && |FreeFrom(fat, 2)| == |FreeFrom(fat0, 2)| - (|chain| - |chain0|)
  {
    TookLess(FreeFrom(fat0, 2), FreeFrom(fat, 2), chain[|chain0|..]);
  }

  /** The write position lies within the chain. */
  lemma PositionInChain(size: nat, chain: seq<nat>, off: nat, k: nat, cluster: nat, clusterOff: nat)
    requires WriteOk(size, chain, off, k, cluster, clusterOff)
    ensures off <= Start(size, |chain|)
    ensures cluster != 0 ==> off == Start(size, k) + clusterOff
    ensures cluster == 0 ==> off == 0 && clusterOff == 0 && Start(size, 0) == 0
  {
    if cluster != 0 {
      StartMono(size, k, |chain|);
    }
  }

  lemma SessionStarts(fat: seq<nat>, data: seq<seq<nat>>, size: nat, chain: seq<nat>, writes: seq<seq<nat>>)
    requires Disk(fat, data, size) && (chain == [] || Chain(fat, chain))
    ensures size > 0 && Flat(writes[..0]) == [] && Starts(data, size, chain, []) && WriteOk(size, chain, 0, 0, 0, 0)
    ensures writes[0..] == writes
  {
    ChainHeld(fat, data, size, chain);
  }

  /** A write of at most one cluster, or the first one of a new file, stays in place. */
  lemma RoomInSession(fd: FileDescriptor, len: nat)
    requires fd.WriteReady() && Most(fd.volume.bytesPerCluster, len) <= |FreeFrom(fd.volume.fat[..], 2)|
    requires fd.entry.chain == [] || len <= fd.volume.bytesPerCluster
    ensures fd.Room(len)
    ensures fd.entry.chain == [] || fd.wrOff + len <= Start(fd.volume.bytesPerCluster, |fd.entry.chain|) + fd.volume.bytesPerCluster
  {
    hide Start, Chain, FreeFrom, NumCluster;
    var size, k := fd.volume.bytesPerCluster, if fd.wrCluster == 0 then 0 else fd.wrIndex;
    PositionInChain(size, fd.entry.chain, fd.wrOff, fd.wrIndex, fd.wrCluster, fd.wrClusterOff);
    NumClusterStep(size, len);
    if fd.entry.chain != [] {
      RoomForWrite(|FreeFrom(fd.volume.fat[..], 2)|, size, |fd.entry.chain|, k, fd.wrClusterOff, len);
    }
  }

  /** All the writes, one after another through one new descriptor. */
  method WriteAll(volume: Volume, entry: DirectoryEntry, writes: seq<seq<nat>>)
    requires volume.Valid() && entry.Valid(volume) && writes != []
    requires |Flat(writes)| < 0x1_0000_0000
    requires forall i :: 0 <= i < |writes| && (i > 0 || entry.chain != []) ==> |writes[i]| <= volume.bytesPerCluster
    requires Needed(volume.bytesPerCluster, writes) <= |FreeFrom(volume.fat[..], 2)|
    modifies entry, volume.fat, volume.data
    ensures volume.Valid() && entry.Valid(volume) && entry.fileSize == |Flat(writes)|
    ensures Grown(old(volume.fat[..]), old(volume.data[..]), volume.fat[..], volume.data[..], volume.bytesPerCluster, old(entry.chain), entry.chain)
    ensures Starts(volume.data[..], volume.bytesPerCluster, entry.chain, Flat(writes))
  {
    hide Grown, Start, Bytes, Suffices, NumCluster, Most, Wrote, Starts, Skewed, FreeFrom, Chain, Disk, FileOk, Needed, Flat, WriteOk;
    var fd := new FileDescriptor(volume, entry);
    var i := 0;
    ghost var size := volume.bytesPerCluster;
    ghost var fat0, data0, chain0 := volume.fat[..], volume.data[..], entry.chain;
    FirstOfChain(fat0, size, chain0, entry.FirstCluster(), entry.fileSize);
    SessionStarts(fat0, data0, size, chain0, writes);
    while i < |writes|
      invariant i <= |writes| && volume.Valid() && entry.Valid(volume) && fd.WriteReady()
      invariant i == 0 ==> volume.fat[..] == fat0 && volume.data[..] == data0 && entry.chain == chain0
      invariant i > 0 ==> Grown(fat0, data0, volume.fat[..], volume.data[..], size, chain0, entry.chain)
      invariant i > 0 ==> entry.fileSize == fd.wrOff && entry.chain != []
      invariant fd.wrOff == |Flat(writes[..i])| && Starts(volume.data[..], size, entry.chain, Flat(writes[..i]))
      invariant Needed(size, writes[i..]) <= |FreeFrom(volume.fat[..], 2)|
    {
      ghost var fat, data, chain := volume.fat[..], volume.data[..], entry.chain;
      NeededStep(size, writes, i);
      FlatShort(writes, i + 1);
      RoomInSession(fd, |writes[i]|);
      var n := fd.Write(writes[i]);
      GrownTook(fat, data, volume.fat[..], volume.data[..], size, chain, entry.chain);
      Appended(data, volume.data[..], size, chain, entry.chain, Flat(writes[..i]), writes[i]);
      if i > 0 {
        GrownTwice(fat0, data0, fat, data, volume.fat[..], volume.data[..], size, chain0, chain, entry.chain);
      }
      i := i + 1;
    }
    assert writes[..i] == writes;
  }

  /** How far reads of these lengths get in a file of total bytes. */
  function Reached(total: nat, lens: seq<nat>): (r: nat)
    ensures r <= total
  {
    if lens == [] then 0
    else
      var before := Reached(total, lens[..|lens| - 1]);
      if lens[|lens| - 1] < total - before then before + lens[|lens| - 1] else total
  }

  /** All the reads, one after another through one new descriptor. */
  method ReadAll(volume: Volume, entry: DirectoryEntry, lens: seq<nat>) returns (out: seq<nat>)
    requires volume.Valid() && entry.Valid(volume)
    ensures var fd := Content(volume.fat[..], volume.data[..], volume.bytesPerCluster, entry.chain, entry.fileSize);
      out == fd[..Reached(entry.fileSize, lens)]
  {
    hide Content, Disk, Chain, FileOk, Start;
    var fd := new FileDescriptor(volume, entry);
    out := [];
    var i := 0;
    while i < |lens|
      invariant i <= |lens| && fd.Valid()
      invariant fd.rdOff == Reached(entry.fileSize, lens[..i]) && out == fd.Contents()[..fd.rdOff]
    {
      assert lens[..i + 1][..i] == lens[..i];
      ghost var off := fd.rdOff;
      var part := fd.Read(lens[i]);
      assert fd.Contents()[..off] + fd.Contents()[off..fd.rdOff] == fd.Contents()[..fd.rdOff];
      out := out + part;
      i := i + 1;
    }
    assert lens[..i] == lens;
  }

  /** What is read back is what was written, in order, however both were cut up. */
  method RoundTrip(volume: Volume, entry: DirectoryEntry, writes: seq<seq<nat>>, lens: seq<nat>) returns (out: seq<nat>)
    requires volume.Valid() && entry.Valid(volume) && writes != []
    requires |Flat(writes)| < 0x1_0000_0000
    requires forall i :: 0 <= i < |writes| && (i > 0 || entry.chain != []) ==> |writes[i]| <= volume.bytesPerCluster
    requires Needed(volume.bytesPerCluster, writes) <= |FreeFrom(volume.fat[..], 2)|
    modifies entry, volume.fat, volume.data
    ensures entry.fileSize == |Flat(writes)|
    ensures out == Flat(writes)[..Reached(|Flat(writes)|, lens)]
    ensures forall d: seq<nat> :: Chain(old(volume.fat[..]), d) && (forall c :: c in d ==> c !in old(entry.chain)) ==>
      && Chain(volume.fat[..], d)
      && Held(old(volume.data[..]), volume.bytesPerCluster, d) && Held(volume.data[..], volume.bytesPerCluster, d)
      && Bytes(volume.data[..], volume.bytesPerCluster, d) == Bytes(old(volume.data[..]), volume.bytesPerCluster, d)
  {
    hide Grown, Chain, Bytes, Flat, Needed, FileOk, Disk, Start;
    ghost var fat0, data0, chain0 := volume.fat[..], volume.data[..], entry.chain;
    WriteAll(volume, entry, writes);
    forall d: seq<nat> | Chain(fat0, d) && forall c :: c in d ==> c !in chain0
      ensures Chain(volume.fat[..], d)
      ensures Held(data0, volume.bytesPerCluster, d) && Held(volume.data[..], volume.bytesPerCluster, d)
      ensures Bytes(volume.data[..], volume.bytesPerCluster, d) == Bytes(data0, volume.bytesPerCluster, d)
    {
      OtherFileKept(fat0, data0, volume.fat[..], volume.data[..], volume.bytesPerCluster, chain0, entry.chain, d);
    }
    out := ReadAll(volume, entry, lens);
  }

  /** The skipped cluster is part of the file and keeps its old bytes, whatever was written. */
  lemma SkippedStays(data0: seq<seq<nat>>, data: seq<seq<nat>>, size: nat, n0: nat, chain: seq<nat>, k: nat)
    requires Skewed(data0, data, size, n0, chain, k) && Held(data, size, chain)
    ensures Start(size, n0) + size <= Start(size, |chain|)
    ensures Bytes(data, size, chain)[Start(size, n0)..][..size] == data0[chain[n0]]
  {
    PieceOfCluster(data, size, chain, n0, 0, size);
  }

  /** Three bytes written to a file of one one-byte cluster: the second is lost. */
  method SkipExample() returns (out: seq<nat>)
    ensures |out| == 3 && out != [7, 8, 9]
  {
    hide FreeFrom, Suffices, Grown, Bytes, Disk, Chain, Or, Shl, Reached, Start, Wrote;
    var fat := new nat[6](i => if i == 2 then END_OF_CLUSTERCHAIN else 0);
    var data := new seq<nat>[6](i => [0]);
    var volume := new Volume(fat, data, 1);
    var entry := new DirectoryEntry(2, 0, 0, [2]);
    var fd := new FileDescriptor(volume, entry);
    ghost var fat0, data0 := fat[..], data[..];
    assert fat0 == [0, 0, END_OF_CLUSTERCHAIN, 0, 0, 0];
    assert data0 == [[0], [0], [0], [0], [0], [0]];
    ExampleFits(fat0, data0);
    var n := fd.Write([7, 8, 9]);
    ghost var chain := entry.chain;
    ChainHeld(fat[..], data[..], 1, chain);
    SkippedStays(data0, data[..], 1, 1, chain, fd.wrIndex);
    out := ReadAll(volume, entry, [3]);
    ExampleRead([3], Bytes(data[..], 1, chain));
  }

  /** The example's volume: one file of one cluster, and three free clusters. */
  lemma ExampleFits(fat: seq<nat>, data: seq<seq<nat>>)
    requires fat == [0, 0, END_OF_CLUSTERCHAIN, 0, 0, 0] && data == [[0], [0], [0], [0], [0], [0]]
    ensures Disk(fat, data, 1) && Chain(fat, [2]) && FreeFrom(fat, 2) == [3, 4, 5]
    ensures Or(2, Shl(0, 16)) == 2
    ensures Start(1, 0) == 0 && Start(1, 1) == 1
    ensures Suffices(3, 1, 1, 0, 0, 3)
  {
    assert Leads(fat, [2], 0);
    assert FreeFrom(fat, 5) == [5] + FreeFrom(fat, 6);
    assert FreeFrom(fat, 4) == [4] + FreeFrom(fat, 5);
    assert FreeFrom(fat, 3) == [3] + FreeFrom(fat, 4);
    ShlZero(16);
    assert Or(1, 0) == 1;
    assert Beyond(1, 1, 0, 0, 3) == 2;
    NumClusterStep(1, 2);
    NumClusterStep(1, 1);
    assert Sum(2) == 3;
  }

  lemma ExampleRead(lens: seq<nat>, bytes: seq<nat>)
    requires lens == [3] && |bytes| >= 3 && bytes[1..][..1] == [0]
    ensures Reached(3, lens) == 3 && bytes[..3][..3] != [7, 8, 9]
  {
    assert lens[..0] == [];
    assert bytes[1..][..1][0] == bytes[..3][..3][1];
  }
}
