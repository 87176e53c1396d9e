/** What a compressed block means: the codes of RFC 1951, section 3.2.5, and the expansion
    of back references, stated on the input bits and the output bytes. */
module Deflate {
  import opened Bits
  import opened Common
  import opened BitStream
  import opened PrefixCode

  // ---- One symbol

  /** Symbol i's code stands at this position of the input. */
  predicate CodeAt(sizes: seq<nat>, data: seq<nat>, pos: nat, i: nat) {
    i < |sizes| && sizes[i] > 0 && CodeValue(data, pos, sizes[i]) == CodeOf(sizes, i)
  }

  lemma CodeAtIsStarts(sizes: seq<nat>, data: seq<nat>, pos: nat, n: nat, i: nat)
    requires i < |sizes| && sizes[i] <= n
    ensures CodeAt(sizes, data, pos, i) <==> Starts(sizes, StreamValue(data, pos, n), i)
  {
    ReversedStream(data, pos, n, sizes[i]);
  }

  /** At most one symbol stands at a position. */
  lemma CodeAtUnique(sizes: seq<nat>, data: seq<nat>, pos: nat, i: nat, j: nat)
    requires CodeAt(sizes, data, pos, i) && CodeAt(sizes, data, pos, j)
    ensures i == j
  {
    var n := sizes[i] + sizes[j];
    CodeAtIsStarts(sizes, data, pos, n, i);
    CodeAtIsStarts(sizes, data, pos, n, j);
    StartsUnique(sizes, StreamValue(data, pos, n), i, j);
  }

  /** The symbol at a position, or -1. */
  ghost function Symbol(sizes: seq<nat>, data: seq<nat>, pos: nat): (z: int)
    ensures z >= 0 ==> CodeAt(sizes, data, pos, z)
    ensures z < 0 ==> z == -1 && forall i: nat :: !CodeAt(sizes, data, pos, i)
  {
    if exists i: nat :: CodeAt(sizes, data, pos, i) then
      var i: nat :| CodeAt(sizes, data, pos, i);
      i
    else -1
  }

  // ---- Lengths and distances

  const LENGTH_BASE: seq<nat> := [3, 4, 5, 6, 7, 8, 9, 10, 11, 13, 15, 17, 19, 23, 27, 31, 35, 43, 51, 59, 67, 83, 99, 115, 131, 163, 195, 227, 258, 0, 0]
  const LENGTH_EXTRA: seq<nat> := [0, 0, 0, 0, 0, 0, 0, 0, 1, 1, 1, 1, 2, 2, 2, 2, 3, 3, 3, 3, 4, 4, 4, 4, 5, 5, 5, 5, 0, 0, 0]
  const DIST_BASE: seq<nat> := [1, 2, 3, 4, 5, 7, 9, 13, 17, 25, 33, 49, 65, 97, 129, 193, 257, 385, 513, 769, 1025, 1537, 2049, 3073, 4097, 6145, 8193, 12289, 16385, 24577, 0, 0]
  const DIST_EXTRA: seq<nat> := [0, 0, 0, 0, 1, 1, 2, 2, 3, 3, 4, 4, 5, 5, 6, 6, 7, 7, 8, 8, 9, 9, 10, 10, 11, 11, 12, 12, 13, 13, 0, 0]

  function LengthBase(k: nat): nat
    requires k < 31
  {
    LENGTH_BASE[k]
  }

  function LengthExtra(k: nat): (e: nat)
    requires k < 31
    ensures e <= 5
  {
    LENGTH_EXTRA[k]
  }

  function DistBase(k: nat): nat
    requires k < 32
  {
    DIST_BASE[k]
  }

  function DistExtra(k: nat): (e: nat)
    requires k < 32
    ensures e <= 13
  {
    DIST_EXTRA[k]
  }

  lemma Powers()
    ensures Pow2(0) == 1 && Pow2(1) == 2 && Pow2(2) == 4 && Pow2(3) == 8 && Pow2(4) == 16 && Pow2(5) == 32 && Pow2(6) == 64
    ensures Pow2(7) == 128 && Pow2(8) == 256 && Pow2(9) == 512 && Pow2(10) == 1024 && Pow2(11) == 2048 && Pow2(12) == 4096
    ensures Pow2(13) == 8192
  {
  }

  /** The length symbols below the last tile 3..258, each starting where the one before ends. */
  lemma LengthsTile(k: nat)
    requires k < 27
    ensures LENGTH_BASE[k + 1] == LENGTH_BASE[k] + Pow2(LENGTH_EXTRA[k])
    ensures LENGTH_BASE[0] == 3 && LENGTH_BASE[27] + Pow2(LENGTH_EXTRA[27]) - 1 == LENGTH_BASE[28] == 258
  {
    Powers();
    hide Pow2;
  }

  /** The distance symbols tile 1..32768. */
  lemma DistancesTile(k: nat)
    requires k < 29
    ensures DIST_BASE[k + 1] == DIST_BASE[k] + Pow2(DIST_EXTRA[k])
    ensures DIST_BASE[0] == 1 && DIST_BASE[29] + Pow2(DIST_EXTRA[29]) - 1 == 32768
  {
    Powers();
    hide Pow2;
  }

  /** After eight length symbols without extra bits, each four have one more than those before;
      the last length has none. After four distance symbols without any, each two do. */
  lemma ExtraBits(k: nat)
    ensures k < 28 ==> LENGTH_EXTRA[k] == if k < 8 then 0 else k / 4 - 1
    ensures 28 <= k < 31 ==> LENGTH_EXTRA[k] == 0
    ensures k < 30 ==> DIST_EXTRA[k] == if k < 4 then 0 else k / 2 - 1
    ensures 30 <= k < 32 ==> DIST_EXTRA[k] == 0 == DIST_BASE[k]
    ensures 29 <= k < 31 ==> LENGTH_BASE[k] == 0
  {
  }

  /** The lengths that symbol 257 + k gives, and the distances that symbol d gives. */
  predicate GivesLength(k: nat, x: nat, len: nat) {
    k < 29 && x < Pow2(LENGTH_EXTRA[k]) && len == LENGTH_BASE[k] + x
  }

  predicate GivesDistance(d: nat, x: nat, dist: nat) {
    d < 30 && x < Pow2(DIST_EXTRA[d]) && dist == DIST_BASE[d] + x
  }

  lemma {:induction false} LengthFound(len: nat, k: nat) returns (k': nat, x: nat)
    requires k < 28 && LENGTH_BASE[k] <= len <= 257
    ensures GivesLength(k', x, len)
    decreases 28 - k
  {
    Powers();
    hide Pow2;
    if len < LENGTH_BASE[k] + Pow2(LENGTH_EXTRA[k]) {
      return k, len - LENGTH_BASE[k];
    }
    if k < 27 { LengthsTile(k); }
    k', x := LengthFound(len, k + 1);
  }

  lemma {:induction false} LengthsRise(k: nat, j: nat)
    requires k < j < 28
    ensures LENGTH_BASE[k] + Pow2(LENGTH_EXTRA[k]) <= LENGTH_BASE[j]
    decreases j
  {
    LengthsTile(k);
    if k < j - 1 {
      LengthsRise(k, j - 1);
      LengthsTile(j - 1);
    }
  }

  /** Every length from 3 to 257 is given by exactly one symbol and extra value. */
  lemma EveryLength(len: nat) returns (k: nat, x: nat)
    requires 3 <= len <= 257
    ensures GivesLength(k, x, len) && forall k': nat, x': nat :: GivesLength(k', x', len) ==> k' == k && x' == x
  {
    k, x := LengthFound(len, 0);
    forall k': nat, x': nat | GivesLength(k', x', len) ensures k' == k && x' == x {
      if k < k' < 28 {
        LengthsRise(k, k');
      } else if k' < k < 28 {
        LengthsRise(k', k);
      }
    }
  }

  lemma {:induction false} DistanceFound(dist: nat, d: nat) returns (d': nat, x: nat)
    requires d < 30 && DIST_BASE[d] <= dist <= 32768
    ensures GivesDistance(d', x, dist)
    decreases 30 - d
  {
    Powers();
    hide Pow2;
    if dist < DIST_BASE[d] + Pow2(DIST_EXTRA[d]) {
      return d, dist - DIST_BASE[d];
    }
    if d < 29 { DistancesTile(d); }
    d', x := DistanceFound(dist, d + 1);
  }

  lemma {:induction false} DistancesRise(k: nat, j: nat)
    requires k < j < 30
    ensures DIST_BASE[k] + Pow2(DIST_EXTRA[k]) <= DIST_BASE[j]
    decreases j
  {
    DistancesTile(k);
    if k < j - 1 {
      DistancesRise(k, j - 1);
      DistancesTile(j - 1);
    }
  }

  /** So is every distance from 1 to 32768. */
  lemma EveryDistance(dist: nat) returns (d: nat, x: nat)
    requires 1 <= dist <= 32768
    ensures GivesDistance(d, x, dist) && forall d': nat, x': nat :: GivesDistance(d', x', dist) ==> d' == d && x' == x
  {
    d, x := DistanceFound(dist, 0);
    forall d': nat, x': nat | GivesDistance(d', x', dist) ensures d' == d && x' == x {
      if d < d' {
        DistancesRise(d, d');
      } else if d' < d {
        DistancesRise(d', d);
      }
    }
  }

  datatype Event =
    | Literal(byte: nat, next: nat)
    | Match(len: nat, dist: nat, next: nat)
    | EndOfBlock(next: nat)
    | BadCode

  /** Code lengths a block can carry: 288 length symbols and 32 distance symbols. */
  predicate Codes(lengths: seq<nat>, distances: seq<nat>) {
    Legal(lengths) && Legal(distances) && |distances| <= 32
  }

  /** The item of a block at a position, with the position after it. */
  ghost function Next(lengths: seq<nat>, distances: seq<nat>, data: seq<nat>, pos: nat): Event
    requires Codes(lengths, distances)
  {
    var z := Symbol(lengths, data, pos);
    if z < 0 then BadCode
    else if z < 256 then Literal(z, pos + lengths[z])
    else if z == 256 then EndOfBlock(pos + lengths[z])
    else
      var p := pos + lengths[z];
      var len := LengthBase(z - 257) + StreamValue(data, p, LengthExtra(z - 257));
      var q := p + LengthExtra(z - 257);
      var d := Symbol(distances, data, q);
      if d < 0 then BadCode
      else
        var r := q + distances[d];
        Match(len, DistBase(d) + StreamValue(data, r, DistExtra(d)), r + DistExtra(d))
  }

  // ---- Back references

  /** len bytes copied one at a time from dist back, so that the copy may read itself. */
  function Copy(out: seq<nat>, len: nat, dist: nat): (r: seq<nat>)
    requires 1 <= dist <= |out|
    ensures |r| == |out| + len
    decreases len
  {
    if len == 0 then out else Copy(out + [out[|out| - dist]], len - 1, dist)
  }

  /** The copied bytes repeat the last dist bytes. */
  lemma {:induction false} CopyRepeats(out: seq<nat>, len: nat, dist: nat, k: nat)
    requires 1 <= dist <= |out| && k < |out| + len
    ensures Copy(out, len, dist)[k] == if k < |out| then out[k] else Copy(out, len, dist)[k - dist]
    decreases len
  {
    if len > 0 {
      var more := out + [out[|out| - dist]];
      CopyRepeats(more, len - 1, dist, k);
      if k == |out| {
        CopyRepeats(more, len - 1, dist, k - dist);
      }
    }
  }

  lemma {:induction false} CopyIsPeriodic(out: seq<nat>, len: nat, dist: nat, k: nat)
    requires 1 <= dist <= |out| && k < len
    ensures Copy(out, len, dist)[|out| + k] == out[|out| - dist + k % dist]
    decreases k
  {
    CopyRepeats(out, len, dist, |out| + k);
    if k < dist {
      CopyRepeats(out, len, dist, |out| + k - dist);
      assert k % dist == k;
    } else {
      CopyIsPeriodic(out, len, dist, k - dist);
      assert k % dist == (k - dist) % dist by { ModStep(k, dist); }
    }
  }

  lemma ModStep(k: nat, d: nat)
    requires 0 < d <= k
    ensures k % d == (k - d) % d
  {
    var q, r := (k - d) / d, (k - d) % d;
    assert d * (q + 1) == d * q + d;
    MultipleIsFar(d, q + 1 - k / d);
    assert d * (q + 1 - k / d) == d * (q + 1) - d * (k / d);
  }

  /** One more byte of a copy. */
  lemma {:induction false} CopyStep(out: seq<nat>, len: nat, dist: nat)
    requires 1 <= dist <= |out|
    ensures Copy(out, len + 1, dist) == Copy(out, len, dist) + [Copy(out, len, dist)[|out| + len - dist]]
    decreases len
  {
    if len > 0 {
      CopyStep(out + [out[|out| - dist]], len - 1, dist);
    }
  }

  /** What memory that was never written holds, place by place. */
  type Memory = nat -> nat

  /** len bytes passed over: they stay what the memory held. */
  function Skip(out: seq<nat>, len: nat, memory: Memory): (r: seq<nat>)
    ensures |r| == |out| + len
    decreases len
  {
    if len == 0 then out else Skip(out + [memory(|out|)], len - 1, memory)
  }

  /** What a back reference appends. One of distance zero copies each byte to itself. */
  function Extend(out: seq<nat>, len: nat, dist: nat, memory: Memory): (r: seq<nat>)
    requires dist <= |out|
    ensures |r| == |out| + len
  {
    if dist == 0 then Skip(out, len, memory) else Copy(out, len, dist)
  }

  lemma {:induction false} SkipKeeps(out: seq<nat>, len: nat, memory: Memory, k: nat)
    requires k < |out| + len
    ensures Skip(out, len, memory)[k] == if k < |out| then out[k] else memory(k)
    decreases len
  {
    if len > 0 {
      SkipKeeps(out + [memory(|out|)], len - 1, memory, k);
    }
  }

  lemma {:induction false} SkipStep(out: seq<nat>, len: nat, memory: Memory)
    ensures Skip(out, len + 1, memory) == Skip(out, len, memory) + [memory(|out| + len)]
    decreases len
  {
    if len > 0 {
      SkipStep(out + [memory(|out|)], len - 1, memory);
    }
  }

  lemma ExtendNone(out: seq<nat>, dist: nat, memory: Memory)
    requires dist <= |out|
    ensures Extend(out, 0, dist, memory) == out
  {
  }

  /** One more byte of a back reference. */
  lemma ExtendStep(out: seq<nat>, len: nat, dist: nat, memory: Memory)
    requires dist <= |out|
    ensures var r := Extend(out, len, dist, memory);
      Extend(out, len + 1, dist, memory) == r + [if dist == 0 then memory(|out| + len) else r[|out| + len - dist]]
  {
    if dist == 0 {
      SkipStep(out, len, memory);
    } else {
      CopyStep(out, len, dist);
    }
  }

  // ---- A block

  datatype Failure = Huffman | Distance | NoRoom | BadStored | BadLengthList | BadKind

  datatype Outcome =
    | Done(out: seq<nat>, pos: nat)
    | Failed(why: Failure)
    | Running

  /** What a block turns the output into within n items. room is the space of an output
      buffer that may not grow. RFC 1951 gives distance symbols 30 and 31 no meaning; here they
      are distance zero. */
  ghost function Block(lengths: seq<nat>, distances: seq<nat>, data: seq<nat>, pos: nat, out: seq<nat>, room: int, memory: Memory, n: nat): Outcome
    requires Codes(lengths, distances)
    decreases n
  {
    if n == 0 then Running
    else
      match Next(lengths, distances, data, pos)
      case BadCode => Failed(Huffman)
      case EndOfBlock(p) => Done(out, p)
      case Literal(b, p) =>
        if 0 <= room <= |out| then Failed(NoRoom)
        else Block(lengths, distances, data, p, out + [b], room, memory, n - 1)
      case Match(len, dist, p) =>
        if dist > |out| then Failed(Distance)
        else if 0 <= room < |out| + len then Failed(NoRoom)
        else Block(lengths, distances, data, p, Extend(out, len, dist, memory), room, memory, n - 1)
  }
}
