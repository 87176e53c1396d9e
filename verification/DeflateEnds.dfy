/** When decoding ends. The input reads as zeroes past its end, so what matters is which
    symbol an all-zero window stands for. */
module DeflateEnds {
  import Bits
  import opened BitStream
  import opened PrefixCode
  import opened Deflate
  import opened DeflateStream

  /** How many bits of the input lie after a position. */
  function Left(data: seq<nat>, pos: nat): nat {
    if pos < 8 * |data| then 8 * |data| - pos else 0
  }

  lemma {:induction false} ZeroCode(data: seq<nat>, pos: nat, n: nat)
    requires Left(data, pos) == 0
    ensures CodeValue(data, pos, n) == 0
  {
    if n > 0 {
      ZeroCode(data, pos, n - 1);
    }
  }

  lemma {:induction false} ZeroValue(data: seq<nat>, pos: nat, n: nat)
    requires Left(data, pos) == 0
    ensures StreamValue(data, pos, n) == 0
    decreases n
  {
    if n > 0 {
      ZeroValue(data, pos + 1, n - 1);
    }
  }

  /** Past the input, the same symbol stands everywhere. */
  lemma PastInput(sizes: seq<nat>, data: seq<nat>, pos: nat)
    requires Left(data, pos) == 0
    ensures Symbol(sizes, data, pos) == Symbol(sizes, [], 0)
  {
    forall i: nat | i < |sizes| ensures CodeAt(sizes, data, pos, i) <==> CodeAt(sizes, [], 0, i) {
      ZeroCode(data, pos, sizes[i]);
      ZeroCode([], 0, sizes[i]);
    }
    var z := Symbol(sizes, data, pos);
    if z >= 0 && Symbol(sizes, [], 0) >= 0 {
      CodeAtUnique(sizes, data, pos, z, Symbol(sizes, [], 0));
    }
  }

  /** Where the next item starts, if there is one. */
  function After(e: Event): nat {
    match e
    case Literal(_, p) => p
    case Match(_, _, p) => p
    case EndOfBlock(p) => p
    case BadCode => 0
  }

  lemma NextMoves(lengths: seq<nat>, distances: seq<nat>, data: seq<nat>, pos: nat)
    requires Codes(lengths, distances)
    ensures var e := Next(lengths, distances, data, pos); !e.BadCode? ==> After(e) > pos
    ensures var e := Next(lengths, distances, data, pos); e.Match? ==>
      Symbol(lengths, data, pos) > 256 && (Symbol(lengths, data, pos) < 286 ==> e.len >= 3)
    ensures Symbol(lengths, data, pos) > 256 ==> Next(lengths, distances, data, pos).Match? || Next(lengths, distances, data, pos).BadCode?
    ensures Symbol(lengths, data, pos) < 0 ==> Next(lengths, distances, data, pos).BadCode?
    ensures Symbol(lengths, data, pos) == 256 ==> Next(lengths, distances, data, pos).EndOfBlock?
    ensures 0 <= Symbol(lengths, data, pos) < 256 ==> Next(lengths, distances, data, pos).Literal?
  {
    hide StreamValue, CodeValue, CodeOf, DistBase, LengthExtra, DistExtra;
  }

  // ---- Past the input

  /** The item that stands everywhere past the input. */
  lemma NextPastInput(lengths: seq<nat>, distances: seq<nat>, data: seq<nat>, pos: nat)
    requires Codes(lengths, distances) && Left(data, pos) == 0
    ensures var z, d, e := Symbol(lengths, [], 0), Symbol(distances, [], 0), Next(lengths, distances, data, pos);
      && z < 288 && d < 32
      && (z < 0 ==> e.BadCode?) && (0 <= z < 256 ==> e.Literal?) && (z == 256 ==> e.EndOfBlock?)
      && (z > 256 && d < 0 ==> e.BadCode?)
      && (z > 256 && d >= 0 ==> e.Match? && e.len == LengthBase(z - 257) && e.dist == DistBase(d))
      && (!e.BadCode? ==> Left(data, After(e)) == 0)
  {
    hide StreamValue, CodeValue, CodeOf, DistBase, LengthBase;
    PastInput(lengths, data, pos);
    NextMoves(lengths, distances, data, pos);
    var z := Symbol(lengths, data, pos);
    if z > 256 {
      var p := pos + lengths[z];
      var q := p + LengthExtra(z - 257);
      ZeroValue(data, p, LengthExtra(z - 257));
      PastInput(distances, data, q);
      var d := Symbol(distances, data, q);
      if d >= 0 {
        ZeroValue(data, q + distances[d], DistExtra(d));
      }
    }
  }

  /** The items past the input neither end the block nor fail. For a buffer that may grow
      (room -1) they are literals or back references; for another one, back references of no
      bytes. */
  ghost predicate Stalls(lengths: seq<nat>, distances: seq<nat>, produced: nat, room: int) {
    var z, d := Symbol(lengths, [], 0), Symbol(distances, [], 0);
    if room < 0 then 0 <= z < 256 || (z > 256 && 0 <= d < 32 && DistBase(d) <= produced)
    else z >= 286 && 0 <= d < 32 && DistBase(d) <= produced <= room
  }

  /** What is still to be produced into a buffer that may not grow. */
  function ToFill(produced: nat, room: int): nat {
    if room > produced then room - produced else 0
  }

  lemma LengthValues(k: nat)
    requires k < 31
    ensures LengthBase(k) == 0 <==> k >= 29
  {}

  lemma {:induction false} StallsForever(lengths: seq<nat>, distances: seq<nat>, data: seq<nat>, pos: nat, out: seq<nat>, room: int, memory: Memory, n: nat)
    requires Codes(lengths, distances) && Left(data, pos) == 0 && Stalls(lengths, distances, |out|, room)
    ensures Block(lengths, distances, data, pos, out, room, memory, n).Running?
    decreases n
  {
    hide Codes, Next, Symbol, DistBase, LengthBase;
    if n > 0 {
      NextPastInput(lengths, distances, data, pos);
      var z, d, e := Symbol(lengths, [], 0), Symbol(distances, [], 0), Next(lengths, distances, data, pos);
      if e.Literal? {
        StallsForever(lengths, distances, data, e.next, out + [e.byte], room, memory, n - 1);
      } else {
        LengthValues(z - 257);
        StallsForever(lengths, distances, data, e.next, Extend(out, e.len, e.dist, memory), room, memory, n - 1);
      }
    }
  }

  lemma {:induction false} EndsUnlessStalled(lengths: seq<nat>, distances: seq<nat>, data: seq<nat>, pos: nat, out: seq<nat>, room: int, memory: Memory, n: nat)
    requires Codes(lengths, distances) && Left(data, pos) == 0 && !Stalls(lengths, distances, |out|, room)
    requires n > ToFill(|out|, room)
    ensures !Block(lengths, distances, data, pos, out, room, memory, n).Running?
    decreases n
  {
    hide Codes, Next, Symbol, DistBase, LengthBase;
    NextPastInput(lengths, distances, data, pos);
    var z, d, e := Symbol(lengths, [], 0), Symbol(distances, [], 0), Next(lengths, distances, data, pos);
    match e
    case BadCode =>
    case EndOfBlock(p) =>
    case Literal(b, p) =>
      if room > |out| {
        EndsUnlessStalled(lengths, distances, data, p, out + [b], room, memory, n - 1);
      }
    case Match(len, dist, p) =>
      LengthValues(z - 257);
      if dist <= |out| && |out| + len <= room {
        EndsUnlessStalled(lengths, distances, data, p, Extend(out, len, dist, memory), room, memory, n - 1);
      }
  }

  /** Past its input, a block goes on for ever if and only if it stalls. */
  lemma PastInputRuns(lengths: seq<nat>, distances: seq<nat>, data: seq<nat>, pos: nat, out: seq<nat>, room: int, memory: Memory, n: nat)
    requires Codes(lengths, distances) && Left(data, pos) == 0 && n > ToFill(|out|, room)
    ensures Block(lengths, distances, data, pos, out, room, memory, n).Running? <==> Stalls(lengths, distances, |out|, room)
  {
    hide Codes, Block, Stalls;
    if Stalls(lengths, distances, |out|, room) {
      StallsForever(lengths, distances, data, pos, out, room, memory, n);
    } else {
      EndsUnlessStalled(lengths, distances, data, pos, out, room, memory, n);
    }
  }

  // ---- Blocks

  /** A block ends at some time. */
  ghost predicate Halts(lengths: seq<nat>, distances: seq<nat>, data: seq<nat>, pos: nat, out: seq<nat>, room: int, memory: Memory)
    requires Codes(lengths, distances)
  {
    exists n: nat :: !Block(lengths, distances, data, pos, out, room, memory, n).Running?
  }

  /** The number of items after which a block has ended if it ever does: one for each bit of
      the input that is left, for each byte still to be filled, and one more. */
  function Bound(data: seq<nat>, pos: nat, produced: nat, room: int): nat {
    Left(data, pos) + ToFill(produced, room) + 1
  }

  /** A block that has not ended by then never does. */
  lemma {:induction false} NotYetIsNever(lengths: seq<nat>, distances: seq<nat>, data: seq<nat>, pos: nat, out: seq<nat>, room: int, memory: Memory, n: nat, m: nat)
    requires Codes(lengths, distances) && n >= Bound(data, pos, |out|, room)
    requires Block(lengths, distances, data, pos, out, room, memory, n).Running?
    ensures Block(lengths, distances, data, pos, out, room, memory, m).Running?
    decreases n
  {
    hide Codes, Next, Symbol, Stalls;
    if m > 0 {
      if Left(data, pos) == 0 {
        PastInputRuns(lengths, distances, data, pos, out, room, memory, n);
        StallsForever(lengths, distances, data, pos, out, room, memory, m);
      } else {
        NextMoves(lengths, distances, data, pos);
        match Next(lengths, distances, data, pos)
        case Literal(b, p) => NotYetIsNever(lengths, distances, data, p, out + [b], room, memory, n - 1, m - 1);
        case Match(len, dist, p) => NotYetIsNever(lengths, distances, data, p, Extend(out, len, dist, memory), room, memory, n - 1, m - 1);
      }
    }
  }

  lemma HaltsInTime(lengths: seq<nat>, distances: seq<nat>, data: seq<nat>, pos: nat, out: seq<nat>, room: int, memory: Memory, n: nat)
    requires Codes(lengths, distances) && n >= Bound(data, pos, |out|, room)
    ensures Halts(lengths, distances, data, pos, out, room, memory) <==> !Block(lengths, distances, data, pos, out, room, memory, n).Running?
  {
    hide Codes, Block;
    if Block(lengths, distances, data, pos, out, room, memory, n).Running? {
      forall m: nat ensures Block(lengths, distances, data, pos, out, room, memory, m).Running? {
        NotYetIsNever(lengths, distances, data, pos, out, room, memory, n, m);
      }
    }
  }

  /** The codes for which an all-zero window ends a block: read off the two tables. */
  ghost predicate Ends(lengths: seq<nat>, distances: seq<nat>) {
    var z, d := Symbol(lengths, [], 0), Symbol(distances, [], 0);
    z < 0 || z == 256 || (z > 256 && d < 0)
  }

  /** The same for a buffer that may not grow. */
  ghost predicate EndsInRoom(lengths: seq<nat>, distances: seq<nat>) {
    var z, d := Symbol(lengths, [], 0), Symbol(distances, [], 0);
    z < 286 || d < 0
  }

  /** With such codes, a block ends in time. */
  lemma {:induction false} BlockEnds(lengths: seq<nat>, distances: seq<nat>, data: seq<nat>, pos: nat, out: seq<nat>, room: int, memory: Memory, n: nat)
    requires Codes(lengths, distances) && n >= Bound(data, pos, |out|, room)
    requires if room < 0 then Ends(lengths, distances) else EndsInRoom(lengths, distances)
    ensures !Block(lengths, distances, data, pos, out, room, memory, n).Running?
    decreases n
  {
    hide Codes, Next, Symbol, DistBase;
    if Left(data, pos) == 0 {
      EndsUnlessStalled(lengths, distances, data, pos, out, room, memory, n);
    } else {
      NextMoves(lengths, distances, data, pos);
      match Next(lengths, distances, data, pos)
      case BadCode =>
      case EndOfBlock(p) =>
      case Literal(b, p) => BlockEnds(lengths, distances, data, p, out + [b], room, memory, n - 1);
      case Match(len, dist, p) =>
        if dist <= |out| {
          BlockEnds(lengths, distances, data, p, Extend(out, len, dist, memory), room, memory, n - 1);
        }
    }
  }

  /** Every block with these codes halts, wherever it starts, with whatever it has produced. */
  ghost predicate AlwaysHalts(lengths: seq<nat>, distances: seq<nat>, memory: Memory)
    requires Codes(lengths, distances)
  {
    forall data: seq<nat>, pos: nat, out: seq<nat> :: Halts(lengths, distances, data, pos, out, -1, memory)
  }

  ghost predicate AlwaysHaltsInRoom(lengths: seq<nat>, distances: seq<nat>, memory: Memory)
    requires Codes(lengths, distances)
  {
    forall data: seq<nat>, pos: nat, out: seq<nat>, room: nat :: Halts(lengths, distances, data, pos, out, room, memory)
  }

  /** That is so if and only if the all-zero window ends a block. */
  lemma AlwaysHaltsIff(lengths: seq<nat>, distances: seq<nat>, memory: Memory)
    requires Codes(lengths, distances)
    ensures AlwaysHalts(lengths, distances, memory) <==> Ends(lengths, distances)
  {
    hide Codes, Block, Halts;
    if Ends(lengths, distances) {
      forall data: seq<nat>, pos: nat, out: seq<nat> ensures Halts(lengths, distances, data, pos, out, -1, memory) {
        HaltsInTime(lengths, distances, data, pos, out, -1, memory, Bound(data, pos, |out|, -1));
        BlockEnds(lengths, distances, data, pos, out, -1, memory, Bound(data, pos, |out|, -1));
      }
    } else {
      var out := Produced(distances);
      SymbolRange(lengths, distances);
      HaltsInTime(lengths, distances, [], 0, out, -1, memory, Bound([], 0, |out|, -1));
      StallsForever(lengths, distances, [], 0, out, -1, memory, Bound([], 0, |out|, -1));
      assert !Halts(lengths, distances, [], 0, out, -1, memory);
    }
  }

  lemma AlwaysHaltsInRoomIff(lengths: seq<nat>, distances: seq<nat>, memory: Memory)
    requires Codes(lengths, distances)
    ensures AlwaysHaltsInRoom(lengths, distances, memory) <==> EndsInRoom(lengths, distances)
  {
    hide Codes, Block, Halts;
    if EndsInRoom(lengths, distances) {
      forall data: seq<nat>, pos: nat, out: seq<nat>, room: nat ensures Halts(lengths, distances, data, pos, out, room, memory) {
        HaltsInTime(lengths, distances, data, pos, out, room, memory, Bound(data, pos, |out|, room));
        BlockEnds(lengths, distances, data, pos, out, room, memory, Bound(data, pos, |out|, room));
      }
    } else {
      var out := Produced(distances);
      SymbolRange(lengths, distances);
      HaltsInTime(lengths, distances, [], 0, out, |out|, memory, Bound([], 0, |out|, |out|));
      StallsForever(lengths, distances, [], 0, out, |out|, memory, Bound([], 0, |out|, |out|));
      assert !Halts(lengths, distances, [], 0, out, |out|, memory);
    }
  }

  lemma SymbolRange(lengths: seq<nat>, distances: seq<nat>)
    requires Codes(lengths, distances)
    ensures Symbol(lengths, [], 0) < 288 && Symbol(distances, [], 0) < 32
  {}

  /** Output that the distance for an all-zero window reaches back into. */
  ghost function Produced(distances: seq<nat>): (out: seq<nat>)
    ensures var d := Symbol(distances, [], 0); 0 <= d < 32 ==> |out| == DistBase(d)
  {
    var d := Symbol(distances, [], 0);
    if 0 <= d < 32 then Repeat(0, DistBase(d)) else []
  }

  // ---- Two codes

  /** Two literals' worth of code: symbol 0 and the end of the block have one bit each. */
  function TwoSymbols(): seq<nat> {
    [1] + Repeat(0, 255) + [1]
  }

  /** A code that a header can carry and with which a block that is cut off never ends. */
  lemma CutOffExample(memory: Memory, n: nat)
    ensures Codes(TwoSymbols(), [1]) && Fits(TwoSymbols()) && Fits([1]) && Symbol(TwoSymbols(), [], 0) == 0
    ensures Block(TwoSymbols(), [1], [], 0, [], -1, memory, n).Running?
  {
    var lengths := TwoSymbols();
    TwoCounts();
    ZeroCode([], 0, 1);
    assert lengths[0] == 1 && Count(lengths, 0, 1) == 0 && FirstCode(lengths, 1) == 0;
    assert CodeAt(lengths, [], 0, 0);
    CodeAtUnique(lengths, [], 0, 0, Symbol(lengths, [], 0));
    hide Symbol, CodeAt;
    StallsForever(lengths, [1], [], 0, [], -1, memory, n);
  }

  /** The undefined length 286 and the undefined distance 30, one bit each. */
  function NoBytes(): (seq<nat>, seq<nat>) {
    (Repeat(0, 286) + [1], Repeat(0, 30) + [1])
  }

  /** A code that a header can carry and with which the decoder, once past its input, neither
      reads nor writes nor ends: in a buffer that may grow, and in one without any room. */
  lemma NoBytesExample(memory: Memory, n: nat)
    ensures var (lengths, distances) := NoBytes();
      && Codes(lengths, distances) && Fits(lengths) && Fits(distances)
      && Symbol(lengths, [], 0) == 286 && Symbol(distances, [], 0) == 30
      && Block(lengths, distances, [], 0, [], -1, memory, n).Running?
      && Block(lengths, distances, [], 0, [], 0, memory, n).Running?
  {
    var (lengths, distances) := NoBytes();
    LastSymbol(286);
    LastSymbol(30);
    hide Symbol, Fits;
    StallsForever(lengths, distances, [], 0, [], -1, memory, n);
    StallsForever(lengths, distances, [], 0, [], 0, memory, n);
  }

  /** A code of one bit for one symbol alone. */
  lemma LastSymbol(k: nat)
    ensures var sizes := Repeat(0, k) + [1]; Fits(sizes) && Symbol(sizes, [], 0) == k
  {
    var sizes := Repeat(0, k) + [1];
    forall l: nat | 1 <= l <= 15 ensures CountAll(sizes, l) == if l == 1 then 1 else 0 {
      CountOfSum(Repeat(0, k), [1], l);
      CountOfRun(0, k, k, l);
      assert Count([1], 1, l) == Count([1], 0, l) + if l == 1 then 1 else 0;
    }
    NoneAfterOne(sizes);
    ZeroCode([], 0, 1);
    CountOfPrefix(sizes, k, 1);
    CountOfRun(0, k, k, 1);
    assert sizes[..k] == Repeat(0, k);
    assert FirstCode(sizes, 1) == 0;
    assert CodeAt(sizes, [], 0, k);
    CodeAtUnique(sizes, [], 0, k, Symbol(sizes, [], 0));
  }

  lemma TwoCounts()
    ensures Codes(TwoSymbols(), [1]) && Fits(TwoSymbols()) && Fits([1])
  {
    var lengths := TwoSymbols();
    forall l: nat | 1 <= l <= 15 ensures CountAll(lengths, l) == (if l == 1 then 2 else 0) && CountAll([1], l) == if l == 1 then 1 else 0 {
      CountOfSum([1] + Repeat(0, 255), [1], l);
      CountOfSum([1], Repeat(0, 255), l);
      CountOfRun(0, 255, 255, l);
      assert Count([1], 1, l) == Count([1], 0, l) + if l == 1 then 1 else 0;
    }
    NoneAfterOne(lengths);
    NoneAfterOne([1]);
  }

  lemma NoneAfterOne(sizes: seq<nat>)
    requires forall l: nat :: 2 <= l <= 15 ==> CountAll(sizes, l) == 0
    requires CountAll(sizes, 1) <= 2
    ensures Fits(sizes)
  {
    assert Bits.Pow2(1) == 2;
  }

  /** The fixed code has seven zeroes for the end of a block. */
  lemma FixedEnds()
    ensures Ends(DEFAULT_LENGTH, DEFAULT_DISTANCE) && EndsInRoom(DEFAULT_LENGTH, DEFAULT_DISTANCE)
  {
    DefaultFirst();
    CountOfPrefix(DEFAULT_LENGTH, 256, 7);
    var a, b := Repeat(8, 144), Repeat(9, 112);
    assert DEFAULT_LENGTH[..256] == a + b;
    CountOfSum(a, b, 7);
    CountOfRun(8, 144, 144, 7);
    CountOfRun(9, 112, 112, 7);
    assert DEFAULT_LENGTH[256] == 7;
    ZeroCode([], 0, 7);
    assert CodeAt(DEFAULT_LENGTH, [], 0, 256);
    CodeAtUnique(DEFAULT_LENGTH, [], 0, 256, Symbol(DEFAULT_LENGTH, [], 0));
  }

  // ---- Streams

  lemma {:induction false} LengthsMove(cl: seq<nat>, data: seq<nat>, pos: nat, total: nat, done: seq<nat>)
    requires |done| <= total && |cl| == 19
    ensures var r := ReadLengths(cl, data, pos, total, done); r.Lengths? ==> r.pos >= pos
    decreases total - |done|
  {
    hide Symbol, Run, Repeat, Bits.Pow2;
    var c := Symbol(cl, data, pos);
    if |done| < total && c >= 0 && !(c == 16 && done == []) {
      var (x, n, p) := Run(data, pos + cl[c], c, done);
      RunMoves(data, pos + cl[c], c, done);
      if n <= total - |done| {
        LengthsMove(cl, data, p, total, done + Repeat(x, n));
      }
    }
  }

  lemma RunMoves(data: seq<nat>, pos: nat, c: nat, done: seq<nat>)
    ensures Run(data, pos, c, done).1 > 0 && Run(data, pos, c, done).2 >= pos
  {
  }

  lemma CodesMove(data: seq<nat>, pos: nat)
    ensures DynamicCodes(data, pos).BlockCodes? ==> DynamicCodes(data, pos).pos >= pos
  {
    hide ReadLengths, CodeLengthSizes, StreamValue, Fits;
    CountBounds(data, pos);
    var hlit, hdist, hclen := StreamValue(data, pos, 5) + 257, StreamValue(data, pos + 5, 5) + 1, StreamValue(data, pos + 10, 4) + 4;
    LengthsMove(CodeLengthSizes(data, pos + 14, hclen), data, pos + 14 + 3 * hclen, hlit + hdist, []);
  }

  lemma {:induction false} BlockMoves(lengths: seq<nat>, distances: seq<nat>, data: seq<nat>, pos: nat, out: seq<nat>, room: int, memory: Memory, n: nat)
    requires Codes(lengths, distances)
    ensures var b := Block(lengths, distances, data, pos, out, room, memory, n); b.Done? ==> b.pos > pos && |b.out| >= |out|
    decreases n
  {
    hide Codes, Next, Symbol;
    NextMoves(lengths, distances, data, pos);
    if n > 0 {
      match Next(lengths, distances, data, pos)
      case BadCode =>
      case EndOfBlock(p) =>
      case Literal(b, p) => BlockMoves(lengths, distances, data, p, out + [b], room, memory, n - 1);
      case Match(len, dist, p) =>
        if dist <= |out| {
          BlockMoves(lengths, distances, data, p, Extend(out, len, dist, memory), room, memory, n - 1);
        }
    }
  }

  /** What a block ends with does not depend on how long one waits. */
  lemma {:induction false} BlockStable(lengths: seq<nat>, distances: seq<nat>, data: seq<nat>, pos: nat, out: seq<nat>, room: int, memory: Memory, n: nat, m: nat)
    requires Codes(lengths, distances)
    requires !Block(lengths, distances, data, pos, out, room, memory, n).Running? && !Block(lengths, distances, data, pos, out, room, memory, m).Running?
    ensures Block(lengths, distances, data, pos, out, room, memory, n) == Block(lengths, distances, data, pos, out, room, memory, m)
    decreases n
  {
    hide Codes, Next, Symbol;
    match Next(lengths, distances, data, pos)
    case BadCode =>
    case EndOfBlock(p) =>
    case Literal(b, p) =>
      if !(0 <= room <= |out|) {
        BlockStable(lengths, distances, data, p, out + [b], room, memory, n - 1, m - 1);
      }
    case Match(len, dist, p) =>
      if dist <= |out| && !(0 <= room < |out| + len) {
        BlockStable(lengths, distances, data, p, Extend(out, len, dist, memory), room, memory, n - 1, m - 1);
      }
  }

  /** The same of a block of any kind. */
  lemma BlockAtStable(data: seq<nat>, pos: nat, kind: nat, out: seq<nat>, room: int, memory: Memory, n: nat, m: nat)
    requires n >= Bound(data, pos, |out|, room)
    ensures var b, c := BlockAt(data, pos, kind, out, room, memory, n), BlockAt(data, pos, kind, out, room, memory, m);
      && (b.Running? ==> c.Running?) && (!b.Running? && !c.Running? ==> b == c)
      && (b.Done? ==> b.pos >= pos && |b.out| >= |out|)
  {
    hide Block, DynamicCodes;
    if kind == 1 {
      DefaultsFit();
      KnownBlock(DEFAULT_LENGTH, DEFAULT_DISTANCE, data, pos, pos, out, room, memory, n, m);
    } else if kind == 2 && DynamicCodes(data, pos).BlockCodes? {
      DynamicCodesLegal(data, pos);
      CodesMove(data, pos);
      var c := DynamicCodes(data, pos);
      KnownBlock(c.lengths, c.distances, data, pos, c.pos, out, room, memory, n, m);
    }
  }

  lemma KnownBlock(lengths: seq<nat>, distances: seq<nat>, data: seq<nat>, start: nat, pos: nat, out: seq<nat>, room: int, memory: Memory, n: nat, m: nat)
    requires Codes(lengths, distances) && pos >= start && n >= Bound(data, start, |out|, room)
    ensures var b, c := Block(lengths, distances, data, pos, out, room, memory, n), Block(lengths, distances, data, pos, out, room, memory, m);
      && (b.Running? ==> c.Running?) && (!b.Running? && !c.Running? ==> b == c)
      && (b.Done? ==> b.pos > pos && |b.out| >= |out|)
  {
    hide Codes, Block;
    if Block(lengths, distances, data, pos, out, room, memory, n).Running? {
      NotYetIsNever(lengths, distances, data, pos, out, room, memory, n, m);
    } else if !Block(lengths, distances, data, pos, out, room, memory, m).Running? {
      BlockStable(lengths, distances, data, pos, out, room, memory, n, m);
    }
    BlockMoves(lengths, distances, data, pos, out, room, memory, n);
  }

  /** Past the input no block is well-formed: the zeroes announce a stored one of a wrong length. */
  lemma StreamPastInput(data: seq<nat>, pos: nat, out: seq<nat>, room: int, memory: Memory, n: nat)
    requires Left(data, pos) == 0 && n > 0
    ensures Stream(data, pos, out, room, memory, n).Failed?
  {
    ZeroValue(data, pos + 1, 2);
    NothingStored(data, pos + 3, out, room, memory, n - 1);
  }

  lemma NothingStored(data: seq<nat>, pos: nat, out: seq<nat>, room: int, memory: Memory, n: nat)
    requires Left(data, pos) == 0
    ensures BlockAt(data, pos, 0, out, room, memory, n).Failed?
  {
    var q := (pos + 7) / 8;
    assert q >= |data|;
  }

  /** A stream that has not ended within as many items as bits are left and bytes to be filled,
      and two more, never ends. */
  lemma {:induction false} StreamNotYetIsNever(data: seq<nat>, pos: nat, out: seq<nat>, room: int, memory: Memory, n: nat, m: nat)
    requires n > Bound(data, pos, |out|, room) && Stream(data, pos, out, room, memory, n).Running?
    ensures Stream(data, pos, out, room, memory, m).Running?
    decreases n
  {
    hide BlockAt;
    if m > 0 {
      if Left(data, pos) == 0 {
        StreamPastInput(data, pos, out, room, memory, n);
      } else {
        var kind := StreamValue(data, pos + 1, 2);
        BlockAtStable(data, pos + 3, kind, out, room, memory, n - 1, m - 1);
        var b := BlockAt(data, pos + 3, kind, out, room, memory, n - 1);
        if b.Done? {
          StreamNotYetIsNever(data, b.pos, b.out, room, memory, n - 1, m - 1);
        }
      }
    }
  }

  /** So whether a stream ever ends can be told by waiting that long. */
  lemma StreamHaltsInTime(data: seq<nat>, pos: nat, out: seq<nat>, room: int, memory: Memory)
    ensures (exists n: nat :: !Stream(data, pos, out, room, memory, n).Running?)
       <==> !Stream(data, pos, out, room, memory, Bound(data, pos, |out|, room) + 1).Running?
  {
    hide Stream;
    var bound := Bound(data, pos, |out|, room) + 1;
    if Stream(data, pos, out, room, memory, bound).Running? {
      forall n: nat ensures Stream(data, pos, out, room, memory, n).Running? {
        StreamNotYetIsNever(data, pos, out, room, memory, bound, n);
      }
    }
  }

  /** The codes of the blocks that are reached from pos on end their blocks. */
  ghost predicate ReachedEnd(data: seq<nat>, pos: nat, out: seq<nat>, room: int, memory: Memory)
    decreases Left(data, pos)
  {
    var kind := StreamValue(data, pos + 1, 2);
    var c, b := DynamicCodes(data, pos + 3), BlockAt(data, pos + 3, kind, out, room, memory, Bound(data, pos + 3, |out|, room));
    && (kind == 2 && c.BlockCodes? ==> if room < 0 then Ends(c.lengths, c.distances) else EndsInRoom(c.lengths, c.distances))
    && (b.Done? && StreamValue(data, pos, 1) == 0 && Left(data, b.pos) < Left(data, pos) ==> ReachedEnd(data, b.pos, b.out, room, memory))
  }

  lemma BlockAtEnds(data: seq<nat>, pos: nat, kind: nat, out: seq<nat>, room: int, memory: Memory, n: nat)
    requires n >= Bound(data, pos, |out|, room)
    requires var c := DynamicCodes(data, pos);
      kind == 2 && c.BlockCodes? ==> if room < 0 then Ends(c.lengths, c.distances) else EndsInRoom(c.lengths, c.distances)
    ensures !BlockAt(data, pos, kind, out, room, memory, n).Running?
  {
    hide Block, DynamicCodes, Ends, EndsInRoom;
    if kind == 1 {
      FixedEnds();
      DefaultsFit();
      BlockEnds(DEFAULT_LENGTH, DEFAULT_DISTANCE, data, pos, out, room, memory, n);
    } else if kind == 2 && DynamicCodes(data, pos).BlockCodes? {
      DynamicCodesLegal(data, pos);
      CodesMove(data, pos);
      var c := DynamicCodes(data, pos);
      BlockEnds(c.lengths, c.distances, data, c.pos, out, room, memory, n);
    }
  }

  /** A stream ends when the codes it reaches end their blocks. */
  lemma {:induction false} StreamEnds(data: seq<nat>, pos: nat, out: seq<nat>, room: int, memory: Memory, n: nat)
    requires ReachedEnd(data, pos, out, room, memory) && n > Bound(data, pos, |out|, room)
    ensures !Stream(data, pos, out, room, memory, n).Running?
    decreases n
  {
    hide BlockAt, DynamicCodes, Ends, EndsInRoom;
    if Left(data, pos) == 0 {
      StreamPastInput(data, pos, out, room, memory, n);
    } else {
      var kind, least := StreamValue(data, pos + 1, 2), Bound(data, pos + 3, |out|, room);
      BlockAtEnds(data, pos + 3, kind, out, room, memory, n - 1);
      BlockAtEnds(data, pos + 3, kind, out, room, memory, least);
      BlockAtStable(data, pos + 3, kind, out, room, memory, n - 1, least);
      var b := BlockAt(data, pos + 3, kind, out, room, memory, n - 1);
      if b.Done? && StreamValue(data, pos, 1) == 0 {
        StreamEnds(data, b.pos, b.out, room, memory, n - 1);
      }
    }
  }

  /** A stream whose block has come past its input and stalls there never ends. */
  lemma StreamStalls(data: seq<nat>, pos: nat, out: seq<nat>, room: int, memory: Memory, n: nat)
    requires StreamValue(data, pos + 1, 2) == 2
    requires var c := DynamicCodes(data, pos + 3);
      c.BlockCodes? && Left(data, c.pos) == 0 && Stalls(c.lengths, c.distances, |out|, room)
    ensures Stream(data, pos, out, room, memory, n).Running?
  {
    hide Block, DynamicCodes, Stalls;
    if n > 0 {
      DynamicCodesLegal(data, pos + 3);
      var c := DynamicCodes(data, pos + 3);
      StallsForever(c.lengths, c.distances, data, c.pos, out, room, memory, n - 1);
    }
  }
}
