/** What is written is read: the header of a block with its own codes, section 3.2.7 of RFC
    1951, told by what a compressor puts there, and a whole small stream. */
module DeflateHeaders {
  import opened Bits
  import opened BitStream
  import opened PrefixCode
  import opened Deflate
  import opened DeflateStream

  // ---- Code lengths, as they are written

  datatype Item =
    | One(length: nat)
    /** The last length, three to six times more. */
    | Again(times: nat)
    /** Three to 138 zeroes. */
    | Zeros(times: nat)

  /** The lengths with those that one item stands for. */
  function Added(done: seq<nat>, item: Item): (more: seq<nat>)
    ensures |more| >= |done|
  {
    match item
    case One(l) => done + [l]
    case Again(n) => done + Repeat(if done == [] then 0 else done[|done| - 1], n)
    case Zeros(n) => done + Repeat(0, n)
  }

  function Spread(done: seq<nat>, items: seq<Item>): (all: seq<nat>)
    ensures |all| >= |done|
    decreases |items|
  {
    if items == [] then done else Spread(Added(done, items[0]), items[1..])
  }

  /** The item stands at a position, with the code cl and up to another position; something
      comes before it. */
  ghost predicate ItemAt(cl: seq<nat>, data: seq<nat>, pos: nat, item: Item, first: bool, end: nat)
    requires |cl| == 19
  {
    match item
    case One(l) => l <= 15 && CodeAt(cl, data, pos, l) && end == pos + cl[l]
    case Again(n) =>
      !first && 3 <= n <= 6 && CodeAt(cl, data, pos, 16) && StreamValue(data, pos + cl[16], 2) == n - 3 && end == pos + cl[16] + 2
    case Zeros(n) =>
      if n <= 10 then 3 <= n && CodeAt(cl, data, pos, 17) && StreamValue(data, pos + cl[17], 3) == n - 3 && end == pos + cl[17] + 3
      else n <= 138 && CodeAt(cl, data, pos, 18) && StreamValue(data, pos + cl[18], 7) == n - 11 && end == pos + cl[18] + 7
  }

  /** Items one behind the other; ends are the positions after each. */
  ghost predicate ItemsAt(cl: seq<nat>, data: seq<nat>, pos: nat, items: seq<Item>, first: bool, ends: seq<nat>)
    requires |cl| == 19
    decreases |items|
  {
    |ends| == |items| &&
    (items != [] ==> ItemAt(cl, data, pos, items[0], first, ends[0]) && ItemsAt(cl, data, ends[0], items[1..], false, ends[1..]))
  }

  lemma {:induction false} ItemsRead(cl: seq<nat>, data: seq<nat>, pos: nat, items: seq<Item>, done: seq<nat>, ends: seq<nat>)
    requires |cl| == 19 && ItemsAt(cl, data, pos, items, done == [], ends)
    ensures ReadLengths(cl, data, pos, |Spread(done, items)|, done)
      == Lengths(Spread(done, items), if items == [] then pos else ends[|ends| - 1])
    decreases |items|
  {
    if items == [] {
      AllRead(cl, data, pos, done);
    } else {
      hide ItemAt, Added, ReadLengths;
      var more := Added(done, items[0]);
      ItemRead(cl, data, pos, items[0], done, ends[0], |Spread(done, items)|);
      ItemsRead(cl, data, ends[0], items[1..], more, ends[1..]);
    }
  }

  lemma AllRead(cl: seq<nat>, data: seq<nat>, pos: nat, done: seq<nat>)
    requires |cl| == 19
    ensures ReadLengths(cl, data, pos, |done|, done) == Lengths(done, pos)
  {
  }

  lemma ItemRead(cl: seq<nat>, data: seq<nat>, pos: nat, item: Item, done: seq<nat>, end: nat, total: nat)
    requires |cl| == 19 && ItemAt(cl, data, pos, item, done == [], end) && |Added(done, item)| <= total
    ensures |Added(done, item)| > |done|
    ensures ReadLengths(cl, data, pos, total, done) == ReadLengths(cl, data, end, total, Added(done, item))
  {
    hide CodeAt, StreamValue;
    var c := match item case One(l) => l case Again(_) => 16 case Zeros(n) => if n <= 10 then 17 else 18;
    CodeAtUnique(cl, data, pos, c, Symbol(cl, data, pos));
    hide Symbol;
    assert item.One? ==> Repeat(item.length, 1) == [item.length];
  }

  // ---- The code for code lengths

  /** The order in which the lengths of the code for code lengths come: the repetitions, zero,
      then from eight outwards. */
  function Order(i: nat): nat
    requires i < 19
  {
    if i < 3 then 16 + i else if i == 3 then 0 else if i % 2 == 0 then 8 + (i - 4) / 2 else 7 - (i - 5) / 2
  }

  lemma OrderIs(i: nat)
    requires i < 19
    ensures LENGTH_DEZIGZAG[i] == Order(i)
  {
  }

  lemma OrderOnce(i: nat, j: nat)
    requires i < j < 19
    ensures Order(i) != Order(j)
  {
  }

  lemma {:induction false} SizesRead(data: seq<nat>, pos: nat, n: nat, c: nat)
    requires n <= 19 && c < 19
    ensures CodeLengthSizes(data, pos, n)[Order(c)] == if c < n then StreamValue(data, pos + 3 * c, 3) else 0
  {
    if n > 0 {
      hide StreamValue;
      SizesRead(data, pos, n - 1, c);
      OrderIs(n - 1);
      if c < n - 1 {
        OrderOnce(c, n - 1);
      } else if c > n - 1 {
        OrderOnce(n - 1, c);
      }
    }
  }

  /** Every length has its place in the order. */
  lemma OrderFull(k: nat) returns (i: nat)
    requires k < 19
    ensures i < 19 && Order(i) == k
  {
    i := if k >= 16 then k - 16 else if k == 0 then 3 else if k >= 8 then 4 + 2 * (k - 8) else 5 + 2 * (7 - k);
  }

  // ---- The header

  /** A header that carries these codes, as a compressor writes it. */
  ghost predicate HeaderAt(data: seq<nat>, pos: nat, lengths: seq<nat>, distances: seq<nat>, cl: seq<nat>, items: seq<Item>, ends: seq<nat>) {
    var n := StreamValue(data, pos + 10, 4) + 4;
    && |lengths| == StreamValue(data, pos, 5) + 257 && |distances| == StreamValue(data, pos + 5, 5) + 1
    && |cl| == 19 && n <= 19 && Fits(cl) && Fits(lengths) && Fits(distances)
    && (forall i: nat :: i < n ==> CodeLengthAt(data, pos, cl, i))
    && (forall i: nat :: n <= i < 19 ==> cl[Order(i)] == 0)
    && Spread([], items) == lengths + distances
    && ItemsAt(cl, data, pos + 14 + 3 * n, items, true, ends)
  }

  predicate CodeLengthAt(data: seq<nat>, pos: nat, cl: seq<nat>, i: nat) {
    i < 19 && |cl| == 19 && StreamValue(data, pos + 14 + 3 * i, 3) == cl[Order(i)]
  }

  /** The codes are read as they were written. */
  lemma HeaderRead(data: seq<nat>, pos: nat, lengths: seq<nat>, distances: seq<nat>, cl: seq<nat>, items: seq<Item>, ends: seq<nat>)
    requires HeaderAt(data, pos, lengths, distances, cl, items, ends)
    ensures items != [] && DynamicCodes(data, pos) == BlockCodes(lengths, distances, ends[|ends| - 1])
  {
    hide StreamValue, Fits, Order, ItemsAt, ReadLengths;
    CountBounds(data, pos);
    var n := StreamValue(data, pos + 10, 4) + 4;
    forall k: nat | k < 19 ensures CodeLengthSizes(data, pos + 14, n)[k] == cl[k] {
      var i := OrderFull(k);
      SizesRead(data, pos + 14, n, i);
      assert i < n ==> CodeLengthAt(data, pos, cl, i);
    }
    assert CodeLengthSizes(data, pos + 14, n) == cl;
    ItemsRead(cl, data, pos + 14 + 3 * n, items, [], ends);
    assert (lengths + distances)[..|lengths|] == lengths && (lengths + distances)[|lengths|..] == distances;
  }

  // ---- A whole stream

  /** The bits of three bytes, lowest first. */
  lemma StreamBits(data: seq<nat>, k: nat)
    requires data == [0x4b, 0x04, 0x00]
    ensures BitAt(data, k) == if k in {0, 1, 3, 6, 10} then 1 else 0
  {
    if k < 8 {
      ByteBits(0x4b, k);
    } else if k < 16 {
      ByteBits(0x04, k - 8);
    } else if k < 24 {
      ByteBits(0, k - 16);
    }
  }

  lemma ByteBits(x: nat, k: nat)
    requires k < 8 && x < 256
    ensures x == 0x4b ==> Shr(x, k) % 2 == if k in {0, 1, 3, 6} then 1 else 0
    ensures x == 0x04 ==> Shr(x, k) % 2 == if k == 2 then 1 else 0
    ensures x == 0 ==> Shr(x, k) == 0
  {
    if k == 0 {
    } else if k == 1 {
    } else if k == 2 {
    } else if k == 3 {
    } else if k == 4 {
    } else if k == 5 {
    } else if k == 6 {
    } else {
    }
  }

  /** The bits of the letter and of the end. */
  ghost predicate LetterBits(data: seq<nat>) {
    forall k: nat :: BitAt(data, k) == if k in {0, 1, 3, 6, 10} then 1 else 0
  }

  lemma LetterStart(data: seq<nat>)
    requires LetterBits(data)
    ensures StreamValue(data, 0, 1) == 1 && StreamValue(data, 1, 2) == 1
  {
    hide BitAt;
    assert StreamValue(data, 2, 1) == 0;
  }

  lemma SymbolIs(sizes: seq<nat>, data: seq<nat>, pos: nat, i: nat)
    requires CodeAt(sizes, data, pos, i)
    ensures Symbol(sizes, data, pos) == i < |sizes|
  {
    CodeAtUnique(sizes, data, pos, i, Symbol(sizes, data, pos));
  }

  lemma LetterItems(data: seq<nat>)
    requires LetterBits(data) && Codes(DEFAULT_LENGTH, DEFAULT_DISTANCE)
    ensures Next(DEFAULT_LENGTH, DEFAULT_DISTANCE, data, 3) == Literal(97, 11)
    ensures Next(DEFAULT_LENGTH, DEFAULT_DISTANCE, data, 11) == EndOfBlock(18)
  {
    hide CodeOf, CodeValue, Codes, Symbol, DEFAULT_LENGTH, DEFAULT_DISTANCE, StreamValue;
    LetterCode(data);
    FixedCodes(97);
    FixedCodes(256);
    SymbolIs(DEFAULT_LENGTH, data, 3, 97);
    SymbolIs(DEFAULT_LENGTH, data, 11, 256);
  }

  /** One final block with the fixed codes: the letter a, and the end. */
  lemma LetterExample(memory: Memory, n: nat)
    requires n >= 3
    ensures Stream([0x4b, 0x04, 0x00], 0, [], -1, memory, n) == Done([97], 18)
  {
    hide BitAt, Codes, Next, DEFAULT_LENGTH, DEFAULT_DISTANCE, StreamValue;
    var data: seq<nat> := [0x4b, 0x04, 0x00];
    forall k: nat ensures BitAt(data, k) == if k in {0, 1, 3, 6, 10} then 1 else 0 {
      StreamBits(data, k);
    }
    LetterStart(data);
    DefaultsFit();
    LetterItems(data);
    var out: seq<nat> := [];
    assert out + [97] == [97];
    assert Block(DEFAULT_LENGTH, DEFAULT_DISTANCE, data, 11, [97], -1, memory, n - 2) == Done([97], 18);
    assert Block(DEFAULT_LENGTH, DEFAULT_DISTANCE, data, 3, out, -1, memory, n - 1) == Done([97], 18);
  }

  lemma LetterCode(data: seq<nat>)
    requires LetterBits(data)
    ensures CodeValue(data, 3, 8) == 0x91 && CodeValue(data, 11, 7) == 0
  {
    hide BitAt;
    assert CodeValue(data, 3, 2) == 2;
    assert CodeValue(data, 3, 4) == 9;
    assert CodeValue(data, 3, 6) == 36;
    assert CodeValue(data, 3, 8) == 0x91;
    assert CodeValue(data, 11, 2) == 0;
    assert CodeValue(data, 11, 4) == 0;
    assert CodeValue(data, 11, 6) == 0;
  }
}
