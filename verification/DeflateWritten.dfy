/** Decoding gives back what was compressed: a stream as a compressor writes it (RFC 1951), told
    by the text that it stands for, and what the decoder makes of it. */
module DeflateWritten {
  import opened Bits
  import opened BitStream
  import opened PrefixCode
  import opened Deflate
  import opened DeflateStream
  import opened DeflateHeaders

  // ---- What is written

  datatype Token =
    | Byte(b: nat)
    /** The next len bytes are those dist before them. */
    | Back(len: nat, dist: nat)

  /** From place at to place to, the tokens stand for the text. */
  predicate Means(text: seq<nat>, at: nat, tokens: seq<Token>, to: nat)
    decreases |tokens|
  {
    if tokens == [] then at == to <= |text|
    else
      match tokens[0]
      case Byte(b) => at < |text| && text[at] == b && Means(text, at + 1, tokens[1..], to)
      case Back(len, dist) =>
        && 1 <= dist <= at && at + len <= |text|
        && (forall j :: at <= j < at + len ==> text[j] == text[j - dist])
        && Means(text, at + len, tokens[1..], to)
  }

  /** A back reference at a position: the code of the length's symbol, the extra bits, the code
      of the distance's symbol, and its extra bits. */
  predicate BackAt(lengths: seq<nat>, distances: seq<nat>, data: seq<nat>, pos: nat, len: nat, dist: nat, k: nat, x: nat, d: nat, y: nat, end: nat) {
    && GivesLength(k, x, len) && GivesDistance(d, y, dist) && CodeAt(lengths, data, pos, 257 + k)
    && var p := pos + lengths[257 + k];
    && var q := p + LengthExtra(k);
    && StreamValue(data, p, LengthExtra(k)) == x && CodeAt(distances, data, q, d)
    && var r := q + distances[d];
    && StreamValue(data, r, DistExtra(d)) == y && end == r + DistExtra(d)
  }

  ghost predicate TokenAt(lengths: seq<nat>, distances: seq<nat>, data: seq<nat>, pos: nat, token: Token, end: nat) {
    match token
    case Byte(b) => b < 256 && CodeAt(lengths, data, pos, b) && end == pos + lengths[b]
    case Back(len, dist) => exists k: nat, x: nat, d: nat, y: nat :: BackAt(lengths, distances, data, pos, len, dist, k, x, d, y, end)
  }

  /** Tokens one behind the other, and the end of the block behind them; ends are the positions
      after each. */
  ghost predicate TokensAt(lengths: seq<nat>, distances: seq<nat>, data: seq<nat>, pos: nat, tokens: seq<Token>, ends: seq<nat>, end: nat)
    decreases |tokens|
  {
    |ends| == |tokens| &&
    if tokens == [] then CodeAt(lengths, data, pos, 256) && end == pos + lengths[256]
    else
      && TokenAt(lengths, distances, data, pos, tokens[0], ends[0])
      && TokensAt(lengths, distances, data, ends[0], tokens[1..], ends[1..], end)
  }

  // ---- What is read

  lemma {:induction false} CopyGives(text: seq<nat>, at: nat, len: nat, dist: nat)
    requires 1 <= dist <= at && at + len <= |text| && forall j :: at <= j < at + len ==> text[j] == text[j - dist]
    ensures Copy(text[..at], len, dist) == text[..at + len]
    decreases len
  {
    if len > 0 {
      assert text[..at] + [text[at - dist]] == text[..at + 1];
      CopyGives(text, at + 1, len - 1, dist);
    }
  }

  lemma Given(k: nat, x: nat, len: nat, d: nat, y: nat, dist: nat)
    requires GivesLength(k, x, len) && GivesDistance(d, y, dist)
    ensures k < 29 && d < 30 && len == LengthBase(k) + x && dist == DistBase(d) + y
  {
    hide Pow2;
  }

  lemma BackRead(lengths: seq<nat>, distances: seq<nat>, data: seq<nat>, pos: nat, len: nat, dist: nat, k: nat, x: nat, d: nat, y: nat, end: nat)
    requires Codes(lengths, distances) && BackAt(lengths, distances, data, pos, len, dist, k, x, d, y, end)
    ensures Next(lengths, distances, data, pos) == Match(len, dist, end)
  {
    hide CodeAt, StreamValue, Symbol, GivesLength, GivesDistance, LengthBase, LengthExtra, DistBase, DistExtra;
    Given(k, x, len, d, y, dist);
    SymbolIs(lengths, data, pos, 257 + k);
    SymbolIs(distances, data, pos + lengths[257 + k] + LengthExtra(k), d);
  }

  lemma TokenRead(lengths: seq<nat>, distances: seq<nat>, data: seq<nat>, pos: nat, token: Token, end: nat)
    requires Codes(lengths, distances) && TokenAt(lengths, distances, data, pos, token, end)
    ensures Next(lengths, distances, data, pos) ==
      match token case Byte(b) => Literal(b, end) case Back(len, dist) => Match(len, dist, end)
  {
    hide CodeAt, StreamValue, Symbol, Codes, BackAt;
    match token
    case Byte(b) =>
      SymbolIs(lengths, data, pos, b);
    case Back(len, dist) =>
      var k: nat, x: nat, d: nat, y: nat :| BackAt(lengths, distances, data, pos, len, dist, k, x, d, y, end);
      BackRead(lengths, distances, data, pos, len, dist, k, x, d, y, end);
  }

  lemma {:induction false} MeansWithin(text: seq<nat>, at: nat, tokens: seq<Token>, to: nat)
    requires Means(text, at, tokens, to)
    ensures at <= to <= |text|
    decreases |tokens|
  {
    if tokens != [] {
      match tokens[0]
      case Byte(_) => MeansWithin(text, at + 1, tokens[1..], to);
      case Back(len, _) => MeansWithin(text, at + len, tokens[1..], to);
    }
  }

  /** The place in the text behind a token. */
  function After(at: nat, token: Token): nat {
    match token case Byte(_) => at + 1 case Back(len, _) => at + len
  }

  lemma MeansFirst(text: seq<nat>, at: nat, tokens: seq<Token>, to: nat)
    requires tokens != [] && Means(text, at, tokens, to)
    ensures at <= After(at, tokens[0]) <= to <= |text| && Means(text, After(at, tokens[0]), tokens[1..], to)
    ensures Means(text, at, [tokens[0]], After(at, tokens[0]))
  {
    MeansWithin(text, After(at, tokens[0]), tokens[1..], to);
    assert [tokens[0]][1..] == [];
  }

  /** One token more. */
  lemma BlockStep(lengths: seq<nat>, distances: seq<nat>, data: seq<nat>, pos: nat, token: Token, end: nat,
      text: seq<nat>, at: nat, room: int, memory: Memory, n: nat)
    requires Codes(lengths, distances) && TokenAt(lengths, distances, data, pos, token, end)
    requires at <= After(at, token) <= |text| && Means(text, at, [token], After(at, token)) && (room < 0 || After(at, token) <= room) && n > 0
    ensures Block(lengths, distances, data, pos, text[..at], room, memory, n)
      == Block(lengths, distances, data, end, text[..After(at, token)], room, memory, n - 1)
  {
    hide Codes, TokenAt, Next, Copy;
    TokenRead(lengths, distances, data, pos, token, end);
    match token
    case Byte(b) =>
      assert text[..at] + [b] == text[..at + 1];
    case Back(len, dist) =>
      CopyGives(text, at, len, dist);
  }

  /** A block's tokens are read back as the text that they stand for. */
  lemma {:induction false} BlockRead(lengths: seq<nat>, distances: seq<nat>, data: seq<nat>, pos: nat, tokens: seq<Token>, ends: seq<nat>, end: nat,
      text: seq<nat>, at: nat, to: nat, room: int, memory: Memory, n: nat)
    requires Codes(lengths, distances) && TokensAt(lengths, distances, data, pos, tokens, ends, end)
    requires at <= |text| && Means(text, at, tokens, to) && (room < 0 || to <= room) && n > |tokens|
    ensures at <= to <= |text| && Block(lengths, distances, data, pos, text[..at], room, memory, n) == Done(text[..to], end)
    decreases |tokens|
  {
    hide CodeAt, Codes, TokenAt, Next, Block, After;
    if tokens == [] {
      EndRead(lengths, distances, data, pos, text[..at], room, memory, n);
    } else {
      hide Means;
      MeansFirst(text, at, tokens, to);
      BlockStep(lengths, distances, data, pos, tokens[0], ends[0], text, at, room, memory, n);
      BlockRead(lengths, distances, data, ends[0], tokens[1..], ends[1..], end, text, After(at, tokens[0]), to, room, memory, n - 1);
    }
  }

  lemma EndRead(lengths: seq<nat>, distances: seq<nat>, data: seq<nat>, pos: nat, out: seq<nat>, room: int, memory: Memory, n: nat)
    requires Codes(lengths, distances) && CodeAt(lengths, data, pos, 256) && n > 0
    ensures Block(lengths, distances, data, pos, out, room, memory, n) == Done(out, pos + lengths[256])
  {
    hide CodeAt, StreamValue, Symbol, Codes;
    SymbolIs(lengths, data, pos, 256);
  }

  // ---- Whole streams

  /** A block by what it holds, with the place in the text and the position where it ends. */
  datatype Written =
    | Plain(to: nat, end: nat)
    | Fixed(tokens: seq<Token>, ends: seq<nat>, to: nat, end: nat)
    | Own(lengths: seq<nat>, distances: seq<nat>, cl: seq<nat>, items: seq<Item>, itemEnds: seq<nat>,
        tokens: seq<Token>, ends: seq<nat>, to: nat, end: nat)
  {
    function Items(): nat {
      if Plain? then 0 else |tokens|
    }
  }

  /** Uncompressed bytes: from the next byte boundary their number, low byte first, the same
      complemented, and the bytes. */
  predicate PlainAt(data: seq<nat>, pos: nat, text: seq<nat>, at: nat, to: nat, end: nat) {
    && at <= to <= |text| && to - at < 0x1_0000
    && var q := (pos + 7) / 8;
    && end == 8 * (q + 4 + (to - at)) && q + 4 + (to - at) <= |data|
    && data[q] == (to - at) % 256 && data[q + 1] == (to - at) / 256
    && data[q + 2] == 255 - data[q] && data[q + 3] == 255 - data[q + 1]
    && data[q + 4..q + 4 + (to - at)] == text[at..to]
  }

  /** A block stands at a position: its kind in two bits, then what the kind asks for. */
  ghost predicate WrittenAt(data: seq<nat>, pos: nat, block: Written, text: seq<nat>, at: nat) {
    match block
    case Plain(to, end) => StreamValue(data, pos, 2) == 0 && PlainAt(data, pos + 2, text, at, to, end)
    case Fixed(tokens, ends, to, end) =>
      && StreamValue(data, pos, 2) == 1 && Means(text, at, tokens, to)
      && TokensAt(DEFAULT_LENGTH, DEFAULT_DISTANCE, data, pos + 2, tokens, ends, end)
    case Own(lengths, distances, cl, items, itemEnds, tokens, ends, to, end) =>
      && StreamValue(data, pos, 2) == 2 && Means(text, at, tokens, to)
      && HeaderAt(data, pos + 2, lengths, distances, cl, items, itemEnds) && itemEnds != []
      && TokensAt(lengths, distances, data, itemEnds[|itemEnds| - 1], tokens, ends, end)
  }

  /** Blocks one behind the other that stand for the text from place at on, each with a bit in
      front that says whether it is the last. */
  ghost predicate StreamAt(data: seq<nat>, pos: nat, blocks: seq<Written>, text: seq<nat>, at: nat)
    decreases |blocks|
  {
    && blocks != [] && StreamValue(data, pos, 1) == (if |blocks| == 1 then 1 else 0)
    && WrittenAt(data, pos + 1, blocks[0], text, at)
    && if |blocks| == 1 then blocks[0].to == |text| else StreamAt(data, blocks[0].end, blocks[1..], text, blocks[0].to)
  }

  /** How many items there are to read. */
  function Work(blocks: seq<Written>): nat {
    if blocks == [] then 0 else blocks[0].Items() + 2 + Work(blocks[1..])
  }

  lemma PlainRead(data: seq<nat>, pos: nat, text: seq<nat>, at: nat, to: nat, end: nat, room: int)
    requires PlainAt(data, pos, text, at, to, end) && (room < 0 || to <= room)
    ensures Stored(data, pos, text[..at], room) == Done(text[..to], end)
  {
    assert text[..at] + text[at..to] == text[..to];
  }

  lemma WrittenFits(data: seq<nat>, pos: nat, block: Written, text: seq<nat>, at: nat)
    requires WrittenAt(data, pos, block, text, at)
    ensures at <= block.to <= |text|
  {
    hide StreamValue, TokensAt, Means, HeaderAt;
    if !block.Plain? {
      MeansWithin(text, at, block.tokens, block.to);
    }
  }

  lemma WrittenRead(data: seq<nat>, pos: nat, block: Written, text: seq<nat>, at: nat, room: int, memory: Memory, n: nat)
    requires WrittenAt(data, pos, block, text, at) && at <= |text| && (room < 0 || block.to <= room) && n > block.Items()
    ensures at <= block.to <= |text|
    ensures BlockAt(data, pos + 2, StreamValue(data, pos, 2), text[..at], room, memory, n) == Done(text[..block.to], block.end)
  {
    hide CodeAt, StreamValue, Codes, TokensAt, Means, HeaderAt, DEFAULT_LENGTH, DEFAULT_DISTANCE, Block, Stored, DynamicCodes;
    match block
    case Plain(to, end) =>
      PlainRead(data, pos + 2, text, at, to, end, room);
    case Fixed(tokens, ends, to, end) =>
      DefaultsFit();
      BlockRead(DEFAULT_LENGTH, DEFAULT_DISTANCE, data, pos + 2, tokens, ends, end, text, at, to, room, memory, n);
    case Own(lengths, distances, cl, items, itemEnds, tokens, ends, to, end) =>
      HeaderRead(data, pos + 2, lengths, distances, cl, items, itemEnds);
      DynamicCodesLegal(data, pos + 2);
      BlockRead(lengths, distances, data, itemEnds[|itemEnds| - 1], tokens, ends, end, text, at, to, room, memory, n);
  }

  /** What was compressed comes back, in whatever blocks, codes, tokens and code lengths it was
      written. */
  lemma {:induction false} StreamRead(data: seq<nat>, pos: nat, blocks: seq<Written>, text: seq<nat>, at: nat, room: int, memory: Memory, n: nat)
    requires StreamAt(data, pos, blocks, text, at) && at <= |text| && (room < 0 || |text| <= room) && n >= Work(blocks)
    ensures Stream(data, pos, text[..at], room, memory, n) == Done(text, blocks[|blocks| - 1].end)
    decreases |blocks|
  {
    hide StreamValue, WrittenAt, BlockAt;
    var block := blocks[0];
    WrittenFits(data, pos + 1, block, text, at);
    WrittenRead(data, pos + 1, block, text, at, room, memory, n - 1);
    if |blocks| == 1 {
      assert text[..block.to] == text;
    } else {
      StreamRead(data, block.end, blocks[1..], text, block.to, room, memory, n - 1);
    }
  }
}
