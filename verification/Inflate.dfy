/** The DEFLATE decoder of apps/gview/stb_image.h: the bit buffer, the Huffman decoder with
    its fast table and its slow search, the growing output and the block loop. */
module Inflate {
  import opened Bits
  import opened Common
  import opened BitStream
  import opened PrefixCode
  import opened Huffman
  import opened Deflate
  import opened DeflateStream

  /** The buffered bits are the num input bits from pos on, and the next byte to read is
      the one after them; past the end only zeroes are read. */
  predicate Buffered(data: seq<nat>, next: nat, codeBuffer: nat, num: nat, pos: nat) {
    && Bytes(data) && next <= |data| && num <= 32
    && codeBuffer == StreamValue(data, pos, num)
    && (pos + num) % 8 == 0
    && (if next < |data| then pos + num == 8 * next else pos + num >= 8 * next)
  }

  lemma BufferFacts(data: seq<nat>, next: nat, codeBuffer: nat, num: nat, pos: nat)
    requires Buffered(data, next, codeBuffer, num, pos)
    ensures next <= |data| && num <= 32 && codeBuffer == StreamValue(data, pos, num)
  {
  }

  /** One more byte above the buffered bits. */
  lemma Filled(data: seq<nat>, next: nat, codeBuffer: nat, num: nat, pos: nat)
    requires Buffered(data, next, codeBuffer, num, pos) && num <= 24
    ensures next < |data| ==> Buffered(data, next + 1, Or(codeBuffer, Shl(data[next], num)), num + 8, pos)
    ensures next == |data| ==> Buffered(data, next, Or(codeBuffer, Shl(0, num)), num + 8, pos)
  {
    hide StreamValue, Or, Shl;
    ByteValue(data, (pos + num) / 8);
    StreamOr(data, pos, num, 8);
  }

  /** Shifting n bits out of the buffer moves the position. */
  lemma Drained(data: seq<nat>, next: nat, codeBuffer: nat, num: nat, pos: nat, n: nat)
    requires Buffered(data, next, codeBuffer, num, pos) && n <= num
    ensures Buffered(data, next, Shr(codeBuffer, n), num - n, pos + n)
    ensures Low(codeBuffer, n) == StreamValue(data, pos, n)
  {
    hide StreamValue, Shr, Low;
    StreamShr(data, pos, num, n);
    StreamLow(data, pos, num, n);
  }

  /** Nine buffered bits find a symbol in the fast table exactly when a short code stands here. */
  lemma FastFinds(sizes: seq<nat>, fast: seq<nat>, data: seq<nat>, pos: nat, num: nat)
    requires Legal(sizes) && |fast| == FAST_SIZE && Fast(sizes, fast, |sizes|) && num >= 16
    ensures And(StreamValue(data, pos, num), 511) < FAST_SIZE
    ensures var b := fast[And(StreamValue(data, pos, num), 511)];
      if b != 0 then CodeAt(sizes, data, pos, And(b, 511)) && sizes[And(b, 511)] == Shr(b, FAST_BITS) <= FAST_BITS
      else forall i: nat :: i < |sizes| && sizes[i] <= FAST_BITS ==> !CodeAt(sizes, data, pos, i)
  {
    hide Starts, StreamValue, Entry;
    assert Pow2(9) == 512;
    MaskIsLow(StreamValue(data, pos, num), 9);
    StreamLow(data, pos, num, 9);
    var x := StreamValue(data, pos, 9);
    forall i: nat | i < |sizes| && sizes[i] <= FAST_BITS
      ensures CodeAt(sizes, data, pos, i) <==> Starts(sizes, x, i)
    {
      CodeAtIsStarts(sizes, data, pos, 9, i);
    }
    if fast[x] != 0 {
      var i: nat :| i < |sizes| && Hits(sizes, x, i);
      UsedLength(sizes, x, i);
      EntryParts(sizes[i], i);
    } else {
      forall i: nat | i < |sizes| && sizes[i] <= FAST_BITS
        ensures !CodeAt(sizes, data, pos, i)
      {
        if Hits(sizes, x, i) {
          UsedLength(sizes, x, i);
          EntryParts(sizes[i], i);
        }
      }
    }
  }

  lemma UsedLength(sizes: seq<nat>, x: nat, i: nat)
    requires Legal(sizes) && Starts(sizes, x, i)
    ensures i < |sizes| <= 288 && 0 < sizes[i] <= 15
  {
  }

  /** With no short code in the window, it is at or above the limit of every short length. */
  lemma {:induction false} NoneShort(sizes: seq<nat>, x: nat, l: nat, m: nat)
    requires 1 <= l <= m
    requires forall i: nat :: i < |sizes| && sizes[i] <= m ==> !Starts(sizes, x, i)
    ensures Reversed(x, l) >= Limit(sizes, l)
    decreases l
  {
    if l > 1 {
      NoneShort(sizes, x, l - 1, m);
    }
    AboveFirst(sizes, x, l);
    if Reversed(x, l) < Limit(sizes, l) {
      NthStarts(sizes, x, l);
    }
  }

  /** A window at or above the longest limit starts with no code. */
  lemma NoneStarts(sizes: seq<nat>, x: nat, i: nat)
    requires Legal(sizes) && Reversed(x, 15) >= Limit(sizes, 15)
    ensures !Starts(sizes, x, i)
  {
    if Starts(sizes, x, i) {
      StartsInRange(sizes, x, i);
      if sizes[i] < 15 {
        BelowStays(sizes, x, sizes[i], 15);
      }
    }
  }

  /** The comparison of the slow search: sixteen reversed bits against a shifted limit. */
  lemma SearchStep(sizes: seq<nat>, x: nat, s: nat)
    requires s <= 16
    ensures Reversed(x, 16) < Shl(Limit(sizes, s), 16 - s) <==> Reversed(x, s) < Limit(sizes, s)
    ensures Shr(Reversed(x, 16), 16 - s) == Reversed(x, s)
  {
    DropReversed(x, 16, s);
    BelowShifted(Reversed(x, 16), Limit(sizes, s), 16 - s);
  }

  /** Where the slow search starts. */
  lemma SearchStart(sizes: seq<nat>, data: seq<nat>, pos: nat, num: nat)
    requires num >= 16
    requires forall i: nat :: i < |sizes| && sizes[i] <= FAST_BITS ==> !CodeAt(sizes, data, pos, i)
    ensures Reversed(StreamValue(data, pos, num), FAST_BITS) >= Limit(sizes, FAST_BITS)
    ensures BitReverse(StreamValue(data, pos, num), 16) == Reversed(StreamValue(data, pos, num), 16) < 0x1_0000
  {
    hide Starts;
    var x := StreamValue(data, pos, num);
    forall i: nat | i < |sizes| && sizes[i] <= FAST_BITS
      ensures !Starts(sizes, x, i)
    {
      CodeAtIsStarts(sizes, data, pos, num, i);
    }
    NoneShort(sizes, x, FAST_BITS, FAST_BITS);
    BitReverseReverses(x, 16);
    assert Pow2(8) == 256;
    assert Pow2(16) == 0x1_0000;
  }

  /** Where it ends: no code, or the symbol at the computed place of the sorted table. */
  lemma SearchEnd(sizes: seq<nat>, size: seq<nat>, value: seq<nat>, data: seq<nat>, pos: nat, num: nat, s: nat)
    requires Legal(sizes) && num >= 16 && 9 < s <= 16 && |size| == |value| == 288 && Sorted(sizes, size, value, |sizes|)
    requires Reversed(StreamValue(data, pos, num), s - 1) >= Limit(sizes, s - 1)
    requires s < 16 ==> Reversed(StreamValue(data, pos, num), s) < Limit(sizes, s)
    ensures s == 16 ==> Symbol(sizes, data, pos) == -1
    ensures s < 16 ==>
      var x := StreamValue(data, pos, num);
      FirstCode(sizes, s) <= Reversed(x, s) && Reversed(x, s) - FirstCode(sizes, s) + FirstSymbol(sizes, s) < 288
    ensures s < 16 ==>
      var x := StreamValue(data, pos, num);
      var c := Reversed(x, s) - FirstCode(sizes, s) + FirstSymbol(sizes, s);
      size[c] == s && Symbol(sizes, data, pos) == value[c] && value[c] < |sizes| && sizes[value[c]] == s
  {
    hide Starts, StreamValue, Reversed, FirstSymbol;
    var x := StreamValue(data, pos, num);
    if s == 16 {
      forall i: nat
        ensures !CodeAt(sizes, data, pos, i)
      {
        NoneStarts(sizes, x, i);
        if i < |sizes| {
          CodeAtIsStarts(sizes, data, pos, num, i);
        }
      }
    } else {
      AboveFirst(sizes, x, s);
      NthStarts(sizes, x, s);
      var i := Nth(sizes, |sizes|, s, Reversed(x, s) - FirstCode(sizes, s));
      CodeAtIsStarts(sizes, data, pos, num, i);
      CodeAtUnique(sizes, data, pos, i, Symbol(sizes, data, pos));
    }
  }

  /** The items of a block that are not back references. */
  lemma NextItem(lengths: seq<nat>, distances: seq<nat>, data: seq<nat>, pos: nat)
    requires Codes(lengths, distances)
    ensures var z := Symbol(lengths, data, pos);
      && z < 288
      && (z < 0 ==> Next(lengths, distances, data, pos) == BadCode)
      && (0 <= z < 256 ==> Next(lengths, distances, data, pos) == Literal(z, pos + lengths[z]))
      && (z == 256 ==> Next(lengths, distances, data, pos) == EndOfBlock(pos + lengths[z]))
  {
  }

  /** The items that are. */
  lemma MatchItem(lengths: seq<nat>, distances: seq<nat>, data: seq<nat>, pos: nat)
    requires Codes(lengths, distances) && Symbol(lengths, data, pos) > 256
    ensures var z := Symbol(lengths, data, pos);
      && z < 288
      && var p := pos + lengths[z];
      && var q := p + LengthExtra(z - 257);
      && var d := Symbol(distances, data, q);
      && d < 32
      && Next(lengths, distances, data, pos) ==
        if d < 0 then BadCode
        else Match(LengthBase(z - 257) + StreamValue(data, p, LengthExtra(z - 257)),
          DistBase(d) + StreamValue(data, q + distances[d], DistExtra(d)), q + distances[d] + DistExtra(d))
  {
  }

  /** The first item of a block that ends. */
  lemma BlockStep(lengths: seq<nat>, distances: seq<nat>, data: seq<nat>, pos: nat, out: seq<nat>, room: int, memory: Memory, n: nat)
    requires Codes(lengths, distances)
    requires !Block(lengths, distances, data, pos, out, room, memory, n).Running?
    ensures n > 0
    ensures var b := Block(lengths, distances, data, pos, out, room, memory, n);
      match Next(lengths, distances, data, pos)
      case BadCode => b.Failed?
      case EndOfBlock(p) => b == Done(out, p)
      case Literal(byte, p) =>
        if 0 <= room <= |out| then b.Failed?
        else b == Block(lengths, distances, data, p, out + [byte], room, memory, n - 1)
      case Match(len, dist, p) =>
        if dist > |out| || 0 <= room < |out| + len then b.Failed?
        else b == Block(lengths, distances, data, p, Extend(out, len, dist, memory), room, memory, n - 1)
  {
  }

  // ---- Growing

  /** A length after k doublings. */
  function Doubled(limit: nat, k: nat): nat {
    if k == 0 then limit else 2 * Doubled(limit, k - 1)
  }

  lemma {:induction false} DoubledFar(limit: nat, k: nat)
    requires limit > 0
    ensures Doubled(limit, k) > k
  {
    if k > 0 {
      DoubledFar(limit, k - 1);
    }
  }

  lemma {:induction false} DoubledZero(k: nat)
    ensures Doubled(0, k) == 0
  {
    if k > 0 {
      DoubledZero(k - 1);
    }
  }

  /** Doubling a buffer reaches what is needed if and only if it is not empty or nothing is. */
  lemma DoublingEnds(limit: nat, need: nat)
    ensures (exists k: nat :: need <= Doubled(limit, k)) <==> limit > 0 || need == 0
  {
    if limit > 0 {
      DoubledFar(limit, need);
    } else {
      forall k: nat ensures Doubled(0, k) == 0 {
        DoubledZero(k);
      }
      assert need == 0 ==> need <= Doubled(limit, 0);
    }
  }

  // ---- Stored blocks

  lemma LowThree(x: nat)
    ensures And(x, 7) == x % 8
  {
    var a, b, c := x / 2, x / 2 / 2, x / 2 / 2 / 2;
    var r := x % 2 + 2 * (a % 2) + 4 * (b % 2);
    assert And(x, 7) == r by {
      assert And(b, 1) == b % 2 && And(a, 3) == a % 2 + 2 * And(b, 1);
    }
    hide And;
    RemainderBy8(x, c, r);
  }

  lemma RemainderBy8(x: nat, c: nat, r: nat)
    requires x == 8 * c + r && r < 8
    ensures x % 8 == r
  {
  }

  /** The bits up to the next byte of the input. */
  lemma AlignFacts(num: nat, pos: nat)
    requires (pos + num) % 8 == 0
    ensures And(num, 7) == num % 8 <= num && (pos + num % 8) % 8 == 0 && pos + num % 8 == 8 * ((pos + 7) / 8)
  {
    LowThree(num);
    hide And;
    var m, c, t := (pos + num) / 8, num / 8, num % 8;
    assert num == 8 * c + t && pos + num == 8 * m;
    assert pos + t == 8 * (m - c);
  }

  /** A whole byte at the front of the buffer. */
  lemma FrontByte(data: seq<nat>, next: nat, codeBuffer: nat, num: nat, k: nat)
    requires Buffered(data, next, codeBuffer, num, 8 * k) && num >= 8
    ensures And(codeBuffer, 255) == ByteAt(data, k)
    ensures Buffered(data, next, Shr(codeBuffer, 8), num - 8, 8 * (k + 1))
  {
    hide StreamValue, And, Low, Shr;
    assert Pow2(8) == 256;
    MaskIsLow(codeBuffer, 8);
    Drained(data, next, codeBuffer, num, 8 * k, 8);
    InBytes(data, k);
    ByteValue(data, k);
  }

  lemma InBytes(data: seq<nat>, k: nat)
    requires Bytes(data)
    ensures k < |data| ==> data[k] < 256
  {
  }

  /** A byte read past an empty buffer. */
  lemma NextByte(data: seq<nat>, next: nat, k: nat)
    requires Buffered(data, next, 0, 0, 8 * k)
    ensures next <= |data|
    ensures next < |data| ==> data[next] == ByteAt(data, k) && Buffered(data, next + 1, 0, 0, 8 * (k + 1))
    ensures next == |data| ==> ByteAt(data, k) == 0 && Buffered(data, next, 0, 0, 8 * (k + 1))
  {
  }

  /** The check of a stored block's length, and whether its bytes are there. */
  lemma StoredChecks(data: seq<nat>, next: nat, pos: nat, q: nat, len: nat, nlen: nat)
    requires Buffered(data, next, 0, 0, pos) && pos == 8 * (q + 4)
    requires len == ByteAt(data, q) + 256 * ByteAt(data, q + 1) && nlen == ByteAt(data, q + 2) + 256 * ByteAt(data, q + 3)
    ensures len < 0x1_0000 && nlen < 0x1_0000 && Xor(len, 0xffff) == 0xffff - len
    ensures len + nlen == 0xffff ==> (next + len > |data| <==> q + 4 + len > |data|)
    ensures len + nlen == 0xffff && q + 4 + len <= |data| ==> next == q + 4 && Buffered(data, next + len, 0, 0, pos + 8 * len)
  {
    hide Xor;
    InBytes(data, q);
    InBytes(data, q + 1);
    InBytes(data, q + 2);
    InBytes(data, q + 3);
    assert Pow2(8) == 0x100;
    assert Pow2(16) == 0x1_0000;
    XorOnes(len, 16);
  }

  /** What ReadBlockLengths reads. */
  ghost predicate BlockLengthsRead(data: seq<nat>, start: nat, total: nat, ok: bool, lencodes: seq<nat>, pos: nat) {
    CountBounds(data, start);
    var n := StreamValue(data, start + 10, 4) + 4;
    var cl := CodeLengthSizes(data, start + 14, n);
    var r := ReadLengths(cl, data, start + 14 + 3 * n, total, []);
    if ok then Fits(cl) && r == Lengths(lencodes, pos) && |lencodes| == total && Small(lencodes)
    else !Fits(cl) || r.BadLengths?
  }

  class ZBuf {
    const zbuffer: seq<nat>
    var next: nat
    var num_bits: nat
    var code_buffer: nat
    /** The bit position in the input. */
    ghost var pos: nat

    var zout: nat
    var zstart: array<nat>
    const z_expandable: bool
    /** What the output's memory holds where it was not written, given or newly allocated. */
    const memory: Memory

    const z_length: Table
    const z_distance: Table

    constructor (input: seq<nat>, output: array<nat>, expandable: bool, memory: Memory)
      requires Bytes(input) && forall k: nat :: k < output.Length ==> output[k] == memory(k)
      ensures Reader() && zbuffer == input && pos == 0 && num_bits == 0
      ensures zout == 0 && zstart == output && z_expandable == expandable && this.memory == memory && Untouched(0)
      ensures fresh(z_length) && z_length.Valid() && fresh(z_length.arrays)
      ensures fresh(z_distance) && z_distance.Valid() && fresh(z_distance.arrays)
      ensures z_length != z_distance && z_length.arrays !! z_distance.arrays
    {
      zbuffer, next, num_bits, code_buffer, pos := input, 0, 0, 0, 0;
      zout, zstart, z_expandable, this.memory := 0, output, expandable, memory;
      z_length := new Table();
      z_distance := new Table();
    }

    ghost predicate Reader()
      reads this`next, this`num_bits, this`code_buffer, this`pos
    {
      Buffered(zbuffer, next, code_buffer, num_bits, pos)
    }

    method Get8() returns (b: nat)
      requires next <= |zbuffer|
      modifies this`next
      ensures if old(next) < |zbuffer| then b == zbuffer[old(next)] && next == old(next) + 1 else b == 0 && next == old(next)
    {
      if next >= |zbuffer| {
        return 0;
      }
      b := zbuffer[next];
      next := next + 1;
    }

    /** Refills the bit buffer; no bit is lost or repeated. */
    method FillBits()
      requires Reader() && num_bits <= 24
      modifies this`next, this`num_bits, this`code_buffer
      ensures Reader() && num_bits > 24 && pos == old(pos)
    {
      hide Buffered, StreamValue, Or, Shl;
      BufferFacts(zbuffer, next, code_buffer, num_bits, pos);
      Filled(zbuffer, next, code_buffer, num_bits, pos);
      var b := Get8();
      code_buffer := Or(code_buffer, Shl(b, num_bits));
      num_bits := num_bits + 8;
      while num_bits <= 24
        invariant Reader() && pos == old(pos)
        decreases 32 - num_bits
      {
        BufferFacts(zbuffer, next, code_buffer, num_bits, pos);
        Filled(zbuffer, next, code_buffer, num_bits, pos);
        var b := Get8();
        code_buffer := Or(code_buffer, Shl(b, num_bits));
        num_bits := num_bits + 8;
      }
    }

    /** The next n bits as a number. */
    method Receive(n: nat) returns (k: nat)
      requires Reader() && n <= 16
      modifies this`next, this`num_bits, this`code_buffer, this`pos
      ensures Reader() && pos == old(pos) + n && (n <= old(num_bits) ==> num_bits == old(num_bits) - n)
      ensures k == StreamValue(zbuffer, old(pos), n)
    {
      hide Buffered, StreamValue, And, Shr, Shl;
      if num_bits < n {
        FillBits();
      }
      ShlOne(n);
      MaskIsLow(code_buffer, n);
      Drained(zbuffer, next, code_buffer, num_bits, pos, n);
      k := And(code_buffer, Shl(1, n) - 1);
      code_buffer := Shr(code_buffer, n);
      num_bits := num_bits - n;
      pos := pos + n;
    }

    /** The next symbol of the code that z describes: the one whose code stands at the
        position, with the position moved past it; -1 when no code stands there. */
    method HuffmanDecode(z: Table, ghost sizes: seq<nat>) returns (symbol: int)
      requires Reader() && z.Valid() && z.Describes(sizes)
      modifies this`next, this`num_bits, this`code_buffer, this`pos
      ensures Reader()
      ensures symbol == Symbol(sizes, zbuffer, old(pos))
      ensures pos == if symbol >= 0 then old(pos) + sizes[symbol] else old(pos)
    {
      hide Buffered, StreamValue, And, Shr, Shl, CodeAt, Rows, Sorted, Fast, Legal, Fits;
      if num_bits < 16 {
        FillBits();
      }
      BufferFacts(zbuffer, next, code_buffer, num_bits, pos);
      FastFinds(sizes, z.fast[..], zbuffer, pos, num_bits);
      var b := z.fast[And(code_buffer, 511)];
      if b != 0 {
        var s := Shr(b, 9);
        Drained(zbuffer, next, code_buffer, num_bits, pos, s);
        CodeAtUnique(sizes, zbuffer, pos, And(b, 511), Symbol(sizes, zbuffer, pos));
        code_buffer := Shr(code_buffer, s);
        num_bits := num_bits - s;
        pos := pos + s;
        return And(b, 511);
      }
      symbol := HuffmanDecodeSlowpath(z, sizes);
    }

    /** The search over the longer codes. */
    method HuffmanDecodeSlowpath(z: Table, ghost sizes: seq<nat>) returns (symbol: int)
      requires Reader() && num_bits >= 16 && z.Valid() && z.Describes(sizes)
      requires forall i: nat :: i < |sizes| && sizes[i] <= FAST_BITS ==> !CodeAt(sizes, zbuffer, pos, i)
      modifies this`num_bits, this`code_buffer, this`pos
      ensures Reader()
      ensures symbol == Symbol(sizes, zbuffer, old(pos))
      ensures pos == if symbol >= 0 then old(pos) + sizes[symbol] else old(pos)
    {
      hide Buffered, Rows, Sorted, Fast, StreamValue, Reversed, Limit, FirstCode, FirstSymbol, CodeAt, Shl, Shr, BitReverse, Legal, Fits, Symbol;
      BufferFacts(zbuffer, next, code_buffer, num_bits, pos);
      ghost var x := StreamValue(zbuffer, pos, num_bits);
      SearchStart(sizes, zbuffer, pos, num_bits);
      var k := BitReverse(code_buffer, 16);
      var s := FAST_BITS + 1;
      SearchStep(sizes, x, s);
      while k >= z.maxcode[s]
        invariant FAST_BITS < s <= 16
        invariant Reversed(x, s - 1) >= Limit(sizes, s - 1)
        decreases 16 - s
        modifies {}
      {
        RowAt(sizes, z.firstcode[..], z.firstsymbol[..], z.maxcode[..], s);
        SearchStep(sizes, x, s);
        s := s + 1;
      }
      if s < 16 {
        RowAt(sizes, z.firstcode[..], z.firstsymbol[..], z.maxcode[..], s);
        SearchStep(sizes, x, s);
      }
      SearchEnd(sizes, z.size[..], z.value[..], zbuffer, pos, num_bits, s);
      if s == 16 {
        return -1;
      }
      Drained(zbuffer, next, code_buffer, num_bits, pos, s);
      var c: int := Shr(k, 16 - s) - z.firstcode[s] + z.firstsymbol[s];
      code_buffer := Shr(code_buffer, s);
      num_bits := num_bits - s;
      pos := pos + s;
      symbol := z.value[c];
    }

    // ---- Output

    /** The space of an output that may not grow, or -1. */
    ghost function Room(): int
      reads this`zstart
    {
      if z_expandable then -1 else zstart.Length
    }

    /** Nothing was written from place out on. */
    ghost predicate Untouched(out: nat)
      reads this`zstart, zstart
    {
      forall k: nat :: out <= k < zstart.Length ==> zstart[k] == memory(k)
    }

    /** The output has out bytes and shares no memory with the tables. */
    ghost predicate Output(out: nat)
      reads this`zstart, zstart
    {
      && out <= zstart.Length && Untouched(out)
      && (z_expandable ==> zstart.Length > 0)
      && zstart !in z_length.arrays && zstart !in z_distance.arrays
    }

    ghost predicate Tables(lengths: seq<nat>, distances: seq<nat>)
      reads z_length.arrays, z_distance.arrays
    {
      && z_length.Valid() && z_distance.Valid()
      && z_length.Describes(lengths) && z_distance.Describes(distances) && Codes(lengths, distances)
    }

    /** Makes room for n more bytes; the bytes already produced stay where they are. The
        doubling of a buffer ends if it is not empty or nothing is needed (DoublingEnds). */
    method Expand(out: nat, n: nat) returns (ok: bool)
      requires out <= zstart.Length && Untouched(out)
      requires z_expandable ==> zstart.Length > 0 || n == 0
      modifies this`zout, this`zstart
      ensures ok == z_expandable && zout == out && out <= zstart.Length && Untouched(out)
      ensures ok ==> fresh(zstart) && out + n <= zstart.Length && old(zstart.Length) <= zstart.Length
      ensures ok ==> zstart[..old(zstart.Length)] == old(zstart[..])
      ensures !ok ==> zstart == old(zstart)
    {
      zout := out;
      if !z_expandable {
        return false;
      }
      var limit := zstart.Length;
      while out + n > limit
        invariant limit >= zstart.Length
        decreases out + n - limit
        modifies {}
      {
        limit := limit * 2;
      }
      var q := new nat[limit](k requires k >= 0 => memory(k));
      assert forall k :: 0 <= k < limit ==> q[k] == memory(k);
      forall k | 0 <= k < zstart.Length {
        q[k] := zstart[k];
      }
      assert forall k: nat :: out <= k < limit ==> q[k] == memory(k);
      zstart := q;
      ok := true;
    }

    /** One byte at the end of what was written. */
    method PutByte(out: nat, b: nat)
      requires out < zstart.Length && Untouched(out)
      modifies zstart
      ensures zstart[..out + 1] == old(zstart[..out]) + [b] && Untouched(out + 1)
    {
      zstart[out] := b;
    }

    /** Copies len bytes from dist back: a run when dist is one, byte by byte otherwise. */
    method CopyMatch(out: nat, len: nat, dist: nat)
      requires out + len <= zstart.Length && dist <= out && Untouched(out)
      modifies zstart
      ensures zstart[..out + len] == Extend(old(zstart[..out]), len, dist, memory) && Untouched(out + len)
    {
      hide Extend, Untouched;
      ghost var before := zstart[..out];
      ExtendNone(before, dist, memory);
      var k := 0;
      if dist == 1 {
        var v := zstart[out - 1];
        while k < len
          invariant k <= len && Untouched(out + k)
          invariant zstart[..out + k] == Extend(before, k, dist, memory)
          invariant zstart[..out + k][out + k - 1] == v
        {
          ExtendStep(before, k, dist, memory);
          PutByte(out + k, v);
          k := k + 1;
        }
      } else {
        while k < len
          invariant k <= len && Untouched(out + k)
          invariant zstart[..out + k] == Extend(before, k, dist, memory)
        {
          ExtendStep(before, k, dist, memory);
          UntouchedAt(out + k);
          assert dist > 0 ==> zstart[out + k - dist] == zstart[..out + k][out + k - dist];
          PutByte(out + k, zstart[out + k - dist]);
          k := k + 1;
        }
      }
    }

    lemma UntouchedAt(k: nat)
      requires Untouched(k) && k < zstart.Length
      ensures zstart[k] == memory(k)
    {
    }

    /** A length or distance: its base, and extra bits when it has any. */
    method ReceiveExtra(base: nat, extra: nat) returns (v: nat)
      requires Reader() && extra <= 16
      modifies this`next, this`num_bits, this`code_buffer, this`pos
      ensures Reader() && pos == old(pos) + extra
      ensures v == base + StreamValue(zbuffer, old(pos), extra)
    {
      v := base;
      if extra > 0 {
        var k := Receive(extra);
        v := v + k;
      }
    }

    /** One back reference after its length symbol; says what it is. */
    method ReceiveMatch(z: nat, ghost lengths: seq<nat>, ghost distances: seq<nat>, ghost start: nat)
      returns (len: nat, dist: int)
      requires Reader() && Tables(lengths, distances)
      requires 256 < z == Symbol(lengths, zbuffer, start) && pos == start + lengths[z]
      modifies this`next, this`num_bits, this`code_buffer, this`pos
      ensures Reader()
      ensures Next(lengths, distances, zbuffer, start) == if dist < 0 then BadCode else Match(len, dist, pos)
    {
      hide StreamValue, Buffered, Rows, Sorted, Fast, CodeAt, Fits, Legal, Next, Symbol, LengthBase, LengthExtra, DistBase, DistExtra;
      MatchItem(lengths, distances, zbuffer, start);
      len := ReceiveExtra(LengthBase(z - 257), LengthExtra(z - 257));
      var d := HuffmanDecode(z_distance, distances);
      if d < 0 {
        return len, -1;
      }
      dist := ReceiveExtra(DistBase(d), DistExtra(d));
    }

    /** One literal at the end of the output. */
    method PutLiteral(out: nat, b: nat) returns (ok: bool)
      requires Output(out)
      modifies this`zout, this`zstart, zstart
      ensures ok <==> !(0 <= old(Room()) <= out)
      ensures ok ==> Output(out + 1) && zstart[..out + 1] == old(zstart[..out]) + [b]
      ensures Room() == old(Room()) && (zstart == old(zstart) || fresh(zstart))
    {
      ghost var so: seq<nat> := zstart[..out];
      if out >= zstart.Length {
        var room := Expand(out, 1);
        if !room {
          return false;
        }
        assert zstart[..out] == so;
      }
      PutByte(out, b);
      ok := true;
    }

    /** One back reference at the end of the output. */
    method PutMatch(out: nat, len: nat, dist: nat) returns (ok: bool)
      requires Output(out) && dist <= out
      modifies this`zout, this`zstart, zstart
      ensures ok <==> !(0 <= old(Room()) < out + len)
      ensures ok ==> Output(out + len) && zstart[..out + len] == Extend(old(zstart[..out]), len, dist, memory)
      ensures Room() == old(Room()) && (zstart == old(zstart) || fresh(zstart))
    {
      ghost var so: seq<nat> := zstart[..out];
      if out + len > zstart.Length {
        var room := Expand(out, len);
        if !room {
          return false;
        }
        assert zstart[..out] == so;
      }
      CopyMatch(out, len, dist);
      ok := true;
    }

    /** A compressed block: the output becomes its expansion, or it fails for the reason given. */
    method ParseHuffmanBlock(ghost lengths: seq<nat>, ghost distances: seq<nat>, ghost n: nat) returns (ok: bool)
      requires Reader() && Output(zout) && Tables(lengths, distances)
      requires !Block(lengths, distances, zbuffer, pos, zstart[..zout], Room(), memory, n).Running?
      modifies this`next, this`num_bits, this`code_buffer, this`pos, this`zout, this`zstart, zstart
      ensures var outcome := old(Block(lengths, distances, zbuffer, pos, zstart[..zout], Room(), memory, n));
        if ok then Output(zout) && outcome == Done(zstart[..zout], pos) else outcome.Failed?
      ensures Reader() && Tables(lengths, distances)
      ensures Room() == old(Room()) && (zstart == old(zstart) || fresh(zstart))
    {
      hide Buffered, Rows, Sorted, Fast, CodeAt, Fits, Next, Extend, Block, Legal, Symbol, Untouched, StreamValue, FirstCode, Count;
      ghost var outcome := Block(lengths, distances, zbuffer, pos, zstart[..zout], Room(), memory, n);
      var out: nat := zout;
      ghost var left: nat := n;
      while true
        invariant Reader() && Output(out) && Tables(lengths, distances) && Room() == old(Room())
        invariant zstart == old(zstart) || fresh(zstart)
        invariant outcome == Block(lengths, distances, zbuffer, pos, zstart[..out], Room(), memory, left)
        decreases left
      {
        ghost var start := pos;
        NextItem(lengths, distances, zbuffer, pos);
        BlockStep(lengths, distances, zbuffer, pos, zstart[..out], Room(), memory, left);
        var z := HuffmanDecode(z_length, lengths);
        left := left - 1;
        if z < 256 {
          if z < 0 {
            return false;
          }
          var room := PutLiteral(out, z);
          if !room {
            return false;
          }
          out := out + 1;
        } else {
          if z == 256 {
            zout := out;
            return true;
          }
          var len, dist := ReceiveMatch(z, lengths, distances, start);
          if dist < 0 {
            return false;
          }
          if out < dist {
            return false;
          }
          var room := PutMatch(out, len, dist);
          if !room {
            return false;
          }
          out := out + len;
        }
      }
    }

    // ---- Blocks of a stream

    /** The two tables share no memory. */
    ghost predicate Apart() {
      z_length.Valid() && z_distance.Valid() && z_length.arrays !! z_distance.arrays
    }

    /** The lengths of the code for code lengths. */
    method ReadCodeLengthSizes(n: nat) returns (sizes: seq<nat>)
      requires Reader() && n <= 19
      modifies this`next, this`num_bits, this`code_buffer, this`pos
      ensures Reader() && pos == old(pos) + 3 * n && sizes == CodeLengthSizes(zbuffer, old(pos), n)
    {
      hide Buffered, StreamValue;
      sizes := Repeat(0, 19);
      for i: nat := 0 to n
        invariant Reader() && pos == old(pos) + 3 * i && sizes == CodeLengthSizes(zbuffer, old(pos), i)
      {
        var s := Receive(3);
        sizes := sizes[LENGTH_DEZIGZAG[i] := s];
      }
    }

    /** One code length symbol: how long a run of which length it adds. */
    method ReceiveRun(c: nat, done: seq<nat>) returns (x: nat, n: nat)
      requires Reader() && c < 19 && (c == 16 ==> done != [])
      modifies this`next, this`num_bits, this`code_buffer, this`pos
      ensures Reader() && (x, n, pos) == Run(zbuffer, old(pos), c, done) && n > 0
    {
      hide Buffered, StreamValue;
      if c < 16 {
        return c, 1;
      }
      x := 0;
      if c == 16 {
        n := Receive(2);
        n := n + 3;
        x := done[|done| - 1];
      } else if c == 17 {
        n := Receive(3);
        n := n + 3;
      } else {
        n := Receive(7);
        n := n + 11;
      }
    }

    /** total code lengths, run by run. */
    method ReadCodeLengths(z: Table, ghost cl: seq<nat>, total: nat) returns (ok: bool, lencodes: seq<nat>)
      requires Reader() && z.Valid() && z.Describes(cl) && |cl| == 19
      modifies this`next, this`num_bits, this`code_buffer, this`pos
      ensures Reader()
      ensures ReadLengths(cl, zbuffer, old(pos), total, []) == if ok then Lengths(lencodes, pos) else BadLengths
    {
      hide Buffered, StreamValue, Rows, Sorted, Fast, Fits, CodeAt, Run;
      lencodes := [];
      while |lencodes| < total
        invariant Reader() && |lencodes| <= total
        invariant ReadLengths(cl, zbuffer, pos, total, lencodes) == ReadLengths(cl, zbuffer, old(pos), total, [])
        decreases total - |lencodes|
      {
        SymbolBound(cl, zbuffer, pos);
        var c := HuffmanDecode(z, cl);
        if c < 0 {
          return false, lencodes;
        }
        if c == 16 && lencodes == [] {
          return false, lencodes;
        }
        var x, n := ReceiveRun(c, lencodes);
        if total - |lencodes| < n {
          return false, lencodes;
        }
        lencodes := lencodes + Repeat(x, n);
      }
      ok := true;
    }

    /** The code lengths of a block: those of the code for code lengths, then with it all others. */
    method ReadBlockLengths() returns (ok: bool, hlit: nat, hdist: nat, lencodes: seq<nat>)
      requires Reader()
      modifies this`next, this`num_bits, this`code_buffer, this`pos
      ensures Reader() && 257 <= hlit <= 288 && 1 <= hdist <= 32
      ensures hlit == StreamValue(zbuffer, old(pos), 5) + 257 && hdist == StreamValue(zbuffer, old(pos) + 5, 5) + 1
      ensures BlockLengthsRead(zbuffer, old(pos), hlit + hdist, ok, lencodes, pos)
    {
      hide Buffered, StreamValue, Rows, Sorted, Fast, Fits, ReadLengths, CodeLengthSizes, Small, Legal;
      ghost var start := pos;
      lencodes := [];
      CountBounds(zbuffer, pos);
      hlit := Receive(5);
      hlit := hlit + 257;
      hdist := Receive(5);
      hdist := hdist + 1;
      var hclen := Receive(4);
      hclen := hclen + 4;
      var cl := ReadCodeLengthSizes(hclen);
      var codelength := new Table();
      CodeLengthsLegal(cl);
      ok := codelength.Build(cl);
      if !ok {
        return;
      }
      ok, lencodes := ReadCodeLengths(codelength, cl, hlit + hdist);
      if ok {
        NoneSmall();
        LengthsAreSmall(cl, zbuffer, start + 14 + 3 * hclen, hlit + hdist, []);
      }
    }

    /** The codes a block carries: read, and made into tables. */
    method ComputeHuffmanCodes() returns (ok: bool)
      requires Reader() && Apart()
      modifies this`next, this`num_bits, this`code_buffer, this`pos, z_length.arrays, z_distance.arrays
      ensures Reader() && var c := DynamicCodes(zbuffer, old(pos));
        && ok == c.BlockCodes?
        && (ok ==> pos == c.pos && z_length.Describes(c.lengths) && z_distance.Describes(c.distances))
    {
      hide Buffered, StreamValue, Rows, Sorted, Fast, Fits, ReadLengths, CodeLengthSizes, Small, Legal;
      var hlit, hdist, lencodes;
      ok, hlit, hdist, lencodes := ReadBlockLengths();
      if !ok {
        return;
      }
      CodesFromSmall(lencodes, hlit);
      ok := z_length.Build(lencodes[..hlit]);
      if !ok {
        return;
      }
      ok := z_distance.Build(lencodes[hlit..]);
    }

    /** Bytes at the end of the output. */
    method PutBytes(out: nat, bytes: seq<nat>) returns (ok: bool)
      requires Output(out)
      modifies this`zout, this`zstart, zstart
      ensures ok <==> !(0 <= old(Room()) < out + |bytes|)
      ensures ok ==> Output(out + |bytes|) && zstart[..out + |bytes|] == old(zstart[..out]) + bytes
      ensures Room() == old(Room()) && (zstart == old(zstart) || fresh(zstart))
    {
      ghost var so: seq<nat> := zstart[..out];
      if out + |bytes| > zstart.Length {
        var room := Expand(out, |bytes|);
        if !room {
          return false;
        }
        assert zstart[..out] == so;
      }
      forall k | 0 <= k < |bytes| {
        zstart[out + k] := bytes[k];
      }
      assert zstart[..out + |bytes|] == so + bytes;
      ok := true;
    }

    /** A stored block: its bytes are appended as they are. */
    method ParseUncompressedBlock() returns (ok: bool)
      requires Reader() && Output(zout)
      modifies this`next, this`num_bits, this`code_buffer, this`pos, this`zout, this`zstart, zstart
      ensures Reader() && (zstart == old(zstart) || fresh(zstart)) && Room() == old(Room())
      ensures var outcome := old(Stored(zbuffer, pos, zstart[..zout], Room()));
        if ok then Output(zout) && outcome == Done(zstart[..zout], pos) else outcome.Failed?
    {
      hide Buffered, ByteAt, Xor, Untouched;
      ghost var q := (pos + 7) / 8;
      var header := DrainHeader();
      var len, nlen := header[1] * 256 + header[0], header[3] * 256 + header[2];
      StoredChecks(zbuffer, next, pos, q, len, nlen);
      if nlen != Xor(len, 0xffff) {
        return false;
      }
      if next + len > |zbuffer| {
        return false;
      }
      var out := zout;
      ok := PutBytes(out, zbuffer[next..next + len]);
      if ok {
        zout := out + len;
        next := next + len;
        pos := pos + 8 * len;
      }
    }

    /** Drops the bits up to the next byte. */
    method AlignToByte()
      requires Reader()
      modifies this`next, this`num_bits, this`code_buffer, this`pos
      ensures Reader() && num_bits % 8 == 0 && num_bits <= 32 && pos == 8 * ((old(pos) + 7) / 8)
    {
      hide Buffered, StreamValue, And, Shr;
      BufferAligned(zbuffer, next, code_buffer, num_bits, pos);
      AlignFacts(num_bits, pos);
      if And(num_bits, 7) != 0 {
        var rest := Receive(And(num_bits, 7));
      }
    }

    /** The four bytes before a stored block: first those still in the bit buffer. */
    method DrainHeader() returns (header: seq<nat>)
      requires Reader()
      modifies this`next, this`num_bits, this`code_buffer, this`pos
      ensures Reader() && num_bits == 0 && code_buffer == 0 && |header| == 4
      ensures var q := (old(pos) + 7) / 8;
        && pos == 8 * (q + 4)
        && forall k: nat :: k < 4 ==> header[k] == ByteAt(zbuffer, q + k)
    {
      hide Buffered, StreamValue, And, Shr, ByteAt;
      ghost var q := (pos + 7) / 8;
      AlignToByte();
      header := [];
      while num_bits > 0
        invariant Reader() && num_bits % 8 == 0 && num_bits <= 32 - 8 * |header| && pos == 8 * (q + |header|)
        invariant forall k: nat :: k < |header| ==> header[k] == ByteAt(zbuffer, q + k)
      {
        FrontByte(zbuffer, next, code_buffer, num_bits, q + |header|);
        header := header + [And(code_buffer, 255)];
        code_buffer := Shr(code_buffer, 8);
        num_bits := num_bits - 8;
        pos := pos + 8;
      }
      EmptyBuffer(zbuffer, next, code_buffer, pos);
      while |header| < 4
        invariant Reader() && num_bits == 0 && code_buffer == 0 && |header| <= 4 && pos == 8 * (q + |header|)
        invariant forall k: nat :: k < |header| ==> header[k] == ByteAt(zbuffer, q + k)
      {
        NextByte(zbuffer, next, q + |header|);
        var b := Get8();
        header := header + [b];
        pos := pos + 8;
      }
    }

    /** Everything a stream needs at a block's start. */
    ghost predicate Streaming()
      reads this`next, this`num_bits, this`code_buffer, this`pos, this`zout, this`zstart, zstart
    {
      Reader() && Output(zout) && Apart()
    }

    /** The codes of a block of kind 1 or 2, as tables. */
    method PrepareTables(kind: nat) returns (ok: bool, ghost codes: BlockCodes)
      requires Streaming() && 1 <= kind <= 2
      modifies this`next, this`num_bits, this`code_buffer, this`pos, z_length.arrays, z_distance.arrays
      ensures Streaming()
      ensures codes == if kind == 1 then BlockCodes(DEFAULT_LENGTH, DEFAULT_DISTANCE, old(pos)) else DynamicCodes(zbuffer, old(pos))
      ensures ok == codes.BlockCodes?
      ensures ok ==> Codes(codes.lengths, codes.distances) && pos == codes.pos && Tables(codes.lengths, codes.distances)
      ensures zstart[..] == old(zstart[..])
    {
      hide Buffered, Rows, Sorted, Fast, Fits, DynamicCodes, Legal;
      DefaultsFit();
      DynamicCodesLegal(zbuffer, pos);
      codes := if kind == 1 then BlockCodes(DEFAULT_LENGTH, DEFAULT_DISTANCE, pos) else DynamicCodes(zbuffer, pos);
      if kind == 1 {
        ok := z_length.Build(DEFAULT_LENGTH);
        ok := z_distance.Build(DEFAULT_DISTANCE);
      } else {
        ok := ComputeHuffmanCodes();
      }
    }

    /** One block of any kind. */
    method ParseBlock(kind: nat, ghost n: nat) returns (ok: bool)
      requires Streaming()
      requires !BlockAt(zbuffer, pos, kind, zstart[..zout], Room(), memory, n).Running?
      modifies this`next, this`num_bits, this`code_buffer, this`pos, this`zout, this`zstart, zstart, z_length.arrays, z_distance.arrays
      ensures var outcome := old(BlockAt(zbuffer, pos, kind, zstart[..zout], Room(), memory, n));
        if ok then Streaming() && outcome == Done(zstart[..zout], pos) else outcome.Failed?
      ensures Room() == old(Room()) && (zstart == old(zstart) || fresh(zstart))
    {
      hide Buffered, Stored, Block, DynamicCodes, Tables;
      if kind == 0 {
        ok := ParseUncompressedBlock();
      } else if kind >= 3 {
        ok := false;
      } else {
        ghost var codes;
        ok, codes := PrepareTables(kind);
        if ok {
          ok := ParseHuffmanBlock(codes.lengths, codes.distances, n);
        }
      }
    }

    /** The blocks of a stream, up to the final one. */
    method ParseBlocks(ghost n: nat) returns (ok: bool)
      requires Streaming()
      requires !Stream(zbuffer, pos, zstart[..zout], Room(), memory, n).Running?
      modifies this`next, this`num_bits, this`code_buffer, this`pos, this`zout, this`zstart, zstart, z_length.arrays, z_distance.arrays
      ensures var outcome := old(Stream(zbuffer, pos, zstart[..zout], Room(), memory, n));
        if ok then Streaming() && outcome == Done(zstart[..zout], pos) else outcome.Failed?
    {
      hide Buffered, BlockAt, StreamValue;
      ghost var outcome := Stream(zbuffer, pos, zstart[..zout], Room(), memory, n);
      ghost var left := n;
      var last := 0;
      while true
        invariant Streaming() && (zstart == old(zstart) || fresh(zstart))
        invariant outcome == Stream(zbuffer, pos, zstart[..zout], Room(), memory, left)
        decreases left
      {
        last := Receive(1);
        var kind := Receive(2);
        left := left - 1;
        ok := ParseBlock(kind, left);
        if !ok {
          return;
        }
        if last != 0 {
          return true;
        }
      }
    }

    /** The zlib header, if asked for, and the stream. */
    method ParseZlib(parseHeader: bool, ghost n: nat) returns (ok: bool)
      requires Streaming() && next == 0 && num_bits == 0 && pos == 0
      requires (parseHeader ==> HeaderOk(zbuffer)) ==>
        var r := Stream(zbuffer, if parseHeader then 16 else 0, zstart[..zout], Room(), memory, n); !r.Running?
      modifies this`next, this`num_bits, this`code_buffer, this`pos, this`zout, this`zstart, zstart, z_length.arrays, z_distance.arrays
      ensures parseHeader && !HeaderOk(zbuffer) ==> !ok
      ensures (parseHeader ==> HeaderOk(zbuffer)) ==>
        var outcome := old(Stream(zbuffer, if parseHeader then 16 else 0, zstart[..zout], Room(), memory, n));
        if ok then Streaming() && outcome == Done(zstart[..zout], pos) else outcome.Failed?
    {
      hide Buffered, Stream, And, StreamValue;
      EmptyBuffer(zbuffer, next, code_buffer, pos);
      if parseHeader {
        NextByte(zbuffer, next, 0);
        var cmf := Get8();
        pos := pos + 8;
        NextByte(zbuffer, next, 1);
        var flg := Get8();
        pos := pos + 8;
        if (cmf * 256 + flg) % 31 != 0 {
          return false;
        }
        if And(flg, 32) != 0 {
          return false;
        }
        if And(cmf, 15) != 8 {
          return false;
        }
      }
      ok := ParseBlocks(n);
    }
  }

  lemma BufferAligned(data: seq<nat>, next: nat, codeBuffer: nat, num: nat, pos: nat)
    requires Buffered(data, next, codeBuffer, num, pos)
    ensures (pos + num) % 8 == 0 && num <= 32
  {
  }

  lemma EmptyBuffer(data: seq<nat>, next: nat, codeBuffer: nat, pos: nat)
    requires Buffered(data, next, codeBuffer, 0, pos)
    ensures codeBuffer == 0
  {
  }

  lemma SymbolBound(sizes: seq<nat>, data: seq<nat>, pos: nat)
    ensures Symbol(sizes, data, pos) < |sizes|
  {
  }

  lemma CodeLengthsLegal(cl: seq<nat>)
    requires |cl| == 19 && Small(cl)
    ensures Legal(cl)
  {
  }
}
