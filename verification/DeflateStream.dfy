/** What a whole compressed stream means (RFC 1951, section 3.2, in the wrapper of RFC 1950):
    stored blocks, blocks with the fixed codes, and blocks that carry their own codes. */
module DeflateStream {
  import opened Bits
  import opened BitStream
  import opened PrefixCode
  import opened Deflate

  function Repeat(x: nat, n: nat): (s: seq<nat>)
    ensures |s| == n && forall k :: 0 <= k < n ==> s[k] == x
  {
    seq(n, _ => x)
  }

  // ---- Code lengths

  datatype Lengths = Lengths(sizes: seq<nat>, pos: nat) | BadLengths

  /** The run of equal lengths that symbol c at the end of done stands for: the length, how
      often, and the position after it. Symbol 16 repeats the last length. */
  function Run(data: seq<nat>, pos: nat, c: nat, done: seq<nat>): (nat, nat, nat)
  {
    if c < 16 then (c, 1, pos)
    else if c == 16 then (if done == [] then 0 else done[|done| - 1], 3 + StreamValue(data, pos, 2), pos + 2)
    else if c == 17 then (0, 3 + StreamValue(data, pos, 3), pos + 3)
    else (0, 11 + StreamValue(data, pos, 7), pos + 7)
  }

  /** total code lengths, written with the code cl. */
  ghost function ReadLengths(cl: seq<nat>, data: seq<nat>, pos: nat, total: nat, done: seq<nat>): Lengths
    requires |done| <= total && |cl| == 19
    decreases total - |done|
  {
    if |done| == total then Lengths(done, pos)
    else
      var c := Symbol(cl, data, pos);
      if c < 0 then BadLengths
      else if c == 16 && done == [] then BadLengths
      else
        var (x, n, p) := Run(data, pos + cl[c], c, done);
        if n > total - |done| then BadLengths else ReadLengths(cl, data, p, total, done + Repeat(x, n))
  }

  predicate Small(sizes: seq<nat>) {
    forall k :: 0 <= k < |sizes| ==> sizes[k] <= 15
  }

  lemma {:induction false} LengthsAreSmall(cl: seq<nat>, data: seq<nat>, pos: nat, total: nat, done: seq<nat>)
    requires |done| <= total && |cl| == 19 && Small(done)
    requires ReadLengths(cl, data, pos, total, done).Lengths?
    ensures var r := ReadLengths(cl, data, pos, total, done); |r.sizes| == total && Small(r.sizes)
    decreases total - |done|
  {
    hide StreamValue;
    if |done| < total {
      var c := Symbol(cl, data, pos);
      var (x, n, p) := Run(data, pos + cl[c], c, done);
      LengthsAreSmall(cl, data, p, total, done + Repeat(x, n));
    }
  }

  const LENGTH_DEZIGZAG: seq<nat> := [16, 17, 18, 0, 8, 7, 9, 6, 10, 5, 11, 4, 12, 3, 13, 2, 14, 1, 15]

  /** The lengths of the code for code lengths: n of them are given, three bits each. */
  function CodeLengthSizes(data: seq<nat>, pos: nat, n: nat): (sizes: seq<nat>)
    requires n <= 19
    ensures |sizes| == 19 && Small(sizes)
  {
    if n == 0 then Repeat(0, 19)
    else
      assert Pow2(3) == 8;
      CodeLengthSizes(data, pos, n - 1)[LENGTH_DEZIGZAG[n - 1] := StreamValue(data, pos + 3 * (n - 1), 3)]
  }

  /** The two codes of a block, and where its items start. */
  datatype BlockCodes = BlockCodes(lengths: seq<nat>, distances: seq<nat>, pos: nat) | BadCodes

  ghost function DynamicCodes(data: seq<nat>, pos: nat): BlockCodes {
    CountBounds(data, pos);
    var hlit, hdist, hclen := StreamValue(data, pos, 5) + 257, StreamValue(data, pos + 5, 5) + 1, StreamValue(data, pos + 10, 4) + 4;
    var cl := CodeLengthSizes(data, pos + 14, hclen);
    if !Fits(cl) then BadCodes
    else
      var r := ReadLengths(cl, data, pos + 14 + 3 * hclen, hlit + hdist, []);
      if r.BadLengths? then BadCodes
      else
        LengthsAreSmall(cl, data, pos + 14 + 3 * hclen, hlit + hdist, []);
        if Fits(r.sizes[..hlit]) && Fits(r.sizes[hlit..]) then BlockCodes(r.sizes[..hlit], r.sizes[hlit..], r.pos) else BadCodes
  }

  lemma CountBounds(data: seq<nat>, pos: nat)
    ensures StreamValue(data, pos, 5) < 32 && StreamValue(data, pos + 5, 5) < 32 && StreamValue(data, pos + 10, 4) < 16
  {
    hide StreamValue;
    assert Pow2(4) == 16 && Pow2(5) == 32;
  }

  /** The codes that are read are legal ones. */
  lemma DynamicCodesLegal(data: seq<nat>, pos: nat)
    ensures var c := DynamicCodes(data, pos);
      c.BlockCodes? ==> Codes(c.lengths, c.distances) && Fits(c.lengths) && Fits(c.distances)
  {
    hide StreamValue, Fits, ReadLengths, CodeLengthSizes, Small;
    CountBounds(data, pos);
    var hlit, hdist, hclen := StreamValue(data, pos, 5) + 257, StreamValue(data, pos + 5, 5) + 1, StreamValue(data, pos + 10, 4) + 4;
    var cl := CodeLengthSizes(data, pos + 14, hclen);
    var r := ReadLengths(cl, data, pos + 14 + 3 * hclen, hlit + hdist, []);
    if r.Lengths? {
      NoneSmall();
      LengthsAreSmall(cl, data, pos + 14 + 3 * hclen, hlit + hdist, []);
      CodesFromSmall(r.sizes, hlit);
    }
  }

  lemma NoneSmall()
    ensures Small([])
  {
  }

  lemma CodesFromSmall(sizes: seq<nat>, hlit: nat)
    requires Small(sizes) && hlit <= 288 && hlit <= |sizes| <= hlit + 32
    ensures Codes(sizes[..hlit], sizes[hlit..])
  {
  }

  // ---- The fixed codes

  /** 144 lengths of 8, 112 of 9, 24 of 7 and 8 of 8. */
  const DEFAULT_LENGTH: seq<nat> := Repeat(8, 144) + Repeat(9, 112) + Repeat(7, 24) + Repeat(8, 8)

  const DEFAULT_DISTANCE: seq<nat> := Repeat(5, 32)

  lemma {:induction false} CountOfSum(a: seq<nat>, b: seq<nat>, l: nat)
    ensures CountAll(a + b, l) == CountAll(a, l) + CountAll(b, l)
    decreases |b|
  {
    if b == [] {
      assert a + b == a;
    } else {
      var front := b[..|b| - 1];
      CountOfSum(a, front, l);
      CountOfPrefix(a + b, |a| + |front|, l);
      CountOfPrefix(b, |front|, l);
      assert (a + b)[..|a| + |front|] == a + front;
    }
  }

  lemma {:induction false} CountOfPrefix(s: seq<nat>, n: nat, l: nat)
    requires n <= |s|
    ensures Count(s, n, l) == CountAll(s[..n], l)
  {
    CountOfSame(s, s[..n], n, l);
  }

  lemma {:induction false} CountOfSame(s: seq<nat>, t: seq<nat>, n: nat, l: nat)
    requires n <= |s| && n <= |t| && s[..n] == t[..n]
    ensures Count(s, n, l) == Count(t, n, l)
  {
    if n > 0 {
      assert s[..n][n - 1] == t[..n][n - 1];
      assert s[..n - 1] == s[..n][..n - 1] && t[..n - 1] == t[..n][..n - 1];
      CountOfSame(s, t, n - 1, l);
    }
  }

  lemma {:induction false} CountOfRun(x: nat, n: nat, m: nat, l: nat)
    requires m <= n
    ensures Count(Repeat(x, n), m, l) == if x == l then m else 0
  {
    if m > 0 {
      CountOfRun(x, n, m - 1, l);
    }
  }

  lemma DefaultCounts(l: nat)
    ensures CountAll(DEFAULT_LENGTH, l) == if l == 7 then 24 else if l == 8 then 152 else if l == 9 then 112 else 0
    ensures CountAll(DEFAULT_DISTANCE, l) == if l == 5 then 32 else 0
  {
    hide Count;
    var a, b, c, d := Repeat(8, 144), Repeat(9, 112), Repeat(7, 24), Repeat(8, 8);
    CountOfSum(a + b + c, d, l);
    CountOfSum(a + b, c, l);
    CountOfSum(a, b, l);
    CountOfRun(8, 144, 144, l);
    CountOfRun(9, 112, 112, l);
    CountOfRun(7, 24, 24, l);
    CountOfRun(8, 8, 8, l);
    CountOfRun(5, 32, 32, l);
  }

  /** The fixed codes fit: they are complete codes. */
  lemma DefaultsFit()
    ensures Fits(DEFAULT_LENGTH) && Fits(DEFAULT_DISTANCE)
    ensures Codes(DEFAULT_LENGTH, DEFAULT_DISTANCE)
  {
    hide CountAll;
    forall l: nat | 1 <= l <= 15
      ensures CountAll(DEFAULT_LENGTH, l) > 0 ==> Limit(DEFAULT_LENGTH, l) <= Pow2(l)
      ensures CountAll(DEFAULT_DISTANCE, l) > 0 ==> Limit(DEFAULT_DISTANCE, l) <= Pow2(l)
    {
      DefaultCounts(l);
      DefaultFirst();
      assert Pow2(5) == 32;
      assert Pow2(7) == 128 && Pow2(8) == 256 && Pow2(9) == 512;
    }
  }

  lemma DefaultFirst()
    ensures FirstCode(DEFAULT_LENGTH, 7) == 0 && FirstCode(DEFAULT_LENGTH, 8) == 48 && FirstCode(DEFAULT_LENGTH, 9) == 400
    ensures FirstCode(DEFAULT_DISTANCE, 5) == 0
  {
    hide CountAll;
    NoShorter(DEFAULT_LENGTH, 7);
    NoShorter(DEFAULT_DISTANCE, 5);
    DefaultCounts(7);
    DefaultCounts(8);
  }

  lemma {:induction false} NoShorter(sizes: seq<nat>, l: nat)
    requires (sizes == DEFAULT_LENGTH && l <= 7) || (sizes == DEFAULT_DISTANCE && l <= 5)
    ensures FirstCode(sizes, l) == 0
  {
    hide CountAll;
    if l > 1 {
      NoShorter(sizes, l - 1);
      DefaultCounts(l - 1);
    }
  }

  /** The table of section 3.2.6 of RFC 1951: which symbol has which code, of which length. */
  lemma FixedCodes(i: nat)
    requires i < 288
    ensures |DEFAULT_LENGTH| == 288
    ensures DEFAULT_LENGTH[i] == if i < 144 then 8 else if i < 256 then 9 else if i < 280 then 7 else 8
    ensures CodeOf(DEFAULT_LENGTH, i) ==
      if i < 144 then 0x30 + i
      else if i < 256 then 0x190 + (i - 144)
      else if i < 280 then i - 256
      else 0xc0 + (i - 280)
  {
    hide Count, FirstCode;
    DefaultFirst();
    var l := DEFAULT_LENGTH[i];
    CountOfPrefix(DEFAULT_LENGTH, i, l);
    var a, b, c := Repeat(8, 144), Repeat(9, 112), Repeat(7, 24);
    if i < 144 {
      assert DEFAULT_LENGTH[..i] == Repeat(8, i);
      CountOfRun(8, i, i, l);
    } else if i < 256 {
      assert DEFAULT_LENGTH[..i] == a + Repeat(9, i - 144);
      CountOfSum(a, Repeat(9, i - 144), l);
      CountOfRun(8, 144, 144, l);
      CountOfRun(9, i - 144, i - 144, l);
    } else if i < 280 {
      assert DEFAULT_LENGTH[..i] == (a + b) + Repeat(7, i - 256);
      CountOfSum(a + b, Repeat(7, i - 256), l);
      CountOfSum(a, b, l);
      CountOfRun(8, 144, 144, l);
      CountOfRun(9, 112, 112, l);
      CountOfRun(7, i - 256, i - 256, l);
    } else {
      assert DEFAULT_LENGTH[..i] == (a + b + c) + Repeat(8, i - 280);
      CountOfSum(a + b + c, Repeat(8, i - 280), l);
      CountOfSum(a + b, c, l);
      CountOfSum(a, b, l);
      CountOfRun(8, 144, 144, l);
      CountOfRun(9, 112, 112, l);
      CountOfRun(7, 24, 24, l);
      CountOfRun(8, i - 280, i - 280, l);
    }
  }

  /** The fixed distance codes are the five-bit numbers. */
  lemma FixedDistances(d: nat)
    requires d < 32
    ensures |DEFAULT_DISTANCE| == 32 && DEFAULT_DISTANCE[d] == 5 && CodeOf(DEFAULT_DISTANCE, d) == d
  {
    hide Count, FirstCode;
    DefaultFirst();
    CountOfPrefix(DEFAULT_DISTANCE, d, 5);
    assert DEFAULT_DISTANCE[..d] == Repeat(5, d);
    CountOfRun(5, d, d, 5);
  }

  // ---- Stored blocks

  function ByteAt(data: seq<nat>, k: nat): nat {
    if k < |data| then data[k] else 0
  }

  /** A stored block: its length twice, the second time complemented, then its bytes. */
  function Stored(data: seq<nat>, pos: nat, out: seq<nat>, room: int): Outcome {
    var q := (pos + 7) / 8;
    var len, nlen := ByteAt(data, q) + 256 * ByteAt(data, q + 1), ByteAt(data, q + 2) + 256 * ByteAt(data, q + 3);
    if len + nlen != 0xffff || q + 4 + len > |data| then Failed(BadStored)
    else if 0 <= room < |out| + len then Failed(NoRoom)
    else Done(out + data[q + 4..q + 4 + len], 8 * (q + 4 + len))
  }

  // ---- Streams

  ghost function BlockAt(data: seq<nat>, pos: nat, kind: nat, out: seq<nat>, room: int, memory: Memory, n: nat): Outcome {
    if kind == 0 then Stored(data, pos, out, room)
    else if kind == 1 then Block(DEFAULT_LENGTH, DEFAULT_DISTANCE, data, pos, out, room, memory, n)
    else if kind == 2 then
      var c := DynamicCodes(data, pos);
      DynamicCodesLegal(data, pos);
      if c.BadCodes? then Failed(BadLengthList) else Block(c.lengths, c.distances, data, c.pos, out, room, memory, n)
    else Failed(BadKind)
  }

  /** The blocks from pos on, up to the one marked final. */
  ghost function Stream(data: seq<nat>, pos: nat, out: seq<nat>, room: int, memory: Memory, n: nat): Outcome
    decreases n
  {
    if n == 0 then Running
    else
      var b := BlockAt(data, pos + 3, StreamValue(data, pos + 1, 2), out, room, memory, n - 1);
      if b.Done? && StreamValue(data, pos, 1) == 0 then Stream(data, b.pos, b.out, room, memory, n - 1) else b
  }

  /** The two bytes before the stream. */
  predicate HeaderOk(data: seq<nat>) {
    var cmf, flg := ByteAt(data, 0), ByteAt(data, 1);
    (cmf * 256 + flg) % 31 == 0 && And(flg, 32) == 0 && And(cmf, 15) == 8
  }
}
