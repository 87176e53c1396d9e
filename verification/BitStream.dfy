/** The input of a DEFLATE decoder as a stream of bits, lowest bit of each byte first. */
module BitStream {
  import opened Bits

  /** Bit k of the input; past its end the input reads as zeroes. */
  function BitAt(data: seq<nat>, k: nat): (b: nat)
    ensures b < 2
  {
    if k / 8 < |data| then Shr(data[k / 8], k % 8) % 2 else 0
  }

  /** n bits from position pos as a number, the first bit lowest. */
  function StreamValue(data: seq<nat>, pos: nat, n: nat): (v: nat)
    ensures v < Pow2(n)
    decreases n
  {
    if n == 0 then 0 else BitAt(data, pos) + 2 * StreamValue(data, pos + 1, n - 1)
  }

  /** n bits from position pos as a Huffman code, the first bit highest. */
  function CodeValue(data: seq<nat>, pos: nat, n: nat): (v: nat)
    ensures v < Pow2(n)
  {
    if n == 0 then 0 else 2 * CodeValue(data, pos, n - 1) + BitAt(data, pos + n - 1)
  }

  lemma {:induction false} CodeFromFirst(data: seq<nat>, pos: nat, n: nat)
    requires n > 0
    ensures CodeValue(data, pos, n) == (if BitAt(data, pos) == 1 then Pow2(n - 1) else 0) + CodeValue(data, pos + 1, n - 1)
  {
    if n > 1 {
      CodeFromFirst(data, pos, n - 1);
    }
  }

  /** Reversing buffered bits gives the code that starts there. */
  lemma {:induction false} ReversedStream(data: seq<nat>, pos: nat, n: nat, s: nat)
    requires s <= n
    ensures Reversed(StreamValue(data, pos, n), s) == CodeValue(data, pos, s)
    decreases n
  {
    hide BitAt;
    if s > 0 {
      CodeFromFirst(data, pos, s);
      ReversedStream(data, pos + 1, n - 1, s - 1);
    }
  }

  /** Shifting m bits out leaves the bits after them. */
  lemma {:induction false} StreamShr(data: seq<nat>, pos: nat, n: nat, m: nat)
    requires m <= n
    ensures Shr(StreamValue(data, pos, n), m) == StreamValue(data, pos + m, n - m)
    decreases n
  {
    if m > 0 {
      StreamShr(data, pos + 1, n - 1, m - 1);
    }
  }

  lemma {:induction false} StreamLow(data: seq<nat>, pos: nat, n: nat, m: nat)
    requires m <= n
    ensures Low(StreamValue(data, pos, n), m) == StreamValue(data, pos, m)
    decreases n
  {
    if m > 0 {
      StreamLow(data, pos + 1, n - 1, m - 1);
    }
  }

  /** Putting the next m bits above the n buffered ones. */
  lemma {:induction false} StreamOr(data: seq<nat>, pos: nat, n: nat, m: nat)
    ensures Or(StreamValue(data, pos, n), Shl(StreamValue(data, pos + n, m), n)) == StreamValue(data, pos, n + m)
    decreases n
  {
    hide BitAt;
    if n == 0 {
      OrZero(StreamValue(data, pos, m));
    } else {
      StreamOr(data, pos + 1, n - 1, m);
    }
  }

  lemma {:induction false} RestOfByte(data: seq<nat>, k: nat, j: nat)
    requires j <= 8 && (k < |data| ==> data[k] < 256)
    ensures StreamValue(data, 8 * k + j, 8 - j) == if k < |data| then Shr(data[k], j) else 0
    decreases 8 - j
  {
    if j == 8 {
      if k < |data| {
        assert Pow2(4) == 16;
        assert Pow2(8) == 256;
        ShrBelow(data[k], 8, 0);
      }
    } else {
      RestOfByte(data, k, j + 1);
      BitOfByte(data, k, j);
      hide BitAt, Shr;
      if k < |data| {
        ShrStep(data[k], j);
      }
    }
  }

  lemma BitOfByte(data: seq<nat>, k: nat, j: nat)
    requires j < 8
    ensures BitAt(data, 8 * k + j) == if k < |data| then Shr(data[k], j) % 2 else 0
  {
    hide Shr;
    assert (8 * k + j) / 8 == k && (8 * k + j) % 8 == j;
  }

  lemma {:induction false} ShrStep(x: nat, j: nat)
    ensures Shr(x, j + 1) == Shr(x, j) / 2
    decreases j
  {
    if j > 0 {
      ShrStep(x / 2, j - 1);
    }
  }

  /** A byte of the input is the eight bits at its place; past the end it is zero. */
  lemma ByteValue(data: seq<nat>, k: nat)
    requires k < |data| ==> data[k] < 256
    ensures StreamValue(data, 8 * k, 8) == if k < |data| then data[k] else 0
  {
    RestOfByte(data, k, 0);
  }

  /** The bits after the first m as the high part of the number. */
  lemma {:induction false} StreamSum(data: seq<nat>, pos: nat, m: nat, n: nat)
    ensures StreamValue(data, pos, m + n) == StreamValue(data, pos, m) + Shl(StreamValue(data, pos + m, n), m)
    decreases m
  {
    hide BitAt;
    if m > 0 {
      StreamSum(data, pos + 1, m - 1, n);
    }
  }
}
