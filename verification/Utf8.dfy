/** The text format of apps/tedit/tedit.cpp: one character as UTF-8 bytes and back. */
module Utf8 {
  import opened Bits

  const INVALID_BYTE: nat := 0x8000_0000
  const NEWLINE: nat := 10

  /** What EncodeCharToUTF8 writes; nothing for a value past the last code point. */
  function Encoded(c: nat): seq<nat> {
    if c < 0x80 then [c]
    else if c < 0x800 then [Or(0xc0, And(Shr(c, 6), 0x1f)), Or(0x80, And(c, 0x3f))]
    else if c < 0x1_0000 then [Or(0xe0, And(Shr(c, 12), 0x0f)), Or(0x80, And(Shr(c, 6), 0x3f)), Or(0x80, And(c, 0x3f))]
    else if c < 0x11_0000 then
      [Or(0xf0, And(Shr(c, 18), 0x07)), Or(0x80, And(Shr(c, 12), 0x3f)), Or(0x80, And(Shr(c, 6), 0x3f)), Or(0x80, And(c, 0x3f))]
    else []
  }

  /** getc: the byte at i, or EOF as -1. */
  function Getc(bytes: seq<nat>, i: nat): int {
    if i < |bytes| then bytes[i] else -1
  }

  predicate Follows(c: int)
    ensures Follows(c) ==> c >= 0
  {
    c >= 0 && And(c, 0xc0) == 0x80
  }

  /** The bytes that could not be decoded, each marked; EOF adds nothing. */
  function Marked(cs: seq<int>): seq<nat> {
    if cs == [] then [] else Marked(cs[..|cs| - 1]) + if cs[|cs| - 1] < 0 then [] else [Or(INVALID_BYTE, cs[|cs| - 1])]
  }

  /** The character that two, three or four bytes stand for. */
  function Two(c: nat, c2: nat): nat {
    Or(Shl(And(c, 0x1f), 6), And(c2, 0x3f))
  }

  function Three(c: nat, c2: nat, c3: nat): nat {
    Or(Or(Shl(And(c, 0x0f), 12), Shl(And(c2, 0x3f), 6)), And(c3, 0x3f))
  }

  function Four(c: nat, c2: nat, c3: nat, c4: nat): nat {
    Or(Or(Or(Shl(And(c, 0x07), 18), Shl(And(c2, 0x3f), 12)), Shl(And(c3, 0x3f), 6)), And(c4, 0x3f))
  }

  /** What LoadFile adds to the current line for the byte at i, and how many bytes it takes. */
  function Decoded(bytes: seq<nat>, i: nat): (seq<nat>, nat)
    requires i < |bytes|
  {
    var c, c2, c3, c4 := bytes[i], Getc(bytes, i + 1), Getc(bytes, i + 2), Getc(bytes, i + 3);
    if c < 0x80 then ([c], 1)
    else if And(c, 0xe0) == 0xc0 then (if Follows(c2) then [Two(c, c2)] else Marked([c, c2]), 2)
    else if And(c, 0xf0) == 0xe0 then (if Follows(c2) && Follows(c3) then [Three(c, c2, c3)] else Marked([c, c2, c3]), 3)
    else if And(c, 0xf8) == 0xf0 then
      (if Follows(c2) && Follows(c3) && Follows(c4) then [Four(c, c2, c3, c4)] else Marked([c, c2, c3, c4]), 4)
    else (Marked([c]), 1)
  }

  // ---- Bit facts

  /** A tag above n bits and what is below them. */
  lemma {:induction false} Tagged(tag: nat, x: nat, n: nat)
    requires x < Pow2(n)
    ensures Or(Shl(tag, n), x) == Shl(tag, n) + x
    ensures Low(Or(Shl(tag, n), x), n) == x
    decreases n
  {
    if n == 0 {
      OrNothing(tag);
    } else {
      Tagged(tag, x / 2, n - 1);
    }
  }

  /** A mask of high bits sees only the tag. */
  lemma {:induction false} TagMasked(tag: nat, x: nat, mask: nat, n: nat)
    requires x < Pow2(n)
    ensures And(Shl(tag, n) + x, Shl(mask, n)) == Shl(And(tag, mask), n)
    decreases n
  {
    if n > 0 {
      TagMasked(tag, x / 2, mask, n - 1);
      AndZero(x);
    }
  }

  lemma AndZero(x: nat)
    ensures And(x, 0) == 0
  {
  }

  /** The bits above n and those below, put together. */
  lemma {:induction false} JoinHigh(c: nat, n: nat)
    ensures Or(Shl(Shr(c, n), n), Low(c, n)) == c
    decreases n
  {
    if n == 0 {
      OrNothing(c);
    } else {
      JoinHigh(c / 2, n - 1);
    }
  }

  lemma {:induction false} OrShl(x: nat, y: nat, n: nat)
    ensures Or(Shl(x, n), Shl(y, n)) == Shl(Or(x, y), n)
  {
    if n > 0 {
      OrShl(x, y, n - 1);
    }
  }

  lemma {:induction false} ShrTwice(x: nat, m: nat, n: nat)
    ensures Shr(Shr(x, m), n) == Shr(x, m + n)
    decreases m
  {
    if m > 0 {
      ShrTwice(x / 2, m - 1, n);
    }
  }

  lemma Masks()
    ensures Pow2(3) == 8 && Pow2(4) == 16 && Pow2(5) == 32 && Pow2(6) == 64
    ensures Shl(2, 6) == 0x80 && Shl(3, 6) == 0xc0
    ensures Shl(6, 5) == 0xc0 && Shl(7, 5) == 0xe0
    ensures Shl(14, 4) == 0xe0 && Shl(15, 4) == 0xf0
    ensures Shl(30, 3) == 0xf0 && Shl(28, 3) == 0xe0 && Shl(31, 3) == 0xf8
  {
  }

  /** A following byte: recognised, and its six bits come back. */
  lemma Following(x: nat)
    requires x < 64
    ensures var y := Or(0x80, x); 0x80 <= y < 0xc0 && Follows(y) && And(y, 0x3f) == x
  {
    Masks();
    Tagged(2, x, 6);
    TagMasked(2, x, 3, 6);
    MaskIsLow(Or(0x80, x), 6);
    assert And(2, 3) == 2;
  }

  lemma Lead2(x: nat)
    requires x < 32
    ensures var y := Or(0xc0, x); 0xc0 <= y < 0xe0 && And(y, 0xe0) == 0xc0 && And(y, 0x1f) == x
  {
    Masks();
    Tagged(6, x, 5);
    TagMasked(6, x, 7, 5);
    MaskIsLow(Or(0xc0, x), 5);
    assert And(6, 7) == 6;
  }

  lemma Lead3(x: nat)
    requires x < 16
    ensures var y := Or(0xe0, x); 0xe0 <= y < 0xf0 && And(y, 0xe0) == 0xe0 && And(y, 0xf0) == 0xe0 && And(y, 0x0f) == x
  {
    Masks();
    Tagged(14, x, 4);
    TagMasked(14, x, 14, 4);
    TagMasked(14, x, 15, 4);
    MaskIsLow(Or(0xe0, x), 4);
    assert And(14, 14) == 14;
    assert And(14, 15) == 14;
  }

  lemma Lead4(x: nat)
    requires x < 8
    ensures var y := Or(0xf0, x);
      0xf0 <= y < 0xf8 && And(y, 0xe0) == 0xe0 && And(y, 0xf0) == 0xf0 && And(y, 0xf8) == 0xf0 && And(y, 0x07) == x
  {
    Masks();
    Tagged(30, x, 3);
    TagMasked(30, x, 28, 3);
    TagMasked(30, x, 30, 3);
    TagMasked(30, x, 31, 3);
    MaskIsLow(Or(0xf0, x), 3);
    assert And(30, 28) == 28;
    assert And(30, 30) == 30;
    assert And(30, 31) == 30;
  }

  /** Six bits of a character from place n, and the bits above them. */
  lemma Piece(c: nat, n: nat)
    ensures And(Shr(c, n), 0x3f) == Low(Shr(c, n), 6) < 64
    ensures Or(Shl(Shr(c, n + 6), 6), And(Shr(c, n), 0x3f)) == Shr(c, n)
  {
    hide And, Or, Shl, Shr, Low;
    Masks();
    MaskIsLow(Shr(c, n), 6);
    ShrTwice(c, n, 6);
    JoinHigh(Shr(c, n), 6);
  }

  lemma MaskKeeps(x: nat, n: nat)
    requires x < Pow2(n)
    ensures And(x, Pow2(n) - 1) == x
  {
    MaskIsLow(x, n);
    LowOfSmall(x, n);
  }

  lemma {:induction false} ShrBound(c: nat, n: nat, b: nat)
    requires c < Shl(b, n)
    ensures Shr(c, n) < b
    decreases n
  {
    if n > 0 {
      ShrBound(c / 2, n - 1, b);
    }
  }

  /** The shares of a character's bits in its bytes. */
  lemma Shares(c: nat)
    ensures c < 0x800 ==> And(Shr(c, 6), 0x1f) == Shr(c, 6) < 32
    ensures c < 0x1_0000 ==> And(Shr(c, 12), 0x0f) == Shr(c, 12) < 16
    ensures c < 0x11_0000 ==> And(Shr(c, 18), 0x07) == Shr(c, 18) < 8
  {
    hide And, Shr;
    Masks();
    BoundValues();
    if c < 0x800 {
      ShrBound(c, 6, 32);
      MaskKeeps(Shr(c, 6), 5);
    }
    if c < 0x1_0000 {
      ShrBound(c, 12, 16);
      MaskKeeps(Shr(c, 12), 4);
    }
    if c < 0x11_0000 {
      ShrBound(c, 18, 8);
      MaskKeeps(Shr(c, 18), 3);
    }
  }

  lemma BoundValues()
    ensures Shl(32, 6) == 0x800 && Shl(16, 12) == 0x1_0000 && Shl(8, 18) >= 0x11_0000
  {
    assert Shl(16, 6) == 0x400;
    assert Shl(16, 12) == 0x1_0000;
    assert Shl(8, 9) == 0x1000;
    assert Shl(8, 18) == 0x20_0000;
  }

  /** The encoding of c stands at i. */
  predicate At(bytes: seq<nat>, i: nat, part: seq<nat>) {
    i + |part| <= |bytes| && bytes[i..i + |part|] == part
  }

  lemma AtByte(bytes: seq<nat>, i: nat, part: seq<nat>, k: nat)
    requires At(bytes, i, part) && k < |part|
    ensures Getc(bytes, i + k) == part[k] == bytes[i + k]
  {
    assert bytes[i..i + |part|][k] == bytes[i + k];
  }

  lemma Decodes2(bytes: seq<nat>, i: nat, c: nat)
    requires 0x80 <= c < 0x800 && At(bytes, i, Encoded(c))
    ensures Decoded(bytes, i) == ([c], 2)
  {
    hide And, Or, Shl, Shr, Low, Follows;
    AtByte(bytes, i, Encoded(c), 0);
    AtByte(bytes, i, Encoded(c), 1);
    Shares(c);
    Piece(c, 0);
    ShrZero(c);
    Lead2(And(Shr(c, 6), 0x1f));
    Following(And(c, 0x3f));
  }

  lemma ShrZero(c: nat)
    ensures Shr(c, 0) == c
  {
  }

  lemma Decodes3(bytes: seq<nat>, i: nat, c: nat)
    requires 0x800 <= c < 0x1_0000 && At(bytes, i, Encoded(c))
    ensures Decoded(bytes, i) == ([c], 3)
  {
    hide And, Or, Shl, Shr, Low, Follows;
    AtByte(bytes, i, Encoded(c), 0);
    AtByte(bytes, i, Encoded(c), 1);
    AtByte(bytes, i, Encoded(c), 2);
    Shares(c);
    Piece(c, 0);
    Piece(c, 6);
    ShrZero(c);
    Lead3(And(Shr(c, 12), 0x0f));
    Following(And(Shr(c, 6), 0x3f));
    Following(And(c, 0x3f));
    ShlSum(Shr(c, 12), 6, 6);
    OrShl(Shl(Shr(c, 12), 6), And(Shr(c, 6), 0x3f), 6);
  }

  lemma Decodes4(bytes: seq<nat>, i: nat, c: nat)
    requires 0x1_0000 <= c < 0x11_0000 && At(bytes, i, Encoded(c))
    ensures Decoded(bytes, i) == ([c], 4)
  {
    hide And, Or, Shl, Shr, Low, Follows;
    AtByte(bytes, i, Encoded(c), 0);
    AtByte(bytes, i, Encoded(c), 1);
    AtByte(bytes, i, Encoded(c), 2);
    AtByte(bytes, i, Encoded(c), 3);
    Shares(c);
    Piece(c, 0);
    Piece(c, 6);
    Piece(c, 12);
    ShrZero(c);
    Lead4(And(Shr(c, 18), 0x07));
    Following(And(Shr(c, 12), 0x3f));
    Following(And(Shr(c, 6), 0x3f));
    Following(And(c, 0x3f));
    ShlSum(Shr(c, 18), 6, 12);
    OrShl(Shl(Shr(c, 18), 6), And(Shr(c, 12), 0x3f), 12);
    ShlSum(Shr(c, 12), 6, 6);
    OrShl(Shl(Shr(c, 12), 6), And(Shr(c, 6), 0x3f), 6);
  }

  /** Decoding an encoded character gives it back, whatever follows: the encoding is
      uniquely decodable. */
  lemma DecodesEncoded(bytes: seq<nat>, i: nat, c: nat)
    requires c < 0x11_0000 && At(bytes, i, Encoded(c))
    ensures i < |bytes| && |Encoded(c)| > 0 && (c == NEWLINE ==> |Encoded(c)| == 1)
    ensures Decoded(bytes, i) == ([c], |Encoded(c)|)
    ensures bytes[i] == NEWLINE <==> c == NEWLINE
  {
    hide And, Or, Shl, Shr;
    AtByte(bytes, i, Encoded(c), 0);
    if c < 0x80 {
    } else if c < 0x800 {
      Decodes2(bytes, i, c);
      Shares(c);
      Lead2(And(Shr(c, 6), 0x1f));
    } else if c < 0x1_0000 {
      Decodes3(bytes, i, c);
      Shares(c);
      Lead3(And(Shr(c, 12), 0x0f));
    } else {
      Decodes4(bytes, i, c);
      Shares(c);
      Lead4(And(Shr(c, 18), 0x07));
    }
  }
}
