/** What LoadFile of apps/tedit/tedit.cpp makes of any bytes, well-formed or not, told in
    numbers. */
module Utf8Decoding {
  import opened Bits
  import opened Common
  import opened Utf8
  import opened Utf8Forms

  /** How many bytes the byte in front calls for. */
  function Called(b: nat): nat {
    if 0xc0 <= b <= 0xdf then 2 else if 0xe0 <= b <= 0xef then 3 else if 0xf0 <= b <= 0xf7 then 4 else 1
  }

  /** They are there, with all the bits that follow. */
  predicate Whole(bytes: seq<nat>, i: nat)
    requires i < |bytes|
  {
    var n := Called(bytes[i]);
    (n == 1 ==> bytes[i] < 0x80) && i + n <= |bytes| && forall k :: i < k < i + n ==> Tail(bytes[k])
  }

  /** The number that they are in base 64. */
  function Number(bytes: seq<nat>, i: nat): nat
    requires i < |bytes| && Whole(bytes, i)
  {
    var n := Called(bytes[i]);
    if n == 1 then bytes[i]
    else if n == 2 then 64 * (bytes[i] - 0xc0) + (bytes[i + 1] - 0x80)
    else if n == 3 then 4096 * (bytes[i] - 0xe0) + 64 * (bytes[i + 1] - 0x80) + (bytes[i + 2] - 0x80)
    else 262144 * (bytes[i] - 0xf0) + 4096 * (bytes[i + 1] - 0x80) + 64 * (bytes[i + 2] - 0x80) + (bytes[i + 3] - 0x80)
  }

  /** Bytes as values past the last code point; each gives its byte back. */
  function Marks(s: seq<nat>): (r: seq<nat>)
    ensures |r| == |s| && forall k :: 0 <= k < |s| ==> r[k] == 0x8000_0000 + s[k] >= 0x11_0000
  {
    seq(|s|, k requires 0 <= k < |s| => 0x8000_0000 + s[k])
  }

  function Stop(bytes: seq<nat>, i: nat, n: nat): nat {
    if i + n <= |bytes| then i + n else |bytes|
  }

  // ---- Masks of a byte

  lemma {:induction false} HighPart(b: nat, n: nat, m: nat)
    requires b < Pow2(n + m)
    ensures And(b, Shl(Pow2(m) - 1, n)) == Shl(Shr(b, n), n)
    decreases n
  {
    if n == 0 {
      MaskKeeps(b, m);
    } else {
      HighPart(b / 2, n - 1, m);
    }
  }

  /** A byte is what the two masks keep of it. */
  lemma Masked(b: nat, n: nat, m: nat)
    requires b < Pow2(n + m)
    ensures And(b, Shl(Pow2(m) - 1, n)) == Shl(Shr(b, n), n)
    ensures b == Shl(Shr(b, n), n) + And(b, Pow2(n) - 1) && And(b, Pow2(n) - 1) < Pow2(n)
  {
    hide And, Or, Shl, Shr, Low;
    HighPart(b, n, m);
    MaskIsLow(b, n);
    JoinHigh(b, n);
    Tagged(Shr(b, n), Low(b, n), n);
  }

  lemma Shifts(a: nat)
    ensures Shl(a, 3) == 8 * a && Shl(a, 4) == 16 * a && Shl(a, 5) == 32 * a && Shl(a, 6) == 64 * a
  {
    assert Shl(a, 1) == 2 * a;
    assert Shl(a, 2) == 4 * a;
  }

  lemma Powers()
    ensures Pow2(1) == 2 && Pow2(2) == 4 && Pow2(3) == 8 && Pow2(4) == 16 && Pow2(5) == 32 && Pow2(6) == 64 && Pow2(8) == 256
  {
    assert Pow2(7) == 128;
  }

  /** The tests on the byte in front, and the bits behind its tag. */
  lemma LeadTests(b: nat)
    requires b < 256
    ensures And(b, 0xe0) == 0xc0 <==> 0xc0 <= b <= 0xdf
    ensures And(b, 0xf0) == 0xe0 <==> 0xe0 <= b <= 0xef
    ensures And(b, 0xf8) == 0xf0 <==> 0xf0 <= b <= 0xf7
    ensures 0xc0 <= b <= 0xdf ==> And(b, 0x1f) == b - 0xc0
    ensures 0xe0 <= b <= 0xef ==> And(b, 0x0f) == b - 0xe0
    ensures 0xf0 <= b <= 0xf7 ==> And(b, 0x07) == b - 0xf0
  {
    hide And, Shl, Shr, Pow2;
    Powers();
    Masked(b, 5, 3);
    Masked(b, 4, 4);
    Masked(b, 3, 5);
    Shifts(Shr(b, 5));
    Shifts(Shr(b, 4));
    Shifts(Shr(b, 3));
    Shifts(7);
    Shifts(15);
    Shifts(31);
  }

  lemma TailTest(b: nat)
    requires b < 256
    ensures Follows(b) <==> Tail(b)
    ensures Tail(b) ==> And(b, 0x3f) == b - 0x80
  {
    hide And, Shl, Shr, Pow2;
    Powers();
    Masked(b, 6, 2);
    Shifts(Shr(b, 6));
    Shifts(3);
  }

  // ---- The number of several bytes

  lemma Sixes(a: nat, x: nat)
    requires x < 64
    ensures Or(Shl(a, 6), x) == 64 * a + x
  {
    hide Or, Shl, Pow2;
    Powers();
    Tagged(a, x, 6);
    Shifts(a);
  }

  lemma TwoIs(c: nat, c2: nat)
    requires 0xc0 <= c <= 0xdf && Tail(c2)
    ensures Two(c, c2) == 64 * (c - 0xc0) + (c2 - 0x80)
  {
    hide And, Or, Shl;
    LeadTests(c);
    TailTest(c2);
    Sixes(c - 0xc0, c2 - 0x80);
  }

  lemma ThreeIs(c: nat, c2: nat, c3: nat)
    requires 0xe0 <= c <= 0xef && Tail(c2) && Tail(c3)
    ensures Three(c, c2, c3) == 4096 * (c - 0xe0) + 64 * (c2 - 0x80) + (c3 - 0x80)
  {
    hide And, Or, Shl;
    LeadTests(c);
    TailTest(c2);
    TailTest(c3);
    var a, b := c - 0xe0, c2 - 0x80;
    ShlSum(a, 6, 6);
    OrShl(Shl(a, 6), b, 6);
    Sixes(a, b);
    Sixes(64 * a + b, c3 - 0x80);
  }

  lemma FourIs(c: nat, c2: nat, c3: nat, c4: nat)
    requires 0xf0 <= c <= 0xf7 && Tail(c2) && Tail(c3) && Tail(c4)
    ensures Four(c, c2, c3, c4) == 262144 * (c - 0xf0) + 4096 * (c2 - 0x80) + 64 * (c3 - 0x80) + (c4 - 0x80)
  {
    hide And, Or, Shl;
    LeadTests(c);
    TailTest(c2);
    TailTest(c3);
    TailTest(c4);
    var a, b, d := c - 0xf0, c2 - 0x80, c3 - 0x80;
    ShlSum(a, 6, 12);
    OrShl(Shl(a, 6), b, 12);
    Sixes(a, b);
    ShlSum(64 * a + b, 6, 6);
    OrShl(Shl(64 * a + b, 6), d, 6);
    Sixes(64 * a + b, d);
    Sixes(64 * (64 * a + b) + d, c4 - 0x80);
  }

  // ---- Bytes that are no character

  lemma Mark(c: nat)
    requires c < 256
    ensures Or(INVALID_BYTE, c) == 0x8000_0000 + c
  {
    hide Or, Low;
    Powers();
    Tagged(0x80_0000, c, 8);
    Shifts(0x80_0000);
    ShlSum(0x80_0000, 4, 4);
    Shifts(0x800_0000);
  }

  /** The next n bytes as getc gives them. */
  function Taken(bytes: seq<nat>, i: nat, n: nat): seq<int> {
    seq(n, k requires 0 <= k < n => Getc(bytes, i + k))
  }

  lemma MarksStep(s: seq<nat>, b: nat)
    ensures Marks(s + [b]) == Marks(s) + [0x8000_0000 + b]
  {
  }

  lemma {:induction false} MarkedTaken(bytes: seq<nat>, i: nat, n: nat)
    requires i < |bytes| && Bytes(bytes)
    ensures i <= Stop(bytes, i, n) && Marked(Taken(bytes, i, n)) == Marks(bytes[i..Stop(bytes, i, n)])
    decreases n
  {
    hide Or, Marks;
    if n == 0 {
      assert bytes[i..i] == [];
    } else {
      MarkedTaken(bytes, i, n - 1);
      var cs := Taken(bytes, i, n);
      var last := i + (n - 1);
      assert cs[..n - 1] == Taken(bytes, i, n - 1);
      assert cs[n - 1] == Getc(bytes, last);
      if last >= |bytes| {
        assert Marked(cs) == Marked(cs[..n - 1]) + [];
      } else {
        Mark(bytes[last]);
        assert bytes[i..last + 1] == bytes[i..last] + [bytes[last]];
        MarksStep(bytes[i..last], bytes[last]);
      }
    }
  }

  /** Which bytes a character takes, and what it is: the number they stand for if they are
      whole, and otherwise each byte marked, so that none is lost. */
  lemma DecodedIs(bytes: seq<nat>, i: nat)
    requires i < |bytes| && Bytes(bytes)
    ensures var n := Called(bytes[i]);
      && i < Stop(bytes, i, n) && Decoded(bytes, i).1 == n
      && Decoded(bytes, i).0 == if Whole(bytes, i) then [Number(bytes, i)] else Marks(bytes[i..Stop(bytes, i, n)])
  {
    hide And, Or, Two, Three, Four, Marked, Marks, Follows;
    var c, n := bytes[i], Called(bytes[i]);
    LeadTests(c);
    MarkedTaken(bytes, i, n);
    forall k | i < k < i + n && k < |bytes|
      ensures Follows(bytes[k]) <==> Tail(bytes[k])
    {
      TailTest(bytes[k]);
    }
    NoFollower();
    TakenAre(bytes, i);
    if n == 2 {
      if Whole(bytes, i) {
        TwoIs(c, bytes[i + 1]);
      }
    } else if n == 3 {
      if Whole(bytes, i) {
        ThreeIs(c, bytes[i + 1], bytes[i + 2]);
      }
    } else if n == 4 {
      if Whole(bytes, i) {
        FourIs(c, bytes[i + 1], bytes[i + 2], bytes[i + 3]);
      }
    }
  }

  lemma TakenAre(bytes: seq<nat>, i: nat)
    requires i < |bytes|
    ensures var c, c2, c3, c4 := bytes[i], Getc(bytes, i + 1), Getc(bytes, i + 2), Getc(bytes, i + 3);
      && Taken(bytes, i, 1) == [c] && Taken(bytes, i, 2) == [c, c2]
      && Taken(bytes, i, 3) == [c, c2, c3] && Taken(bytes, i, 4) == [c, c2, c3, c4]
  {
    assert Getc(bytes, i + 0) == bytes[i];
  }

  lemma NoFollower()
    ensures !Follows(-1)
  {
  }
}
