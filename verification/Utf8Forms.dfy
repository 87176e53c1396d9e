/** Which bytes are UTF-8 as apps/tedit/tedit.cpp writes it, told by the ranges of section 4 of
    RFC 3629; surrogates count as characters. */
module Utf8Forms {
  import opened Bits
  import opened Utf8

  predicate Tail(b: nat) {
    0x80 <= b <= 0xbf
  }

  /** How many bytes the shortest form of a character at the front takes; 0 if none is there. */
  function FormLength(bytes: seq<nat>): (n: nat)
    ensures n <= |bytes|
  {
    if |bytes| >= 1 && bytes[0] <= 0x7f then 1
    else if |bytes| >= 2 && 0xc2 <= bytes[0] <= 0xdf && Tail(bytes[1]) then 2
    else if |bytes| >= 3 && (if bytes[0] == 0xe0 then 0xa0 <= bytes[1] <= 0xbf else 0xe1 <= bytes[0] <= 0xef && Tail(bytes[1]))
      && Tail(bytes[2]) then 3
    else if |bytes| >= 4
      && (if bytes[0] == 0xf0 then 0x90 <= bytes[1] <= 0xbf
          else if bytes[0] == 0xf4 then 0x80 <= bytes[1] <= 0x8f
          else 0xf1 <= bytes[0] <= 0xf3 && Tail(bytes[1]))
      && Tail(bytes[2]) && Tail(bytes[3]) then 4
    else 0
  }

  /** Nothing but shortest forms: no stray byte, nothing cut off, overlong or too large. */
  predicate WellFormed(bytes: seq<nat>)
    decreases |bytes|
  {
    bytes == [] || (FormLength(bytes) > 0 && WellFormed(bytes[FormLength(bytes)..]))
  }

  // ---- The bits of a character by six

  lemma Digit(c: nat)
    ensures c == 64 * Shr(c, 6) + And(c, 0x3f) && And(c, 0x3f) < 64
  {
    hide And, Or, Shl, Shr, Low;
    Masks();
    MaskIsLow(c, 6);
    JoinHigh(c, 6);
    Tagged(Shr(c, 6), Low(c, 6), 6);
    ShlBySix(Shr(c, 6));
  }

  lemma ShlBySix(a: nat)
    ensures Shl(a, 6) == 64 * a
  {
    assert Shl(a, 1) == 2 * a;
    assert Shl(a, 2) == 4 * a;
    assert Shl(a, 3) == 8 * a;
    assert Shl(a, 4) == 16 * a;
    assert Shl(a, 5) == 32 * a;
  }

  lemma {:induction false} ShrOfSum(a: nat, b: nat, n: nat)
    requires b < Pow2(n)
    ensures Shr(Shl(a, n) + b, n) == a
    decreases n
  {
    if n > 0 {
      ShrOfSum(a, b / 2, n - 1);
    }
  }

  /** The digits determine the character. */
  lemma Undigit(a: nat, b: nat)
    requires b < 64
    ensures Shr(64 * a + b, 6) == a && And(64 * a + b, 0x3f) == b
  {
    hide And, Shl, Shr;
    Masks();
    ShlBySix(a);
    ShrOfSum(a, b, 6);
    Digit(64 * a + b);
  }

  /** Tags are added. */
  lemma Tags(x: nat)
    ensures x < 64 ==> Or(0x80, x) == 0x80 + x
    ensures x < 32 ==> Or(0xc0, x) == 0xc0 + x
    ensures x < 16 ==> Or(0xe0, x) == 0xe0 + x
    ensures x < 8 ==> Or(0xf0, x) == 0xf0 + x
  {
    hide Or, Shl, Low;
    Masks();
    if x < 64 { Tagged(2, x, 6); }
    if x < 32 { Tagged(6, x, 5); }
    if x < 16 { Tagged(14, x, 4); }
    if x < 8 { Tagged(30, x, 3); }
  }

  /** The bytes of a character from its digits. */
  lemma Encoded2(a: nat, d: nat)
    requires d < 64 && 0x80 <= 64 * a + d < 0x800
    ensures Encoded(64 * a + d) == [0xc0 + a, 0x80 + d]
  {
    hide And, Or, Shr;
    var c := 64 * a + d;
    Undigit(a, d);
    Shares(c);
    Tags(a);
    Tags(d);
  }

  lemma Encoded3(a: nat, b: nat, d: nat)
    requires b < 64 && d < 64 && 0x800 <= 4096 * a + 64 * b + d < 0x1_0000
    ensures Encoded(4096 * a + 64 * b + d) == [0xe0 + a, 0x80 + b, 0x80 + d]
  {
    hide And, Or, Shr;
    var c := 4096 * a + 64 * b + d;
    Undigit(64 * a + b, d);
    Undigit(a, b);
    ShrTwice(c, 6, 6);
    Shares(c);
    Tags(a);
    Tags(b);
    Tags(d);
  }

  lemma Encoded4(a: nat, b: nat, d: nat, e: nat)
    requires b < 64 && d < 64 && e < 64 && 0x1_0000 <= 262144 * a + 4096 * b + 64 * d + e < 0x11_0000
    ensures Encoded(262144 * a + 4096 * b + 64 * d + e) == [0xf0 + a, 0x80 + b, 0x80 + d, 0x80 + e]
  {
    hide And, Or, Shr;
    var c := 262144 * a + 4096 * b + 64 * d + e;
    Undigit(4096 * a + 64 * b + d, e);
    Undigit(64 * a + b, d);
    Undigit(a, b);
    ShrTwice(c, 6, 6);
    ShrTwice(c, 6, 12);
    ShrTwice(Shr(c, 6), 6, 6);
    Shares(c);
    Tags(a);
    Tags(b);
    Tags(d);
    Tags(e);
  }

  // ---- Forms and characters

  /** What is encoded has the form of its length. */
  lemma EncodedForm(c: nat, rest: seq<nat>)
    requires c < 0x11_0000
    ensures FormLength(Encoded(c) + rest) == |Encoded(c)| > 0
  {
    hide And, Or, Shr, Encoded;
    var p, d := Shr(c, 6), And(c, 0x3f);
    Digit(c);
    if c < 0x80 {
      assert Encoded(c) == [c] by { EncodedOne(c); }
    } else if c < 0x800 {
      Encoded2(p, d);
    } else {
      var q, b := Shr(p, 6), And(p, 0x3f);
      Digit(p);
      if c < 0x1_0000 {
        Encoded3(q, b, d);
      } else {
        var r, a := Shr(q, 6), And(q, 0x3f);
        Digit(q);
        Encoded4(r, a, b, d);
      }
    }
  }

  lemma EncodedOne(c: nat)
    ensures c < 0x80 ==> Encoded(c) == [c]
  {
  }

  /** The character that a form stands for. */
  function Character(bytes: seq<nat>): (c: nat)
    requires FormLength(bytes) > 0
    ensures c < 0x11_0000
  {
    var n := FormLength(bytes);
    if n == 1 then bytes[0]
    else if n == 2 then 64 * (bytes[0] - 0xc0) + (bytes[1] - 0x80)
    else if n == 3 then 4096 * (bytes[0] - 0xe0) + 64 * (bytes[1] - 0x80) + (bytes[2] - 0x80)
    else 262144 * (bytes[0] - 0xf0) + 4096 * (bytes[1] - 0x80) + 64 * (bytes[2] - 0x80) + (bytes[3] - 0x80)
  }

  /** A form is what its character is encoded to. */
  lemma FormEncoded(bytes: seq<nat>)
    requires FormLength(bytes) > 0
    ensures bytes[..FormLength(bytes)] == Encoded(Character(bytes))
  {
    hide Encoded;
    var n := FormLength(bytes);
    if n == 1 {
      EncodedOne(bytes[0]);
    } else if n == 2 {
      Encoded2(bytes[0] - 0xc0, bytes[1] - 0x80);
    } else if n == 3 {
      Encoded3(bytes[0] - 0xe0, bytes[1] - 0x80, bytes[2] - 0x80);
    } else {
      Encoded4(bytes[0] - 0xf0, bytes[1] - 0x80, bytes[2] - 0x80, bytes[3] - 0x80);
    }
  }
}
