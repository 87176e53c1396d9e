/** The two 64-bit unions of kernel/memory/paging.hpp: page-map entries and linear
    addresses, as records of their bit fields. */
module PageMapEntry {

  const ENTRIES: nat := 512

  type Index = i: nat | i < ENTRIES
  type Address40 = a: nat | a < 0x100_0000_0000

  type Bits20 = b: nat | b < 0x10_0000
  type Byte = b: nat | b < 256

  /** One 64-bit word of memory, read as a page-map entry. `other` holds the remaining
      20 bits (3 to 6, 8 to 11 and 52 to 63); the all-zero word is not present. */
  datatype Word = Word(present: bool, writable: bool, user: bool, huge: bool, addr: Address40, other: Bits20)

  const ZERO_WORD := Word(false, false, false, false, 0, 0)

  /** One 4 KiB frame: 512 words. */
  type Frame = f: seq<Word> | |f| == ENTRIES witness seq(ENTRIES, _ => ZERO_WORD)

  predicate Zeroed(f: Frame) {
    forall i :: 0 <= i < ENTRIES ==> f[i] == ZERO_WORD
  }

  datatype LinearAddress4Level =
    LinearAddress4Level(offset: nat, page: Index, dir: Index, pdp: Index, pml4: Index)
  {
    function Part(level: nat): (i: Index)
      requires 1 <= level <= 4
    {
      match level
      case 1 => page
      case 2 => dir
      case 3 => pdp
      case 4 => pml4
    }

    function SetPart(level: nat, i: Index): LinearAddress4Level
      requires 1 <= level <= 4
    {
      match level
      case 1 => this.(page := i)
      case 2 => this.(dir := i)
      case 3 => this.(pdp := i)
      case 4 => this.(pml4 := i)
    }

    /** The virtual page number: address bits 12 to 47. */
    function Vpn(): nat {
      ((pml4 * 512 + pdp) * 512 + dir) * 512 + page
    }
  }

  const VPN_COUNT: nat := 512 * 512 * 512 * 512
  /** The first page number of the upper, per-application half. */
  const USER_BEGIN: nat := VPN_COUNT / 2

  function FromValue(value: nat): LinearAddress4Level {
    var v := value / 4096;
    LinearAddress4Level(value % 4096, v % 512, v / 512 % 512, v / 262144 % 512, v / 134217728 % 512)
  }

  /** The page number cut down to its parts above `level`: the numbering of the
      page-map tree's nodes at that level. */
  function Prefix(v: nat, level: nat): nat {
    if level == 0 then v else Prefix(v, level - 1) / 512
  }

  /** The first page below the node numbered p at `level`. */
  function First(p: nat, level: nat): nat
    decreases level
  {
    if level == 0 then p else First(p * 512, level - 1)
  }

  lemma {:induction false} PrefixBelow(v: nat, p: nat, level: nat)
    ensures Prefix(v, level) < p <==> v < First(p, level)
    decreases level
  {
    if level > 0 {
      PrefixBelow(v, p * 512, level - 1);
    }
  }

  lemma PrefixParent(v: nat, level: nat)
    requires level > 0
    ensures Prefix(v, level) == Prefix(v, level - 1) / 512
  {}

  lemma {:induction false} PrefixMonotone(v: nat, w: nat, level: nat)
    requires v <= w
    ensures Prefix(v, level) <= Prefix(w, level)
  {
    if level > 0 {
      PrefixMonotone(v, w, level - 1);
    }
  }

  lemma {:induction false} PrefixStep(v: nat, level: nat)
    ensures Prefix(v + 1, level) <= Prefix(v, level) + 1
  {
    if level > 0 {
      PrefixStep(v, level - 1);
    }
  }

  lemma {:induction false} PrefixOfFirst(p: nat, level: nat)
    ensures Prefix(First(p, level), level) == p
    decreases level
  {
    if level > 0 {
      PrefixOfFirst(p * 512, level - 1);
    }
  }

  lemma {:induction false} PrefixCompose(v: nat, l: nat, k: nat)
    ensures Prefix(Prefix(v, l), k) == Prefix(v, l + k)
  {
    if k > 0 {
      PrefixCompose(v, l, k - 1);
    }
  }

  lemma PartOfVpn(addr: LinearAddress4Level, level: nat)
    requires 1 <= level <= 4
    ensures addr.Part(level) == Prefix(addr.Vpn(), level - 1) % 512
    ensures addr.Vpn() < VPN_COUNT
  {
    var v := addr.Vpn();
    assert Prefix(v, 1) == (addr.pml4 * 512 + addr.pdp) * 512 + addr.dir;
    assert Prefix(v, 2) == addr.pml4 * 512 + addr.pdp;
    assert Prefix(v, 3) == addr.pml4;
  }

  lemma VpnOfValue(value: nat)
    ensures FromValue(value).Vpn() == value / 4096 % VPN_COUNT
  {
    var v := value / 4096;
    assert v / 262144 == v / 512 / 512;
    assert v / 134217728 == v / 512 / 512 / 512;
    var a := v / 512;
    var b := a / 512;
    var c := b / 512;
    var d := c / 512;
    assert v == d * VPN_COUNT + FromValue(value).Vpn();
  }

  /** The page of a virtual address below 2^48, with or without its offset. */
  lemma PageOfValue(value: nat, v: nat)
    requires v == value / 4096 < VPN_COUNT
    ensures FromValue(value).Vpn() == v && FromValue(value).(offset := 0).Vpn() == v
  {
    VpnOfValue(value);
  }

  function ClearBelow(addr: LinearAddress4Level, level: nat): LinearAddress4Level
    requires 1 <= level <= 4
    decreases level
  {
    if level == 1 then addr else ClearBelow(addr.SetPart(level - 1, 0), level - 1)
  }

  /** Stepping the part at `level` and clearing the lower ones goes to the first page of
      the next entry. */
  lemma AdvanceAddress(addr: LinearAddress4Level, level: nat)
    requires 1 <= level <= 4 && addr.Part(level) < 511
    ensures ClearBelow(addr.SetPart(level, addr.Part(level) + 1), level).Vpn()
         == First(Prefix(addr.Vpn(), level - 1) + 1, level - 1)
  {
    var v := addr.Vpn();
    assert Prefix(v, 1) == (addr.pml4 * 512 + addr.pdp) * 512 + addr.dir;
    assert Prefix(v, 2) == addr.pml4 * 512 + addr.pdp;
    assert Prefix(v, 3) == addr.pml4;
    match level
    case 1 =>
    case 2 =>
    case 3 =>
      var p := addr.pml4 * 512 + addr.pdp + 1;
      assert First(p, 2) == First(p * 512, 1) == p * 512 * 512;
    case 4 =>
      var p := addr.pml4 + 1;
      assert First(p, 3) == First(p * 512, 2) == First(p * 512 * 512, 1) == p * 512 * 512 * 512;
  }

  function Bit(b: bool): nat { if b then 1 else 0 }

  /** Byte k of a word as it lies in memory, lowest first. */
  function ByteOf(w: Word, k: nat): nat
    requires k < 8
  {
    match k
    case 0 => Bit(w.present) + 2 * Bit(w.writable) + 4 * Bit(w.user) + 8 * (w.other % 16) + 128 * Bit(w.huge)
    case 1 => w.other / 16 % 16 + 16 * (w.addr % 16)
    case 2 => w.addr / 16 % 256
    case 3 => w.addr / 0x1000 % 256
    case 4 => w.addr / 0x10_0000 % 256
    case 5 => w.addr / 0x1000_0000 % 256
    case 6 => w.addr / 0x10_0000_0000 + 16 * (w.other / 256 % 16)
    case 7 => w.other / 0x1000
  }

  /** The frame number held by bytes 1 (upper half) to 6 (lower half). */
  function AddrOf(b1: nat, b2: nat, b3: nat, b4: nat, b5: nat, b6: nat): (a: nat)
    requires b1 < 256 && b2 < 256 && b3 < 256 && b4 < 256 && b5 < 256
    ensures a < 0x100_0000_0000
    ensures a % 16 == b1 / 16 && a / 16 % 256 == b2 && a / 0x1000 % 256 == b3 && a / 0x10_0000 % 256 == b4
    ensures a / 0x1000_0000 % 256 == b5 && a / 0x10_0000_0000 == b6 % 16
  {
    var a5 := b5 + 256 * (b6 % 16);
    var a4 := b4 + 256 * a5;
    var a3 := b3 + 256 * a4;
    var a2 := b2 + 256 * a3;
    var a := b1 / 16 + 16 * a2;
    assert a / 0x1000 == a / 16 / 256 == a3;
    assert a / 0x10_0000 == a / 0x1000 / 256 == a4;
    assert a / 0x1000_0000 == a / 0x10_0000 / 256 == a5;
    assert a / 0x10_0000_0000 == a / 0x1000_0000 / 256 == b6 % 16;
    a
  }

  function OtherOf(b0: nat, b1: nat, b6: nat, b7: nat): (o: nat)
    requires b6 < 256 && b7 < 256
    ensures o < 0x10_0000
    ensures o % 16 == b0 / 8 % 16 && o / 16 % 16 == b1 % 16 && o / 256 % 16 == b6 / 16 && o / 0x1000 == b7
  {
    var o6 := b6 / 16 + 16 * b7;
    var o1 := b1 % 16 + 16 * o6;
    var o := b0 / 8 % 16 + 16 * o1;
    assert o / 256 == o / 16 / 16 == o6;
    assert o / 0x1000 == o / 256 / 16 == b7;
    o
  }

  function WordOf(b: seq<Byte>): Word
    requires |b| == 8
  {
    var b0: nat := b[0];
    Word(b0 % 2 == 1, b0 / 2 % 2 == 1, b0 / 4 % 2 == 1, b0 / 128 == 1,
         AddrOf(b[1], b[2], b[3], b[4], b[5], b[6]), OtherOf(b[0], b[1], b[6], b[7]))
  }

  /** Storing eight bytes as one word loses none of them. */
  lemma BytesOfWord(b: seq<Byte>, k: nat)
    requires |b| == 8 && k < 8
    ensures ByteOf(WordOf(b), k) == b[k]
  {
    hide AddrOf, OtherOf;
    LowByte(b[0]);
  }

  /** Where an entry's fields are in its eight bytes: the flags are bits 0, 1, 2 and 7. */
  lemma FlagBits(w: Word)
    ensures w.present <==> ByteOf(w, 0) % 2 == 1
    ensures w.writable <==> ByteOf(w, 0) / 2 % 2 == 1
    ensures w.user <==> ByteOf(w, 0) / 4 % 2 == 1
    ensures w.huge <==> ByteOf(w, 0) / 128 == 1
  {
    FlagsOf(Bit(w.present), Bit(w.writable), Bit(w.user), w.other % 16, Bit(w.huge));
  }

  lemma FlagsOf(p: nat, w: nat, u: nat, o: nat, h: nat)
    requires p < 2 && w < 2 && u < 2 && o < 16 && h < 2
    ensures var b := p + 2 * w + 4 * u + 8 * o + 128 * h;
      b % 2 == p && b / 2 % 2 == w && b / 4 % 2 == u && b / 128 == h
  {
    var b := p + 2 * w + 4 * u + 8 * o + 128 * h;
    assert b / 2 == w + 2 * u + 4 * o + 64 * h;
    assert b / 4 == u + 2 * o + 32 * h;
  }

  /** The frame number is the forty bits from bit 12 on. */
  lemma AddrBits(w: Word)
    ensures w.addr == ByteOf(w, 1) / 16 + 0x10 * ByteOf(w, 2) + 0x1000 * ByteOf(w, 3) + 0x10_0000 * ByteOf(w, 4)
      + 0x1000_0000 * ByteOf(w, 5) + 0x10_0000_0000 * (ByteOf(w, 6) % 16)
  {
    var a := w.addr;
    HalfBytes(w.other / 16 % 16, a % 16);
    HalfBytes(a / 0x10_0000_0000, w.other / 256 % 16);
    assert a / 0x1000 == a / 16 / 256;
    assert a / 0x10_0000 == a / 0x1000 / 256;
    assert a / 0x1000_0000 == a / 0x10_0000 / 256;
    assert a / 0x10_0000_0000 == a / 0x1000_0000 / 256;
    hide ByteOf;
    AddrSum(a, a / 16, a / 0x1000, a / 0x10_0000, a / 0x1000_0000, a / 0x10_0000_0000);
  }

  lemma HalfBytes(x: nat, y: nat)
    requires x < 16
    ensures (x + 16 * y) / 16 == y && (x + 16 * y) % 16 == x
  {
  }

  lemma AddrSum(a: nat, b: nat, c: nat, d: nat, e: nat, f: nat)
    requires b == a / 16 && c == b / 256 && d == c / 256 && e == d / 256 && f == e / 256
    ensures a == a % 16 + 0x10 * (b % 256) + 0x1000 * (c % 256) + 0x10_0000 * (d % 256) + 0x1000_0000 * (e % 256) + 0x10_0000_0000 * f
  {
  }

  lemma LowByte(x: nat)
    requires x < 256
    ensures x == x % 2 + 2 * (x / 2 % 2) + 4 * (x / 4 % 2) + 8 * (x / 8 % 16) + 128 * (x / 128)
  {
    assert x / 8 == x / 2 / 2 / 2 && x / 128 == x / 8 / 16;
  }

  function ByteAt(content: seq<Byte>, i: nat): Byte {
    if i < |content| then content[i] else 0
  }

  function EightBytes(content: seq<Byte>, i: nat): (b: seq<Byte>)
    ensures |b| == 8 && forall k :: 0 <= k < 8 ==> b[k] == ByteAt(content, i + k)
  {
    [ByteAt(content, i), ByteAt(content, i + 1), ByteAt(content, i + 2), ByteAt(content, i + 3),
     ByteAt(content, i + 4), ByteAt(content, i + 5), ByteAt(content, i + 6), ByteAt(content, i + 7)]
  }

  function WordAt(content: seq<Byte>, i: nat): Word {
    WordOf(EightBytes(content, i))
  }

  /** The page that holds the file's bytes from `offset` on, and zeroes after its end. */
  function FilePage(content: seq<Byte>, offset: nat): Frame {
    seq(ENTRIES, (i: int) requires 0 <= i < ENTRIES => WordAt(content, offset + 8 * i))
  }

  function ByteInFrame(f: Frame, i: nat): nat
    requires i < 4096
  {
    ByteOf(f[i / 8], i % 8)
  }

  lemma FilePageBytes(content: seq<Byte>, offset: nat, i: nat)
    requires i < 4096
    ensures ByteInFrame(FilePage(content, offset), i) == if offset + i < |content| then content[offset + i] else 0
  {
    hide WordOf, ByteOf, EightBytes;
    var w, k := i / 8, i % 8;
    var o := offset + 8 * w;
    assert FilePage(content, offset)[w] == WordAt(content, o);
    BytesOfWord(EightBytes(content, o), k);
    assert o + k == offset + i;
  }
}
