/** stbi_zlib_decode_malloc_guesssize_headerflag (apps/gview/stb_image.h): a compressed stream
    decoded into a buffer of its own, which grows. */
module ZlibDecode {
  import opened Bits
  import opened Common
  import opened Deflate
  import opened DeflateStream
  import opened DeflateWritten
  import opened Inflate

  /** What the stream means, behind its header if it has one. */
  ghost function Meaning(input: seq<nat>, parseHeader: bool, memory: Memory, n: nat): Outcome {
    Stream(input, if parseHeader then 16 else 0, [], -1, memory, n)
  }

  predicate Headed(input: seq<nat>, parseHeader: bool) {
    parseHeader ==> HeaderOk(input)
  }

  /** The header of RFC 1950: the method is deflate, no dictionary is named, and the two bytes
      are a multiple of 31. */
  lemma HeaderFields(input: seq<nat>)
    requires |input| >= 2
    ensures HeaderOk(input) <==> input[0] % 16 == 8 && input[1] / 32 % 2 == 0 && (256 * input[0] + input[1]) % 31 == 0
  {
    LowNibble(input[0]);
    BitFive(input[1]);
  }

  lemma LowNibble(x: nat)
    ensures And(x, 15) == x % 16
  {
    LowThree(x / 2);
    BySixteen(x, x / 2 / 8, 2 * (x / 2 % 8) + x % 2);
  }

  lemma BySixteen(x: nat, q: nat, r: nat)
    requires x == 16 * q + r && r < 16
    ensures x % 16 == r
  {
  }

  lemma BitFive(x: nat)
    ensures And(x, 32) == 32 * (x / 32 % 2)
  {
    var y := x / 2 / 2;
    assert And(y / 2 / 2, 2) == 2 * (y / 2 / 2 / 2 % 2);
    assert And(y, 8) == 4 * And(y / 2 / 2, 2);
    assert And(x, 32) == 4 * And(y, 8);
    assert y / 2 / 2 / 2 == x / 32;
  }

  /** The input is the text, compressed: in whatever blocks, codes and tokens. */
  ghost predicate Compressed(input: seq<nat>, parseHeader: bool, blocks: seq<Written>, text: seq<nat>) {
    Headed(input, parseHeader) && StreamAt(input, if parseHeader then 16 else 0, blocks, text, 0)
  }

  lemma CompressedMeans(input: seq<nat>, parseHeader: bool, blocks: seq<Written>, text: seq<nat>, memory: Memory, n: nat)
    requires Compressed(input, parseHeader, blocks, text) && Work(blocks) <= n
    ensures blocks != [] && Meaning(input, parseHeader, memory, n) == Done(text, blocks[|blocks| - 1].end)
  {
    hide Stream, StreamAt, HeaderOk;
    BlocksGiven(input, if parseHeader then 16 else 0, blocks, text, 0);
    assert text[..0] == [];
    StreamRead(input, if parseHeader then 16 else 0, blocks, text, 0, -1, memory, n);
  }

  lemma BlocksGiven(data: seq<nat>, pos: nat, blocks: seq<Written>, text: seq<nat>, at: nat)
    requires StreamAt(data, pos, blocks, text, at)
    ensures blocks != []
  {
  }

  /** Decodes a stream that ends; what was compressed comes back. */
  method Decode(input: seq<nat>, initialSize: nat, parseHeader: bool, memory: Memory, ghost n: nat) returns (r: Option<seq<nat>>)
    requires Bytes(input) && initialSize > 0
    requires Headed(input, parseHeader) ==> !Meaning(input, parseHeader, memory, n).Running?
    ensures r.Some? <==> Headed(input, parseHeader) && Meaning(input, parseHeader, memory, n).Done?
    ensures r.Some? ==> r.value == Meaning(input, parseHeader, memory, n).out
    ensures forall blocks: seq<Written>, text: seq<nat> :: Compressed(input, parseHeader, blocks, text) && Work(blocks) <= n ==> r == Some(text)
  {
    hide Stream, StreamAt, HeaderOk, Work;
    forall blocks: seq<Written>, text: seq<nat> | Compressed(input, parseHeader, blocks, text) && Work(blocks) <= n
      ensures blocks != [] && Meaning(input, parseHeader, memory, n) == Done(text, blocks[|blocks| - 1].end)
    {
      CompressedMeans(input, parseHeader, blocks, text, memory, n);
    }
    var p := new nat[initialSize](k requires k >= 0 => memory(k));
    var a := new ZBuf(input, p, true, memory);
    assert a.zstart[..0] == [];
    var ok := a.ParseZlib(parseHeader, n);
    r := if ok then Some(a.zstart[..a.zout]) else None;
  }
}
