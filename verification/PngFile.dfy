/** The end of stbi__parse_png_file (apps/gview/stb_image.h): the image data is decompressed and
    the image made of it. What was filtered in any way and compressed in any way comes back. */
module PngFile {
  import opened Adam7
  import opened Common
  import opened Deflate
  import opened DeflateWritten
  import opened PngImage
  import opened PngInterlaced
  import opened PngRows
  import opened ZlibDecode

  /** The bytes of an image with its filter bytes: the first size of the buffer. */
  function RawLength(fb: nat, width: nat, height: nat): nat {
    Times(Times(fb, width) + 1, height)
  }

  lemma RawLengthPositive(fb: nat, width: nat, height: nat)
    ensures height > 0 ==> RawLength(fb, width, height) > 0
  {
  }

  /** Every pixel is the one of the image, then alpha. */
  ghost predicate Shows(final: seq<seq<nat>>, image: seq<seq<nat>>, width: nat, height: nat, ob: nat) {
    forall x: nat, y: nat :: x < width && y < height ==>
      Index(width, x, y) < |image| && Index(width, x, y) < |final| && Restored(final[Index(width, x, y)], image[Index(width, x, y)], ob)
  }

  ghost predicate InterlacedFile(idata: seq<nat>, parseHeader: bool, fb: nat, width: nat, height: nat,
      blocks: seq<Written>, types: seq<seq<nat>>, image: seq<seq<nat>>) {
    && ImageOk(image, width, height, fb) && FiltersOk(types, height)
    && Compressed(idata, parseHeader, blocks, Interlaced(types, image, width, height, fb, 7))
  }

  lemma InterlacedShown(types: seq<seq<nat>>, image: seq<seq<nat>>, width: nat, height: nat, fb: nat, ob: nat, raw: seq<nat>, ok: bool, final: seq<seq<nat>>)
    requires ImageOk(image, width, height, fb) && FiltersOk(types, height) && 0 < fb <= ob
    requires raw == Interlaced(types, image, width, height, fb, 7)
    requires ok <==> forall p: nat :: p < 7 ==> PassGood(raw, width, height, fb, p)
    requires ok ==> forall x: nat, y: nat :: x < width && y < height ==>
      Index(width, x, y) < |final| && PixelRead(final[Index(width, x, y)], raw, width, height, fb, ob, x, y)
    ensures ok && Shows(final, image, width, height, ob)
  {
    hide FiltersOk, PixelRead, PassGood, Interlaced, Index, Restored, ImageOk;
    forall p: nat | p < 7
      ensures PassGood(Interlaced(types, image, width, height, fb, 7), width, height, fb, p)
    {
      InterlacedGood(types, image, width, height, fb, p);
    }
    forall x: nat, y: nat | x < width && y < height
      ensures Index(width, x, y) < |image| && Restored(final[Index(width, x, y)], image[Index(width, x, y)], ob)
    {
      InterlacedUndoes(types, image, width, height, fb, ob, x, y, final[Index(width, x, y)]);
    }
  }

  /** An interlaced image from its data. */
  method LoadInterlaced(idata: seq<nat>, parseHeader: bool, fb: nat, ob: nat, width: nat, height: nat, memory: Memory, ghost n: nat)
    returns (ok: bool, final: array<seq<nat>>)
    requires Bytes(idata) && 0 < fb <= ob <= fb + 2 && width > 0 && height > 0
    requires Headed(idata, parseHeader) ==> !Meaning(idata, parseHeader, memory, n).Running?
    ensures ok ==> Headed(idata, parseHeader) && Meaning(idata, parseHeader, memory, n).Done?
    ensures forall blocks: seq<Written>, types: seq<seq<nat>>, image: seq<seq<nat>> ::
      InterlacedFile(idata, parseHeader, fb, width, height, blocks, types, image) && Work(blocks) <= n ==>
        ok && Shows(final[..], image, width, height, ob)
  {
    hide FiltersOk, ImageOk, PixelRead, PassGood, Interlaced, Index, Restored, Shows, Compressed, Meaning, Headed, Times, Work;
    RawLengthPositive(fb, width, height);
    var expanded := Decode(idata, RawLength(fb, width, height), parseHeader, memory, n);
    if expanded.None? {
      final := new seq<nat>[0];
      return false, final;
    }
    ok, final := CreateInterlaced(expanded.value, fb, ob, width, height);
    forall blocks: seq<Written>, types: seq<seq<nat>>, image: seq<seq<nat>> |
      InterlacedFile(idata, parseHeader, fb, width, height, blocks, types, image) && Work(blocks) <= n
      ensures ok && Shows(final[..], image, width, height, ob)
    {
      InterlacedShown(types, image, width, height, fb, ob, expanded.value, ok, final[..]);
    }
  }

  /** Rows of pixels, filtered and compressed. */
  ghost predicate PlainFile(idata: seq<nat>, parseHeader: bool, fb: nat, width: nat, height: nat,
      blocks: seq<Written>, types: seq<nat>, rows: seq<seq<nat>>) {
    && RowsOk(types, rows, Times(fb, width)) && |rows| == height
    && Compressed(idata, parseHeader, blocks, Encoded(types, rows, Times(fb, width), fb))
  }

  predicate RowsOk(types: seq<nat>, rows: seq<seq<nat>>, w: nat) {
    && |types| == |rows| && (forall i :: 0 <= i < |types| ==> types[i] <= 4)
    && forall i :: 0 <= i < |rows| ==> |rows[i]| == w && Bytes(rows[i])
  }

  /** Each row stands in its place in the output, with its alpha bytes. */
  ghost predicate RowsShown(out: seq<nat>, rows: seq<seq<nat>>, fb: nat, ob: nat, width: nat) {
    forall j: nat :: j < |rows| ==> RowShown(out, rows[j], fb, ob, width, Times(Times(ob, width), j))
  }

  predicate RowShown(out: seq<nat>, row: seq<nat>, fb: nat, ob: nat, width: nat, base: nat) {
    && Placed(out, base, fb, ob, row)
    && (ob > fb ==> Opaque(out, base, ob, 0, width, fb)) && (ob > fb + 1 ==> Opaque(out, base, ob, 0, width, fb + 1))
  }

  lemma PlainGood(types: seq<nat>, rows: seq<seq<nat>>, fb: nat, width: nat)
    requires RowsOk(types, rows, Times(fb, width))
    ensures var w := Times(fb, width);
      var raw := Encoded(types, rows, w, fb);
      Times(w + 1, |rows|) <= |raw| && FiltersKnown(raw, w, |rows|)
  {
    hide Encoded, Times;
    var w := Times(fb, width);
    forall j: nat | j < |rows|
      ensures FilterKnown(Encoded(types, rows, w, fb), w, j)
    {
      FilterAt(types, rows, w, fb, j);
    }
  }

  lemma PlainShown(out: seq<nat>, types: seq<nat>, rows: seq<seq<nat>>, fb: nat, ob: nat, width: nat)
    requires RowsOk(types, rows, Times(fb, width)) && fb > 0
    requires forall j: nat :: j < |rows| ==> RowDone(out, Encoded(types, rows, Times(fb, width), fb), fb, ob, width, j)
    ensures RowsShown(out, rows, fb, ob, width)
  {
    hide Encoded, Times, Placed, Opaque, Row;
    forall j: nat | j < |rows|
      ensures RowShown(out, rows[j], fb, ob, width, Times(Times(ob, width), j))
    {
      assert RowDone(out, Encoded(types, rows, Times(fb, width), fb), fb, ob, width, j);
      DecodesEncoded(types, rows, Times(fb, width), fb, j);
    }
  }

  /** An image without interlacing from its data. */
  method LoadPlain(idata: seq<nat>, parseHeader: bool, fb: nat, ob: nat, width: nat, height: nat, memory: Memory, ghost n: nat)
    returns (ok: bool, out: array<nat>)
    requires Bytes(idata) && 0 < fb <= ob <= fb + 2 && width > 0 && height > 0
    requires Headed(idata, parseHeader) ==> !Meaning(idata, parseHeader, memory, n).Running?
    ensures ok ==> Headed(idata, parseHeader) && Meaning(idata, parseHeader, memory, n).Done?
    ensures forall blocks: seq<Written>, types: seq<nat>, rows: seq<seq<nat>> ::
      PlainFile(idata, parseHeader, fb, width, height, blocks, types, rows) && Work(blocks) <= n ==>
        ok && RowsShown(out[..], rows, fb, ob, width)
  {
    hide RowsOk, FiltersKnown, RowDone, RowsShown, Encoded, Compressed, Meaning, Headed, Times, Work;
    RawLengthPositive(fb, width, height);
    var expanded := Decode(idata, RawLength(fb, width, height), parseHeader, memory, n);
    if expanded.None? {
      out := new nat[0];
      return false, out;
    }
    ok, out := CreateImage(expanded.value, fb, ob, width, height);
    forall blocks: seq<Written>, types: seq<nat>, rows: seq<seq<nat>> |
      PlainFile(idata, parseHeader, fb, width, height, blocks, types, rows) && Work(blocks) <= n
      ensures ok && RowsShown(out[..], rows, fb, ob, width)
    {
      PlainGood(types, rows, fb, width);
      PlainShown(out[..], types, rows, fb, ob, width);
    }
  }
}
