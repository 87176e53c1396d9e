/** Interlaced images: stbi__create_png_image (apps/gview/stb_image.h) decodes the seven
    passes of section 2.6 of RFC 2083 and puts their pixels in place. */
module PngInterlaced {
  import opened Common
  import opened Adam7
  import opened PngImage
  import opened PngRows

  // ---- The bytes of an interlaced image

  /** The filtered bytes of pass p, with one filter byte a row. */
  function PassLength(width: nat, height: nat, fb: nat, p: nat): nat
    requires p < 7
  {
    if PassWidth(width, p) == 0 then 0 else Times(Times(fb, PassWidth(width, p)) + 1, PassHeight(height, p))
  }

  /** Where the bytes of pass p begin. */
  function PassAt(width: nat, height: nat, fb: nat, p: nat): nat
    requires p <= 7
  {
    if p == 0 then 0 else PassAt(width, height, fb, p - 1) + PassLength(width, height, fb, p - 1)
  }

  /** The bytes of pass p are there, with known filters. */
  predicate PassGood(raw: seq<nat>, width: nat, height: nat, fb: nat, p: nat)
    requires p < 7
  {
    var at, w, h := PassAt(width, height, fb, p), PassWidth(width, p), PassHeight(height, p);
    if w == 0 then at <= |raw| else at + Times(Times(fb, w) + 1, h) <= |raw| && FiltersKnown(raw[at..], Times(fb, w), h)
  }

  /** A pixel's bytes are those of its place in its scanline, then alpha. */
  predicate PixelOf(pixel: seq<nat>, row: seq<nat>, fb: nat, ob: nat, i: nat) {
    && |pixel| == ob
    && (forall k: nat :: k < fb && k < ob ==> Times(fb, i) + k < |row| && pixel[k] == row[Times(fb, i) + k])
    && (forall k: nat :: fb <= k < ob ==> pixel[k] == 255)
  }

  /** Pixel i, j of pass p comes from the scanline j of that pass. */
  predicate PassPixel(pixel: seq<nat>, raw: seq<nat>, width: nat, height: nat, fb: nat, ob: nat, p: nat, i: nat, j: nat)
    requires p < 7
  {
    var at, w := PassAt(width, height, fb, p), Times(fb, PassWidth(width, p));
    at + Times(w + 1, j + 1) <= |raw| && PixelOf(pixel, Row(raw[at..], w, fb, j), fb, ob, i)
  }

  /** A pixel of the image comes from its own scanline of its own pass. */
  predicate PixelRead(pixel: seq<nat>, raw: seq<nat>, width: nat, height: nat, fb: nat, ob: nat, x: nat, y: nat) {
    var p := PassOf(x, y);
    PassPixel(pixel, raw, width, height, fb, ob, p, x / XSPC[p], y / YSPC[p])
  }

  // ---- The pixels of one pass

  /** The first n pixels of ob bytes each. */
  function Pixels(bytes: seq<nat>, ob: nat, n: nat): (r: seq<seq<nat>>)
    requires Times(ob, n) <= |bytes|
    ensures |r| == n
  {
    if n == 0 then [] else Pixels(bytes, ob, n - 1) + [bytes[Times(ob, n - 1)..Times(ob, n)]]
  }

  lemma {:induction false} PixelsAt(bytes: seq<nat>, ob: nat, n: nat, k: nat)
    requires Times(ob, n) <= |bytes| && k < n
    ensures Times(ob, k) + ob <= |bytes| && Pixels(bytes, ob, n)[k] == bytes[Times(ob, k)..Times(ob, k) + ob]
  {
    if k < n - 1 {
      PixelsAt(bytes, ob, n - 1, k);
    }
  }

  /** Times is associative. */
  lemma {:induction false} TimesTimes(a: nat, b: nat, k: nat)
    ensures Times(a, Times(b, k)) == Times(Times(a, b), k)
  {
    if k > 0 {
      TimesTimes(a, b, k - 1);
      TimesPlus(a, Times(b, k - 1), b);
    }
  }

  lemma {:induction false} TimesPlus(a: nat, b: nat, c: nat)
    ensures Times(a, b + c) == Times(a, b) + Times(a, c)
  {
    if c > 0 {
      TimesPlus(a, b, c - 1);
    }
  }

  /** Pixel i, j of a decoded pass. */
  lemma PixelDecoded(out: seq<nat>, raw: seq<nat>, fb: nat, ob: nat, w: nat, h: nat, i: nat, j: nat)
    requires 0 < fb <= ob <= fb + 2 && i < w && j < h && |out| == Times(Times(ob, w), h)
    requires RowDone(out, raw, fb, ob, w, j)
    ensures Times(ob, Times(w, h)) == |out| && Index(w, i, j) < Times(w, h)
    ensures Times(Times(fb, w) + 1, j + 1) <= |raw|
    ensures PixelOf(Pixels(out, ob, Times(w, h))[Index(w, i, j)], Row(raw, Times(fb, w), fb, j), fb, ob, i)
  {
    hide Row, Pixels, Times, PlaceOf;
    TimesTimes(ob, w, h);
    IndexFits(w, h, i, j);
    var n, base, row := Index(w, i, j), Times(Times(ob, w), j), Row(raw, Times(fb, w), fb, j);
    PixelsAt(out, ob, Times(w, h), n);
    TimesPlus(ob, Times(w, j), i);
    TimesTimes(ob, w, j);
    var pixel := Pixels(out, ob, Times(w, h))[n];
    TimesMono(fb, i, w);
    forall k: nat | k < fb
      ensures Times(fb, i) + k < |row| && pixel[k] == row[Times(fb, i) + k]
    {
      PlaceInPixel(i, k, fb, ob);
    }
    forall k: nat | fb <= k < ob
      ensures pixel[k] == 255
    {
      assert AlphaAt(out, base, ob, i, k);
    }
  }

  ghost predicate PassDecoded(sub: seq<seq<nat>>, raw: seq<nat>, width: nat, height: nat, fb: nat, ob: nat, p: nat)
    requires p < 7
  {
    forall i: nat, j: nat :: i < PassWidth(width, p) && j < PassHeight(height, p) ==>
      Index(PassWidth(width, p), i, j) < |sub|
      && PassPixel(sub[Index(PassWidth(width, p), i, j)], raw, width, height, fb, ob, p, i, j)
  }

  lemma DecodedPass(out: seq<nat>, raw: seq<nat>, width: nat, height: nat, fb: nat, ob: nat, p: nat)
    requires p < 7 && 0 < fb <= ob <= fb + 2 && PassAt(width, height, fb, p) <= |raw|
    requires var w, h := PassWidth(width, p), PassHeight(height, p);
      && |out| == Times(Times(ob, w), h)
      && forall j: nat :: j < h ==> RowDone(out, raw[PassAt(width, height, fb, p)..], fb, ob, w, j)
    ensures var n := Times(PassWidth(width, p), PassHeight(height, p));
      Times(ob, n) == |out| && PassDecoded(Pixels(out, ob, n), raw, width, height, fb, ob, p)
  {
    hide RowDone, Row, Pixels, PixelOf, Times, Index, PassWidth, PassHeight, PassAt;
    var w, h := PassWidth(width, p), PassHeight(height, p);
    TimesTimes(ob, w, h);
    forall i: nat, j: nat | i < w && j < h
      ensures Index(w, i, j) < Times(w, h)
      ensures PassPixel(Pixels(out, ob, Times(w, h))[Index(w, i, j)], raw, width, height, fb, ob, p, i, j)
    {
      PixelDecoded(out, raw[PassAt(width, height, fb, p)..], fb, ob, w, h, i, j);
    }
  }

  /** The image of the passes: each pixel is the one its own pass has for it. */
  lemma AllRead(final: seq<seq<nat>>, subs: seq<seq<seq<nat>>>, raw: seq<nat>, width: nat, height: nat, fb: nat, ob: nat, x: nat, y: nat)
    requires x < width && y < height && |subs| == 7 && PixelDone(final, subs, width, x, y)
    requires forall p: nat :: p < 7 ==> PassDecoded(subs[p], raw, width, height, fb, ob, p)
    ensures Index(width, x, y) < |final| && PixelRead(final[Index(width, x, y)], raw, width, height, fb, ob, x, y)
  {
    hide PassOf, Times, Index, PassWidth, PassHeight, PassAt, Row, PixelOf;
    var p := PassOf(x, y);
    var i, j := x / XSPC[p], y / YSPC[p];
    OnePlace(x, y, p, i, j);
    PlaceWithin(width, height, p, i, j, x, y);
    assert PassDecoded(subs[p], raw, width, height, fb, ob, p);
    assert PassPixel(subs[p][Index(PassWidth(width, p), i, j)], raw, width, height, fb, ob, p, i, j);
  }

  /** Decodes the passes one after the other and places their pixels. Fails exactly when the
      bytes or a known filter of a pass are missing; else every pixel is read from its own
      scanline of its own pass. */
  method CreateInterlaced(raw: seq<nat>, fb: nat, ob: nat, width: nat, height: nat) returns (ok: bool, final: array<seq<nat>>)
    requires 0 < fb <= ob <= fb + 2
    ensures fresh(final) && final.Length == Times(width, height)
    ensures ok <==> forall p: nat :: p < 7 ==> PassGood(raw, width, height, fb, p)
    ensures ok ==> forall x: nat, y: nat :: x < width && y < height ==>
      Index(width, x, y) < final.Length && PixelRead(final[Index(width, x, y)], raw, width, height, fb, ob, x, y)
  {
    hide Times, Index, DoneBefore, PixelDone, PassWidth, PassHeight, PassDecoded, PassPixel, PixelRead, FiltersKnown, RowDone, PassOf, Pixels;
    final := new seq<nat>[Times(width, height)];
    ghost var subs: seq<seq<seq<nat>>> := [];
    NothingBefore(final[..], subs, width, height);
    var at := 0;
    for p: nat := 0 to 7
      invariant |subs| == p && at == PassAt(width, height, fb, p) <= |raw|
      invariant forall q: nat :: q < p ==> PassGood(raw, width, height, fb, q) && PassDecoded(subs[q], raw, width, height, fb, ob, q)
      invariant DoneBefore(final[..], subs, width, height, p, 0, 0)
    {
      var w, h := PassWidth(width, p), PassHeight(height, p);
      var sub: seq<seq<nat>> := [];
      if w != 0 && h != 0 {
        var good, out := CreateImage(raw[at..], fb, ob, w, h);
        if !good {
          assert !PassGood(raw, width, height, fb, p);
          return false, final;
        }
        DecodedPass(out[..], raw, width, height, fb, ob, p);
        sub := Pixels(out[..], ob, Times(w, h));
        NextPass(final[..], subs, sub, width, height);
        subs := subs + [sub];
        PlacePass(final, subs, sub, width, height, p);
        at := at + Times(Times(fb, w) + 1, h);
      } else {
        EmptyPass(raw, final[..], subs, width, height, fb, ob, p);
        subs := subs + [sub];
      }
    }
    forall x: nat, y: nat | x < width && y < height
      ensures Index(width, x, y) < final.Length && PixelRead(final[Index(width, x, y)], raw, width, height, fb, ob, x, y)
    {
      AllDone(final[..], subs, width, height);
      AllRead(final[..], subs, raw, width, height, fb, ob, x, y);
    }
    ok := true;
  }

  /** A pass without pixels has no bytes and places nothing. */
  lemma EmptyPass(raw: seq<nat>, final: seq<seq<nat>>, subs: seq<seq<seq<nat>>>, width: nat, height: nat, fb: nat, ob: nat, p: nat)
    requires p < 7 && |subs| == p && (PassWidth(width, p) == 0 || PassHeight(height, p) == 0)
    requires PassAt(width, height, fb, p) <= |raw| && DoneBefore(final, subs, width, height, p, 0, 0)
    ensures PassLength(width, height, fb, p) == 0 && PassGood(raw, width, height, fb, p)
    ensures PassDecoded([], raw, width, height, fb, ob, p)
    ensures DoneBefore(final, subs + [[]], width, height, p + 1, 0, 0)
  {
    hide DoneBefore, PassWidth, PassHeight;
    NextPass(final, subs, [], width, height);
    PassEnds(final, subs + [[]], width, height, p);
  }

  // ---- Whole images

  /** The index in the image of pixel i, j of pass p. */
  function PlaceIndex(width: nat, height: nat, p: nat, i: nat, j: nat): (k: nat)
    requires p < 7 && i < PassWidth(width, p) && j < PassHeight(height, p)
    ensures k < Times(width, height)
  {
    var x, y := Times(XSPC[p], i) + XORIG[p], Times(YSPC[p], j) + YORIG[p];
    PlaceWithin(width, height, p, i, j, x, y);
    IndexFits(width, height, x, y);
    Index(width, x, y)
  }

  /** An image of pixels with fb bytes each. */
  predicate ImageOk(image: seq<seq<nat>>, width: nat, height: nat, fb: nat) {
    |image| == Times(width, height) && forall k :: 0 <= k < |image| ==> |image[k]| == fb && Bytes(image[k])
  }

  /** The first n pixels of scanline j of pass p. */
  function PassRow(image: seq<seq<nat>>, width: nat, height: nat, fb: nat, p: nat, j: nat, n: nat): (row: seq<nat>)
    requires ImageOk(image, width, height, fb) && p < 7 && n <= PassWidth(width, p) && j < PassHeight(height, p)
    ensures |row| == Times(fb, n) && Bytes(row)
  {
    if n == 0 then []
    else PassRow(image, width, height, fb, p, j, n - 1) + image[PlaceIndex(width, height, p, n - 1, j)]
  }

  function PassRows(image: seq<seq<nat>>, width: nat, height: nat, fb: nat, p: nat): (rows: seq<seq<nat>>)
    requires ImageOk(image, width, height, fb) && p < 7
    ensures |rows| == PassHeight(height, p) && forall j :: 0 <= j < |rows| ==> |rows[j]| == Times(fb, PassWidth(width, p)) && Bytes(rows[j])
  {
    seq(PassHeight(height, p), j requires 0 <= j < PassHeight(height, p) =>
      PassRow(image, width, height, fb, p, j, PassWidth(width, p)))
  }

  /** A known filter for every row of every pass. */
  predicate FiltersOk(types: seq<seq<nat>>, height: nat) {
    |types| == 7 && forall p: nat :: p < 7 ==> |types[p]| == PassHeight(height, p) && forall j :: 0 <= j < |types[p]| ==> types[p][j] <= 4
  }

  /** The bytes of the image's passes before p, each row filtered by its type. */
  function Interlaced(types: seq<seq<nat>>, image: seq<seq<nat>>, width: nat, height: nat, fb: nat, p: nat): (raw: seq<nat>)
    requires ImageOk(image, width, height, fb) && FiltersOk(types, height) && p <= 7
    ensures |raw| == PassAt(width, height, fb, p)
  {
    if p == 0 then []
    else
      var w := PassWidth(width, p - 1);
      Interlaced(types, image, width, height, fb, p - 1)
        + (if w == 0 then [] else Encoded(types[p - 1], PassRows(image, width, height, fb, p - 1), Times(fb, w), fb))
  }

  /** Pixel i of a scanline. */
  lemma {:induction false} RowPixel(image: seq<seq<nat>>, width: nat, height: nat, fb: nat, p: nat, j: nat, n: nat, i: nat)
    requires ImageOk(image, width, height, fb) && p < 7 && n <= PassWidth(width, p) && j < PassHeight(height, p) && i < n
    ensures var row := PassRow(image, width, height, fb, p, j, n);
      Times(fb, i) + fb <= |row| && row[Times(fb, i)..Times(fb, i) + fb] == image[PlaceIndex(width, height, p, i, j)]
  {
    if i < n - 1 {
      RowPixel(image, width, height, fb, p, j, n - 1, i);
    }
  }

  /** The bytes of pass p stand at their place in the whole. */
  lemma {:induction false} InterlacedParts(types: seq<seq<nat>>, image: seq<seq<nat>>, width: nat, height: nat, fb: nat, p: nat, q: nat)
    requires ImageOk(image, width, height, fb) && FiltersOk(types, height) && p < q <= 7 && PassWidth(width, p) > 0
    ensures PassAt(width, height, fb, p) <= PassAt(width, height, fb, q)
    ensures Encoded(types[p], PassRows(image, width, height, fb, p), Times(fb, PassWidth(width, p)), fb)
      <= Interlaced(types, image, width, height, fb, q)[PassAt(width, height, fb, p)..]
  {
    hide PassRows, PassWidth, Encoded, Times;
    if p < q - 1 {
      InterlacedParts(types, image, width, height, fb, p, q - 1);
    }
  }

  /** The filter byte of a row. */
  lemma {:induction false} FilterAt(types: seq<nat>, rows: seq<seq<nat>>, w: nat, fb: nat, j: nat)
    requires |types| == |rows| && j < |rows| && forall i :: 0 <= i < |rows| ==> |rows[i]| == w
    ensures Times(w + 1, j) < Times(w + 1, |rows|) && Encoded(types, rows, w, fb)[Times(w + 1, j)] == types[j]
    decreases |rows|
  {
    hide Encoded;
    var n := |rows| - 1;
    LastRow(types, rows, w, fb);
    if j < n {
      FilterAt(types[..n], rows[..n], w, fb, j);
    }
  }

  /** The bytes of an image are all there, with known filters. */
  lemma InterlacedGood(types: seq<seq<nat>>, image: seq<seq<nat>>, width: nat, height: nat, fb: nat, p: nat)
    requires ImageOk(image, width, height, fb) && FiltersOk(types, height) && p < 7
    ensures PassGood(Interlaced(types, image, width, height, fb, 7), width, height, fb, p)
  {
    hide PassRows, PassWidth, PassHeight, Encoded, Times, Interlaced;
    var raw := Interlaced(types, image, width, height, fb, 7);
    var w := Times(fb, PassWidth(width, p));
    AtGrows(width, height, fb, p + 1, 7);
    if PassWidth(width, p) > 0 {
      InterlacedParts(types, image, width, height, fb, p, 7);
      forall j: nat | j < PassHeight(height, p)
        ensures FilterKnown(raw[PassAt(width, height, fb, p)..], w, j)
      {
        FilterAt(types[p], PassRows(image, width, height, fb, p), w, fb, j);
      }
      TimesUpTo(w + 1, PassHeight(height, p));
    }
  }

  lemma {:induction false} AtGrows(width: nat, height: nat, fb: nat, p: nat, q: nat)
    requires p <= q <= 7
    ensures PassAt(width, height, fb, p) <= PassAt(width, height, fb, q)
  {
    if p < q {
      AtGrows(width, height, fb, p, q - 1);
    }
  }

  lemma TimesUpTo(n: nat, h: nat)
    ensures forall j: nat :: j <= h ==> Times(n, j) <= Times(n, h)
  {
    forall j: nat | j <= h
      ensures Times(n, j) <= Times(n, h)
    {
      if j < h {
        TimesMono(n, j, h);
      }
    }
  }

  /** A pixel has its original bytes, then alpha. */
  predicate Restored(pixel: seq<nat>, original: seq<nat>, ob: nat) {
    |pixel| == ob && original <= pixel && forall k: nat :: |original| <= k < ob ==> pixel[k] == 255
  }

  /** Decoding an interlaced image gives every pixel back, for any choice of filters. */
  lemma InterlacedUndoes(types: seq<seq<nat>>, image: seq<seq<nat>>, width: nat, height: nat, fb: nat, ob: nat, x: nat, y: nat, pixel: seq<nat>)
    requires ImageOk(image, width, height, fb) && FiltersOk(types, height) && 0 < fb <= ob && x < width && y < height
    requires PixelRead(pixel, Interlaced(types, image, width, height, fb, 7), width, height, fb, ob, x, y)
    ensures Index(width, x, y) < |image| && Restored(pixel, image[Index(width, x, y)], ob)
  {
    hide PassRow, PassWidth, PassHeight, Encoded, Times, Interlaced, PassOf, Row, Index, InPass;
    var p, raw := PassOf(x, y), Interlaced(types, image, width, height, fb, 7);
    var i, j, at := x / XSPC[p], y / YSPC[p], PassAt(width, height, fb, p);
    OnePlace(x, y, p, i, j);
    PlaceWithin(width, height, p, i, j, x, y);
    var w, rows := Times(fb, PassWidth(width, p)), PassRows(image, width, height, fb, p);
    InterlacedParts(types, image, width, height, fb, p, 7);
    DecodesEncoded(types[p], rows, w, fb, j);
    RowOfPrefix(Encoded(types[p], rows, w, fb), raw[at..], w, fb, j);
    RowPixel(image, width, height, fb, p, j, PassWidth(width, p), i);
    PlaceOfPixel(width, height, p, i, j, x, y);
  }

  lemma PlaceOfPixel(width: nat, height: nat, p: nat, i: nat, j: nat, x: nat, y: nat)
    requires p < 7 && InPass(p, i, j, x, y) && x < width && y < height
    ensures i < PassWidth(width, p) && j < PassHeight(height, p) && PlaceIndex(width, height, p, i, j) == Index(width, x, y)
    ensures Index(width, x, y) < Times(width, height)
  {
    PlaceWithin(width, height, p, i, j, x, y);
    IndexFits(width, height, x, y);
  }

  /** Any image, filtered in any way, is decoded, and comes back pixel by pixel. */
  method RoundTrip(types: seq<seq<nat>>, image: seq<seq<nat>>, width: nat, height: nat, fb: nat, ob: nat) returns (final: array<seq<nat>>)
    requires ImageOk(image, width, height, fb) && FiltersOk(types, height) && 0 < fb <= ob <= fb + 2
    ensures final.Length == |image|
    ensures forall x: nat, y: nat :: x < width && y < height ==>
      Index(width, x, y) < |image| && Restored(final[Index(width, x, y)], image[Index(width, x, y)], ob)
  {
    hide FiltersOk, PixelRead, PassGood, Interlaced, Index, Restored;
    var ok;
    ok, final := CreateInterlaced(Interlaced(types, image, width, height, fb, 7), fb, ob, width, height);
    forall p: nat | p < 7
      ensures PassGood(Interlaced(types, image, width, height, fb, 7), width, height, fb, p)
    {
      InterlacedGood(types, image, width, height, fb, p);
    }
    forall x: nat, y: nat | x < width && y < height
      ensures Index(width, x, y) < |image| && Restored(final[Index(width, x, y)], image[Index(width, x, y)], ob)
    {
      InterlacedUndoes(types, image, width, height, fb, ob, x, y, final[Index(width, x, y)]);
    }
  }
}
