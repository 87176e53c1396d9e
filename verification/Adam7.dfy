/** De-interlacing in stbi__create_png_image (apps/gview/stb_image.h): the seven passes of
    section 2.6 of RFC 2083 put every pixel in its place. */
module Adam7 {
  import opened Common

  const XORIG: seq<nat> := [0, 4, 0, 2, 0, 1, 0]
  const YORIG: seq<nat> := [0, 0, 4, 0, 2, 0, 1]
  const XSPC: seq<nat> := [8, 8, 4, 4, 2, 2, 1]
  const YSPC: seq<nat> := [8, 8, 8, 4, 4, 2, 2]

  /** How many of the places orig, orig + spc, ... are below size; spc is a power of two. */
  function PassSize(size: nat, orig: nat, spc: nat): nat
    requires orig < spc
  {
    (size - orig + spc - 1) / spc
  }

  function PassWidth(width: nat, p: nat): nat
    requires p < 7
  {
    PassSize(width, XORIG[p], XSPC[p])
  }

  function PassHeight(height: nat, p: nat): nat
    requires p < 7
  {
    PassSize(height, YORIG[p], YSPC[p])
  }

  /** Pixel x, y of the image is pixel i, j of pass p. */
  predicate InPass(p: nat, i: nat, j: nat, x: nat, y: nat)
    requires p < 7
  {
    x == Times(XSPC[p], i) + XORIG[p] && y == Times(YSPC[p], j) + YORIG[p]
  }

  lemma {:induction false} TimesIs(n: nat, k: nat)
    requires n == 1 || n == 2 || n == 4 || n == 8
    ensures n == 1 ==> Times(n, k) == k
    ensures n == 2 ==> Times(n, k) == 2 * k
    ensures n == 4 ==> Times(n, k) == 4 * k
    ensures n == 8 ==> Times(n, k) == 8 * k
  {
    if k > 0 {
      TimesIs(n, k - 1);
    }
  }

  /** The places of a pass below size are its numbers below PassSize. */
  lemma PassSizeCounts(size: nat, orig: nat, spc: nat, i: nat)
    requires orig < spc && (spc == 1 || spc == 2 || spc == 4 || spc == 8)
    ensures Times(spc, i) + orig < size <==> i < PassSize(size, orig, spc)
  {
    TimesIs(spc, i);
    if spc == 1 {
    } else if spc == 2 {
    } else if spc == 4 {
    } else {
    }
  }

  /** The pass a pixel belongs to. */
  function PassOf(x: nat, y: nat): (p: nat)
    ensures p < 7
  {
    if y % 2 == 1 then 6
    else if x % 2 == 1 then 5
    else if y % 4 == 2 then 4
    else if x % 4 == 2 then 3
    else if y % 8 == 4 then 2
    else if x % 8 == 4 then 1
    else 0
  }

  lemma QuotientBy4(x: nat, k: nat, r: nat)
    requires x == 4 * k + r && r < 4
    ensures x / 4 == k && x % 4 == r
  {
  }

  lemma QuotientBy2(x: nat, k: nat, r: nat)
    requires x == 2 * k + r && r < 2
    ensures x / 2 == k && x % 2 == r
  {
  }

  /** The residues by four and by two follow from the residue by eight. */
  lemma Residues(x: nat)
    ensures var u := x % 8;
      && (x % 4 == 0 <==> u == 0 || u == 4) && (x % 4 == 2 <==> u == 2 || u == 6)
      && (x % 2 == 1 <==> u == 1 || u == 3 || u == 5 || u == 7)
  {
    var q, u := x / 8, x % 8;
    assert x == 8 * q + u;
    QuotientBy4(x, if u >= 4 then 2 * q + 1 else 2 * q, if u >= 4 then u - 4 else u);
    var h := if u >= 6 then 3 else if u >= 4 then 2 else if u >= 2 then 1 else 0;
    QuotientBy2(x, 4 * q + h, u - 2 * h);
  }

  /** Along one axis: the places of a pass are those with its residue. */
  lemma AxisPlace(x: nat, orig: nat, spc: nat, i: nat)
    requires orig < spc && (spc == 1 || spc == 2 || spc == 4 || spc == 8)
    ensures x == Times(spc, i) + orig <==> x % spc == orig && i == x / spc
  {
    TimesIs(spc, i);
    if spc == 1 {
    } else if spc == 2 {
    } else if spc == 4 {
    } else {
    }
  }

  /** The pass of a pixel has its residues. */
  lemma PassResidues(x: nat, y: nat, p: nat)
    requires p < 7
    ensures p == PassOf(x, y) <==> x % XSPC[p] == XORIG[p] && y % YSPC[p] == YORIG[p]
  {
    Residues(x);
    Residues(y);
    if p <= 2 {
    } else if p <= 4 {
    } else {
    }
  }

  /** Every pixel is in exactly one place of one pass, and that place is within the pass. */
  lemma OnePlace(x: nat, y: nat, p: nat, i: nat, j: nat)
    requires p < 7
    ensures InPass(p, i, j, x, y) <==> p == PassOf(x, y) && i == x / XSPC[p] && j == y / YSPC[p]
  {
    hide PassOf, Times;
    AxisPlace(x, XORIG[p], XSPC[p], i);
    AxisPlace(y, YORIG[p], YSPC[p], j);
    PassResidues(x, y, p);
  }

  /** The pattern of section 2.6 of RFC 2083, repeated over the image: the number of each
      pixel's pass, from 1. */
  const PATTERN: seq<seq<nat>> := [
    [1, 6, 4, 6, 2, 6, 4, 6],
    [7, 7, 7, 7, 7, 7, 7, 7],
    [5, 6, 5, 6, 5, 6, 5, 6],
    [7, 7, 7, 7, 7, 7, 7, 7],
    [3, 6, 4, 6, 3, 6, 4, 6],
    [7, 7, 7, 7, 7, 7, 7, 7],
    [5, 6, 5, 6, 5, 6, 5, 6],
    [7, 7, 7, 7, 7, 7, 7, 7]]

  /** A pixel is in a pass exactly when the pattern says so. */
  lemma PassIsPattern(x: nat, y: nat, p: nat)
    requires p < 7
    ensures |PATTERN| == 8 && |PATTERN[y % 8]| == 8
    ensures (exists i: nat, j: nat :: InPass(p, i, j, x, y)) <==> PATTERN[y % 8][x % 8] == p + 1
  {
    hide InPass;
    PassIsEight(x, y);
    forall i: nat, j: nat | InPass(p, i, j, x, y)
      ensures p == PassOf(x, y)
    {
      OnePlace(x, y, p, i, j);
    }
    if p == PassOf(x, y) {
      OnePlace(x, y, p, x / XSPC[p], y / YSPC[p]);
      assert InPass(p, x / XSPC[p], y / YSPC[p], x, y);
    }
  }

  lemma PassIsEight(x: nat, y: nat)
    ensures PATTERN[y % 8][x % 8] == PassOf(x, y) + 1
  {
    Residues(x);
    Residues(y);
    var u, v := x % 8, y % 8;
    assert u < 8 && v < 8;
    PatternRow(u);
    if v == 0 {
    } else if v == 2 || v == 6 {
    } else if v == 4 {
    } else {
    }
  }

  lemma PatternRow(u: nat)
    requires u < 8
    ensures PATTERN[0][u] == if u == 0 then 1 else if u == 4 then 2 else if u == 2 || u == 6 then 4 else 6
    ensures PATTERN[4][u] == if u == 0 || u == 4 then 3 else if u == 2 || u == 6 then 4 else 6
    ensures PATTERN[2][u] == PATTERN[6][u] == if u == 0 || u == 2 || u == 4 || u == 6 then 5 else 6
    ensures PATTERN[1][u] == PATTERN[3][u] == PATTERN[5][u] == PATTERN[7][u] == 7
  {
    if u == 0 {
    } else if u == 1 {
    } else if u == 2 {
    } else if u == 3 {
    } else if u == 4 {
    } else if u == 5 {
    } else if u == 6 {
    } else {
    }
  }

  lemma PlaceWithin(width: nat, height: nat, p: nat, i: nat, j: nat, x: nat, y: nat)
    requires p < 7 && InPass(p, i, j, x, y)
    ensures x < width && y < height <==> i < PassWidth(width, p) && j < PassHeight(height, p)
  {
    PassSizeCounts(width, XORIG[p], XSPC[p], i);
    PassSizeCounts(height, YORIG[p], YSPC[p], j);
  }

  // ---- Sizes

  /** The pixels of passes 0 to p - 1. */
  function PassPixels(width: nat, height: nat, p: nat): nat
    requires p <= 7
  {
    if p == 0 then 0 else PassPixels(width, height, p - 1) + Times(PassWidth(width, p - 1), PassHeight(height, p - 1))
  }

  /** The pixels of row y in passes 0 to p - 1. */
  function RowPixels(width: nat, y: nat, p: nat): nat
    requires p <= 7
  {
    if p == 0 then 0
    else RowPixels(width, y, p - 1) + if y % YSPC[p - 1] == YORIG[p - 1] then PassWidth(width, p - 1) else 0
  }

  lemma {:induction false} OneMoreRow(width: nat, y: nat, p: nat)
    requires p <= 7
    ensures PassPixels(width, y + 1, p) == PassPixels(width, y, p) + RowPixels(width, y, p)
  {
    if p > 0 {
      OneMoreRow(width, y, p - 1);
      HeightStep(y, p - 1);
      MoreHeight(PassWidth(width, p - 1), PassHeight(y, p - 1), PassHeight(y + 1, p - 1), y % YSPC[p - 1] == YORIG[p - 1]);
      hide PassWidth, PassHeight, Times;
    }
  }

  lemma MoreHeight(width: nat, h: nat, h': nat, more: bool)
    requires h' == h + if more then 1 else 0
    ensures Times(width, h') == Times(width, h) + if more then width else 0
  {
  }

  lemma HeightStep(y: nat, p: nat)
    requires p < 7
    ensures PassHeight(y + 1, p) == PassHeight(y, p) + if y % YSPC[p] == YORIG[p] then 1 else 0
  {
    if p <= 2 {
    } else if p <= 4 {
    } else {
    }
  }

  /** Each row of the image is shared out completely. */
  lemma RowIsShared(width: nat, y: nat)
    ensures RowPixels(width, y, 7) == width
  {
    hide PassWidth, RowPixels;
    RowUnfolds(width, y);
    Widths(width);
    Residues(y);
  }

  lemma RowUnfolds(width: nat, y: nat)
    ensures RowPixels(width, y, 7) ==
      (if y % 8 == 0 then PassWidth(width, 0) + PassWidth(width, 1) else 0) + (if y % 8 == 4 then PassWidth(width, 2) else 0)
      + (if y % 4 == 0 then PassWidth(width, 3) else 0) + (if y % 4 == 2 then PassWidth(width, 4) else 0)
      + (if y % 2 == 0 then PassWidth(width, 5) else 0) + (if y % 2 == 1 then PassWidth(width, 6) else 0)
  {
    hide PassWidth;
    assert RowPixels(width, y, 0) == 0;
    assert RowPixels(width, y, 1) == if y % 8 == 0 then PassWidth(width, 0) else 0;
    assert RowPixels(width, y, 2) == RowPixels(width, y, 1) + if y % 8 == 0 then PassWidth(width, 1) else 0;
    assert RowPixels(width, y, 3) == RowPixels(width, y, 2) + if y % 8 == 4 then PassWidth(width, 2) else 0;
    assert RowPixels(width, y, 4) == RowPixels(width, y, 3) + if y % 4 == 0 then PassWidth(width, 3) else 0;
    assert RowPixels(width, y, 5) == RowPixels(width, y, 4) + if y % 4 == 2 then PassWidth(width, 4) else 0;
    assert RowPixels(width, y, 6) == RowPixels(width, y, 5) + if y % 2 == 0 then PassWidth(width, 5) else 0;
  }

  lemma WidthIs(width: nat)
    ensures PassWidth(width, 0) == (width + 7) / 8 && PassWidth(width, 1) == (width + 3) / 8
    ensures PassWidth(width, 2) == (width + 3) / 4 && PassWidth(width, 3) == (width + 1) / 4
    ensures PassWidth(width, 4) == (width + 1) / 2 && PassWidth(width, 5) == width / 2
    ensures PassWidth(width, 6) == width
  {
  }

  lemma Widths(width: nat)
    ensures PassWidth(width, 6) == width
    ensures PassWidth(width, 4) + PassWidth(width, 5) == width
    ensures PassWidth(width, 2) + PassWidth(width, 3) == PassWidth(width, 4)
    ensures PassWidth(width, 0) + PassWidth(width, 1) == PassWidth(width, 2)
  {
    WidthIs(width);
    hide PassWidth;
    var q, r := width / 8, width % 8;
    assert width == 8 * q + r;
  }

  /** The sizes of the seven passes add up to the image. */
  lemma {:induction false} PassesAddUp(width: nat, height: nat)
    ensures PassPixels(width, height, 7) == Times(width, height)
  {
    if height == 0 {
      NoPixels(width, 7);
    } else {
      PassesAddUp(width, height - 1);
      OneMoreRow(width, height - 1, 7);
      RowIsShared(width, height - 1);
    }
  }

  lemma {:induction false} NoPixels(width: nat, p: nat)
    requires p <= 7
    ensures PassPixels(width, 0, p) == 0
  {
    if p > 0 {
      NoPixels(width, p - 1);
      assert PassHeight(0, p - 1) == 0;
    }
  }

  // ---- De-interlacing

  /** The index of a pixel in an image, row by row. */
  function Index(width: nat, x: nat, y: nat): nat {
    Times(width, y) + x
  }

  lemma IndexFits(width: nat, height: nat, x: nat, y: nat)
    requires x < width && y < height
    ensures Index(width, x, y) < Times(width, height)
  {
    TimesMono(width, y, height);
  }

  lemma IndexUnique(width: nat, x: nat, y: nat, x': nat, y': nat)
    requires x < width && x' < width && Index(width, x, y) == Index(width, x', y')
    ensures x == x' && y == y'
  {
    if y < y' {
      TimesMono(width, y, y');
    } else if y' < y {
      TimesMono(width, y', y);
    }
  }

  /** The index of an image pixel in its pass's own image. */
  function PassIndex(width: nat, p: nat, x: nat, y: nat): nat
    requires p < 7
  {
    Index(PassWidth(width, p), x / XSPC[p], y / YSPC[p])
  }

  /** The image of pass p is there, with its size. */
  predicate PassImage<T>(subs: seq<seq<T>>, width: nat, height: nat, p: nat)
    requires p < 7
  {
    p < |subs| && |subs[p]| == Times(PassWidth(width, p), PassHeight(height, p))
  }

  /** Pixel x, y holds its pass's pixel once the passes before p, the rows before j of pass p
      and the pixels before i of row j have been placed. */
  predicate Before(x: nat, y: nat, p: nat, j: nat, i: nat) {
    var q := PassOf(x, y);
    q < p || (q == p && (y / YSPC[q] < j || (y / YSPC[q] == j && x / XSPC[q] < i)))
  }

  ghost predicate PixelDone<T>(final: seq<T>, subs: seq<seq<T>>, width: nat, x: nat, y: nat) {
    var p := PassOf(x, y);
    && p < |subs| && PassIndex(width, p, x, y) < |subs[p]| && Index(width, x, y) < |final|
    && final[Index(width, x, y)] == subs[p][PassIndex(width, p, x, y)]
  }

  ghost predicate DoneBefore<T>(final: seq<T>, subs: seq<seq<T>>, width: nat, height: nat, p: nat, j: nat, i: nat) {
    forall x: nat, y: nat :: x < width && y < height && Before(x, y, p, j, i) ==> PixelDone(final, subs, width, x, y)
  }

  /** Placing pixel i, j of pass p. */
  lemma PlaceStep<T>(final: seq<T>, subs: seq<seq<T>>, width: nat, height: nat, p: nat, j: nat, i: nat)
    requires p < 7 && PassImage(subs, width, height, p) && |final| == Times(width, height)
    requires i < PassWidth(width, p) && j < PassHeight(height, p)
    requires DoneBefore(final, subs, width, height, p, j, i)
    ensures var x, y := Times(XSPC[p], i) + XORIG[p], Times(YSPC[p], j) + YORIG[p];
      && x < width && y < height && Index(width, x, y) < |final| && Index(PassWidth(width, p), i, j) < |subs[p]|
      && DoneBefore(final[Index(width, x, y) := subs[p][Index(PassWidth(width, p), i, j)]], subs, width, height, p, j, i + 1)
  {
    hide Times, PassOf, PassWidth, PassHeight, Index, PassImage, InPass, PixelDone, Before;
    var x, y := Times(XSPC[p], i) + XORIG[p], Times(YSPC[p], j) + YORIG[p];
    assert InPass(p, i, j, x, y) by {
      StandsIn(p, i, j);
    }
    PlaceWithin(width, height, p, i, j, x, y);
    IndexFits(width, height, x, y);
    IndexFits(PassWidth(width, p), PassHeight(height, p), i, j);
    SubSize(subs, width, height, p);
    var now := final[Index(width, x, y) := subs[p][Index(PassWidth(width, p), i, j)]];
    forall u: nat, v: nat | u < width && v < height && Before(u, v, p, j, i + 1)
      ensures PixelDone(now, subs, width, u, v)
    {
      PixelStep(final, now, subs, width, height, p, j, i, x, y, u, v);
    }
  }

  lemma StandsIn(p: nat, i: nat, j: nat)
    requires p < 7
    ensures InPass(p, i, j, Times(XSPC[p], i) + XORIG[p], Times(YSPC[p], j) + YORIG[p])
  {
  }

  /** The pixel just placed, or one placed before. */
  lemma PixelStep<T>(final: seq<T>, now: seq<T>, subs: seq<seq<T>>, width: nat, height: nat, p: nat, j: nat, i: nat, x: nat, y: nat, u: nat, v: nat)
    requires p < 7 && p < |subs| && InPass(p, i, j, x, y) && x < width && y < height && u < width && v < height
    requires 0 <= Index(width, x, y) < |final| && Index(PassWidth(width, p), i, j) < |subs[p]|
    requires now == final[Index(width, x, y) := subs[p][Index(PassWidth(width, p), i, j)]]
    requires Before(u, v, p, j, i + 1) && (Before(u, v, p, j, i) ==> PixelDone(final, subs, width, u, v))
    ensures PixelDone(now, subs, width, u, v)
  {
    hide Times, PassOf, PassWidth, Index, InPass;
    OnePlace(x, y, p, i, j);
    OnePlace(u, v, p, i, j);
    if Before(u, v, p, j, i) {
      if Index(width, u, v) == Index(width, x, y) {
        IndexUnique(width, u, v, x, y);
      }
    } else {
      assert InPass(p, i, j, u, v);
      SamePlace(p, i, j, x, y, u, v);
    }
  }

  lemma SamePlace(p: nat, i: nat, j: nat, x: nat, y: nat, u: nat, v: nat)
    requires p < 7 && InPass(p, i, j, x, y) && InPass(p, i, j, u, v)
    ensures u == x && v == y
  {
  }

  lemma SubSize<T>(subs: seq<seq<T>>, width: nat, height: nat, p: nat)
    requires p < 7 && PassImage(subs, width, height, p)
    ensures p < |subs| && |subs[p]| == Times(PassWidth(width, p), PassHeight(height, p))
  {
  }

  /** The end of a row and of a pass. */
  lemma RowEnds<T>(final: seq<T>, subs: seq<seq<T>>, width: nat, height: nat, p: nat, j: nat)
    requires p < 7 && DoneBefore(final, subs, width, height, p, j, PassWidth(width, p))
    ensures DoneBefore(final, subs, width, height, p, j + 1, 0)
  {
    hide Times, PassOf, PassWidth, PassHeight, PixelDone;
    forall x: nat, y: nat | x < width && y < height && Before(x, y, p, j + 1, 0)
      ensures PixelDone(final, subs, width, x, y)
    {
      var q := PassOf(x, y);
      OnePlace(x, y, q, x / XSPC[q], y / YSPC[q]);
      PlaceWithin(width, height, q, x / XSPC[q], y / YSPC[q], x, y);
      assert Before(x, y, p, j, PassWidth(width, p));
    }
  }

  lemma PassEnds<T>(final: seq<T>, subs: seq<seq<T>>, width: nat, height: nat, p: nat)
    requires p < 7 && DoneBefore(final, subs, width, height, p, if PassWidth(width, p) > 0 then PassHeight(height, p) else 0, 0)
    ensures DoneBefore(final, subs, width, height, p + 1, 0, 0)
  {
    hide Times, PassOf, PassWidth, PassHeight, PixelDone;
    forall x: nat, y: nat | x < width && y < height && Before(x, y, p + 1, 0, 0)
      ensures PixelDone(final, subs, width, x, y)
    {
      var q := PassOf(x, y);
      OnePlace(x, y, q, x / XSPC[q], y / YSPC[q]);
      PlaceWithin(width, height, q, x / XSPC[q], y / YSPC[q], x, y);
      assert Before(x, y, p, if PassWidth(width, p) > 0 then PassHeight(height, p) else 0, 0);
    }
  }

  /** The next pass has its image. */
  lemma NextPass<T>(final: seq<T>, subs: seq<seq<T>>, sub: seq<T>, width: nat, height: nat)
    requires DoneBefore(final, subs, width, height, |subs|, 0, 0)
    ensures DoneBefore(final, subs + [sub], width, height, |subs|, 0, 0)
  {
    hide PassOf, PassIndex, Index;
    forall x: nat, y: nat | x < width && y < height && Before(x, y, |subs|, 0, 0)
      ensures PixelDone(final, subs + [sub], width, x, y)
    {
      assert PixelDone(final, subs, width, x, y);
    }
  }

  /** Puts the pixels of one pass into the image. */
  method PlacePass<T>(final: array<T>, ghost subs: seq<seq<T>>, sub: seq<T>, width: nat, height: nat, p: nat)
    requires p < 7 && PassImage(subs, width, height, p) && subs[p] == sub && PassWidth(width, p) > 0 && final.Length == Times(width, height)
    requires DoneBefore(final[..], subs, width, height, p, 0, 0)
    modifies final
    ensures DoneBefore(final[..], subs, width, height, p + 1, 0, 0)
  {
    hide Times, DoneBefore, PassOf, PixelDone, PassImage, PassSize;
    SubSize(subs, width, height, p);
    var w, h := PassWidth(width, p), PassHeight(height, p);
    for j: nat := 0 to h
      invariant DoneBefore(final[..], subs, width, height, p, j, 0)
    {
      for i: nat := 0 to w
        invariant DoneBefore(final[..], subs, width, height, p, j, i)
      {
        PlaceStep(final[..], subs, width, height, p, j, i);
        ghost var before := final[..];
        var outY := Times(YSPC[p], j) + YORIG[p];
        var outX := Times(XSPC[p], i) + XORIG[p];
        final[Index(width, outX, outY)] := sub[Index(w, i, j)];
        assert final[..] == before[Index(width, outX, outY) := sub[Index(w, i, j)]];
      }
      RowEnds(final[..], subs, width, height, p, j);
    }
    PassEnds(final[..], subs, width, height, p);
  }

  lemma NothingBefore<T>(final: seq<T>, subs: seq<seq<T>>, width: nat, height: nat)
    ensures DoneBefore(final, subs, width, height, 0, 0, 0)
  {
  }

  lemma AllDone<T>(final: seq<T>, subs: seq<seq<T>>, width: nat, height: nat)
    requires DoneBefore(final, subs, width, height, 7, 0, 0)
    ensures forall x: nat, y: nat :: x < width && y < height ==> PixelDone(final, subs, width, x, y)
  {
    hide PixelDone, PassOf;
    forall x: nat, y: nat | x < width && y < height
      ensures PixelDone(final, subs, width, x, y)
    {
      assert Before(x, y, 7, 0, 0);
    }
  }
}
