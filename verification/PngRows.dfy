/** Scanlines in the output buffer of stbi__create_png_image_raw (apps/gview/stb_image.h), at
    depth 8 or 16, with or without an alpha channel inserted. */
module PngRows {
  import opened Common
  import opened PngFilter

  // ---- Places

  /** Where byte m of a scanline stands when pixels of fb bytes take ob bytes each. */
  function PlaceOf(m: nat, fb: nat, ob: nat): nat {
    if m < fb || fb == 0 then m else ob + PlaceOf(m - fb, fb, ob)
  }

  lemma {:induction false} PlacesRise(m: nat, n: nat, fb: nat, ob: nat)
    requires m < n && 0 < fb <= ob
    ensures PlaceOf(m, fb, ob) < PlaceOf(n, fb, ob)
  {
    if m >= fb {
      PlacesRise(m - fb, n - fb, fb, ob);
    }
  }

  /** Byte k of pixel i. */
  lemma {:induction false} PlaceInPixel(i: nat, k: nat, fb: nat, ob: nat)
    requires k < fb <= ob
    ensures PlaceOf(Times(fb, i) + k, fb, ob) == Times(ob, i) + k
  {
    if i > 0 {
      PlaceInPixel(i - 1, k, fb, ob);
    }
  }

  lemma {:induction false} PlacesPlain(m: nat, fb: nat)
    ensures PlaceOf(m, fb, fb) == m
  {
    if m >= fb && fb > 0 {
      PlacesPlain(m - fb, fb);
    }
  }

  /** A scanline fits in its stride. */
  lemma {:induction false} PlaceInStride(m: nat, x: nat, fb: nat, ob: nat)
    requires m < Times(fb, x) && 0 < fb <= ob
    ensures PlaceOf(m, fb, ob) < Times(ob, x)
    decreases x
  {
    TimesFirst(fb, x - 1);
    TimesFirst(ob, x - 1);
    if m >= fb {
      PlaceInStride(m - fb, x - 1, fb, ob);
    }
  }

  /** Alpha bytes are at no place of the scanline. */
  lemma {:induction false} NotAlpha(m: nat, i: nat, b: nat, fb: nat, ob: nat)
    requires 0 < fb && fb <= b < ob
    ensures PlaceOf(m, fb, ob) != Times(ob, i) + b
    decreases m
  {
    if m >= fb {
      if i > 0 {
        TimesFirst(ob, i - 1);
        NotAlpha(m - fb, i - 1, b, fb, ob);
      }
    } else if i > 0 {
      TimesFirst(ob, i - 1);
    }
  }

  /** The scanline's bytes stand in the buffer from base on. */
  predicate Placed(out: seq<nat>, base: nat, fb: nat, ob: nat, row: seq<nat>) {
    forall m: nat :: m < |row| ==> base + PlaceOf(m, fb, ob) < |out| && out[base + PlaceOf(m, fb, ob)] == row[m]
  }

  predicate AlphaAt(out: seq<nat>, base: nat, ob: nat, i: nat, b: nat) {
    base + Times(ob, i) + b < |out| && out[base + Times(ob, i) + b] == 255
  }

  /** The bytes b of the pixels from..x have alpha 255. */
  predicate Opaque(out: seq<nat>, base: nat, ob: nat, from: nat, x: nat, b: nat) {
    forall i: nat :: from <= i < x ==> AlphaAt(out, base, ob, i, b)
  }

  /** count bytes from byte n on stand together. */
  predicate Together(n: nat, count: nat, fb: nat, ob: nat) {
    forall m: nat :: n <= m < n + count ==> PlaceOf(m, fb, ob) == PlaceOf(n, fb, ob) + m - n
  }

  lemma PlaceByte(out: seq<nat>, base: nat, fb: nat, ob: nat, row: seq<nat>, v: nat)
    requires 0 < fb <= ob && Placed(out, base, fb, ob, row) && base + PlaceOf(|row|, fb, ob) < |out|
    ensures Placed(out[base + PlaceOf(|row|, fb, ob) := v], base, fb, ob, row + [v])
  {
    forall m: nat | m < |row|
      ensures PlaceOf(m, fb, ob) < PlaceOf(|row|, fb, ob)
    {
      PlacesRise(m, |row|, fb, ob);
    }
  }

  /** What is written from a place on does not touch what is placed before it. */
  lemma PlacedKept(out: seq<nat>, out': seq<nat>, base: nat, fb: nat, ob: nat, row: seq<nat>, x: nat)
    requires Placed(out, base, fb, ob, row) && |row| <= Times(fb, x) && 0 < fb <= ob && |out'| == |out|
    requires forall p: nat :: p < base + Times(ob, x) && p < |out| ==> out'[p] == out[p]
    ensures Placed(out', base, fb, ob, row)
  {
    forall m: nat | m < |row|
      ensures PlaceOf(m, fb, ob) < Times(ob, x)
    {
      PlaceInStride(m, x, fb, ob);
    }
  }

  lemma AlphaKeepsPlaced(out: seq<nat>, base: nat, fb: nat, ob: nat, row: seq<nat>, i: nat, b: nat)
    requires Placed(out, base, fb, ob, row) && 0 < fb && fb <= b < ob && base + Times(ob, i) + b < |out|
    ensures Placed(out[base + Times(ob, i) + b := 255], base, fb, ob, row)
  {
    forall m: nat | m < |row|
      ensures PlaceOf(m, fb, ob) != Times(ob, i) + b
    {
      NotAlpha(m, i, b, fb, ob);
    }
  }

  // ---- A scanline

  /** The bytes a filter reads for byte n, and what they predict. */
  lemma NextByte(t: nat, filter: nat, first: bool, f: seq<nat>, prior: seq<nat>, fb: nat, n: nat, up: nat, upLeft: nat)
    requires n < |f| <= |prior| && t <= 4 && filter == (if first then FirstRowFilter(t) else t) && fb > 0
    requires first ==> prior[n] == 0 && Left(prior, fb, n) == 0
    requires !first ==> up == prior[n] && upLeft == Left(prior, fb, n)
    ensures var row := Unfiltered(t, f[..n], prior, fb);
      Unfiltered(t, f[..n + 1], prior, fb) == row + [(f[n] + Prediction(filter, Left(row, fb, n), up, upLeft)) % 256]
  {
    var row := Unfiltered(t, f[..n], prior, fb);
    assert f[..n + 1][..n] == f[..n];
    FirstRowIsZeroPrior(t, Left(row, fb, n));
  }

  /** The scanline above: none, or placed one stride before. */
  predicate Above(out: seq<nat>, base: nat, stride: nat, fb: nat, ob: nat, first: bool, prior: seq<nat>) {
    if first then forall m :: 0 <= m < |prior| ==> prior[m] == 0
    else stride <= base && Placed(out, base - stride, fb, ob, prior)
  }

  /** Decodes byte n of the scanline, at cur in the buffer. */
  method DecodeByte(out: array<nat>, base: nat, stride: nat, t: nat, first: bool, raw: nat, fb: nat, ob: nat, x: nat,
                    n: nat, cur: nat, ghost f: seq<nat>, ghost prior: seq<nat>)
    requires t <= 4 && 0 < fb <= ob && stride == Times(ob, x) && |f| == |prior| == Times(fb, x)
    requires base + stride <= out.Length && n < |f| && raw == f[n] && cur == base + PlaceOf(n, fb, ob)
    requires Above(out[..], base, stride, fb, ob, first, prior)
    requires Placed(out[..], base, fb, ob, Unfiltered(t, f[..n], prior, fb))
    modifies out
    ensures Placed(out[..], base, fb, ob, Unfiltered(t, f[..n + 1], prior, fb))
    ensures cur < out.Length && out[..] == old(out[..])[cur := out[cur]]
  {
    hide Placed, Unfiltered, Prediction, Left, PlaceOf, Times;
    var filter := if first then FirstRowFilter(t) else t;
    ghost var row := Unfiltered(t, f[..n], prior, fb);
    RowPlaces(out[..], base, fb, ob, row, n, x);
    LeftIs(row, fb, n);
    LeftIs(prior, fb, n);
    var left: nat := if n < fb then 0 else out[cur - ob];
    var up: nat, upLeft: nat := 0, 0;
    if !first {
      RowPlaces(out[..], base - stride, fb, ob, prior, n, x);
      PriorByte(out[..], base - stride, fb, ob, prior, n);
      up := out[cur - stride];
      upLeft := if n < fb then 0 else out[cur - stride - ob];
    }
    NextByte(t, filter, first, f, prior, fb, n, up, upLeft);
    var v: nat := (raw + Prediction(filter, left, up, upLeft)) % 256;
    PlaceByte(out[..], base, fb, ob, row, v);
    ghost var before: seq<nat> := out[..];
    out[cur] := v;
    assert out[..] == before[cur := v];
  }

  lemma LeftIs(row: seq<nat>, fb: nat, m: nat)
    requires m <= |row| && fb > 0
    ensures Left(row, fb, m) == if m < fb then 0 else row[m - fb]
  {
  }

  /** Decodes count bytes that stand together in the buffer, byte n of the scanline first. */
  method DecodeBytes(out: array<nat>, base: nat, stride: nat, t: nat, first: bool, raw: seq<nat>, pos: nat,
                     fb: nat, ob: nat, x: nat, n: nat, cur: nat, count: nat, ghost f: seq<nat>, ghost prior: seq<nat>)
    requires t <= 4 && 0 < fb <= ob && stride == Times(ob, x) && |f| == |prior| == Times(fb, x)
    requires base + stride <= out.Length && pos + |f| <= |raw| && f == raw[pos..pos + |f|]
    requires n + count <= |f| && cur == base + PlaceOf(n, fb, ob) && Together(n, count, fb, ob)
    requires Above(out[..], base, stride, fb, ob, first, prior)
    requires Placed(out[..], base, fb, ob, Unfiltered(t, f[..n], prior, fb))
    modifies out
    ensures Placed(out[..], base, fb, ob, Unfiltered(t, f[..n + count], prior, fb))
    ensures forall p :: 0 <= p < out.Length && !(cur <= p < cur + count) ==> out[p] == old(out[p])
  {
    hide Placed, Unfiltered, Above, PlaceOf, Times;
    var k := 0;
    while k < count
      invariant k <= count
      invariant Placed(out[..], base, fb, ob, Unfiltered(t, f[..n + k], prior, fb))
      invariant forall p :: 0 <= p < out.Length && !(cur <= p < cur + count) ==> out[p] == old(out[p])
    {
      assert PlaceOf(n + k, fb, ob) == PlaceOf(n, fb, ob) + n + k - n;
      AboveKept(old(out[..]), out[..], base, stride, fb, ob, first, prior, x);
      DecodeByte(out, base, stride, t, first, raw[pos + n + k], fb, ob, x, n + k, cur + k, f, prior);
      k := k + 1;
    }
  }

  lemma AboveKept(before: seq<nat>, after: seq<nat>, base: nat, stride: nat, fb: nat, ob: nat, first: bool, prior: seq<nat>, x: nat)
    requires Above(before, base, stride, fb, ob, first, prior) && |after| == |before|
    requires stride == Times(ob, x) && 0 < fb <= ob && |prior| == Times(fb, x)
    requires forall p :: 0 <= p < |after| && p < base ==> after[p] == before[p]
    ensures Above(after, base, stride, fb, ob, first, prior)
  {
    if !first {
      PlacedKept(before, after, base - stride, fb, ob, prior, x);
    }
  }

  /** The byte to the left of byte m, in the buffer. */
  lemma RowPlaces(out: seq<nat>, base: nat, fb: nat, ob: nat, row: seq<nat>, m: nat, x: nat)
    requires Placed(out, base, fb, ob, row) && 0 < fb <= ob && m <= |row| && m < Times(fb, x)
    ensures PlaceOf(m, fb, ob) < Times(ob, x)
    ensures m >= fb ==>
      && ob <= PlaceOf(m, fb, ob) && base + PlaceOf(m, fb, ob) - ob < |out|
      && out[base + PlaceOf(m, fb, ob) - ob] == row[m - fb]
  {
    PlaceInStride(m, x, fb, ob);
    if m >= fb {
      assert PlaceOf(m, fb, ob) == ob + PlaceOf(m - fb, fb, ob);
    }
  }

  lemma PriorByte(out: seq<nat>, base: nat, fb: nat, ob: nat, row: seq<nat>, m: nat)
    requires Placed(out, base, fb, ob, row) && m < |row|
    ensures base + PlaceOf(m, fb, ob) < |out| && out[base + PlaceOf(m, fb, ob)] == row[m]
  {
  }

  lemma {:induction false} PixelTogether(i: nat, fb: nat, ob: nat)
    requires 0 < fb <= ob
    ensures Together(Times(fb, i), fb, fb, ob) && PlaceOf(Times(fb, i), fb, ob) == Times(ob, i)
  {
    forall m: nat | Times(fb, i) <= m < Times(fb, i) + fb
      ensures PlaceOf(m, fb, ob) == Times(ob, i) + m - Times(fb, i)
    {
      PlaceInPixel(i, m - Times(fb, i), fb, ob);
    }
    PlaceInPixel(i, 0, fb, ob);
  }

  lemma PlainTogether(n: nat, count: nat, fb: nat)
    ensures Together(n, count, fb, fb) && PlaceOf(n, fb, fb) == n
  {
    forall m: nat | n <= m < n + count
      ensures PlaceOf(m, fb, fb) == PlaceOf(n, fb, fb) + m - n
    {
      PlacesPlain(m, fb);
      PlacesPlain(n, fb);
    }
    PlacesPlain(n, fb);
  }

  /** Alpha bytes set one after another. */
  lemma OpaqueStep(out: seq<nat>, out': seq<nat>, base: nat, ob: nat, i: nat, b: nat)
    requires Opaque(out, base, ob, 0, i, b) && b < ob && base + Times(ob, i) + b < |out|
    requires |out'| == |out| && out'[base + Times(ob, i) + b] == 255
    requires forall p: nat :: p < base + Times(ob, i) && p < |out| ==> out'[p] == out[p]
    ensures Opaque(out', base, ob, 0, i + 1, b)
  {
    forall k: nat | k < i + 1
      ensures AlphaAt(out', base, ob, k, b)
    {
      if k < i {
        assert AlphaAt(out, base, ob, k, b);
        TimesMono(ob, k, i);
      }
    }
  }

  /** Alpha bytes of one kind do not touch those of another. */
  lemma OpaqueOther(out: seq<nat>, base: nat, ob: nat, x: nat, b: nat, i: nat, b': nat)
    requires Opaque(out, base, ob, 0, x, b) && b < ob && b' < ob && base + Times(ob, i) + b' < |out|
    ensures Opaque(out[base + Times(ob, i) + b' := 255], base, ob, 0, x, b)
  {
    var out' := out[base + Times(ob, i) + b' := 255];
    forall k: nat | k < x
      ensures AlphaAt(out', base, ob, k, b)
    {
      assert AlphaAt(out, base, ob, k, b);
    }
  }

  /** The facts of pixel p: where it starts, and that it ends within the scanline. */
  lemma PixelFacts(base: nat, fb: nat, ob: nat, p: nat, x: nat)
    requires p < x && 0 < fb <= ob
    ensures Together(Times(fb, p), fb, fb, ob) && PlaceOf(Times(fb, p), fb, ob) == Times(ob, p)
    ensures Times(fb, p) + fb == Times(fb, p + 1) <= Times(fb, x)
    ensures Times(ob, p) + ob == Times(ob, p + 1) <= Times(ob, x)
  {
    PixelTogether(p, fb, ob);
    TimesMono(fb, p, x);
    TimesMono(ob, p, x);
  }

  /** What decoding pixel i leaves of the alpha bytes before it. */
  lemma OpaqueKept(out: seq<nat>, out': seq<nat>, base: nat, ob: nat, i: nat, b: nat)
    requires Opaque(out, base, ob, 0, i, b) && b < ob && |out'| == |out|
    requires forall p: nat :: p < base + Times(ob, i) && p < |out| ==> out'[p] == out[p]
    ensures Opaque(out', base, ob, 0, i, b)
  {
    forall k: nat | k < i
      ensures AlphaAt(out', base, ob, k, b)
    {
      assert AlphaAt(out, base, ob, k, b);
      TimesMono(ob, k, i);
    }
  }

  lemma NothingOpaque(out: seq<nat>, base: nat, ob: nat, b: nat)
    ensures Opaque(out, base, ob, 0, 0, b) && Times(ob, 0) == 0
  {
  }

  /** Sets the alpha byte b of pixel i, where at is. */
  method SetAlpha(out: array<nat>, base: nat, fb: nat, ob: nat, i: nat, b: nat, at: nat, ghost row: seq<nat>)
    requires 0 < fb <= b < ob && at == base + Times(ob, i) + b < out.Length
    requires Placed(out[..], base, fb, ob, row) && Opaque(out[..], base, ob, 0, i, b)
    modifies out
    ensures Placed(out[..], base, fb, ob, row) && Opaque(out[..], base, ob, 0, i + 1, b)
    ensures out[..] == old(out[..])[at := 255]
  {
    hide Placed, Opaque, Times;
    ghost var before: seq<nat> := out[..];
    AlphaKeepsPlaced(before, base, fb, ob, row, i, b);
    OpaqueStep(before, before[at := 255], base, ob, i, b);
    out[at] := 255;
    assert out[..] == before[at := 255];
  }

  /** The pixels after the first, each followed by its alpha byte. */
  method DecodePixels(out: array<nat>, base: nat, t: nat, first: bool, raw: seq<nat>, pos: nat,
                      fb: nat, ob: nat, x: nat, ghost f: seq<nat>, ghost prior: seq<nat>)
    requires t <= 4 && x > 0 && 0 < fb < ob && |f| == |prior| == Times(fb, x)
    requires base + Times(ob, x) <= out.Length && pos + |f| <= |raw| && f == raw[pos..pos + |f|]
    requires Above(out[..], base, Times(ob, x), fb, ob, first, prior)
    requires fb <= |f| && Placed(out[..], base, fb, ob, Unfiltered(t, f[..fb], prior, fb)) && Opaque(out[..], base, ob, 0, 1, fb)
    modifies out
    ensures Placed(out[..], base, fb, ob, Unfiltered(t, f, prior, fb)) && Opaque(out[..], base, ob, 0, x, fb)
    ensures forall p :: 0 <= p < out.Length && !(base <= p < base + Times(ob, x)) ==> out[p] == old(out[p])
  {
    hide Placed, Unfiltered, Above, PlaceOf, Times, Opaque, Together;
    var p: nat, n: nat, cur: nat := 1, fb, base + ob;
    PixelFacts(base, fb, ob, 0, x);
    NothingOpaque(out[..], base, ob, fb);
    NothingOpaque(out[..], base, fb, fb);
    while p < x
      invariant p <= x && n == Times(fb, p) <= |f| && cur == base + Times(ob, p)
      invariant Placed(out[..], base, fb, ob, Unfiltered(t, f[..n], prior, fb)) && Opaque(out[..], base, ob, 0, p, fb)
      invariant forall p :: 0 <= p < out.Length && !(base <= p < base + Times(ob, x)) ==> out[p] == old(out[p])
    {
      PixelFacts(base, fb, ob, p, x);
      AboveKept(old(out[..]), out[..], base, Times(ob, x), fb, ob, first, prior, x);
      ghost var before: seq<nat> := out[..];
      DecodeBytes(out, base, Times(ob, x), t, first, raw, pos, fb, ob, x, n, cur, fb, f, prior);
      OpaqueKept(before, out[..], base, ob, p, fb);
      SetAlpha(out, base, fb, ob, p, fb, cur + fb, Unfiltered(t, f[..n + fb], prior, fb));
      p, n, cur := p + 1, n + fb, cur + ob;
    }
    assert f[..n] == f;
  }

  /** The low bytes of 16-bit alpha, in a second pass over the scanline. */
  method SetSecondAlpha(out: array<nat>, base: nat, fb: nat, ob: nat, x: nat, ghost row: seq<nat>)
    requires 0 < fb && ob == fb + 2 && base + Times(ob, x) <= out.Length
    requires Placed(out[..], base, fb, ob, row) && Opaque(out[..], base, ob, 0, x, fb)
    modifies out
    ensures Placed(out[..], base, fb, ob, row) && Opaque(out[..], base, ob, 0, x, fb) && Opaque(out[..], base, ob, 0, x, fb + 1)
    ensures forall p :: 0 <= p < out.Length && !(base <= p < base + Times(ob, x)) ==> out[p] == old(out[p])
  {
    hide Placed, Times, Opaque;
    var i: nat, cur: nat := 0, base;
    NothingOpaque(out[..], base, ob, fb + 1);
    while i < x
      invariant i <= x && cur == base + Times(ob, i)
      invariant Placed(out[..], base, fb, ob, row) && Opaque(out[..], base, ob, 0, x, fb) && Opaque(out[..], base, ob, 0, i, fb + 1)
      invariant forall p :: 0 <= p < out.Length && !(base <= p < base + Times(ob, x)) ==> out[p] == old(out[p])
    {
      PixelFacts(base, fb, ob, i, x);
      OpaqueOther(out[..], base, ob, x, fb, i, fb + 1);
      SetAlpha(out, base, fb, ob, i, fb + 1, cur + fb + 1, row);
      i, cur := i + 1, cur + ob;
    }
  }

  /** A scanline of x pixels from its filtered bytes, with opaque alpha if there is alpha. */
  method DecodeRow(out: array<nat>, base: nat, t: nat, first: bool, raw: seq<nat>, pos: nat,
                   fb: nat, ob: nat, x: nat, ghost f: seq<nat>, ghost prior: seq<nat>)
    requires t <= 4 && x > 0 && 0 < fb <= ob <= fb + 2 && |f| == |prior| == Times(fb, x)
    requires base + Times(ob, x) <= out.Length && pos + |f| <= |raw| && f == raw[pos..pos + |f|]
    requires Above(out[..], base, Times(ob, x), fb, ob, first, prior)
    modifies out
    ensures Placed(out[..], base, fb, ob, Unfiltered(t, f, prior, fb))
    ensures ob > fb ==> Opaque(out[..], base, ob, 0, x, fb)
    ensures ob > fb + 1 ==> Opaque(out[..], base, ob, 0, x, fb + 1)
    ensures forall p :: 0 <= p < out.Length && !(base <= p < base + Times(ob, x)) ==> out[p] == old(out[p])
  {
    hide Placed, Unfiltered, Above, PlaceOf, Times, Opaque, Together;
    PixelFacts(base, fb, ob, 0, x);
    NothingOpaque(out[..], base, ob, fb);
    NothingOpaque(out[..], base, fb, fb);
    NothingPlaced(out[..], base, fb, ob, t, f, prior);
    DecodeBytes(out, base, Times(ob, x), t, first, raw, pos, fb, ob, x, 0, base, fb, f, prior);
    AboveKept(old(out[..]), out[..], base, Times(ob, x), fb, ob, first, prior, x);
    if ob == fb {
      PlainTogether(fb, Times(fb, x) - fb, fb);
      DecodeBytes(out, base, Times(ob, x), t, first, raw, pos, fb, ob, x, fb, base + ob, Times(fb, x) - fb, f, prior);
      assert f[..fb + (Times(fb, x) - fb)] == f;
    } else {
      ghost var before: seq<nat> := out[..];
      NothingOpaque(before, base, ob, fb);
      SetAlpha(out, base, fb, ob, 0, fb, base + fb, Unfiltered(t, f[..fb], prior, fb));
      AboveKept(before, out[..], base, Times(ob, x), fb, ob, first, prior, x);
      DecodePixels(out, base, t, first, raw, pos, fb, ob, x, f, prior);
      if ob == fb + 2 {
        SetSecondAlpha(out, base, fb, ob, x, Unfiltered(t, f, prior, fb));
      }
    }
  }

  lemma NothingPlaced(out: seq<nat>, base: nat, fb: nat, ob: nat, t: nat, f: seq<nat>, prior: seq<nat>)
    requires |f| <= |prior|
    ensures Placed(out, base, fb, ob, Unfiltered(t, f[..0], prior, fb))
  {
  }
}
