/** Whole images: the row loop of stbi__create_png_image_raw (apps/gview/stb_image.h) undoes
    any choice of filters. */
module PngImage {
  import opened Common
  import opened PngFilter
  import opened PngRows

  function Zeros(n: nat): (z: seq<nat>)
    ensures |z| == n && forall k :: 0 <= k < n ==> z[k] == 0
  {
    seq(n, _ => 0)
  }

  /** Row j of the decoded image: raw holds a filter byte and w filtered bytes for each row. */
  function Row(raw: seq<nat>, w: nat, fb: nat, j: nat): (row: seq<nat>)
    requires Times(w + 1, j + 1) <= |raw|
    ensures |row| == w && Bytes(row)
    decreases j
  {
    var p := Times(w + 1, j);
    Unfiltered(raw[p], raw[p + 1..p + 1 + w], if j == 0 then Zeros(w) else Row(raw, w, fb, j - 1), fb)
  }

  /** The raw bytes of rows filtered by types. */
  function Encoded(types: seq<nat>, rows: seq<seq<nat>>, w: nat, fb: nat): (raw: seq<nat>)
    requires |types| == |rows| && forall j :: 0 <= j < |rows| ==> |rows[j]| == w
    ensures |raw| == Times(w + 1, |rows|)
  {
    if rows == [] then []
    else
      var n := |rows| - 1;
      Encoded(types[..n], rows[..n], w, fb) + [types[n]]
        + Filtered(types[n], rows[n], if n == 0 then Zeros(w) else rows[n - 1], fb)
  }

  lemma RowIs(raw: seq<nat>, w: nat, fb: nat, j: nat)
    requires Times(w + 1, j + 1) <= |raw|
    ensures Times(w + 1, j) + 1 + w <= |raw| && (j > 0 ==> Times(w + 1, j) <= |raw|)
    ensures var p := Times(w + 1, j);
      Row(raw, w, fb, j) == Unfiltered(raw[p], raw[p + 1..p + 1 + w], if j == 0 then Zeros(w) else Row(raw, w, fb, j - 1), fb)
  {
  }

  /** The decoded row above row j; zeroes above the first. */
  function Above(raw: seq<nat>, w: nat, fb: nat, j: nat): (prior: seq<nat>)
    requires Times(w + 1, j + 1) <= |raw|
    ensures |prior| == w
  {
    if j == 0 then Zeros(w) else Row(raw, w, fb, j - 1)
  }

  /** Byte m of row j is its raw byte, behind the row's filter byte, and what the filter adds. */
  lemma RowAdds(raw: seq<nat>, w: nat, fb: nat, j: nat, m: nat) returns (h: int)
    requires Times(w + 1, j + 1) <= |raw| && m < w && fb > 0
    requires Times(w + 1, j) < |raw| && raw[Times(w + 1, j)] <= 4
    ensures var p := Times(w + 1, j);
      var row, prior := Row(raw, w, fb, j), Above(raw, w, fb, j);
      && row[m] == (raw[p + 1 + m] + h) % 256
      && Adds(raw[p], h, if m < fb then 0 else row[m - fb], prior[m], if m < fb then 0 else prior[m - fb])
  {
    hide Row, Unfiltered;
    RowIs(raw, w, fb, j);
    var p := Times(w + 1, j);
    h := FilterAdds(raw[p], raw[p + 1..p + 1 + w], Above(raw, w, fb, j), fb, m);
  }

  /** Row j depends on the raw bytes up to its end only. */
  lemma {:induction false} RowOfPrefix(raw: seq<nat>, raw': seq<nat>, w: nat, fb: nat, j: nat)
    requires Times(w + 1, j + 1) <= |raw| && raw <= raw'
    ensures Row(raw', w, fb, j) == Row(raw, w, fb, j)
  {
    hide Row, Unfiltered;
    var p := Times(w + 1, j);
    RowIs(raw, w, fb, j);
    RowIs(raw', w, fb, j);
    if j > 0 {
      RowOfPrefix(raw, raw', w, fb, j - 1);
    }
    assert raw'[p + 1..p + 1 + w] == raw[p + 1..p + 1 + w];
  }

  /** Decoding what was filtered gives the original rows, for any choice of filters. */
  lemma {:induction false} DecodesEncoded(types: seq<nat>, rows: seq<seq<nat>>, w: nat, fb: nat, j: nat)
    requires |types| == |rows| && j < |rows| && fb > 0
    requires forall i :: 0 <= i < |rows| ==> |rows[i]| == w && Bytes(rows[i])
    ensures Times(w + 1, j + 1) <= Times(w + 1, |rows|)
    ensures Row(Encoded(types, rows, w, fb), w, fb, j) == rows[j]
    decreases |rows|
  {
    hide Row, Unfiltered, Filtered, Encoded, Bytes;
    var n := |rows| - 1;
    var front, raw := Encoded(types[..n], rows[..n], w, fb), Encoded(types, rows, w, fb);
    LastRow(types, rows, w, fb);
    if j < n {
      DecodesEncoded(types[..n], rows[..n], w, fb, j);
      RowOfPrefix(front, raw, w, fb, j);
    } else {
      if n > 0 {
        DecodesEncoded(types[..n], rows[..n], w, fb, n - 1);
        RowOfPrefix(front, raw, w, fb, n - 1);
      }
      RowIs(raw, w, fb, n);
      UnfilterUndoes(types[n], rows[n], if n == 0 then Zeros(w) else rows[n - 1], fb);
    }
  }

  /** The last row of an encoding: behind the others', its filter and its filtered bytes. */
  lemma LastRow(types: seq<nat>, rows: seq<seq<nat>>, w: nat, fb: nat)
    requires |types| == |rows| && rows != [] && forall i :: 0 <= i < |rows| ==> |rows[i]| == w
    ensures var n := |rows| - 1;
      var front, raw := Encoded(types[..n], rows[..n], w, fb), Encoded(types, rows, w, fb);
      && |front| == Times(w + 1, n) && |raw| == |front| + 1 + w == Times(w + 1, n + 1)
      && front <= raw && raw[|front|] == types[n]
      && raw[|front| + 1..|front| + 1 + w] == Filtered(types[n], rows[n], if n == 0 then Zeros(w) else rows[n - 1], fb)
  {
    hide Filtered, Times;
  }

  /** All filter bytes of the rows are known filters. */
  predicate FiltersKnown(raw: seq<nat>, w: nat, y: nat)
    requires Times(w + 1, y) <= |raw|
  {
    forall j: nat :: j < y ==> FilterKnown(raw, w, j)
  }

  predicate FilterKnown(raw: seq<nat>, w: nat, j: nat) {
    Times(w + 1, j) < |raw| && raw[Times(w + 1, j)] <= 4
  }

  /** Row j stands in the output with its alpha. */
  predicate RowDone(out: seq<nat>, raw: seq<nat>, fb: nat, ob: nat, x: nat, j: nat) {
    && Times(Times(fb, x) + 1, j + 1) <= |raw|
    && Placed(out, Times(Times(ob, x), j), fb, ob, Row(raw, Times(fb, x), fb, j))
    && (ob > fb ==> Opaque(out, Times(Times(ob, x), j), ob, 0, x, fb))
    && (ob > fb + 1 ==> Opaque(out, Times(Times(ob, x), j), ob, 0, x, fb + 1))
  }

  lemma RowBounds(fb: nat, ob: nat, x: nat, j: nat, y: nat)
    requires j < y
    ensures Times(Times(fb, x) + 1, j) + Times(fb, x) + 1 == Times(Times(fb, x) + 1, j + 1) <= Times(Times(fb, x) + 1, y)
    ensures Times(Times(ob, x), j) + Times(ob, x) == Times(Times(ob, x), j + 1) <= Times(Times(ob, x), y)
  {
    TimesMono(Times(fb, x) + 1, j, y);
    TimesMono(Times(ob, x), j, y);
  }

  /** A row already done stays when a later one is written. */
  lemma RowStays(before: seq<nat>, after: seq<nat>, raw: seq<nat>, fb: nat, ob: nat, x: nat, i: nat, j: nat)
    requires i < j && 0 < fb <= ob <= fb + 2 && |after| == |before|
    requires RowDone(before, raw, fb, ob, x, i)
    requires forall p: nat :: p < Times(Times(ob, x), j) && p < |before| ==> after[p] == before[p]
    ensures RowDone(after, raw, fb, ob, x, i)
  {
    hide Placed, Opaque, Row;
    var base := Times(Times(ob, x), i);
    RowBounds(fb, ob, x, i, j);
    PlacedKept(before, after, base, fb, ob, Row(raw, Times(fb, x), fb, i), x);
    if ob > fb {
      OpaqueKept(before, after, base, ob, x, fb);
    }
    if ob > fb + 1 {
      OpaqueKept(before, after, base, ob, x, fb + 1);
    }
  }

  /** Row j read and written. */
  method DecodeImageRow(out: array<nat>, raw: seq<nat>, fb: nat, ob: nat, x: nat, j: nat, ghost y: nat, base: nat, pos: nat)
    requires x > 0 && 0 < fb <= ob <= fb + 2 && j < y
    requires Times(Times(fb, x) + 1, y) <= |raw| && out.Length == Times(Times(ob, x), y)
    requires base == Times(Times(ob, x), j) && pos == Times(Times(fb, x) + 1, j)
    requires FilterKnown(raw, Times(fb, x), j)
    requires j > 0 ==> RowDone(out[..], raw, fb, ob, x, j - 1)
    modifies out
    ensures RowDone(out[..], raw, fb, ob, x, j)
    ensures forall p :: 0 <= p < out.Length && !(base <= p < base + Times(ob, x)) ==> out[p] == old(out[p])
  {
    hide Placed, Opaque, Unfiltered, Times, Row;
    ghost var w := Times(fb, x);
    RowBounds(fb, ob, x, j, y);
    ghost var prior: seq<nat> := if j == 0 then Zeros(w) else Row(raw, w, fb, j - 1);
    RowIs(raw, w, fb, j);
    if j > 0 {
      RowBounds(fb, ob, x, j - 1, y);
    }
    ghost var f: seq<nat> := raw[pos + 1..pos + 1 + w];
    DecodeRow(out, base, raw[pos], j == 0, raw, pos + 1, fb, ob, x, f, prior);
  }

  /** The image of x by y pixels with fb filtered bytes each, written with ob bytes each.
      Fails exactly when bytes are missing or a filter is unknown. */
  method CreateImage(raw: seq<nat>, fb: nat, ob: nat, x: nat, y: nat) returns (ok: bool, out: array<nat>)
    requires x > 0 && 0 < fb <= ob <= fb + 2
    ensures fresh(out) && out.Length == Times(Times(ob, x), y)
    ensures ok <==> Times(Times(fb, x) + 1, y) <= |raw| && FiltersKnown(raw, Times(fb, x), y)
    ensures ok ==> forall j: nat :: j < y ==> RowDone(out[..], raw, fb, ob, x, j)
  {
    hide RowDone, FilterKnown, Times;
    out := new nat[Times(Times(ob, x), y)];
    var w := Times(fb, x);
    if |raw| < Times(w + 1, y) {
      return false, out;
    }
    var j: nat, base: nat, pos: nat := 0, 0, 0;
    TimesZero();
    while j < y
      invariant j <= y && base == Times(Times(ob, x), j) && pos == Times(w + 1, j)
      invariant forall i: nat :: i < j ==> FilterKnown(raw, w, i)
      invariant forall i: nat :: i < j ==> RowDone(out[..], raw, fb, ob, x, i)
    {
      RowBounds(fb, ob, x, j, y);
      KnownIs(raw, w, j);
      if raw[pos] > 4 {
        return false, out;
      }
      ghost var before: seq<nat> := out[..];
      assert j > 0 ==> RowDone(before, raw, fb, ob, x, j - 1);
      DecodeImageRow(out, raw, fb, ob, x, j, y, base, pos);
      forall i: nat | i < j
        ensures RowDone(out[..], raw, fb, ob, x, i)
      {
        RowStays(before, out[..], raw, fb, ob, x, i, j);
      }
      j, base, pos := j + 1, base + Times(ob, x), pos + w + 1;
    }
    ok := true;
  }

  lemma TimesZero()
    ensures forall n: nat :: Times(n, 0) == 0
  {
  }

  lemma KnownIs(raw: seq<nat>, w: nat, j: nat)
    requires Times(w + 1, j) < |raw|
    ensures FilterKnown(raw, w, j) <==> raw[Times(w + 1, j)] <= 4
  {
  }
}
