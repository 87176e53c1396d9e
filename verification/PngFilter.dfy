/** The scanline filters of PNG (RFC 2083, section 6) and what undoes them. */
module PngFilter {
  import opened Common

  function Abs(x: int): nat {
    if x < 0 then -x else x
  }

  /** The predictor of apps/gview/stb_image.h. */
  function Paeth(a: int, b: int, c: int): int {
    var p := a + b - c;
    var pa, pb, pc := Abs(p - a), Abs(p - b), Abs(p - c);
    if pa <= pb && pa <= pc then a else if pb <= pc then b else c
  }

  /** The predictor picks the neighbour nearest to a + b - c, in the order a, b, c. */
  lemma PaethIsNearest(a: int, b: int, c: int)
    ensures var p, r := a + b - c, Paeth(a, b, c);
      && (r == a || r == b || r == c)
      && Abs(p - r) <= Abs(p - a) && Abs(p - r) <= Abs(p - b) && Abs(p - r) <= Abs(p - c)
      && (Abs(p - a) == Abs(p - r) ==> r == a)
      && (Abs(p - b) == Abs(p - r) && Abs(p - a) > Abs(p - r) ==> r == b)
  {
  }

  /** What filter t predicts from the left, upper and upper left bytes. */
  function Predicted(t: nat, left: nat, up: nat, upLeft: nat): int {
    match t
    case 0 => 0
    case 1 => left
    case 2 => up
    case 3 => (left + up) / 2
    case _ => Paeth(left, up, upLeft)
  }

  /** The byte one pixel to the left, zero in the first pixel. */
  function Left(row: seq<nat>, bpp: nat, m: nat): nat
    requires m <= |row|
  {
    if m < bpp || bpp == 0 then 0 else row[m - bpp]
  }

  /** A scanline filtered by t. */
  function Filtered(t: nat, row: seq<nat>, prior: seq<nat>, bpp: nat): (f: seq<nat>)
    requires |prior| == |row|
    ensures |f| == |row|
  {
    seq(|row|, m requires 0 <= m < |row| =>
      (row[m] - Predicted(t, Left(row, bpp, m), prior[m], Left(prior, bpp, m))) % 256)
  }

  /** The scanline from its filtered bytes. */
  function Unfiltered(t: nat, f: seq<nat>, prior: seq<nat>, bpp: nat): (row: seq<nat>)
    requires |f| <= |prior|
    ensures |row| == |f| && Bytes(row)
    decreases |f|
  {
    if f == [] then []
    else
      var n := |f| - 1;
      var row := Unfiltered(t, f[..n], prior, bpp);
      row + [(f[n] + Predicted(t, Left(row, bpp, n), prior[n], Left(prior, bpp, n))) % 256]
  }

  lemma {:induction false} UnfilteredPrefix(t: nat, f: seq<nat>, prior: seq<nat>, bpp: nat, m: nat)
    requires |f| <= |prior| && m <= |f|
    ensures Unfiltered(t, f, prior, bpp)[..m] == Unfiltered(t, f[..m], prior, bpp)
    decreases |f|
  {
    if m < |f| {
      var n := |f| - 1;
      UnfilteredPrefix(t, f[..n], prior, bpp, m);
      assert f[..n][..m] == f[..m];
    } else {
      assert f[..m] == f;
    }
  }

  lemma {:induction false} UnfiltersTo(t: nat, row: seq<nat>, prior: seq<nat>, bpp: nat, m: nat)
    requires |prior| == |row| && Bytes(row) && m <= |row| && bpp > 0
    ensures Unfiltered(t, Filtered(t, row, prior, bpp)[..m], prior, bpp) == row[..m]
  {
    if m > 0 {
      var f, n := Filtered(t, row, prior, bpp), m - 1;
      UnfiltersTo(t, row, prior, bpp, n);
      assert f[..m][..n] == f[..n];
      var p := Predicted(t, Left(row, bpp, n), prior[n], Left(prior, bpp, n));
      assert Left(row[..n], bpp, n) == Left(row, bpp, n);
      Back(row[n], p);
      assert row[..m] == row[..n] + [row[n]];
    }
  }

  lemma Back(b: nat, p: int)
    requires b < 256
    ensures ((b - p) % 256 + p) % 256 == b
  {
  }

  /** Undoing any filter gives the scanline back. */
  lemma UnfilterUndoes(t: nat, row: seq<nat>, prior: seq<nat>, bpp: nat)
    requires |prior| == |row| && Bytes(row) && bpp > 0
    ensures Unfiltered(t, Filtered(t, row, prior, bpp), prior, bpp) == row
  {
    UnfiltersTo(t, row, prior, bpp, |row|);
    assert Filtered(t, row, prior, bpp)[..|row|] == Filtered(t, row, prior, bpp);
    assert row[..|row|] == row;
  }

  /** And filtering what was undone gives the filtered bytes back: no two scanlines filter
      to the same bytes, and every byte string is some scanline's. */
  lemma FilterUndoes(t: nat, f: seq<nat>, prior: seq<nat>, bpp: nat)
    requires |prior| == |f| && Bytes(f) && bpp > 0
    ensures Filtered(t, Unfiltered(t, f, prior, bpp), prior, bpp) == f
  {
    var row := Unfiltered(t, f, prior, bpp);
    hide Unfiltered, Predicted, Left;
    forall m: nat | m < |f|
      ensures Filtered(t, row, prior, bpp)[m] == f[m]
    {
      UnfilteredAt(t, f, prior, bpp, m);
      Forth(f[m], Predicted(t, Left(row, bpp, m), prior[m], Left(prior, bpp, m)));
    }
  }

  /** Each byte of the scanline is its filtered byte plus the prediction. */
  lemma UnfilteredAt(t: nat, f: seq<nat>, prior: seq<nat>, bpp: nat, m: nat)
    requires |prior| >= |f| && m < |f| && bpp > 0
    ensures var row := Unfiltered(t, f, prior, bpp);
      row[m] == (f[m] + Predicted(t, Left(row, bpp, m), prior[m], Left(prior, bpp, m))) % 256
  {
    hide Predicted;
    var row := Unfiltered(t, f, prior, bpp);
    UnfilteredPrefix(t, f, prior, bpp, m);
    UnfilteredPrefix(t, f, prior, bpp, m + 1);
    assert f[..m + 1][..m] == f[..m];
    assert row[..m + 1][m] == row[m];
    assert Left(row[..m], bpp, m) == Left(row, bpp, m);
  }

  lemma Forth(b: nat, p: int)
    requires b < 256
    ensures ((b + p) % 256 - p) % 256 == b
  {
  }

  // ---- The filters by name

  function Distance(p: int, x: int): nat {
    if p < x then x - p else p - x
  }

  /** The neighbour nearest to p, in the order left, upper, upper left. */
  predicate Nearest(h: int, p: int, left: int, up: int, upLeft: int) {
    var dl, du, dul := Distance(p, left), Distance(p, up), Distance(p, upLeft);
    if dl <= du && dl <= dul then h == left
    else if du <= dul then h == up
    else h == upLeft
  }

  /** The filters of section 6 of RFC 2083: None adds nothing to a byte, Sub the byte one pixel
      left, Up the byte above, Average half of both rounded down, Paeth the neighbour nearest to
      left plus above less upper left. Beyond the left edge there are zeroes. */
  predicate Adds(t: nat, h: int, left: int, up: int, upLeft: int) {
    && (t == 0 ==> h == 0) && (t == 1 ==> h == left) && (t == 2 ==> h == up)
    && (t == 3 ==> 2 * h <= left + up <= 2 * h + 1)
    && (t == 4 ==> Nearest(h, left + up - upLeft, left, up, upLeft))
  }

  lemma FilterAdds(t: nat, f: seq<nat>, prior: seq<nat>, bpp: nat, m: nat) returns (h: int)
    requires t <= 4 && |prior| >= |f| && m < |f| && bpp > 0
    ensures var row := Unfiltered(t, f, prior, bpp);
      && row[m] == (f[m] + h) % 256
      && Adds(t, h, if m < bpp then 0 else row[m - bpp], prior[m], if m < bpp then 0 else prior[m - bpp])
  {
    hide Unfiltered;
    UnfilteredAt(t, f, prior, bpp, m);
    h := Predicted(t, Left(Unfiltered(t, f, prior, bpp), bpp, m), prior[m], Left(prior, bpp, m));
  }

  // ---- The filters of the first scanline

  /** The filters as the program numbers them; 5 and 6 are the average and Paeth filters of
      the first scanline, which has none above it. */
  function FirstRowFilter(t: nat): nat
    requires t <= 4
  {
    match t
    case 0 => 0
    case 1 => 1
    case 2 => 0
    case 3 => 5
    case _ => 6
  }

  function Prediction(filter: nat, left: nat, up: nat, upLeft: nat): int {
    match filter
    case 0 => 0
    case 1 => left
    case 2 => up
    case 3 => (up + left) / 2
    case 4 => Paeth(left, up, upLeft)
    case 5 => left / 2
    case _ => Paeth(left, 0, 0)
  }

  /** The first scanline's filters are the general ones below a scanline of zeroes. */
  lemma FirstRowIsZeroPrior(t: nat, left: nat)
    requires t <= 4
    ensures forall up: nat, upLeft: nat :: Prediction(FirstRowFilter(t), left, up, upLeft) == Predicted(t, left, 0, 0)
  {
  }
}
