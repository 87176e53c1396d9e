/** Layers and windows (kernel/graphic/layer.cpp, kernel/app/window.cpp): what a stack of
    layers looks like, painted from the bottom up. */
module Layers {
  import opened Common
  import opened Rectangles
  import opened FrameBuffers

  /** A window's picture; pixels of its transparent colour show what is below. */
  datatype Window = Window(picture: Picture, transparent: Option<Color>)

  datatype Layer = Layer(pos: Point, window: Window) {
    predicate Valid() {
      window.picture.Valid()
    }
    function Area(): Rectangle {
      Rectangle(pos, Point(window.picture.width, window.picture.height))
    }
    /** The colour the layer has at a screen point, if any. */
    function ColorAt(p: Point): Option<Color>
      requires Valid()
    {
      if !Area().Contains(p) then None
      else
        var c := window.picture.At(p.Minus(pos));
        if window.transparent == Some(c) then None else Some(c)
    }
    predicate Opaque() {
      window.transparent == None
    }
  }

  predicate LayersValid(layers: seq<Layer>) {
    forall k :: 0 <= k < |layers| ==> layers[k].Valid()
  }

  /** What a stack, bottom first, shows at a point: the topmost colour. */
  function ColorAt(layers: seq<Layer>, p: Point): Option<Color>
    requires LayersValid(layers)
  {
    if layers == [] then None
    else
      var top := layers[|layers| - 1].ColorAt(p);
      if top.Some? then top else ColorAt(layers[..|layers| - 1], p)
  }

  /** A point after one layer is drawn: an opaque one within the area, a transparent one all over. */
  function DrawnOne(layer: Layer, area: Rectangle, p: Point, old_: Color): Color
    requires layer.Valid()
  {
    var c := layer.ColorAt(p);
    if c.Some? && (layer.Opaque() ==> area.Contains(p)) then c.value else old_
  }

  /** A point after these layers are drawn, the first one first. */
  function Drawn(layers: seq<Layer>, area: Rectangle, p: Point, old_: Color): Color
    requires LayersValid(layers)
  {
    if layers == [] then old_
    else DrawnOne(layers[|layers| - 1], area, p, Drawn(layers[..|layers| - 1], area, p, old_))
  }

  /** No opaque layer is above a transparent one. */
  predicate TransparentOnTop(layers: seq<Layer>) {
    forall i, j :: 0 <= i < j < |layers| && !layers[i].Opaque() ==> !layers[j].Opaque()
  }

  lemma FrontValid(layers: seq<Layer>)
    requires layers != [] && LayersValid(layers)
    ensures LayersValid(layers[..|layers| - 1]) && layers[|layers| - 1].Valid()
    ensures TransparentOnTop(layers) ==> TransparentOnTop(layers[..|layers| - 1])
  {
  }

  /** Inside the area, drawing shows the layers over what was there. */
  lemma {:induction false} DrawnInside(layers: seq<Layer>, area: Rectangle, p: Point, old_: Color)
    requires LayersValid(layers) && area.Contains(p)
    ensures Drawn(layers, area, p, old_) == var c := ColorAt(layers, p); if c.Some? then c.value else old_
    decreases |layers|
  {
    if layers != [] {
      DrawnInside(layers[..|layers| - 1], area, p, old_);
    }
  }

  /** Outside the area, with the transparent layers on top, only they are drawn, and what they
      draw is what the stack shows anyway. */
  lemma {:induction false} DrawnOutside(layers: seq<Layer>, area: Rectangle, p: Point, old_: Color)
    requires LayersValid(layers) && TransparentOnTop(layers) && !area.Contains(p)
    ensures Drawn(layers, area, p, old_) == old_ || ColorAt(layers, p) == Some(Drawn(layers, area, p, old_))
    ensures ColorAt(layers, p) == None || ColorAt(layers, p) == Some(old_) ==> Drawn(layers, area, p, old_) == old_
    decreases |layers|
  {
    if layers != [] {
      var front, top := layers[..|layers| - 1], layers[|layers| - 1];
      FrontValid(layers);
      DrawnOutside(front, area, p, old_);
      if top.Opaque() {
        AllOpaque(layers, area, p, old_);
      }
    }
  }

  /** Opaque layers leave everything outside the area alone. */
  lemma {:induction false} AllOpaque(layers: seq<Layer>, area: Rectangle, p: Point, old_: Color)
    requires LayersValid(layers) && TransparentOnTop(layers) && !area.Contains(p)
    requires layers != [] && layers[|layers| - 1].Opaque()
    ensures Drawn(layers, area, p, old_) == old_
    decreases |layers|
  {
    var front := layers[..|layers| - 1];
    FrontValid(layers);
    if front != [] {
      assert front[|front| - 1] == layers[|layers| - 2];
      AllOpaque(front, area, p, old_);
    }
  }

  lemma {:induction false} DrawnSplits(lower: seq<Layer>, upper: seq<Layer>, area: Rectangle, p: Point, old_: Color)
    requires LayersValid(lower) && LayersValid(upper) && LayersValid(lower + upper)
    ensures Drawn(lower + upper, area, p, old_) == Drawn(upper, area, p, Drawn(lower, area, p, old_))
    decreases |upper|
  {
    if upper == [] {
      assert lower + upper == lower;
    } else {
      assert (lower + upper)[..|lower + upper| - 1] == lower + upper[..|upper| - 1];
      DrawnSplits(lower, upper[..|upper| - 1], area, p, old_);
    }
  }

  /** The upper part of a stack hides the lower part where it has a colour. */
  lemma {:induction false} ColorAtSplits(lower: seq<Layer>, upper: seq<Layer>, p: Point)
    requires LayersValid(lower) && LayersValid(upper) && LayersValid(lower + upper)
    ensures ColorAt(lower + upper, p) == if ColorAt(upper, p).Some? then ColorAt(upper, p) else ColorAt(lower, p)
    decreases |upper|
  {
    if upper == [] {
      assert lower + upper == lower;
    } else {
      assert (lower + upper)[..|lower + upper| - 1] == lower + upper[..|upper| - 1];
      ColorAtSplits(lower, upper[..|upper| - 1], p);
    }
  }

  /** A layer that does not cover a point is nothing there. */
  lemma ColorAtWithout(lower: seq<Layer>, l: Layer, upper: seq<Layer>, p: Point)
    requires LayersValid(lower) && l.Valid() && LayersValid(upper) && !l.Area().Contains(p)
    ensures ColorAt(lower + [l] + upper, p) == ColorAt(lower + upper, p)
  {
    ColorAtSplits(lower + [l], upper, p);
    ColorAtSplits(lower, upper, p);
    assert (lower + [l])[..|lower|] == lower;
  }

  // ---- Pictures of stacks

  /** The picture shows the stack at this point. */
  ghost predicate ShowsAt(picture: Picture, layers: seq<Layer>, p: Point)
    requires picture.Valid() && LayersValid(layers) && picture.Outline().Contains(p)
  {
    ColorAt(layers, p) == Some(picture.At(p))
  }

  /** Painting the whole stack anew would change nothing. */
  /** The same except in an area. */
  ghost predicate ShowsBut(picture: Picture, layers: seq<Layer>, area: Rectangle) {
    && picture.Valid() && LayersValid(layers)
    && forall p: Point :: picture.Outline().Contains(p) && !area.Contains(p) ==> ShowsAt(picture, layers, p)
  }

  ghost predicate Shows(picture: Picture, layers: seq<Layer>) {
    picture.Valid() && LayersValid(layers) && forall p: Point :: picture.Outline().Contains(p) ==> ShowsAt(picture, layers, p)
  }

  /** The bottom layer is opaque and covers the screen. */
  predicate Background(layers: seq<Layer>, screen: Rectangle) {
    && layers != [] && layers[0].Opaque() && layers[0].pos == Point(0, 0)
    && screen.pos == Point(0, 0) && layers[0].Area().size == screen.size
  }

  lemma {:induction false} BackgroundCovers(layers: seq<Layer>, screen: Rectangle, p: Point)
    requires LayersValid(layers) && Background(layers, screen) && screen.Contains(p)
    ensures ColorAt(layers, p).Some?
    decreases |layers|
  {
    if |layers| > 1 {
      BackgroundCovers(layers[..|layers| - 1], screen, p);
    }
  }

  /** A picture after layers were drawn into it. */
  ghost predicate DrawnTo(before: Picture, after: Picture, layers: seq<Layer>, area: Rectangle) {
    && before.Valid() && after.Valid() && LayersValid(layers)
    && after.width == before.width && after.height == before.height && after.stride == before.stride
    && forall p: Point :: before.Outline().Contains(p) ==> after.At(p) == Drawn(layers, area, p, before.At(p))
  }

  /** A transparent layer with a colour at a point is drawn wherever the area is. */
  lemma {:induction false} TransparentDrawn(layers: seq<Layer>, area: Rectangle, p: Point, old_: Color, k: nat)
    requires LayersValid(layers) && TransparentOnTop(layers)
    requires k < |layers| && !layers[k].Opaque() && layers[k].ColorAt(p).Some?
    ensures ColorAt(layers, p) == Some(Drawn(layers, area, p, old_))
    decreases |layers|
  {
    FrontValid(layers);
    if k < |layers| - 1 {
      TransparentDrawn(layers[..|layers| - 1], area, p, old_, k);
    }
  }

  lemma PartsValid(layers: seq<Layer>, k: nat)
    requires LayersValid(layers) && k <= |layers|
    ensures LayersValid(layers[k..]) && LayersValid(layers[..k]) && layers[..k] + layers[k..] == layers
    ensures TransparentOnTop(layers) ==> TransparentOnTop(layers[k..])
  {
  }

  /** Drawing a layer and those above it within area, over a picture that is right outside
      it, makes the picture right; where it was right nothing changes. */
  lemma DrawRestores(before: Picture, after: Picture, layers: seq<Layer>, k: nat, area: Rectangle)
    requires LayersValid(layers) && TransparentOnTop(layers) && k < |layers|
    requires DrawnTo(before, after, layers[k..], area)
    requires forall p: Point :: before.Outline().Contains(p) ==>
      ShowsAt(before, layers, p) || (area.Contains(p) && layers[k].Opaque() && layers[k].Area().Contains(p))
    ensures Shows(after, layers)
    ensures forall p: Point :: before.Outline().Contains(p) && !area.Contains(p) ==> after.At(p) == before.At(p)
  {
    hide Drawn, ColorAt, Picture.At;
    PartsValid(layers, k);
    var lower, upper := layers[..k], layers[k..];
    forall p: Point | before.Outline().Contains(p)
      ensures ShowsAt(after, layers, p)
      ensures !area.Contains(p) ==> after.At(p) == before.At(p)
    {
      ColorAtSplits(lower, upper, p);
      if area.Contains(p) {
        DrawnInside(upper, area, p, before.At(p));
        if layers[k].Opaque() && layers[k].Area().Contains(p) {
          CoveredBy(upper, p);
        }
      } else {
        DrawnOutside(upper, area, p, before.At(p));
      }
    }
  }

  /** An opaque bottom layer that covers a point gives it a colour. */
  lemma {:induction false} CoveredBy(layers: seq<Layer>, p: Point)
    requires LayersValid(layers) && layers != [] && layers[0].Opaque() && layers[0].Area().Contains(p)
    ensures ColorAt(layers, p).Some?
    decreases |layers|
  {
    if |layers| > 1 {
      CoveredBy(layers[..|layers| - 1], p);
    }
  }

  /** The stack with layer k replaced. */
  lemma ReplacedElsewhere(layers: seq<Layer>, k: nat, l: Layer, p: Point)
    requires LayersValid(layers) && k < |layers| && l.Valid()
    requires layers[k].ColorAt(p) == l.ColorAt(p)
    ensures LayersValid(layers[k := l]) && ColorAt(layers[k := l], p) == ColorAt(layers, p)
  {
    var lower, upper := layers[..k], layers[k + 1..];
    assert layers == lower + [layers[k]] + upper && layers[k := l] == lower + [l] + upper;
    ColorAtSplits(lower + [layers[k]], upper, p);
    ColorAtSplits(lower + [l], upper, p);
    assert (lower + [layers[k]])[..k] == lower && (lower + [l])[..k] == lower;
  }

  /** After a layer has moved and everything is drawn in its old place: right everywhere, but
      for the new place of an opaque layer. */
  lemma MovedOnce(before: Picture, after: Picture, layers: seq<Layer>, k: nat, pos: Point)
    requires LayersValid(layers) && TransparentOnTop(layers) && k < |layers| && ShowsBut(before, layers, layers[k].Area())
    requires DrawnTo(before, after, layers[k := layers[k].(pos := pos)], layers[k].Area())
    requires Background(layers[k := layers[k].(pos := pos)], before.Outline())
    ensures var now := layers[k := layers[k].(pos := pos)];
      && LayersValid(now) && TransparentOnTop(now)
      && forall p: Point :: before.Outline().Contains(p) ==>
        && (ShowsAt(after, now, p) || (now[k].Area().Contains(p) && now[k].Opaque()))
        && (!layers[k].Area().Contains(p) && !now[k].Area().Contains(p) ==> after.At(p) == before.At(p))
  {
    hide Drawn, ColorAt, Picture.At;
    var l := layers[k].(pos := pos);
    var now, area := layers[k := l], layers[k].Area();
    forall p: Point | before.Outline().Contains(p)
      ensures ShowsAt(after, now, p) || (l.Area().Contains(p) && l.Opaque())
      ensures !area.Contains(p) && !l.Area().Contains(p) ==> after.At(p) == before.At(p)
    {
      assert !area.Contains(p) ==> ShowsAt(before, layers, p);
      if area.Contains(p) {
        DrawnInside(now, area, p, before.At(p));
        BackgroundCovers(now, before.Outline(), p);
      } else if l.ColorAt(p).None? {
        ReplacedElsewhere(layers, k, l, p);
        DrawnOutside(now, area, p, before.At(p));
      } else if !l.Opaque() {
        TransparentDrawn(now, area, p, before.At(p), k);
      }
    }
  }

  /** Drawing everything where a layer has gone. */
  lemma RemovedOnce(before: Picture, after: Picture, lower: seq<Layer>, l: Layer, upper: seq<Layer>)
    requires LayersValid(lower + [l] + upper) && TransparentOnTop(lower + [l] + upper) && Shows(before, lower + [l] + upper)
    requires DrawnTo(before, after, lower + upper, l.Area()) && Background(lower + upper, before.Outline())
    ensures TransparentOnTop(lower + upper) && Shows(after, lower + upper)
    ensures forall p: Point :: before.Outline().Contains(p) && !l.Area().Contains(p) ==> after.At(p) == before.At(p)
  {
    hide Drawn, ColorAt, Picture.At;
    WithoutMiddle(lower, l, upper);
    var now, area := lower + upper, l.Area();
    forall p: Point | before.Outline().Contains(p)
      ensures ShowsAt(after, now, p)
      ensures !area.Contains(p) ==> after.At(p) == before.At(p)
    {
      assert ShowsAt(before, lower + [l] + upper, p);
      if area.Contains(p) {
        DrawnInside(now, area, p, before.At(p));
        BackgroundCovers(now, before.Outline(), p);
      } else {
        ColorAtWithout(lower, l, upper, p);
        DrawnOutside(now, area, p, before.At(p));
      }
    }
  }

  lemma WithoutMiddle(lower: seq<Layer>, l: Layer, upper: seq<Layer>)
    requires LayersValid(lower + [l] + upper)
    ensures LayersValid(lower) && LayersValid(upper) && l.Valid() && LayersValid(lower + upper)
    ensures TransparentOnTop(lower + [l] + upper) ==> TransparentOnTop(lower + upper)
  {
    var all := lower + [l] + upper;
    forall k | 0 <= k < |lower|
      ensures lower[k].Valid()
    {
      assert all[k] == lower[k];
    }
    forall k | 0 <= k < |upper|
      ensures upper[k].Valid()
    {
      assert all[|lower| + 1 + k] == upper[k];
    }
    assert all[|lower|] == l;
    if TransparentOnTop(all) {
      var rest := lower + upper;
      forall i, j | 0 <= i < j < |rest| && !rest[i].Opaque()
        ensures !rest[j].Opaque()
      {
        var i', j' := if i < |lower| then i else i + 1, if j < |lower| then j else j + 1;
        assert all[i'] == rest[i] && all[j'] == rest[j];
      }
    }
  }

  /** A layer put elsewhere in the stack changes no point that it does not cover. */
  lemma ReorderedElsewhere(layers: seq<Layer>, now: seq<Layer>, k: nat, m: nat, p: Point)
    requires LayersValid(layers) && k < |layers| && m < |layers| && !layers[k].Area().Contains(p)
    requires var rest := layers[..k] + layers[k + 1..]; now == rest[..m] + [layers[k]] + rest[m..]
    ensures LayersValid(now) && ColorAt(now, p) == ColorAt(layers, p)
  {
    hide LayersValid, ColorAt, Layer.Area;
    var l, rest := layers[k], layers[..k] + layers[k + 1..];
    assert layers == layers[..k] + [l] + layers[k + 1..];
    WithoutMiddle(layers[..k], l, layers[k + 1..]);
    ColorAtWithout(layers[..k], l, layers[k + 1..], p);
    PartsValid(rest, m);
    JoinValid(rest[..m], l, rest[m..]);
    ColorAtWithout(rest[..m], l, rest[m..], p);
  }

  lemma JoinValid(lower: seq<Layer>, l: Layer, upper: seq<Layer>)
    requires LayersValid(lower) && l.Valid() && LayersValid(upper)
    ensures LayersValid(lower + [l] + upper)
  {
  }
}
