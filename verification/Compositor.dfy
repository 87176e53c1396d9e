/** The layer manager (kernel/graphic/layer.cpp): drawing only what has changed leaves the
    screen as painting every layer anew would. */
module Compositor {
  import opened Common
  import opened Rectangles
  import opened FrameBuffers
  import opened Layers

  /** The layers of a stack of numbers. */
  function Stacked(layers: map<nat, Layer>, stack: seq<nat>): (s: seq<Layer>)
    requires forall id :: id in stack ==> id in layers
    ensures |s| == |stack|
  {
    seq(|stack|, i requires 0 <= i < |stack| => layers[stack[i]])
  }

  predicate StackOk(layers: map<nat, Layer>, stack: seq<nat>) {
    && (forall id :: id in stack ==> id in layers)
    && (forall i, j :: 0 <= i < j < |stack| ==> stack[i] != stack[j])
    && (forall id :: id in layers ==> layers[id].Valid())
  }

  lemma StackedValid(layers: map<nat, Layer>, stack: seq<nat>)
    requires StackOk(layers, stack)
    ensures LayersValid(Stacked(layers, stack))
  {
  }

  /** The pictures agree at a point. */
  ghost predicate SameAt(a: Picture, b: Picture, p: Point)
    requires a.Valid() && b.Valid()
  {
    a.Outline().Contains(p) && b.Outline().Contains(p) ==> a.At(p) == b.At(p)
  }

  ghost predicate Same(a: Picture, b: Picture) {
    a.Valid() && b.Valid() && a.Outline() == b.Outline() && forall p: Point :: SameAt(a, b, p)
  }

  // ---- Drawing a transparent window pixel by pixel

  /** Whether window point q comes before row y, column x. */
  predicate Earlier(q: Point, y: int, x: int) {
    q.y < y || (q.y == y && q.x < x)
  }

  ghost predicate PixelWritten(before: Picture, after: Picture, layer: Layer, y: int, x: int, p: Point)
    requires before.Valid() && after.Valid() && layer.Valid()
  {
    before.Outline().Contains(p) && after.Outline().Contains(p) ==>
      after.At(p) == if Earlier(p.Minus(layer.pos), y, x) && layer.ColorAt(p).Some? then layer.ColorAt(p).value else before.At(p)
  }

  ghost predicate WrittenTo(before: Picture, after: Picture, layer: Layer, y: int, x: int) {
    && before.Valid() && after.Valid() && layer.Valid()
    && after.width == before.width && after.height == before.height && after.stride == before.stride
    && forall p: Point :: PixelWritten(before, after, layer, y, x, p)
  }

  /** The window point at row y, column x. */
  lemma WriteStep(before: Picture, after: Picture, layer: Layer, y: int, x: int)
    requires WrittenTo(before, after, layer, y, x)
    requires var q := layer.pos.Plus(Point(x, y)); before.Outline().Contains(q) && layer.Area().Contains(q)
    ensures var q := layer.pos.Plus(Point(x, y));
      && 0 <= Index(after.stride, q) < |after.pixels|
      && WrittenTo(before,
        if layer.ColorAt(q).Some? then after.(pixels := after.pixels[Index(after.stride, q) := layer.ColorAt(q).value]) else after,
        layer, y, x + 1)
  {
    var q := layer.pos.Plus(Point(x, y));
    IndexFits(after.stride, after.height, q);
    var now := if layer.ColorAt(q).Some? then after.(pixels := after.pixels[Index(after.stride, q) := layer.ColorAt(q).value]) else after;
    var x1 := x + 1;
    forall p: Point
      ensures PixelWritten(before, now, layer, y, x1, p)
    {
      assert PixelWritten(before, after, layer, y, x, p);
      if before.Outline().Contains(p) && p != q {
        IndexFits(after.stride, after.height, p);
        if Index(after.stride, p) == Index(after.stride, q) {
          IndexUnique(after.stride, p, q);
        }
      }
    }
  }

  /** Rows of the window that lie outside the picture need no writing. */
  lemma WriteLine(before: Picture, after: Picture, layer: Layer, y: int, x: int)
    requires WrittenTo(before, after, layer, y, x)
    requires x == Min(layer.window.picture.width, before.width - layer.pos.x) || x == Max(0, -layer.pos.x) > Min(layer.window.picture.width, before.width - layer.pos.x)
    ensures WrittenTo(before, after, layer, y + 1, Max(0, -layer.pos.x))
  {
    var y1, x1 := y + 1, Max(0, -layer.pos.x);
    forall p: Point
      ensures PixelWritten(before, after, layer, y1, x1, p)
    {
      assert PixelWritten(before, after, layer, y, x, p);
    }
  }

  lemma WriteStarts(before: Picture, layer: Layer)
    requires before.Valid() && layer.Valid()
    ensures WrittenTo(before, before, layer, Max(0, -layer.pos.y), Max(0, -layer.pos.x))
  {
    var y, x := Max(0, -layer.pos.y), Max(0, -layer.pos.x);
    forall p: Point
      ensures PixelWritten(before, before, layer, y, x, p)
    {
    }
  }

  lemma WriteEnds(before: Picture, after: Picture, layer: Layer, y: int, area: Rectangle)
    requires WrittenTo(before, after, layer, y, Max(0, -layer.pos.x)) && !layer.Opaque()
    requires y >= Min(layer.window.picture.height, before.height - layer.pos.y)
    ensures DrawnTo(before, after, [layer], area)
  {
    var one := [layer];
    assert one[..0] == [];
    forall p: Point | before.Outline().Contains(p)
      ensures after.At(p) == Drawn(one, area, p, before.At(p))
    {
      assert PixelWritten(before, after, layer, y, Max(0, -layer.pos.x), p);
    }
  }

  /** An opaque window copied within the area. */
  lemma CopiedIsDrawn(before: Picture, after: Picture, layer: Layer, area: Rectangle)
    requires layer.Valid() && layer.Opaque() && area.Proper()
    requires var common := Intersect(area, layer.Area());
      CopyDone(before, after, layer.window.picture, Rectangle(common.pos.Minus(layer.pos), common.size), layer.pos)
    ensures DrawnTo(before, after, [layer], area)
  {
    var one := [layer];
    assert one[..0] == [];
    IntersectIsCommon(area, layer.Area());
    var common := Intersect(area, layer.Area());
    forall p: Point | before.Outline().Contains(p)
      ensures after.At(p) == Drawn(one, area, p, before.At(p))
    {
      assert Rectangle(common.pos.Minus(layer.pos), common.size).Contains(p.Minus(layer.pos)) <==> common.Contains(p);
    }
  }

  /** Layer::DrawTo and Window::DrawTo. */
  method DrawLayerTo(dst: FrameBuffer, layer: Layer, area: Rectangle)
    requires dst.Valid() && layer.Valid() && area.Proper()
    modifies dst.buffer
    ensures dst.Valid() && DrawnTo(old(dst.Image()), dst.Image(), [layer], area)
  {
    hide WrittenTo, DrawnTo, Intersect, Picture.At, Index, CopyDone;
    ghost var before := dst.Image();
    if layer.Opaque() {
      IntersectIsCommon(area, layer.Area());
      var common := Intersect(area, layer.Area());
      dst.Copy(common.pos, layer.window.picture, Rectangle(common.pos.Minus(layer.pos), common.size));
      assert common.pos.Minus(common.pos.Minus(layer.pos)) == layer.pos;
      CopiedIsDrawn(before, dst.Image(), layer, area);
      return;
    }
    var y := Max(0, -layer.pos.y);
    WriteStarts(before, layer);
    while y < Min(layer.window.picture.height, dst.height - layer.pos.y)
      invariant y >= Max(0, -layer.pos.y)
      invariant WrittenTo(before, dst.Image(), layer, y, Max(0, -layer.pos.x))
    {
      var x := Max(0, -layer.pos.x);
      while x < Min(layer.window.picture.width, dst.width - layer.pos.x)
        invariant Max(0, -layer.pos.x) <= x
        invariant x <= Min(layer.window.picture.width, dst.width - layer.pos.x) || x == Max(0, -layer.pos.x)
        invariant WrittenTo(before, dst.Image(), layer, y, x)
      {
        WriteStep(before, dst.Image(), layer, y, x);
        var q := layer.pos.Plus(Point(x, y));
        var c := layer.window.picture.At(Point(x, y));
        assert q.Minus(layer.pos) == Point(x, y);
        if layer.window.transparent != Some(c) {
          ghost var now := dst.buffer[..];
          dst.buffer[Index(dst.stride, q)] := c;
          assert dst.buffer[..] == now[Index(dst.stride, q) := c];
        }
        x := x + 1;
      }
      WriteLine(before, dst.Image(), layer, y, x);
      y := y + 1;
    }
    WriteEnds(before, dst.Image(), layer, y, area);
    StillValid(before, dst.Image(), layer, y);
  }

  lemma StillValid(before: Picture, after: Picture, layer: Layer, y: int)
    requires WrittenTo(before, after, layer, y, Max(0, -layer.pos.x))
    ensures after.Valid()
  {
  }

  // ---- Layers drawn one after another

  lemma DrawnNone(before: Picture, area: Rectangle)
    requires before.Valid()
    ensures DrawnTo(before, before, [], area)
  {
  }

  lemma DrawnMore(before: Picture, now: Picture, after: Picture, layers: seq<Layer>, layer: Layer, area: Rectangle)
    requires DrawnTo(before, now, layers, area) && DrawnTo(now, after, [layer], area)
    ensures DrawnTo(before, after, layers + [layer], area)
  {
    hide Picture.At, DrawnOne;
    var all := layers + [layer];
    assert all[..|layers|] == layers;
    assert LayersValid([layer]) && [layer][0].Valid();
    forall p: Point | before.Outline().Contains(p)
      ensures after.At(p) == Drawn(all, area, p, before.At(p))
    {
      assert now.Outline().Contains(p);
      DrawnSingle(layer, area, p, now.At(p));
    }
  }

  lemma DrawnSingle(layer: Layer, area: Rectangle, p: Point, old_: Color)
    requires layer.Valid()
    ensures LayersValid([layer]) && Drawn([layer], area, p, old_) == DrawnOne(layer, area, p, old_)
  {
    hide DrawnOne;
    var one := [layer];
    assert one[..0] == [];
  }

  /** The screen after an area of the back buffer is copied to it. */
  ghost predicate CopiedFrom(before: Picture, after: Picture, src: Picture, area: Rectangle) {
    && before.Valid() && after.Valid() && src.Valid() && after.Outline() == before.Outline() == src.Outline()
    && forall p: Point :: before.Outline().Contains(p) ==> after.At(p) == if area.Contains(p) then src.At(p) else before.At(p)
  }

  lemma CopyToScreen(before: Picture, after: Picture, src: Picture, area: Rectangle)
    requires CopyDone(before, after, src, area, Point(0, 0)) && before.Outline() == src.Outline()
    ensures CopiedFrom(before, after, src, area)
  {
    hide Picture.At;
    forall p: Point | before.Outline().Contains(p)
      ensures after.At(p) == if area.Contains(p) then src.At(p) else before.At(p)
    {
      assert p.Minus(Point(0, 0)) == p;
    }
  }

  /** The screen agrees with the back buffer again once every area where it changed is copied. */
  lemma ScreenFollows(screen: Picture, screen': Picture, back: Picture, back': Picture, area: Rectangle)
    requires CopiedFrom(screen, screen', back', area) && back.Valid() && back.Outline() == back'.Outline()
    requires forall p: Point :: back.Outline().Contains(p) && !area.Contains(p) ==> SameAt(screen, back, p) && back'.At(p) == back.At(p)
    ensures Same(screen', back')
  {
    hide Picture.At;
    forall p: Point
      ensures SameAt(screen', back', p)
    {
      if back.Outline().Contains(p) && !area.Contains(p) {
        assert SameAt(screen, back, p);
      }
    }
  }

  class LayerManager {
    var layers: map<nat, Layer>
    var stack: seq<nat>
    const screen: FrameBuffer
    const back: FrameBuffer

    /** A manager of no layers; the back buffer has the screen's size. */
    constructor (screen: FrameBuffer)
      requires screen.Valid()
      ensures Valid() && this.screen == screen && fresh(back) && fresh(back.buffer)
      ensures layers == map[] && stack == []
    {
      this.screen := screen;
      back := new FrameBuffer(screen.width, screen.height, screen.width);
      layers, stack := map[], [];
    }

    ghost predicate Valid()
      reads this, screen.buffer, back.buffer
    {
      && StackOk(layers, stack) && screen.Valid() && back.Valid()
      && screen.buffer != back.buffer && screen.Image().Outline() == back.Image().Outline()
    }

    ghost function Shown(): seq<Layer>
      requires StackOk(layers, stack)
      reads this`layers, this`stack
    {
      Stacked(layers, stack)
    }

    /** The windows are where the drawing rules want them: a full-screen background below,
        transparent windows on top. */
    ghost predicate Arranged()
      requires Valid()
      reads this, screen.buffer, back.buffer
    {
      Background(Shown(), back.Image().Outline()) && TransparentOnTop(Shown())
    }

    /** Back buffer and screen are what painting every layer anew would give. */
    ghost predicate Coherent()
      reads this, screen.buffer, back.buffer
    {
      Valid() && Arranged() && Shows(back.Image(), Shown()) && Same(screen.Image(), back.Image())
    }

    /** The same but where this layer is. */
    ghost predicate CoherentBut(id: nat)
      reads this, screen.buffer, back.buffer
    {
      && Valid() && Arranged() && id in layers
      && ShowsBut(back.Image(), Shown(), layers[id].Area()) && Same(screen.Image(), back.Image())
    }

    lemma CoherentEverywhere(id: nat)
      requires Coherent() && id in layers
      ensures CoherentBut(id)
    {
    }

    /** Draws the layers from height k up within an area of the back buffer. */
    method DrawFrom(k: nat, area: Rectangle)
      requires Valid() && k <= |stack| && area.Proper()
      modifies back.buffer
      ensures Valid() && DrawnTo(old(back.Image()), back.Image(), Shown()[k..], area)
    {
      hide DrawnTo, StackOk, LayersValid, Background, TransparentOnTop, Picture.Valid;
      ghost var before, shown := back.Image(), Shown();
      var i := k;
      StackedValid(layers, stack);
      DrawnNone(before, area);
      assert shown[k..k] == [];
      while i < |stack|
        invariant k <= i <= |stack| && back.Valid()
        invariant DrawnTo(before, back.Image(), shown[k..i], area)
      {
        ghost var now := back.Image();
        LayerAt(layers, stack, i);
        DrawLayerTo(back, layers[stack[i]], area);
        DrawnMore(before, now, back.Image(), shown[k..i], shown[i], area);
        assert shown[k..i] + [shown[i]] == shown[k..i + 1];
        i := i + 1;
      }
      assert shown[k..i] == shown[k..];
      DrawnOutline(before, back.Image(), shown[k..], area);
    }

    /** Redraws every layer within an area, and shows it. */
    method DrawArea(area: Rectangle)
      requires Valid() && area.Proper()
      modifies back.buffer, screen.buffer
      ensures Valid() && DrawnTo(old(back.Image()), back.Image(), Shown(), area)
      ensures CopiedFrom(old(screen.Image()), screen.Image(), back.Image(), area)
    {
      hide DrawnTo, StackOk, Picture.Valid, CopyDone, CopiedFrom;
      ghost var before, after := screen.Image(), Shown();
      DrawFrom(0, area);
      assert after[0..] == after;
      screen.Copy(area.pos, back.Image(), area);
      CopyToScreen(before, screen.Image(), back.Image(), area);
      CopiedOutline(before, screen.Image(), back.Image(), area);
    }

    /** Redraws a layer and those above it within the part of its window that area names, or
        within the whole window when the area's size is negative. */
    method DrawLayer(id: nat, area: Rectangle) returns (ghost k: nat)
      requires Valid() && id in stack && (area.Proper() || (area.size.x < 0 && area.size.y < 0))
      modifies back.buffer, screen.buffer
      ensures Valid() && k < |stack| && stack[k] == id
      ensures DrawnTo(old(back.Image()), back.Image(), Shown()[k..], WindowArea(layers[id], area))
      ensures CopiedFrom(old(screen.Image()), screen.Image(), back.Image(), WindowArea(layers[id], area))
    {
      hide DrawnTo, StackOk, Picture.Valid, CopyDone, CopiedFrom, WindowArea;
      var i := 0;
      while stack[i] != id
        invariant i < |stack| && id in stack[i..]
        decreases |stack| - i
        modifies {}
      {
        i := i + 1;
      }
      LayerAt(layers, stack, i);
      WindowAreaProper(layers[id], area);
      var windowArea := WindowArea(layers[id], area);
      ghost var before := screen.Image();
      DrawFrom(i, windowArea);
      screen.Copy(windowArea.pos, back.Image(), windowArea);
      CopyToScreen(before, screen.Image(), back.Image(), windowArea);
      CopiedOutline(before, screen.Image(), back.Image(), windowArea);
      k := i;
    }

    /** An opaque window changes within an area, and that area is redrawn. */
    method Repaint(id: nat, picture: Picture, area: Rectangle)
      requires Coherent() && id in stack && (area.Proper() || (area.size.x < 0 && area.size.y < 0))
      requires layers[id].Opaque() && Repainted(layers[id].window.picture, picture, area)
      modifies this`layers, back.buffer, screen.buffer
      ensures Coherent() && layers == old(layers)[id := old(layers[id]).(window := Window(picture, None))]
    {
      hide DrawnTo, Shows, CopiedFrom, WindowArea, StackOk, Background, TransparentOnTop, Repainted, Picture.At;
      ghost var k0: nat :| k0 < |stack| && stack[k0] == id;
      LayerAt(layers, stack, k0);
      ghost var b0, s0, old_ := back.Image(), screen.Image(), Shown();
      var l := layers[id].(window := Window(picture, None));
      RepaintStack(layers, stack, id, k0, l, area, b0);
      layers := layers[id := l];
      ghost var k := DrawLayer(id, area);
      SameIndex(layers, stack, k, k0);
      RepaintRight(b0, back.Image(), old_, k, l, area);
      ScreenFollows(s0, screen.Image(), b0, back.Image(), WindowArea(l, area));
    }

    /** Moves a layer; redraws its old place and its new one. */
    method Move(id: nat, newPos: Point)
      requires id in stack && id != stack[0] && CoherentBut(id)
      modifies this`layers, back.buffer, screen.buffer
      ensures Coherent() && layers == old(layers)[id := old(layers[id]).(pos := newPos)]
    {
      hide DrawnTo, Shows, ShowsBut, CopiedFrom, WindowArea, StackOk, Background, TransparentOnTop, Picture.At;
      ghost var k0: nat :| k0 < |stack| && stack[k0] == id;
      LayerAt(layers, stack, k0);
      ghost var b0, s0, old_ := back.Image(), screen.Image(), Shown();
      StackedValid(layers, stack);
      var oldArea := layers[id].Area();
      ghost var l := layers[id].(pos := newPos);
      StackedUpdate(layers, stack, id, k0, l);
      BackgroundStays(old_, k0, l, back.Image().Outline());
      layers := layers[id := layers[id].(pos := newPos)];
      DrawArea(oldArea);
      ghost var b1, s1 := back.Image(), screen.Image();
      MovedOnce(b0, b1, old_, k0, newPos);
      ghost var k := DrawLayer(id, Rectangle(Point(0, 0), Point(-1, -1)));
      SameIndex(layers, stack, k, k0);
      WholeWindow(l);
      DrawRestores(b1, back.Image(), Shown(), k, l.Area());
      MovedOutside(s0, s1, b0, b1, oldArea, l.Area());
      ScreenFollows(s1, screen.Image(), b1, back.Image(), l.Area());
    }

    /** The height of a layer in the stack, or -1. */
    method GetHeight(id: nat) returns (h: int)
      ensures h == HeightOf(stack, id)
    {
      h := 0;
      while h < |stack|
        invariant 0 <= h <= |stack|
        invariant HeightOf(stack, id) == if id in stack[h..] then h + HeightOf(stack[h..], id) else -1
      {
        if stack[h] == id {
          return;
        }
        assert stack[h..][1..] == stack[h + 1..];
        h := h + 1;
      }
      return -1;
    }

    /** Puts a layer at a height of the stack, below or on top of the others; hides it when
        the height is negative. */
    method UpDown(id: nat, newHeight: int)
      requires StackOk(layers, stack) && id in layers
      modifies this`stack
      ensures StackOk(layers, stack)
      ensures stack == if newHeight < 0 then Without(old(stack), id) else PutAt(old(stack), id, newHeight)
    {
      WithoutOk(layers, stack, id);
      if newHeight < 0 {
        Hide(id);
        return;
      }
      var height := if newHeight > |stack| then |stack| else newHeight;
      PutAtOk(layers, stack, id, newHeight);
      if id !in stack {
        WithoutNone(stack, id);
        stack := stack[..height] + [id] + stack[height..];
        return;
      }
      WithoutLength(stack, id);
      if height == |stack| {
        height := height - 1;
      }
      var h := GetHeight(id);
      HeightIs(stack, id);
      stack := stack[..h] + stack[h + 1..];
      stack := stack[..height] + [id] + stack[height..];
    }

    /** Takes a layer off the stack. */
    method Hide(id: nat)
      requires StackOk(layers, stack)
      modifies this`stack
      ensures StackOk(layers, stack) && stack == Without(old(stack), id)
    {
      WithoutOk(layers, stack, id);
      HeightIs(stack, id);
      WithoutNone(stack, id);
      var h := GetHeight(id);
      if h >= 0 {
        stack := stack[..h] + stack[h + 1..];
      }
    }
  }

  function HeightOf(stack: seq<nat>, id: nat): (h: int)
    ensures h >= 0 <==> id in stack
    ensures h >= 0 ==> h < |stack| && stack[h] == id
    ensures h >= -1
  {
    if stack == [] then -1
    else if stack[0] == id then 0
    else
      var h := HeightOf(stack[1..], id);
      if h < 0 then -1 else h + 1
  }

  /** The stack without a layer. */
  function Without(stack: seq<nat>, id: nat): seq<nat> {
    if stack == [] then [] else (if stack[0] == id then [] else [stack[0]]) + Without(stack[1..], id)
  }

  /** The stack with a layer at a height among the others, at the top when it is too large. */
  function PutAt(stack: seq<nat>, id: nat, height: nat): seq<nat> {
    var rest := Without(stack, id);
    var h := if height > |rest| then |rest| else height;
    rest[..h] + [id] + rest[h..]
  }

  lemma {:induction false} WithoutNone(stack: seq<nat>, id: nat)
    ensures id !in stack ==> Without(stack, id) == stack
    ensures id !in Without(stack, id)
    ensures forall x :: x in Without(stack, id) <==> x in stack && x != id
  {
    if stack != [] {
      WithoutNone(stack[1..], id);
    }
  }

  predicate NoRepeats(stack: seq<nat>) {
    forall i, j :: 0 <= i < j < |stack| ==> stack[i] != stack[j]
  }

  /** Without cuts out the one place of the layer. */
  lemma {:induction false} HeightIs(stack: seq<nat>, id: nat)
    requires NoRepeats(stack)
    ensures var h := HeightOf(stack, id); h >= 0 ==> Without(stack, id) == stack[..h] + stack[h + 1..]
  {
    if stack != [] {
      HeightIs(stack[1..], id);
      if stack[0] == id {
        WithoutNone(stack[1..], id);
      }
    }
  }

  lemma WithoutLength(stack: seq<nat>, id: nat)
    requires NoRepeats(stack) && id in stack
    ensures |Without(stack, id)| == |stack| - 1
  {
    HeightIs(stack, id);
  }

  lemma WithoutOk(layers: map<nat, Layer>, stack: seq<nat>, id: nat)
    requires StackOk(layers, stack)
    ensures NoRepeats(stack) && StackOk(layers, Without(stack, id)) && NoRepeats(Without(stack, id))
  {
    WithoutNone(stack, id);
    HeightIs(stack, id);
  }

  lemma PutAtOk(layers: map<nat, Layer>, stack: seq<nat>, id: nat, height: nat)
    requires StackOk(layers, stack) && id in layers
    ensures StackOk(layers, PutAt(stack, id, height))
  {
    WithoutOk(layers, stack, id);
    WithoutNone(stack, id);
  }

  lemma BackgroundStays(shown: seq<Layer>, k: nat, l: Layer, screen: Rectangle)
    requires Background(shown, screen) && 0 < k < |shown|
    ensures Background(shown[k := l], screen)
  {
  }

  lemma WholeWindow(l: Layer)
    ensures WindowArea(l, Rectangle(Point(0, 0), Point(-1, -1))) == l.Area()
  {
  }

  /** After the first redraw of a move the screen is behind at most in the new place. */
  lemma MovedOutside(s0: Picture, s1: Picture, b0: Picture, b1: Picture, oldArea: Rectangle, newArea: Rectangle)
    requires Same(s0, b0) && CopiedFrom(s0, s1, b1, oldArea) && b1.Outline() == b0.Outline()
    requires forall p: Point :: b0.Outline().Contains(p) && !oldArea.Contains(p) && !newArea.Contains(p) ==> b1.At(p) == b0.At(p)
    ensures s1.Valid() && forall p: Point :: b1.Outline().Contains(p) && !newArea.Contains(p) ==> SameAt(s1, b1, p)
  {
    hide Picture.At;
    forall p: Point | b1.Outline().Contains(p) && !newArea.Contains(p)
      ensures SameAt(s1, b1, p)
    {
      assert SameAt(s0, b0, p);
    }
  }

  lemma CopiedOutline(before: Picture, after: Picture, src: Picture, area: Rectangle)
    requires CopiedFrom(before, after, src, area)
    ensures after.Valid() && src.Valid() && after.Outline() == before.Outline() == src.Outline()
  {
  }

  lemma SameIndex(layers: map<nat, Layer>, stack: seq<nat>, k: nat, m: nat)
    requires StackOk(layers, stack) && k < |stack| && m < |stack| && stack[k] == stack[m]
    ensures k == m
  {
  }

  /** The screen area that drawing a layer's window redraws. */
  function WindowArea(l: Layer, area: Rectangle): Rectangle {
    if area.size.x >= 0 || area.size.y >= 0 then Intersect(l.Area(), Rectangle(area.pos.Plus(l.pos), area.size)) else l.Area()
  }

  lemma WindowAreaProper(l: Layer, area: Rectangle)
    requires area.Proper() || (area.size.x < 0 && area.size.y < 0)
    ensures WindowArea(l, area).Proper()
    ensures forall p: Point :: WindowArea(l, area).Contains(p) <==>
      l.Area().Contains(p) && (area.Proper() ==> area.Contains(p.Minus(l.pos)))
  {
    if area.Proper() {
      IntersectIsCommon(l.Area(), Rectangle(area.pos.Plus(l.pos), area.size));
    }
  }

  /** A window's picture changed at most within an area; anywhere if its size is negative. */
  ghost predicate Repainted(before: Picture, after: Picture, area: Rectangle) {
    && before.Valid() && after.Valid() && after.width == before.width && after.height == before.height
    && (area.Proper() ==> forall q: Point :: before.Outline().Contains(q) && !area.Contains(q) ==> after.At(q) == before.At(q))
  }

  lemma StackedUpdate(layers: map<nat, Layer>, stack: seq<nat>, id: nat, k: nat, l: Layer)
    requires StackOk(layers, stack) && k < |stack| && stack[k] == id && l.Valid()
    ensures StackOk(layers[id := l], stack)
    ensures Stacked(layers[id := l], stack) == Stacked(layers, stack)[k := l]
    ensures Stacked(layers, stack)[k] == layers[id]
  {
    assert stack[k] in stack;
  }

  /** The stack with the repainted window is still arranged. */
  lemma RepaintStack(layers: map<nat, Layer>, stack: seq<nat>, id: nat, k: nat, l: Layer, area: Rectangle, back: Picture)
    requires StackOk(layers, stack) && k < |stack| && stack[k] == id && layers[id].Opaque()
    requires Repainted(layers[id].window.picture, l.window.picture, area) && l == layers[id].(window := Window(l.window.picture, None))
    requires Background(Stacked(layers, stack), back.Outline()) && TransparentOnTop(Stacked(layers, stack))
    ensures l.Valid() && StackOk(layers[id := l], stack)
    ensures Stacked(layers[id := l], stack) == Stacked(layers, stack)[k := l] && Stacked(layers, stack)[k] == layers[id]
    ensures Background(Stacked(layers[id := l], stack), back.Outline()) && TransparentOnTop(Stacked(layers[id := l], stack))
  {
    StackedUpdate(layers, stack, id, k, l);
  }

  /** Where the window has not changed, the stack shows what it showed. */
  lemma RepaintRight(before: Picture, after: Picture, shown: seq<Layer>, k: nat, l: Layer, area: Rectangle)
    requires Shows(before, shown) && k < |shown| && shown[k].Opaque() && l.Valid()
    requires area.Proper() || (area.size.x < 0 && area.size.y < 0)
    requires Repainted(shown[k].window.picture, l.window.picture, area) && l == shown[k].(window := Window(l.window.picture, None))
    requires TransparentOnTop(shown[k := l]) && DrawnTo(before, after, shown[k := l][k..], WindowArea(l, area))
    ensures Shows(after, shown[k := l])
    ensures forall p: Point :: before.Outline().Contains(p) && !WindowArea(l, area).Contains(p) ==> after.At(p) == before.At(p)
  {
    hide Drawn, ColorAt, DrawnTo, WindowArea, Picture.At;
    WindowAreaProper(l, area);
    var now := shown[k := l];
    assert LayersValid(now);
    forall p: Point | before.Outline().Contains(p)
      ensures ShowsAt(before, now, p) || (WindowArea(l, area).Contains(p) && now[k].Opaque() && now[k].Area().Contains(p))
    {
      assert ShowsAt(before, shown, p);
      if !WindowArea(l, area).Contains(p) {
        UnchangedColor(shown[k], l, area, p);
        ReplacedElsewhere(shown, k, l, p);
      }
    }
    DrawRestores(before, after, now, k, WindowArea(l, area));
  }

  lemma UnchangedColor(l0: Layer, l: Layer, area: Rectangle, p: Point)
    requires l0.Valid() && l0.Opaque() && l.Valid() && l == l0.(window := Window(l.window.picture, None))
    requires Repainted(l0.window.picture, l.window.picture, area)
    requires l.Area().Contains(p) ==> area.Proper() && !area.Contains(p.Minus(l.pos))
    ensures l0.ColorAt(p) == l.ColorAt(p)
  {
  }

  lemma LayerAt(layers: map<nat, Layer>, stack: seq<nat>, i: nat)
    requires StackOk(layers, stack) && i < |stack|
    ensures stack[i] in layers && layers[stack[i]].Valid() && Stacked(layers, stack)[i] == layers[stack[i]]
  {
    assert stack[i] in stack;
  }

  lemma DrawnOutline(before: Picture, after: Picture, layers: seq<Layer>, area: Rectangle)
    requires DrawnTo(before, after, layers, area)
    ensures before.Valid() && after.Valid() && after.Outline() == before.Outline()
  {
  }
}
