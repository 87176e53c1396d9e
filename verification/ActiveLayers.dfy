/** The active window (kernel/graphic/layer.cpp): activating and closing windows keep the
    screen coherent. */
module ActiveLayers {
  import opened Common
  import opened Rectangles
  import opened FrameBuffers
  import opened Layers
  import opened Compositor

  const WHOLE: Rectangle := Rectangle(Point(0, 0), Point(-1, -1))

  /** The mouse layer is on top, and only it may be transparent. */
  predicate MouseOnTop(layers: map<nat, Layer>, stack: seq<nat>, mouse: nat)
    requires StackOk(layers, stack)
  {
    |stack| > 1 && stack[|stack| - 1] == mouse && forall i :: 0 <= i < |stack| - 1 ==> layers[stack[i]].Opaque()
  }

  /** A window that may be activated or closed: neither the background nor the mouse. */
  predicate Ordinary(stack: seq<nat>, id: nat) {
    |stack| > 1 && id in stack && id != stack[0] && id != stack[|stack| - 1]
  }

  /** A window that may be activated or closed, or one that is not shown. */
  predicate Selectable(stack: seq<nat>, id: nat) {
    |stack| > 1 && (id in stack ==> Ordinary(stack, id))
  }

  /** The stack with a window brought, or put, to just below the mouse. */
  function Raised(stack: seq<nat>, id: nat): seq<nat> {
    var rest := Without(stack, id);
    if rest == [] then [] else rest[..|rest| - 1] + [id] + rest[|rest| - 1..]
  }

  lemma {:induction false} LastHeight(stack: seq<nat>)
    requires stack != [] && NoRepeats(stack)
    ensures HeightOf(stack, stack[|stack| - 1]) == |stack| - 1
  {
    if |stack| > 1 {
      LastHeight(stack[1..]);
    }
  }

  /** The stack without the window. */
  lemma RestFacts(stack: seq<nat>, id: nat, k: nat)
    requires NoRepeats(stack) && Ordinary(stack, id) && k < |stack| && stack[k] == id
    ensures HeightOf(stack, id) == k
    ensures var rest := Without(stack, id);
      && rest == stack[..k] + stack[k + 1..] && |rest| == |stack| - 1 > 0 && 0 < k < |stack| - 1
      && rest[0] == stack[0] && rest[|rest| - 1] == stack[|stack| - 1] && id !in rest && NoRepeats(rest)
  {
    hide Without, HeightOf;
    WithoutLength(stack, id);
    WithoutNone(stack, id);
    HeightIs(stack, id);
    assert HeightOf(stack, id) == k;
  }

  /** Putting a window at the bottom and then at the mouse's height less one raises it. */
  lemma TwoStepsRaise(stack: seq<nat>, id: nat, k: nat)
    requires NoRepeats(stack) && Ordinary(stack, id) && k < |stack| && stack[k] == id
    ensures var mouse, bottom := stack[|stack| - 1], PutAt(stack, id, 0);
      && HeightOf(bottom, mouse) == |stack| - 1
      && PutAt(bottom, id, |stack| - 2) == Raised(stack, id)
  {
    hide Without, HeightOf, NoRepeats;
    RestFacts(stack, id, k);
    var rest := Without(stack, id);
    BottomFacts(rest, id);
    assert rest[..0] + [id] + rest[0..] == [id] + rest;
    LastHeight(rest);
    assert rest[|rest| - 1] in rest;
  }

  /** The same for a window that was not shown. */
  lemma TwoStepsInsert(stack: seq<nat>, id: nat)
    requires NoRepeats(stack) && |stack| > 1 && id !in stack
    ensures var mouse, bottom := stack[|stack| - 1], PutAt(stack, id, 0);
      && HeightOf(bottom, mouse) == |stack|
      && PutAt(bottom, id, |stack| - 1) == Raised(stack, id) == stack[..|stack| - 1] + [id] + stack[|stack| - 1..]
  {
    hide Without, HeightOf, NoRepeats;
    WithoutNone(stack, id);
    BottomFacts(stack, id);
    assert stack[..0] + [id] + stack[0..] == [id] + stack;
    LastHeight(stack);
    assert stack[|stack| - 1] in stack;
  }

  lemma BottomFacts(rest: seq<nat>, id: nat)
    requires id !in rest && rest != []
    ensures Without([id] + rest, id) == rest
    ensures forall x :: x in rest ==> HeightOf([id] + rest, x) == 1 + HeightOf(rest, x)
  {
    WithoutNone(rest, id);
    assert ([id] + rest)[1..] == rest;
  }

  lemma StackedSum(layers: map<nat, Layer>, a: seq<nat>, b: seq<nat>)
    requires forall id :: id in a + b ==> id in layers
    ensures (forall id :: id in a ==> id in layers) && (forall id :: id in b ==> id in layers)
    ensures Stacked(layers, a + b) == Stacked(layers, a) + Stacked(layers, b)
  {
    assert forall id :: id in a ==> id in a + b;
    assert forall id :: id in b ==> id in a + b;
  }

  lemma StackedParts(layers: map<nat, Layer>, s: seq<nat>, k: nat)
    requires (forall id :: id in s ==> id in layers) && k <= |s|
    ensures (forall id :: id in s[..k] ==> id in layers) && (forall id :: id in s[k..] ==> id in layers)
    ensures Stacked(layers, s[..k]) == Stacked(layers, s)[..k] && Stacked(layers, s[k..]) == Stacked(layers, s)[k..]
  {
    assert s == s[..k] + s[k..];
    StackedSum(layers, s[..k], s[k..]);
  }

  /** The layers of a stack from which one is cut out, and put back elsewhere. */
  lemma StackedWithout(layers: map<nat, Layer>, stack: seq<nat>, k: nat)
    requires (forall id :: id in stack ==> id in layers) && k < |stack|
    ensures forall id :: id in stack[..k] + stack[k + 1..] ==> id in layers
    ensures Stacked(layers, stack[..k] + stack[k + 1..]) == Stacked(layers, stack)[..k] + Stacked(layers, stack)[k + 1..]
    ensures stack[k] in layers && Stacked(layers, stack)[k] == layers[stack[k]]
  {
    StackedParts(layers, stack, k);
    StackedParts(layers, stack, k + 1);
    StackedSum(layers, stack[..k], stack[k + 1..]);
  }

  lemma StackedInsert(layers: map<nat, Layer>, rest: seq<nat>, id: nat, m: nat)
    requires (forall id :: id in rest ==> id in layers) && id in layers && m <= |rest|
    ensures forall x :: x in rest[..m] + [id] + rest[m..] ==> x in layers
    ensures Stacked(layers, rest[..m] + [id] + rest[m..]) == Stacked(layers, rest)[..m] + [layers[id]] + Stacked(layers, rest)[m..]
  {
    StackedParts(layers, rest, m);
    assert forall x :: x in rest[..m] + [id] ==> x in layers;
    StackedSum(layers, rest[..m], [id]);
    StackedSum(layers, rest[..m] + [id], rest[m..]);
    assert Stacked(layers, [id]) == [layers[id]];
  }

  /** The raised stack, element by element. */
  lemma RaisedIs(stack: seq<nat>, id: nat, k: nat)
    requires NoRepeats(stack) && Ordinary(stack, id) && k < |stack| && stack[k] == id
    ensures var rest, m := stack[..k] + stack[k + 1..], |stack| - 2;
      && rest == Without(stack, id) && 0 < m < |rest| && Raised(stack, id) == rest[..m] + [id] + rest[m..]
      && |Raised(stack, id)| == |stack| && Raised(stack, id)[m] == id
  {
    hide Without, NoRepeats, HeightOf;
    RestFacts(stack, id, k);
  }

  /** The layers of the raised stack. */
  lemma RaisedLayers(layers: map<nat, Layer>, stack: seq<nat>, id: nat, k: nat)
    requires StackOk(layers, stack) && Ordinary(stack, id) && k < |stack| && stack[k] == id
    ensures |Raised(stack, id)| == |stack| > 2 && Raised(stack, id)[|stack| - 2] == id
    ensures forall x :: x in Raised(stack, id) ==> x in layers
    ensures var shown := Stacked(layers, stack);
      var rest := shown[..k] + shown[k + 1..];
      Stacked(layers, Raised(stack, id)) == rest[..|stack| - 2] + [shown[k]] + rest[|stack| - 2..]
  {
    hide Without, Stacked, NoRepeats, Raised, StackOk;
    Known(layers, stack);
    RaisedIs(stack, id, k);
    StackedWithout(layers, stack, k);
    StackedInsert(layers, stack[..k] + stack[k + 1..], id, |stack| - 2);
  }

  lemma Known(layers: map<nat, Layer>, stack: seq<nat>)
    requires StackOk(layers, stack)
    ensures NoRepeats(stack) && forall id :: id in stack ==> id in layers
  {
    WithoutOk(layers, stack, 0);
  }

  // ---- What raising and closing do to the picture

  /** Raising a repainted opaque window and drawing it and what is above it. */
  lemma RaisedRight(before: Picture, after: Picture, shown: seq<Layer>, k: nat, m: nat, l: Layer, now: seq<Layer>)
    requires Shows(before, shown) && k < |shown| && m < |shown| && l.Valid() && l.Opaque() && l.Area() == shown[k].Area()
    requires var rest := shown[..k] + shown[k + 1..]; now == rest[..m] + [l] + rest[m..]
    requires TransparentOnTop(now) && DrawnTo(before, after, now[m..], l.Area())
    ensures Shows(after, now)
    ensures forall p: Point :: before.Outline().Contains(p) && !l.Area().Contains(p) ==> after.At(p) == before.At(p)
  {
    hide ColorAt, DrawnTo, Picture.At, LayersValid;
    var painted := shown[k := l];
    PaintedValid(shown, k, l);
    assert painted[..k] + painted[k + 1..] == shown[..k] + shown[k + 1..];
    NowValid(painted, now, k, m);
    assert |now| == |shown| && now[m] == l;
    forall p: Point | before.Outline().Contains(p)
      ensures ShowsAt(before, now, p) || (l.Area().Contains(p) && now[m].Opaque() && now[m].Area().Contains(p))
    {
      assert ShowsAt(before, shown, p);
      if !l.Area().Contains(p) {
        NoColorOutside(shown, k, l, p);
        ReplacedElsewhere(shown, k, l, p);
        ReorderedElsewhere(painted, now, k, m, p);
      }
    }
    DrawRestores(before, after, now, m, l.Area());
  }

  /** Putting an opaque window just below the top and drawing it and what is above it. */
  lemma InsertedRight(before: Picture, after: Picture, shown: seq<Layer>, m: nat, l: Layer)
    requires Shows(before, shown) && m < |shown| && l.Valid() && l.Opaque()
    requires TransparentOnTop(shown[..m] + [l] + shown[m..]) && DrawnTo(before, after, (shown[..m] + [l] + shown[m..])[m..], l.Area())
    ensures Shows(after, shown[..m] + [l] + shown[m..])
    ensures forall p: Point :: before.Outline().Contains(p) && !l.Area().Contains(p) ==> after.At(p) == before.At(p)
  {
    hide ColorAt, DrawnTo, Picture.At, LayersValid;
    var now := shown[..m] + [l] + shown[m..];
    PartsValid(shown, m);
    JoinValid(shown[..m], l, shown[m..]);
    assert now[m] == l;
    forall p: Point | before.Outline().Contains(p)
      ensures ShowsAt(before, now, p) || (l.Area().Contains(p) && now[m].Opaque() && now[m].Area().Contains(p))
    {
      assert ShowsAt(before, shown, p);
      if !l.Area().Contains(p) {
        ColorAtWithout(shown[..m], l, shown[m..], p);
      }
    }
    DrawRestores(before, after, now, m, l.Area());
  }

  /** The stack with a new window below the mouse. */
  lemma InsertedStack(layers: map<nat, Layer>, stack: seq<nat>, id: nat, mouse: nat, screen: Rectangle)
    requires StackOk(layers, stack) && MouseOnTop(layers, stack, mouse) && Background(Stacked(layers, stack), screen)
    requires id in layers && id !in stack && layers[id].Opaque()
    ensures NoRepeats(stack) && StackOk(layers, PutAt(stack, id, 0)) && HeightOf(PutAt(stack, id, 0), mouse) == |stack|
    ensures PutAt(PutAt(stack, id, 0), id, |stack| - 1) == Raised(stack, id)
    ensures StackOk(layers, Raised(stack, id)) && |stack| > 1 && |Raised(stack, id)| == |stack| + 1 && Raised(stack, id)[|stack| - 1] == id
    ensures var shown, m := Stacked(layers, stack), |stack| - 1;
      Stacked(layers, Raised(stack, id)) == shown[..m] + [layers[id]] + shown[m..]
    ensures MouseOnTop(layers, Raised(stack, id), mouse) && Ordinary(Raised(stack, id), id)
    ensures Background(Stacked(layers, Raised(stack, id)), screen)
  {
    hide PutAt, HeightOf, Stacked, Without;
    WithoutOk(layers, stack, id);
    PutAtOk(layers, stack, id, 0);
    TwoStepsInsert(stack, id);
    PutAtOk(layers, PutAt(stack, id, 0), id, |stack| - 1);
    StackedInsert(layers, stack, id, |stack| - 1);
    var r := Raised(stack, id);
    StackedFirst(layers, stack, r);
    assert stack[|stack| - 1] in stack;
    forall i | 0 <= i < |r| - 1 ensures layers[r[i]].Opaque() {
      assert r[i] == if i < |stack| - 1 then stack[i] else id;
    }
  }

  /** A layer that is not shown may be repainted freely. */
  lemma RepaintHidden(layers: map<nat, Layer>, stack: seq<nat>, id: nat, mouse: nat, l: Layer)
    requires StackOk(layers, stack) && MouseOnTop(layers, stack, mouse) && id !in stack && l.Valid()
    ensures StackOk(layers[id := l], stack) && MouseOnTop(layers[id := l], stack, mouse)
    ensures Stacked(layers[id := l], stack) == Stacked(layers, stack)
  {
    forall i | 0 <= i < |stack| ensures Stacked(layers[id := l], stack)[i] == Stacked(layers, stack)[i] {
      assert stack[i] in stack;
    }
  }

  lemma NoColorOutside(shown: seq<Layer>, k: nat, l: Layer, p: Point)
    requires LayersValid(shown) && k < |shown| && l.Valid() && l.Area() == shown[k].Area() && !l.Area().Contains(p)
    ensures shown[k].ColorAt(p) == l.ColorAt(p) == None
  {
  }

  lemma PaintedValid(shown: seq<Layer>, k: nat, l: Layer)
    requires LayersValid(shown) && k < |shown| && l.Valid()
    ensures LayersValid(shown[k := l])
  {
  }

  lemma NowValid(layers: seq<Layer>, now: seq<Layer>, k: nat, m: nat)
    requires LayersValid(layers) && k < |layers| && m < |layers|
    requires var rest := layers[..k] + layers[k + 1..]; now == rest[..m] + [layers[k]] + rest[m..]
    ensures LayersValid(now)
  {
    hide Layer.Valid;
  }

  /** With the mouse on top the stack is arranged for drawing. */
  lemma MouseArranges(layers: map<nat, Layer>, stack: seq<nat>, mouse: nat)
    requires StackOk(layers, stack) && MouseOnTop(layers, stack, mouse)
    ensures TransparentOnTop(Stacked(layers, stack))
  {
  }

  /** Raising keeps the background and the mouse where they are. */
  lemma RaisedArranged(layers: map<nat, Layer>, stack: seq<nat>, id: nat, k: nat, mouse: nat, screen: Rectangle)
    requires StackOk(layers, stack) && Ordinary(stack, id) && k < |stack| && stack[k] == id
    requires MouseOnTop(layers, stack, mouse) && Background(Stacked(layers, stack), screen)
    requires StackOk(layers, Raised(stack, id))
    ensures MouseOnTop(layers, Raised(stack, id), mouse) && Ordinary(Raised(stack, id), id)
    ensures Background(Stacked(layers, Raised(stack, id)), screen)
  {
    hide Without, Stacked, NoRepeats, HeightOf;
    WithoutOk(layers, stack, id);
    RestFacts(stack, id, k);
    var rest, r := Without(stack, id), Raised(stack, id);
    assert |r| == |stack| && r[0] == stack[0] && r[|r| - 1] == stack[|stack| - 1] && r[|r| - 2] == id;
    StackedFirst(layers, stack, r);
    forall i | 0 <= i < |r| - 1
      ensures layers[r[i]].Opaque()
    {
      if i < |rest| - 1 {
        assert r[i] == rest[i] == if i < k then stack[i] else stack[i + 1];
      }
    }
  }

  /** A window that may become active, with the look it then has. */
  ghost predicate CanActivate(layers: map<nat, Layer>, stack: seq<nat>, id: nat, on: Picture) {
    && id in layers && layers[id].Opaque() && Selectable(stack, id)
    && Repainted(layers[id].window.picture, on, WHOLE)
  }

  /** Where the steps of an activation lead, for a window in the stack or not. */
  lemma RaiseReady(layers: map<nat, Layer>, stack: seq<nat>, id: nat, mouse: nat, on: Picture, back: Picture)
    requires StackOk(layers, stack) && MouseOnTop(layers, stack, mouse) && CanActivate(layers, stack, id, on)
    requires Background(Stacked(layers, stack), back.Outline())
    ensures var l := layers[id].(window := Window(on, None));
      var now, r := layers[id := l], Raised(stack, id);
      && l.Valid() && l.Opaque() && l.Area() == layers[id].Area() && StackOk(now, stack) && StackOk(now, PutAt(stack, id, 0)) && StackOk(now, r)
      && |r| > 2 && r[|r| - 2] == id && HeightOf(PutAt(stack, id, 0), mouse) - 1 == |r| - 2
      && PutAt(PutAt(stack, id, 0), id, |r| - 2) == r
      && MouseOnTop(now, r, mouse) && Ordinary(r, id)
      && Background(Stacked(now, r), back.Outline()) && TransparentOnTop(Stacked(now, r))
  {
    hide StackOk, Background, TransparentOnTop, Raised, PutAt, MouseOnTop, Repainted, Ordinary, HeightOf, Stacked, Layer.Valid, Layer.Area;
    var l := layers[id].(window := Window(on, None));
    var now := layers[id := l];
    RepaintedValid(layers[id], on);
    if id in stack {
      var k :| 0 <= k < |stack| && stack[k] == id;
      MouseArranges(layers, stack, mouse);
      Deactivated(layers, stack, id, mouse, on);
      RepaintStack(layers, stack, id, k, l, WHOLE, back);
      TwoSteps(now, stack, id, k, mouse);
      RaisedLayers(now, stack, id, k);
      PutAtOk(now, PutAt(stack, id, 0), id, |stack| - 2);
      RaisedArranged(now, stack, id, k, mouse, back.Outline());
    } else {
      RepaintHidden(layers, stack, id, mouse, l);
      InsertedStack(now, stack, id, mouse, back.Outline());
    }
    MouseArranges(now, Raised(stack, id), mouse);
  }

  /** Drawing the activated window and what is above it equals painting everything anew. */
  lemma RaiseRight(before: Picture, after: Picture, layers: map<nat, Layer>, stack: seq<nat>, id: nat, mouse: nat, on: Picture)
    requires StackOk(layers, stack) && MouseOnTop(layers, stack, mouse) && CanActivate(layers, stack, id, on)
    requires Shows(before, Stacked(layers, stack)) && Background(Stacked(layers, stack), before.Outline())
    requires var l := layers[id].(window := Window(on, None));
      var now, r := layers[id := l], Raised(stack, id);
      && StackOk(now, r) && |r| >= 2 && DrawnTo(before, after, Stacked(now, r)[|r| - 2..], l.Area())
    ensures var l := layers[id].(window := Window(on, None));
      && Shows(after, Stacked(layers[id := l], Raised(stack, id)))
      && forall p: Point :: before.Outline().Contains(p) && !l.Area().Contains(p) ==> after.At(p) == before.At(p)
  {
    hide StackOk, Background, TransparentOnTop, Raised, PutAt, MouseOnTop, Repainted, Ordinary, HeightOf, Stacked, Layer.Valid, Layer.Area, Shows, DrawnTo, Picture.At;
    Known(layers, stack);
    var l := layers[id].(window := Window(on, None));
    var now, r, shown := layers[id := l], Raised(stack, id), Stacked(layers, stack);
    RaiseReady(layers, stack, id, mouse, on, before);
    RepaintedValid(layers[id], on);
    if id in stack {
      var k :| 0 <= k < |stack| && stack[k] == id;
      MouseArranges(layers, stack, mouse);
      Deactivated(layers, stack, id, mouse, on);
      RepaintStack(layers, stack, id, k, l, WHOLE, before);
      RaisedLayers(now, stack, id, k);
      var painted := shown[k := l];
      assert painted[..k] + painted[k + 1..] == shown[..k] + shown[k + 1..];
      RaisedRight(before, after, shown, k, |stack| - 2, l, Stacked(now, r));
    } else {
      RepaintHidden(layers, stack, id, mouse, l);
      InsertedStack(now, stack, id, mouse, before.Outline());
      InsertedRight(before, after, shown, |stack| - 1, l);
    }
  }

  /** The window that was active shows its inactive look, the one that is now its active look,
      and no other layer has changed. */
  ghost predicate Redressed(before: map<nat, Layer>, after: map<nat, Layer>, was: nat, now: nat, off: Picture, on: Picture) {
    && after.Keys == before.Keys
    && forall id :: id in after ==>
      after[id] ==
        if now != was && id > 0 && id == now then before[id].(window := Window(on, None))
        else if now != was && id > 0 && id == was then before[id].(window := Window(off, None))
        else before[id]
  }

  /** One layer is gone, and no window is active any more. */
  ghost predicate ClosedFrom(before: map<nat, Layer>, after: map<nat, Layer>, was: nat, gone: nat, off: Picture) {
    && after.Keys == before.Keys - {gone}
    && forall id :: id in after ==> after[id] == if id > 0 && id == was then before[id].(window := Window(off, None)) else before[id]
  }

  class ActiveLayer {
    const manager: LayerManager
    var activeLayer: nat
    const mouseLayer: nat

    constructor (manager: LayerManager, mouseLayer: nat)
      ensures this.manager == manager && this.mouseLayer == mouseLayer && activeLayer == 0
    {
      this.manager, this.mouseLayer, activeLayer := manager, mouseLayer, 0;
    }

    /** The screen is coherent, the mouse on top, and the active window an ordinary one. */
    ghost predicate Ready()
      reads this, manager, manager.screen.buffer, manager.back.buffer
    {
      && manager.Coherent() && MouseOnTop(manager.layers, manager.stack, mouseLayer)
      && (activeLayer > 0 ==> Ordinary(manager.stack, activeLayer))
    }

    /** The active window is drawn as inactive, off being its new look; the window becomes
        active, on being its new look, and goes to just below the mouse. */
    method Activate(layerId: nat, off: Picture, on: Picture)
      requires Ready() && (layerId > 0 ==> CanActivate(manager.layers, manager.stack, layerId, on))
      requires activeLayer > 0 ==> Repainted(manager.layers[activeLayer].window.picture, off, WHOLE)
      modifies this`activeLayer, manager`layers, manager`stack, manager.back.buffer, manager.screen.buffer
      ensures Ready() && activeLayer == layerId
      ensures manager.stack == if layerId == 0 || layerId == old(activeLayer) then old(manager.stack) else Raised(old(manager.stack), layerId)
      ensures manager.layers.Keys == old(manager.layers).Keys
      ensures forall id :: id in manager.layers ==>
        manager.layers[id].pos == old(manager.layers)[id].pos && manager.layers[id].Area() == old(manager.layers)[id].Area()
      ensures Redressed(old(manager.layers), manager.layers, old(activeLayer), layerId, off, on)
    {
      hide StackOk, Background, TransparentOnTop, Shows, Same, Raised, MouseOnTop, Repainted;
      if activeLayer == layerId {
        return;
      }
      if activeLayer > 0 {
        Deactivated(manager.layers, manager.stack, activeLayer, mouseLayer, off);
        manager.Repaint(activeLayer, off, WHOLE);
      }
      activeLayer := layerId;
      if activeLayer > 0 {
        if layerId in manager.stack {
          Deactivated(manager.layers, manager.stack, layerId, mouseLayer, on);
        }
        Raise(layerId, on);
      }
    }

    /** The new active window: repainted, raised or put into the stack, drawn. */
    method Raise(id: nat, on: Picture)
      requires manager.Coherent() && MouseOnTop(manager.layers, manager.stack, mouseLayer)
      requires CanActivate(manager.layers, manager.stack, id, on)
      modifies manager`layers, manager`stack, manager.back.buffer, manager.screen.buffer
      ensures manager.Coherent() && MouseOnTop(manager.layers, manager.stack, mouseLayer) && Ordinary(manager.stack, id)
      ensures manager.stack == Raised(old(manager.stack), id)
      ensures manager.layers == old(manager.layers)[id := old(manager.layers[id]).(window := Window(on, None))]
      ensures manager.layers[id].Area() == old(manager.layers[id].Area())
    {
      hide DrawnTo, Shows, CopiedFrom, WindowArea, StackOk, Background, TransparentOnTop, Picture.At, Raised, PutAt, MouseOnTop, Repainted, Selectable, Ordinary;
      ghost var layers0, stack0 := manager.layers, manager.stack;
      ghost var b0, s0 := manager.back.Image(), manager.screen.Image();
      ghost var l := layers0[id].(window := Window(on, None));
      RaiseReady(layers0, stack0, id, mouseLayer, on, b0);
      manager.layers := manager.layers[id := manager.layers[id].(window := Window(on, None))];
      manager.UpDown(id, 0);
      var h := manager.GetHeight(mouseLayer);
      manager.UpDown(id, h - 1);
      ghost var m := manager.DrawLayer(id, WHOLE);
      SameIndex(manager.layers, manager.stack, m, |manager.stack| - 2);
      WholeWindow(l);
      RaiseRight(b0, manager.back.Image(), layers0, stack0, id, mouseLayer, on);
      ScreenFollows(s0, manager.screen.Image(), b0, manager.back.Image(), l.Area());
    }

    /** A new window is made, and activated. */
    method Open(id: nat, layer: Layer, off: Picture, on: Picture)
      requires Ready() && id > 0 && id !in manager.layers && layer.Valid() && layer.Opaque()
      requires activeLayer > 0 ==> Repainted(manager.layers[activeLayer].window.picture, off, WHOLE)
      requires Repainted(layer.window.picture, on, WHOLE)
      modifies this`activeLayer, manager`layers, manager`stack, manager.back.buffer, manager.screen.buffer
      ensures Ready() && activeLayer == id && manager.layers.Keys == old(manager.layers).Keys + {id}
      ensures manager.stack == Raised(old(manager.stack), id)
      ensures Redressed(old(manager.layers)[id := layer], manager.layers, old(activeLayer), id, off, on)
    {
      hide Background, TransparentOnTop, Shows, Same, Raised, Repainted;
      RepaintHidden(manager.layers, manager.stack, id, mouseLayer, layer);
      manager.layers := manager.layers[id := layer];
      Activate(id, off, on);
    }

    /** Closes a window: nothing is active any more, the layer is gone, its place redrawn. */
    method CloseLayer(id: nat, off: Picture) returns (found: bool)
      requires Ready() && (id in manager.layers ==> Selectable(manager.stack, id))
      requires activeLayer > 0 ==> Repainted(manager.layers[activeLayer].window.picture, off, WHOLE)
      modifies this`activeLayer, manager`layers, manager`stack, manager.back.buffer, manager.screen.buffer
      ensures Ready() && found == (id in old(manager.layers)) && id !in manager.layers
      ensures manager.layers.Keys == old(manager.layers).Keys - {id}
      ensures manager.stack == if found then Without(old(manager.stack), id) else old(manager.stack)
      ensures activeLayer == if found then 0 else old(activeLayer)
      ensures !found ==> manager.layers == old(manager.layers)
      ensures found ==> ClosedFrom(old(manager.layers), manager.layers, old(activeLayer), id, off)
    {
      if id !in manager.layers {
        return false;
      }
      Activate(0, off, off);
      Remove(id);
      found := true;
    }

    /** Takes a window that is not active off the stack, if it is there, and redraws its place. */
    method Remove(id: nat)
      requires Ready() && activeLayer == 0 && id in manager.layers && Selectable(manager.stack, id)
      modifies manager`layers, manager`stack, manager.back.buffer, manager.screen.buffer
      ensures Ready() && manager.layers == old(manager.layers) - {id} && manager.stack == Without(old(manager.stack), id)
    {
      hide DrawnTo, Shows, CopiedFrom, StackOk, Background, TransparentOnTop, Picture.At, MouseOnTop, Without;
      ghost var stack0: seq<nat> := manager.stack;
      ghost var k: nat := 0;
      StackLayers(manager.layers, stack0, id);
      ghost var b0, s0, shown := manager.back.Image(), manager.screen.Image(), manager.Shown();
      var area := manager.layers[id].Area();
      if id in stack0 {
        k :| k < |stack0| && stack0[k] == id;
        LayerAt(manager.layers, stack0, k);
        RemovedStack(manager.layers, stack0, id, k, mouseLayer, b0.Outline());
      } else {
        HiddenRemoved(manager.layers, stack0, id, mouseLayer);
      }
      StackedValid(manager.layers, stack0);
      manager.Hide(id);
      manager.layers := manager.layers - {id};
      manager.DrawArea(area);
      if id in stack0 {
        assert shown == shown[..k] + [shown[k]] + shown[k + 1..];
        RemovedOnce(b0, manager.back.Image(), shown[..k], shown[k], shown[k + 1..]);
      } else {
        RedrawnAll(b0, manager.back.Image(), shown, area);
      }
      ScreenFollows(s0, manager.screen.Image(), b0, manager.back.Image(), area);
    }

    /** A step of the window system: a change inside a window, a drag, a new window, an
        activation, a close. An event that names no fitting window changes nothing. */
    method Do(event: Event)
      requires Ready()
      modifies this`activeLayer, manager`layers, manager`stack, manager.back.buffer, manager.screen.buffer
      ensures Ready()
      ensures !Fits(old(manager.layers), old(manager.stack), old(activeLayer), event) ==>
        manager.stack == old(manager.stack) && manager.layers == old(manager.layers) && activeLayer == old(activeLayer)
      ensures Fits(old(manager.layers), old(manager.stack), old(activeLayer), event) ==>
        && manager.stack == StackAfter(old(manager.layers), old(manager.stack), old(activeLayer), event)
        && manager.layers.Keys == KeysAfter(old(manager.layers).Keys, event)
        && activeLayer == ActiveAfter(old(manager.layers).Keys, old(activeLayer), event)
        && LayersAfter(old(manager.layers), manager.layers, old(activeLayer), event)
    {
      hide Background, TransparentOnTop, Shows, Same, Without, Raised;
      if !Fits(manager.layers, manager.stack, activeLayer, event) {
        return;
      }
      match event
      case Contents(id, paint, area) =>
        OrdinaryOpaque(manager.layers, manager.stack, id, mouseLayer);
        var picture := Painted(manager.layers[id].window.picture, paint, area);
        DrawnOn(manager.layers, manager.stack, id, mouseLayer, picture, area);
        manager.Repaint(id, picture, area);
      case Drag(id, pos) =>
        DraggedArranged(manager.layers, manager.stack, id, mouseLayer, pos);
        manager.CoherentEverywhere(id);
        manager.Move(id, pos);
      case New(id, pos, picture, off, on) =>
        Open(id, Layer(pos, Window(picture, None)), off, on);
      case Select(id, off, on) =>
        Activate(id, off, on);
      case Close(id, off) =>
        var found := CloseLayer(id, off);
    }

    /** Over any run of the window system, drawing only what changed keeps the back buffer and
        the screen as painting the whole stack anew would make them. */
    method Run(events: seq<Event>)
      requires Ready()
      modifies this`activeLayer, manager`layers, manager`stack, manager.back.buffer, manager.screen.buffer
      ensures Ready()
      ensures Shows(manager.back.Image(), manager.Shown()) && Same(manager.screen.Image(), manager.back.Image())
    {
      for i := 0 to |events|
        invariant Ready()
      {
        Do(events[i]);
      }
    }
  }

  datatype Event =
    /** The window is painted over within an area, and that area is redrawn. */
    | Contents(id: nat, paint: Picture, area: Rectangle)
    | Drag(id: nat, pos: Point)
    | New(id: nat, pos: Point, picture: Picture, off: Picture, on: Picture)
    | Select(id: nat, off: Picture, on: Picture)
    | Close(id: nat, off: Picture)

  /** The event names windows that are there, with looks of their sizes. */
  predicate Fits(layers: map<nat, Layer>, stack: seq<nat>, active: nat, event: Event) {
    match event
    case Contents(id, paint, area) =>
      Ordinary(stack, id) && id in layers && layers[id].window.picture.Valid() && paint.Valid() && area.Proper()
    case Drag(id, pos) => id in stack && id != stack[0]
    case New(id, pos, picture, off, on) =>
      id > 0 && id !in layers && picture.Valid() && SameSize(picture, on) && CanRepaint(layers, active, off)
    case Select(id, off, on) =>
      && (id > 0 ==> id in layers && layers[id].Opaque() && Selectable(stack, id))
      && CanRepaint(layers, active, off) && CanRepaint(layers, id, on)
    case Close(id, off) => (id in layers ==> Selectable(stack, id)) && CanRepaint(layers, active, off)
  }

  function StackAfter(layers: map<nat, Layer>, stack: seq<nat>, active: nat, event: Event): seq<nat> {
    match event
    case New(id, _, _, _, _) => Raised(stack, id)
    case Select(id, _, _) => if id == 0 || id == active then stack else Raised(stack, id)
    case Close(id, _) => if id in layers then Without(stack, id) else stack
    case _ => stack
  }

  function KeysAfter(keys: set<nat>, event: Event): set<nat> {
    match event
    case New(id, _, _, _, _) => keys + {id}
    case Close(id, _) => keys - {id}
    case _ => keys
  }

  function ActiveAfter(keys: set<nat>, active: nat, event: Event): nat {
    match event
    case New(id, _, _, _, _) => id
    case Select(id, _, _) => id
    case Close(id, _) => if id in keys then 0 else active
    case _ => active
  }

  /** What an event makes of the layers. */
  ghost predicate LayersAfter(before: map<nat, Layer>, after: map<nat, Layer>, active: nat, event: Event) {
    match event
    case Contents(id, paint, area) =>
      && id in before && id in after && after == before[id := before[id].(window := Window(after[id].window.picture, None))]
      && PaintedOver(before[id].window.picture, after[id].window.picture, paint, area)
    case Drag(id, pos) => id in before && after == before[id := before[id].(pos := pos)]
    case New(id, pos, picture, off, on) => Redressed(before[id := Layer(pos, Window(picture, None))], after, active, id, off, on)
    case Select(id, off, on) => Redressed(before, after, active, id, off, on)
    case Close(id, off) => if id in before then ClosedFrom(before, after, active, id, off) else after == before
  }

  /** Within the area, as far as the paint reaches, the window shows the paint; elsewhere what
      it showed before. */
  ghost predicate PaintedOver(before: Picture, after: Picture, paint: Picture, area: Rectangle) {
    && before.Valid() && after.Valid() && paint.Valid() && after.Outline() == before.Outline()
    && forall p: Point :: before.Outline().Contains(p) ==>
      after.At(p) == if area.Contains(p) && paint.Outline().Contains(p) then paint.At(p) else before.At(p)
  }

  /** A window's picture painted over within an area. */
  method Painted(window: Picture, paint: Picture, area: Rectangle) returns (picture: Picture)
    requires window.Valid() && paint.Valid() && area.Proper()
    ensures Repainted(window, picture, area)
    ensures PaintedOver(window, picture, paint, area)
  {
    hide Picture.At;
    var buffer := new FrameBuffer(window.width, window.height, window.stride);
    buffer.Copy(Point(0, 0), window, window.Outline());
    ghost var before := buffer.Image();
    buffer.Copy(area.pos, paint, area);
    picture := buffer.Image();
    assert forall p: Point :: p.Minus(Point(0, 0)) == p;
  }

  lemma RepaintedValid(l: Layer, on: Picture)
    requires Repainted(l.window.picture, on, WHOLE)
    ensures var r := l.(window := Window(on, None)); r.Valid() && r.Opaque() && r.Area() == l.Area()
  {
  }

  lemma OrdinaryOpaque(layers: map<nat, Layer>, stack: seq<nat>, id: nat, mouse: nat)
    requires StackOk(layers, stack) && MouseOnTop(layers, stack, mouse) && Ordinary(stack, id)
    ensures id in layers && layers[id].Opaque()
  {
    var k :| 0 <= k < |stack| && stack[k] == id;
    assert layers[stack[k]].Opaque();
  }

  lemma DrawnOn(layers: map<nat, Layer>, stack: seq<nat>, id: nat, mouse: nat, picture: Picture, area: Rectangle)
    requires StackOk(layers, stack) && MouseOnTop(layers, stack, mouse) && Ordinary(stack, id)
    requires id in layers && Repainted(layers[id].window.picture, picture, area)
    ensures var now := layers[id := layers[id].(window := Window(picture, None))];
      StackOk(now, stack) && MouseOnTop(now, stack, mouse)
  {
  }

  lemma StackLayers(layers: map<nat, Layer>, stack: seq<nat>, id: nat)
    requires StackOk(layers, stack) && id in layers
    ensures layers[id].Valid()
  {
  }

  /** Taking away a layer that is not shown. */
  lemma HiddenRemoved(layers: map<nat, Layer>, stack: seq<nat>, id: nat, mouse: nat)
    requires StackOk(layers, stack) && MouseOnTop(layers, stack, mouse) && id !in stack
    ensures Without(stack, id) == stack && StackOk(layers - {id}, stack) && MouseOnTop(layers - {id}, stack, mouse)
    ensures Stacked(layers - {id}, stack) == Stacked(layers, stack) && TransparentOnTop(Stacked(layers, stack))
  {
    WithoutNone(stack, id);
    StackedFewer(layers, stack, id);
    MouseArranges(layers, stack, mouse);
  }

  /** Drawing everything again where nothing has changed. */
  lemma RedrawnAll(before: Picture, after: Picture, shown: seq<Layer>, area: Rectangle)
    requires Shows(before, shown) && shown != [] && TransparentOnTop(shown) && DrawnTo(before, after, shown, area)
    ensures Shows(after, shown)
    ensures forall p: Point :: before.Outline().Contains(p) && !area.Contains(p) ==> after.At(p) == before.At(p)
  {
    hide DrawnTo, Picture.At, ColorAt, LayersValid;
    assert shown[0..] == shown;
    forall p: Point | before.Outline().Contains(p) ensures ShowsAt(before, shown, p) {}
    DrawRestores(before, after, shown, 0, area);
  }

  predicate SameSize(a: Picture, b: Picture)
    ensures SameSize(a, b) && a.Valid() ==> Repainted(a, b, WHOLE)
  {
    b.Valid() && b.width == a.width && b.height == a.height
  }

  predicate CanRepaint(layers: map<nat, Layer>, id: nat, picture: Picture) {
    id > 0 ==> id in layers && SameSize(layers[id].window.picture, picture)
  }

  /** The stack without the window is still arranged. */
  lemma RemovedStack(layers: map<nat, Layer>, stack: seq<nat>, id: nat, k: nat, mouse: nat, screen: Rectangle)
    requires StackOk(layers, stack) && Ordinary(stack, id) && k < |stack| && stack[k] == id
    requires MouseOnTop(layers, stack, mouse) && Background(Stacked(layers, stack), screen)
    ensures StackOk(layers - {id}, Without(stack, id))
    ensures var shown := Stacked(layers, stack);
      Stacked(layers - {id}, Without(stack, id)) == shown[..k] + shown[k + 1..]
    ensures MouseOnTop(layers - {id}, Without(stack, id), mouse) && Background(Stacked(layers - {id}, Without(stack, id)), screen)
    ensures TransparentOnTop(Stacked(layers, stack))
  {
    hide Without, Stacked, NoRepeats;
    WithoutOk(layers, stack, id);
    RestFacts(stack, id, k);
    StackedWithout(layers, stack, k);
    MouseArranges(layers, stack, mouse);
    var rest := Without(stack, id);
    StackedFewer(layers, rest, id);
    StackedFirst(layers, stack, rest);
    forall i | 0 <= i < |rest| - 1
      ensures layers[rest[i]].Opaque()
    {
      assert rest[i] == if i < k then stack[i] else stack[i + 1];
    }
  }

  /** Layers that are not in the stack do not matter. */
  lemma StackedFewer(layers: map<nat, Layer>, stack: seq<nat>, id: nat)
    requires StackOk(layers, stack) && id !in stack
    ensures StackOk(layers - {id}, stack) && Stacked(layers - {id}, stack) == Stacked(layers, stack)
  {
    forall i | 0 <= i < |stack|
      ensures Stacked(layers - {id}, stack)[i] == Stacked(layers, stack)[i]
    {
      assert stack[i] in stack;
    }
  }

  /** Stacks with the same bottom have the same background. */
  lemma StackedFirst(layers: map<nat, Layer>, stack: seq<nat>, other: seq<nat>)
    requires StackOk(layers, stack) && StackOk(layers, other) && stack != [] && other != [] && stack[0] == other[0]
    ensures Stacked(layers, stack)[0] == Stacked(layers, other)[0]
  {
    assert stack[0] in stack;
  }

  lemma DraggedArranged(layers: map<nat, Layer>, stack: seq<nat>, id: nat, mouse: nat, pos: Point)
    requires StackOk(layers, stack) && MouseOnTop(layers, stack, mouse) && id in stack
    ensures id in layers && var now := layers[id := layers[id].(pos := pos)];
      StackOk(now, stack) && MouseOnTop(now, stack, mouse)
  {
  }

  /** Repainting an ordinary window keeps the mouse on top. */
  lemma Deactivated(layers: map<nat, Layer>, stack: seq<nat>, id: nat, mouse: nat, picture: Picture)
    requires StackOk(layers, stack) && MouseOnTop(layers, stack, mouse) && Ordinary(stack, id)
    requires Repainted(layers[id].window.picture, picture, WHOLE)
    ensures id in layers && layers[id].Opaque()
    ensures var now := layers[id := layers[id].(window := Window(picture, None))];
      StackOk(now, stack) && MouseOnTop(now, stack, mouse) && now[id].Area() == layers[id].Area() && now[id].Valid()
  {
    var k :| 0 <= k < |stack| && stack[k] == id;
    assert layers[stack[k]].Opaque();
  }

  lemma TwoSteps(layers: map<nat, Layer>, stack: seq<nat>, id: nat, k: nat, mouse: nat)
    requires StackOk(layers, stack) && MouseOnTop(layers, stack, mouse) && Ordinary(stack, id) && k < |stack| && stack[k] == id
    ensures id in layers && StackOk(layers, PutAt(stack, id, 0))
    ensures HeightOf(PutAt(stack, id, 0), mouse) == |stack| - 1 && |stack| >= 3
    ensures PutAt(PutAt(stack, id, 0), id, |stack| - 2) == Raised(stack, id)
  {
    hide PutAt, Raised, HeightOf;
    PutAtOk(layers, stack, id, 0);
    RestFacts(stack, id, k);
    TwoStepsRaise(stack, id, k);
  }
}
