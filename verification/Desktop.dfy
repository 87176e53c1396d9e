/** The desktop at start-up (kernel/main.cpp, kernel/graphic/layer.cpp, kernel/io/mouse.cpp):
    how the window system comes to a coherent screen. */
module Desktop {
  import opened Common
  import opened Rectangles
  import opened FrameBuffers
  import opened Layers
  import opened Compositor
  import opened ActiveLayers

  const BACKGROUND: nat := 1
  const CONSOLE: nat := 2
  const MOUSE: nat := 3
  const TOP: int := 0x7fff_ffff

  lemma Heights()
    ensures PutAt([], BACKGROUND, 0) == [BACKGROUND]
    ensures PutAt([BACKGROUND], CONSOLE, 1) == [BACKGROUND, CONSOLE]
    ensures PutAt([BACKGROUND, CONSOLE], MOUSE, TOP) == [BACKGROUND, CONSOLE, MOUSE]
  {
    WithoutNone([BACKGROUND], CONSOLE);
    WithoutNone([BACKGROUND, CONSOLE], MOUSE);
  }

  /** The background of the screen's size and the console, and everything drawn. */
  method InitializeLayer(screen: FrameBuffer, background: Picture, console: Picture) returns (manager: LayerManager)
    requires screen.Valid() && background.Valid() && console.Valid()
    requires background.Outline() == screen.Image().Outline()
    modifies screen.buffer
    ensures fresh(manager) && fresh(manager.back) && fresh(manager.back.buffer) && manager.screen == screen
    ensures manager.Coherent() && manager.stack == [BACKGROUND, CONSOLE]
    ensures manager.layers == map[BACKGROUND := Layer(Point(0, 0), Window(background, None)), CONSOLE := Layer(Point(0, 0), Window(console, None))]
  {
    hide DrawnTo, CopiedFrom, Picture.At, Shows, Same, PutAt, Without;
    manager := new LayerManager(screen);
    manager.layers := map[BACKGROUND := Layer(Point(0, 0), Window(background, None)), CONSOLE := Layer(Point(0, 0), Window(console, None))];
    Heights();
    manager.UpDown(BACKGROUND, 0);
    manager.UpDown(CONSOLE, 1);
    ghost var b0, s0 := manager.back.Image(), manager.screen.Image();
    ghost var shown := manager.Shown();
    var area := Rectangle(Point(0, 0), Point(screen.width, screen.height));
    manager.DrawArea(area);
    AllDrawn(b0, manager.back.Image(), shown, area);
    ScreenFollows(s0, manager.screen.Image(), b0, manager.back.Image(), area);
  }

  /** Drawing everything makes the picture right, whatever it showed before. */
  lemma AllDrawn(before: Picture, after: Picture, shown: seq<Layer>, area: Rectangle)
    requires LayersValid(shown) && TransparentOnTop(shown) && Background(shown, area) && before.Outline() == area
    requires DrawnTo(before, after, shown, area)
    ensures Shows(after, shown)
  {
    hide DrawnTo, Picture.At, ColorAt;
    assert shown[0..] == shown;
    forall p: Point | before.Outline().Contains(p) ensures area.Contains(p) && shown[0].Opaque() && shown[0].Area().Contains(p) {}
    DrawRestores(before, after, shown, 0, area);
  }

  /** The mouse layer on top. It is not drawn yet: the screen is coherent but where it is. */
  method InitializeMouse(manager: LayerManager, cursor: Window) returns (active: ActiveLayer)
    requires manager.Coherent() && manager.stack == [BACKGROUND, CONSOLE]
    requires manager.layers.Keys == {BACKGROUND, CONSOLE} && manager.layers[CONSOLE].Opaque()
    requires cursor.picture.Valid()
    modifies manager`layers, manager`stack
    ensures fresh(active) && active.manager == manager && active.mouseLayer == MOUSE && active.activeLayer == 0
    ensures manager.CoherentBut(MOUSE) && manager.stack == [BACKGROUND, CONSOLE, MOUSE]
    ensures MouseOnTop(manager.layers, manager.stack, MOUSE)
    ensures manager.layers == old(manager.layers)[MOUSE := Layer(Point(200, 200), cursor)]
  {
    hide Picture.At, Same, PutAt, Without;
    ghost var back, shown := manager.back.Image(), manager.Shown();
    manager.layers := manager.layers[MOUSE := Layer(Point(200, 200), cursor)];
    Heights();
    manager.UpDown(MOUSE, TOP);
    assert manager.Shown() == shown + [manager.layers[MOUSE]];
    NotYetDrawn(back, shown, manager.layers[MOUSE]);
    active := new ActiveLayer(manager, MOUSE);
  }

  /** A layer on top that is not drawn yet matters where it is, and only there. */
  lemma NotYetDrawn(picture: Picture, shown: seq<Layer>, l: Layer)
    requires Shows(picture, shown) && l.Valid()
    ensures ShowsBut(picture, shown + [l], l.Area())
  {
    hide Picture.At, ColorAt;
    forall p: Point | picture.Outline().Contains(p) && !l.Area().Contains(p)
      ensures ShowsAt(picture, shown + [l], p)
    {
      assert ShowsAt(picture, shown, p);
      assert shown + [l] == shown + [l] + [] && shown == shown + [];
      ColorAtWithout(shown, l, [], p);
    }
  }

  /** From the first move of the mouse on, the window system is ready for any run. */
  method StartDesktop(screen: FrameBuffer, background: Picture, console: Picture, cursor: Window, pos: Point) returns (active: ActiveLayer)
    requires screen.Valid() && background.Valid() && console.Valid() && cursor.picture.Valid()
    requires background.Outline() == screen.Image().Outline()
    modifies screen.buffer
    ensures fresh(active) && fresh(active.manager) && fresh(active.manager.back.buffer) && active.manager.screen == screen
    ensures active.Ready() && active.activeLayer == 0 && active.manager.stack == [BACKGROUND, CONSOLE, MOUSE]
    ensures MOUSE in active.manager.layers && active.manager.layers[MOUSE] == Layer(pos, cursor)
  {
    hide DrawnTo, CopiedFrom, Picture.At, Shows, ShowsBut, Same, Background, TransparentOnTop;
    var manager := InitializeLayer(screen, background, console);
    active := InitializeMouse(manager, cursor);
    manager.Move(MOUSE, pos);
  }
}
