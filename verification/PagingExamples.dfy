/** Where private memory and mapped files fail: whole machines, from power-on to the failure. */
module PagingExamples {
  import opened Common
  import opened PageMapEntry
  import opened PageTree
  import opened Isolation
  import opened FlatMemory
  import opened Paging
  import opened AppRuns
  import MM = MemoryManager

  // ---- Enough memory

  function FirstFrames(n: nat): set<nat> {
    if n == 0 then {} else FirstFrames(n - 1) + {n - 1}
  }

  lemma {:induction false} FirstFramesAre(n: nat)
    ensures |FirstFrames(n)| == n && forall f: nat :: f in FirstFrames(n) <==> f < n
  {
    if n > 0 {
      FirstFramesAre(n - 1);
    }
  }

  lemma SubsetSize<T>(a: set<T>, b: set<T>)
    requires a <= b
    ensures |a| <= |b|
  {
    assert b == a + (b - a);
  }

  lemma SumSize<T>(a: set<T>, b: set<T>)
    ensures |a + b| <= |a| + |b|
  {
    assert a + b == a + (b - a);
    SubsetSize(b - a, b);
  }

  function FramesOf(tree: Tree, nodes: seq<Node>): (f: set<nat>)
    ensures |f| <= |nodes|
  {
    if nodes == [] then {}
    else
      SumSize(FramesOf(tree, nodes[1..]), if nodes[0] in tree then {tree[nodes[0]]} else {});
      FramesOf(tree, nodes[1..]) + if nodes[0] in tree then {tree[nodes[0]]} else {}
  }

  lemma {:induction false} FrameOf(tree: Tree, nodes: seq<Node>, n: Node)
    requires n in tree && n in nodes
    ensures tree[n] in FramesOf(tree, nodes)
  {
    if nodes[0] != n {
      FrameOf(tree, nodes[1..], n);
    }
  }

  /** A tree has no more frames than nodes. */
  lemma ValuesSize(tree: Tree, nodes: seq<Node>)
    requires forall n :: n in tree ==> n in nodes
    ensures |tree.Values| <= |nodes|
  {
    forall f | f in tree.Values ensures f in FramesOf(tree, nodes) {
      var n :| n in tree && tree[n] == f;
      FrameOf(tree, nodes, n);
    }
    SubsetSize(tree.Values, FramesOf(tree, nodes));
  }

  /** The whole memory is managed, and one frame is the kernel's. */
  ghost predicate Roomy(m: Machine)
    reads m, m.memoryManager
  {
    m.memoryManager.rangeBegin == 0 && m.memoryManager.rangeEnd == MM.FRAME_COUNT && |m.base| == 1
  }

  lemma NotFull(m: Machine, nodes: seq<Node>)
    requires m.Valid() && Roomy(m) && |nodes| < 100 && forall n :: n in m.tree ==> n in nodes
    ensures !m.Full()
  {
    hide Shape, FirstFrames;
    ValuesSize(m.tree, nodes);
    SumSize(m.base, m.tree.Values);
    FirstFramesAre(101);
    if FirstFrames(101) <= m.memoryManager.used {
      SubsetSize(FirstFrames(101), m.memoryManager.used);
    }
  }

  // ---- The nodes of one page, and of the stack

  function Path(s: nat, v: nat): (p: seq<Node>)
    ensures |p| == 5
  {
    [Root(s), Node(s, 0, v), Node(s, 1, Prefix(v, 1)), Node(s, 2, Prefix(v, 2)), Node(s, 3, Prefix(v, 3))]
  }

  lemma OnePath(n: Node, s: nat, v: nat)
    requires NewNode(n, s, 4, v, v + 1)
    ensures n in Path(s, v)
  {}

  function StackNodes(s: nat): (p: seq<Node>)
    ensures |p| == 20
  {
    seq(STACK_PAGES + 1, (i: nat) => Node(s, 0, STACK_BEGIN + i))
      + [Node(s, 1, Prefix(STACK_BEGIN, 1)), Node(s, 2, Prefix(STACK_BEGIN, 2)), Node(s, 3, Prefix(STACK_BEGIN, 3))]
  }

  lemma OneStackTable()
    ensures Prefix(VPN_COUNT - 1, 1) == Prefix(STACK_BEGIN, 1)
    ensures Prefix(VPN_COUNT - 1, 2) == Prefix(STACK_BEGIN, 2)
    ensures Prefix(VPN_COUNT - 1, 3) == Prefix(STACK_BEGIN, 3)
  {
    assert (VPN_COUNT - 1) / 512 == STACK_BEGIN / 512;
  }

  lemma InStack(n: Node, s: nat)
    requires NewNode(n, s, 4, STACK_BEGIN, VPN_COUNT)
    ensures n in StackNodes(s)
  {
    OneStackTable();
    if n.level == 0 {
      assert StackNodes(s)[n.prefix - STACK_BEGIN] == n;
    } else {
      assert StackNodes(s)[STACK_PAGES + n.level] == n;
    }
  }

  lemma ImagePath(tree: Tree, t: nat, seg: Segment)
    requires ImageNodes(tree, t, [seg]) && seg.pages == 1 && forall n :: n in tree ==> n.space == t
    ensures forall n :: n in tree ==> n in Path(t, seg.addr.Vpn())
  {
    forall n | n in tree ensures n in Path(t, seg.addr.Vpn()) {
      if n != Root(t) {
        assert InSegments(n, t, [seg]);
        OnePath(n, t, seg.addr.Vpn());
      }
    }
  }

  lemma MirrorPath(n: Node, d: nat, t: nat, v: nat)
    requires n == Root(d) || (n.space == d && n.level >= 1 && Node(t, n.level, n.prefix) in Path(t, v))
    ensures n in Path(d, v)
  {}

  lemma StartPath(tree: Tree, tree': Tree, kinds: Kinds, d: nat, t: nat, v: nat)
    requires StartNodes(tree, tree', d, t) && d != t
    requires forall n :: n in tree ==> n in Path(t, v) && NodeOk(n, tree, kinds)
    ensures forall n :: n in tree' ==> n in Path(t, v) + Path(d, v) + StackNodes(d)
  {
    hide StackNodes, NewNode, Path;
    forall n | n in tree' ensures n in Path(t, v) + Path(d, v) + StackNodes(d) {
      if n !in tree {
        if NewNode(n, d, 4, STACK_BEGIN, VPN_COUNT) {
          InStack(n, d);
        } else {
          MirrorPath(n, d, t, v);
        }
      }
    }
  }

  lemma ShapeNodes(ram: Ram, tree: Tree, kinds: Kinds)
    requires Shape(ram, tree, kinds)
    ensures forall n :: n in tree ==> NodeOk(n, tree, kinds)
  {}

  // ---- A machine with one image and one application

  /** All memory is free but the kernel's root table. */
  method PowerOn() returns (m: Machine)
    ensures fresh(m) && fresh(m.memoryManager) && fresh(m.memoryManager.allocMap)
    ensures m.Inv() && Roomy(m) && m.tree == map[] && m.kinds == map[] && m.appLoads == map[] && m.tasks == map[]
  {
    var mm := new MM.BitmapMemoryManager();
    var r := mm.Allocate(1);
    assert MM.FreeRun({}, 0, 1, MM.FRAME_COUNT);
    assert MM.InRun(r.start, r.start, 1);
    assert MM.Frames(r.start, 1) == {r.start};
    var contents: Ram := seq(MM.FRAME_COUNT, _ => ZeroFrame());
    m := new Machine(mm, contents, r.start, map[]);
  }

  lemma OnlyImage(ram0: Ram, ram: Ram, tree: Tree, kinds: Kinds, base: set<nat>)
    requires OnlySpace(ram0, map[], map[], ram, tree, kinds, base, 0)
    ensures (forall n :: n in tree ==> n.space == 0) && 1 !in kinds
  {
    hide View, Leaf;
  }

  lemma AfterLoad(m: Machine, ram0: Ram, seg: Segment)
    requires m.Inv() && Roomy(m) && OnlySpace(ram0, map[], map[], m.ram, m.tree, m.kinds, m.base, 0)
    requires ImageNodes(m.tree, 0, [seg]) && seg.pages == 1
    ensures !m.Full() && forall n :: n in m.tree ==> n in Path(0, seg.addr.Vpn()) && NodeOk(n, m.tree, m.kinds)
    ensures 1 !in m.kinds
  {
    hide Shape, View, Leaf, ImageNodes, Path, OnlySpace, Separated, RootsOk, NodeOk, Machine.Full;
    OnlyImage(ram0, m.ram, m.tree, m.kinds, m.base);
    ImagePath(m.tree, 0, seg);
    NotFull(m, Path(0, seg.addr.Vpn()));
    ShapeNodes(m.ram, m.tree, m.kinds);
  }

  lemma OnePageImage(seg: Segment, q: nat)
    requires seg.pages == 1 && seg.words == []
    ensures ImagePage([seg], q) == if q == seg.addr.Vpn() then Some(ZeroFrame()) else None
  {
    hide LinearAddress4Level.Vpn;
    assert [seg][..0] == [] && [seg][|[seg]| - 1] == seg;
    assert ImagePage([], q) == None;
  }

  lemma OneImage(m: Machine, seg: Segment)
    requires m.Inv() && 0 in m.appLoads && ImageLoaded(m.ram, m.tree, 0, [seg])
    requires SegmentOk(seg) && seg.pages == 1 && seg.words == []
    ensures 0 in m.kinds && m.kinds[0] == Template
    ensures forall q: nat :: View(m.ram, m.tree, 0, q) == if q == seg.addr.Vpn() then Some(ZeroFrame()) else None
    ensures seg.addr.Vpn() < STACK_BEGIN ==> ClearFrom(m.ram, m.tree, 0, STACK_BEGIN)
    ensures seg.addr.Vpn() >= STACK_BEGIN ==>
      && Leaf(m.ram, m.tree, 0, seg.addr.Vpn()).Some? && !ClearFrom(m.ram, m.tree, 0, STACK_BEGIN)
  {
    hide Shape, View, Leaf, Separated, RootsOk;
    LoadOf(m.ram, m.tree, m.kinds, m.base, m.tasks, m.appLoads, m.cr3, m.kernelRoot, 0);
    forall q: nat ensures View(m.ram, m.tree, 0, q) == if q == seg.addr.Vpn() then Some(ZeroFrame()) else None {
      assert View(m.ram, m.tree, 0, q) == ImagePage([seg], q);
      OnePageImage(seg, q);
    }
    MappedIsSeen(m.ram, m.tree, m.kinds, 0, seg.addr.Vpn());
    forall q: nat | q != seg.addr.Vpn() ensures Leaf(m.ram, m.tree, 0, q) == None {
      MappedIsSeen(m.ram, m.tree, m.kinds, 0, q);
    }
  }

  lemma AfterLaunch(m: Machine, tree1: Tree, kinds1: Kinds, v: nat)
    requires m.Valid() && Roomy(m) && StartNodes(tree1, m.tree, 1, 0)
    requires forall n :: n in tree1 ==> n in Path(0, v) && NodeOk(n, tree1, kinds1)
    ensures !m.Full() && forall n :: n in m.tree ==> n in Path(0, v) + Path(1, v) + StackNodes(1)
  {
    hide Shape, StartNodes;
    StartPath(tree1, m.tree, kinds1, 1, 0, v);
    NotFull(m, Path(0, v) + Path(1, v) + StackNodes(1));
  }

  lemma OneApp(m: Machine, ram1: Ram, tree1: Tree, kinds1: Kinds, v: nat)
    requires OnlySpace(ram1, tree1, kinds1, m.ram, m.tree, m.kinds, m.base, 1) && StartedFrom(ram1, tree1, m.ram, m.tree, 1, 0)
    requires forall q: nat :: View(ram1, tree1, 0, q) == if q == v then Some(ZeroFrame()) else None
    ensures View(m.ram, m.tree, 0, v) == Some(ZeroFrame())
    ensures forall q: nat :: USER_BEGIN <= q < STACK_BEGIN ==> View(m.ram, m.tree, 1, q) == if q == v then Some(ZeroFrame()) else None
  {
    hide View, Leaf;
    forall q: nat | USER_BEGIN <= q < STACK_BEGIN
      ensures View(m.ram, m.tree, 1, q) == if q == v then Some(ZeroFrame()) else None
    {
      assert View(m.ram, m.tree, 1, q) == StartPage(View(ram1, tree1, 0, q), q);
    }
  }

  lemma OneAppShares(m: Machine, tree1: Tree, v: nat)
    requires m.Valid() && StartNodes(tree1, m.tree, 1, 0) && forall n :: n in tree1 ==> n in Path(0, v)
    requires USER_BEGIN <= v < STACK_BEGIN ==> View(m.ram, m.tree, 1, v).Some?
    ensures USER_BEGIN <= v < STACK_BEGIN ==> Shared(m.ram, m.tree, 1, v)
  {
    hide Shape, View, Leaf;
    MappedIsSeen(m.ram, m.tree, m.kinds, 1, v);
    if Node(1, 0, v) in m.tree {
      assert Node(1, 0, v) !in Path(0, v);
    }
  }

  /** The image 0 of one zeroed page, and the application 1 started from it. Memory suffices. */
  method StartOne(seg: Segment) returns (m: Machine)
    requires SegmentOk(seg) && seg.pages == 1 && seg.words == []
    ensures fresh(m) && fresh(m.memoryManager) && fresh(m.memoryManager.allocMap)
    ensures m.Valid() && m.Roots() && Roomy(m) && 0 in m.appLoads && 1 in m.tasks && m.cr3 == m.tasks[1].cr3
    ensures 1 in m.kinds && m.kinds[1] == App(0) && 0 in m.kinds && m.kinds[0] == Template
    ensures m.tasks[1] == FirstAreas(USER_BEGIN * 4096).(cr3 := m.cr3)
    ensures forall n :: n in m.tree ==> n in Path(0, seg.addr.Vpn()) + Path(1, seg.addr.Vpn()) + StackNodes(1)
    ensures var v := seg.addr.Vpn();
      && View(m.ram, m.tree, 0, v) == Some(ZeroFrame())
      && (forall q: nat :: USER_BEGIN <= q < STACK_BEGIN && q != v ==> View(m.ram, m.tree, 1, q) == None)
      && (v < STACK_BEGIN ==> m.Inv() && Shared(m.ram, m.tree, 1, v))
      && (v >= STACK_BEGIN ==> !Separated(m.ram, m.tree, m.kinds) && WritesThrough(m.ram, m.tree, 1, v))
  {
    hide Machine.Inv, Machine.Valid, Separated, OnlySpace, Shape, View, Leaf, ImageNodes, StartNodes, Machine.Full, ImageLoaded,
      StartedFrom, ClearFrom, Path, StackNodes, WritesThrough, Shared, Machine.Roots, LinearAddress4Level.Vpn;
    m := PowerOn();
    ghost var v := seg.addr.Vpn();
    ghost var ram0 := m.ram;
    var err := m.LoadImage(0, [seg]);
    AfterLoad(m, ram0, seg);
    if err != Success {
      assert false;
    }
    ghost var ram1, tree1, kinds1 := m.ram, m.tree, m.kinds;
    OneImage(m, seg);
    err := m.LaunchApp(1, 0, USER_BEGIN * 4096);
    AfterLaunch(m, tree1, kinds1, v);
    if err != Success {
      assert false;
    }
    OneApp(m, ram1, tree1, kinds1, v);
    OneAppShares(m, tree1, v);
  }

  // ---- The failures

  /** The first word of page v of image t, as its root table finds it. */
  method ImageWord(m: Machine, t: nat, v: nat) returns (w: Word)
    requires m.Valid() && m.Roots() && t in m.appLoads && USER_BEGIN <= v < VPN_COUNT && View(m.ram, m.tree, t, v).Some?
    ensures w == View(m.ram, m.tree, t, v).value[0]
  {
    hide Machine.Allocator, Machine.Accounted, Shape, RootsOk, Leaf, View;
    LoadOf(m.ram, m.tree, m.kinds, m.base, m.tasks, m.appLoads, m.cr3, m.kernelRoot, t);
    WithinAll(v, 0);
    WalkFindsLeaf(m.ram, m.tree, m.kinds, t, 4, v);
    MappedIsSeen(m.ram, m.tree, m.kinds, t, v);
    SeenAs(m.ram, m.tree, m.kinds, t, v);
    var at := Walk(m.ram, m.appLoads[t], 4, v);
    w := m.ram[at.value.frame][0];
  }

  lemma ValidAndRooted(m: Machine)
    requires m.Inv()
    ensures m.Valid() && m.Roots()
  {}

  lemma NoMoreNodes(tree: Tree, tree': Tree, nodes: seq<Node>, s: nat, v: nat)
    requires (forall n :: n in tree ==> n in nodes) && Added(tree, tree', s, v, v + 1)
    ensures forall n :: n in tree' ==> n in nodes + Path(s, v)
  {
    hide Path, NewNode;
    forall n | n in tree' ensures n in nodes + Path(s, v) {
      if n !in tree { OnePath(n, s, v); }
    }
  }

  lemma SharedShows(m: Machine, s: nat, v: nat)
    requires m.Valid() && Shared(m.ram, m.tree, s, v)
    ensures View(m.ram, m.tree, s, v).Some?
  {
    hide Shape, View, Leaf;
    MappedIsSeen(m.ram, m.tree, m.kinds, s, v);
  }

  /** A system call writes into a page of the application that the application has not written
      itself: the cached image is changed, and with it every later run. */
  method KernelStoreExample(w: Word) returns (before: Word, after: Word)
    ensures before == ZERO_WORD && after == w
  {
    hide Machine.Inv, Machine.Valid, Machine.Roots, Separated, OnlySpace, Shape, View, Leaf, Machine.Full, WritesThrough, Shared,
      OthersSeeTheSame, Served, Prefix, Added;
    var v := USER_BEGIN;
    var seg := Segment(LinearAddress4Level(0, 0, 0, 0, 256), 1, []);
    var m := StartOne(seg);
    ValidAndRooted(m);
    before := ImageWord(m, 0, v);
    ghost var nodes := Path(0, v) + Path(1, v) + StackNodes(1);
    ghost var tree1 := m.tree;
    SharedShows(m, 1, v);
    var ok := m.KernelStoreWord(1, v * 4096, 0, w);
    ValidAndRooted(m);
    NoMoreNodes(tree1, m.tree, nodes, 1, v);
    NotFull(m, nodes + Path(1, v));
    if !ok {
      assert false;
    }
    after := ImageWord(m, 0, v);
  }

  /** An image with a segment on a stack page: the application's stack is the image's page. */
  method StackImageExample(w: Word) returns (before: Word, after: Word)
    ensures before == ZERO_WORD && after == w
  {
    hide Machine.Inv, Machine.Valid, Machine.Roots, Separated, OnlySpace, Shape, View, Leaf, Machine.Full, WritesThrough, Path, StackNodes,
      Machine.Accounted, MM.BitmapMemoryManager.Valid, RootsOk, Walk;
    var v := STACK_BEGIN;
    var seg := Segment(LinearAddress4Level(0, 511 - STACK_PAGES, 511, 511, 511), 1, []);
    var m := StartOne(seg);
    before := ImageWord(m, 0, v);
    StackIsShared(m, v);
    StackFacts(m);
    // A user-mode store: the page is writable.
    var to := Walk(m.ram, m.cr3, 4, v);
    assert to.Some? && to.value.writable && to.value.user;
    ghost var ram0, frame := m.ram, m.ram[to.value.frame][0 := w];
    m.ram := m.ram[to.value.frame := m.ram[to.value.frame][0 := w]];
    StackStored(m, ram0, frame, v);
    after := ImageWord(m, 0, v);
  }

  lemma StackIsShared(m: Machine, v: nat)
    requires m.Valid() && m.Roots() && 1 in m.tasks && m.cr3 == m.tasks[1].cr3 && WritesThrough(m.ram, m.tree, 1, v)
    requires USER_BEGIN <= v < VPN_COUNT
    ensures var t := Walk(m.ram, m.cr3, 4, v);
      t.Some? && t.value.writable && t.value.user && t.value.frame < |m.ram| && t.value.frame == Leaf(m.ram, m.tree, 1, v).value.addr
    ensures Leaf(m.ram, m.tree, 1, v).Some?
  {
    hide Machine.Allocator, Machine.Accounted, Shape, RootsOk, Leaf, AreasOk;
    TaskIsNoLoad(m.ram, m.tree, m.kinds, m.base, m.tasks, m.appLoads, m.cr3, m.kernelRoot, 1);
    WithinAll(v, 0);
    WalkFindsLeaf(m.ram, m.tree, m.kinds, 1, 4, v);
    LeafEntry(m.ram, m.tree, m.kinds, 1, v);
    SeenAs(m.ram, m.tree, m.kinds, 1, v);
  }

  lemma StackFacts(m: Machine)
    requires m.Valid() && m.Roots()
    ensures Shape(m.ram, m.tree, m.kinds) && |m.ram| == MM.FRAME_COUNT && m.memoryManager.Valid() && m.Accounted()
    ensures RootsOk(m.ram, m.tree, m.kinds, m.base, m.tasks, m.appLoads, m.cr3, m.kernelRoot)
  {}

  lemma StackStored(m: Machine, ram0: Ram, frame: Frame, v: nat)
    requires Shape(ram0, m.tree, m.kinds) && |ram0| == MM.FRAME_COUNT && m.memoryManager.Valid() && m.Accounted()
    requires RootsOk(ram0, m.tree, m.kinds, m.base, m.tasks, m.appLoads, m.cr3, m.kernelRoot)
    requires WritesThrough(ram0, m.tree, 1, v) && 1 in m.kinds && m.kinds[1] == App(0)
    requires Leaf(ram0, m.tree, 1, v).value.addr < |ram0| && m.ram == ram0[Leaf(ram0, m.tree, 1, v).value.addr := frame]
    ensures m.Valid() && m.Roots() && View(m.ram, m.tree, 0, v) == Some(frame)
  {
    hide Machine.Accounted, Shape, RootsOk, Leaf, LeavesKept;
    LeafHolder(ram0, m.tree, m.kinds, 1, v);
    var h := Holder(m.tree, m.kinds, 1, v);
    StoreKeepsShape(ram0, m.tree, m.kinds, h, frame, m.ram);
    StoreKeepsLeaves(ram0, m.tree, m.ram, h);
    LeafKept(ram0, m.tree, m.ram, m.tree, 1, v);
    SharedSees(m.ram, m.tree, m.kinds, 1, v);
    SameRoots(ram0, m.ram, m.tree, m.kinds, m.base, m.tasks, m.appLoads, m.cr3, m.kernelRoot);
  }

  /** The heap has grown up to the stack, over the file. */
  lemma GrownServed(t: TaskMemory, files: Files, cr3: nat)
    requires t == WithFile(FirstAreas(USER_BEGIN * 4096).(cr3 := cr3), 0, 1).(dpagingEnd := STACK_BEGIN * 4096)
    ensures Served(t, files, STACK_BEGIN - 1) == Some(ZeroFrame())
  {
    hide FirstMapping, FilePage;
  }

  lemma FirstFileWord()
    ensures FilePage([7], 0)[0] != ZERO_WORD
  {
    hide AddrOf, OtherOf;
    assert WordAt([7], 0).present;
  }

  /** A file is mapped, and then the heap grows over it: its page reads as zeroes. */
  method GrownOverExample() returns (w: Word, file: Word)
    ensures w == ZERO_WORD && file != ZERO_WORD
  {
    hide Machine.Inv, Machine.Valid, Machine.Roots, Separated, OnlySpace, Shape, View, Leaf, Machine.Full, WritesThrough, Shared, Prefix, Added,
      Path, StackNodes, FilePage, Served, FirstMapping;
    var seg := Segment(LinearAddress4Level(0, 0, 0, 0, 256), 1, []);
    var m := StartOne(seg);
    m.WriteFile(0, [7]);
    var begin := m.MapFile(1, 0);
    file := FilePage(Content(m.files, 0), 0)[0];
    FirstFileWord();
    var q: nat := STACK_BEGIN - 1;
    assert begin == q * 4096;
    var heap := m.DemandPages(1, STACK_BEGIN - USER_BEGIN);
    GrownServed(m.tasks[1], m.files, m.tasks[1].cr3);
    ghost var tree1 := m.tree;
    ghost var nodes := Path(0, USER_BEGIN) + Path(1, USER_BEGIN) + StackNodes(1);
    var ok;
    ok, w := m.ReadWord(1, begin, 0);
    NoMoreNodes(tree1, m.tree, nodes, 1, q);
    ValidAndRooted(m);
    NotFull(m, nodes + Path(1, q));
    if !ok {
      assert false;
    }
  }
}
