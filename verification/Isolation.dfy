/** Who may write where: an application writes exactly the pages that are its own. */
module Isolation {
  import opened Common
  import opened PageMapEntry
  import opened PageTree
  import opened PageClean

  /** Writable pages are the applications' own; shared and template pages are read-only. */
  ghost predicate Separated(ram: Ram, tree: Tree, kinds: Kinds) {
    forall s: nat, v: nat :: Leaf(ram, tree, s, v).Some? ==>
      (Leaf(ram, tree, s, v).value.writable <==> s in kinds && kinds[s].App? && Node(s, 0, v) in tree)
  }

  /** Page v of space s is mapped, but to its template's frame. */
  ghost predicate Shared(ram: Ram, tree: Tree, s: nat, v: nat) {
    Leaf(ram, tree, s, v).Some? && Node(s, 0, v) !in tree
  }

  ghost predicate NoneShared(ram: Ram, tree: Tree, s: nat, lo: nat, hi: nat) {
    forall v: nat :: lo <= v < hi ==> !Shared(ram, tree, s, v)
  }

  /** Setting up pages keeps the separation unless it makes a shared page writable. */
  lemma SetUpSeparated(ram: Ram, tree: Tree, ram': Ram, tree': Tree, kinds: Kinds, s: nat, lo: nat, hi: nat, w: bool)
    requires Separated(ram, tree, kinds) && PagesSet(ram, tree, ram', tree', s, lo, hi, w)
    requires s in kinds && (w <==> kinds[s].App?)
    ensures Separated(ram', tree', kinds) <==> (w ==> NoneShared(ram, tree, s, lo, hi))
  {
    if v: nat :| lo <= v < hi && w && Shared(ram, tree, s, v) {
      assert PageSet(Leaf(ram, tree, s, v), Leaf(ram', tree', s, v), tree, tree', Node(s, 0, v), w);
      assert Leaf(ram', tree', s, v).Some?;
    } else {
      forall r: nat, v: nat | Leaf(ram', tree', r, v).Some?
        ensures Leaf(ram', tree', r, v).value.writable <==> r in kinds && kinds[r].App? && Node(r, 0, v) in tree'
      {
        if r == s && lo <= v < hi {
          assert PageSet(Leaf(ram, tree, s, v), Leaf(ram', tree', s, v), tree, tree', Node(s, 0, v), w);
          assert !(w && Shared(ram, tree, s, v));
        } else {
          assert PageKept(ram, tree, ram', tree', r, v);
        }
      }
    }
  }

  lemma CopiedSeparated(ram: Ram, tree: Tree, ram': Ram, tree': Tree, kinds: Kinds, d: nat, t: nat, lo: nat, hi: nat)
    requires Separated(ram, tree, kinds) && PagesShared(ram, tree, ram', tree', d, t, lo, hi)
    requires forall v: nat :: lo <= v < hi ==> Node(d, 0, v) !in tree
    ensures Separated(ram', tree', kinds)
  {
    forall r: nat, v: nat | Leaf(ram', tree', r, v).Some?
      ensures Leaf(ram', tree', r, v).value.writable <==> r in kinds && kinds[r].App? && Node(r, 0, v) in tree'
    {
      if !(r == d && lo <= v < hi) {
        assert PageKept(ram, tree, ram', tree', r, v);
      }
    }
  }

  lemma CleanedSeparated(ram: Ram, tree: Tree, ram': Ram, tree': Tree, kinds: Kinds, s: nat, top: nat, lo: nat, hi: nat)
    requires Separated(ram, tree, kinds) && Cleaned(ram, tree, ram', tree', s, top, lo, hi)
    ensures Separated(ram', tree', kinds)
  {
    hide Leaf;
    forall r: nat, v: nat | Leaf(ram', tree', r, v).Some?
      ensures Leaf(ram', tree', r, v).value.writable <==> r in kinds && kinds[r].App? && Node(r, 0, v) in tree'
    {
      assert First(v, 0) == v;
      assert Leaf(ram', tree', r, v) == Leaf(ram, tree, r, v);
    }
  }

  /** The 4 KiB that space s sees at page v. */
  ghost function View(ram: Ram, tree: Tree, s: nat, v: nat): Option<Frame> {
    match Leaf(ram, tree, s, v)
    case None => None
    case Some(e) => if e.addr < |ram| then Some(ram[e.addr]) else None
  }

  /** The node whose frame page v of space s shows: its own, or its template's. */
  ghost function Holder(tree: Tree, kinds: Kinds, s: nat, v: nat): Node {
    if Node(s, 0, v) in tree || s !in kinds || kinds[s].Template? then Node(s, 0, v) else Node(kinds[s].template, 0, v)
  }

  lemma LeafEntry(ram: Ram, tree: Tree, kinds: Kinds, s: nat, v: nat)
    requires Shape(ram, tree, kinds) && Leaf(ram, tree, s, v).Some?
    ensures s in kinds && !Leaf(ram, tree, s, v).value.huge && Leaf(ram, tree, s, v).value.user
    ensures Node(s, 0, v) in tree || SharedOk(Leaf(ram, tree, s, v).value, s, v, tree, kinds)
    ensures Node(s, 0, v) in tree ==> Leaf(ram, tree, s, v).value.addr == tree[Node(s, 0, v)]
  {
    var n := Node(s, 1, v / 512);
    EntryAt(ram, tree, kinds, n, v % 512);
    assert NodeOk(n, tree, kinds);
    assert Child(n, v % 512) == Node(s, 0, v);
  }

  lemma OwnedIsMapped(ram: Ram, tree: Tree, kinds: Kinds, s: nat, v: nat)
    requires Shape(ram, tree, kinds) && Node(s, 0, v) in tree
    ensures Leaf(ram, tree, s, v).Some?
  {
    var n := Node(s, 1, v / 512);
    assert NodeOk(Node(s, 0, v), tree, kinds) && Parent(Node(s, 0, v)) == n;
    EntryAt(ram, tree, kinds, n, v % 512);
    assert Child(n, v % 512) == Node(s, 0, v);
  }

  lemma LeafHolder(ram: Ram, tree: Tree, kinds: Kinds, s: nat, v: nat)
    requires Shape(ram, tree, kinds) && Leaf(ram, tree, s, v).Some?
    ensures var h := Holder(tree, kinds, s, v);
      h in tree && h.level == 0 && tree[h] < |ram| && Leaf(ram, tree, s, v).value.addr == tree[h]
  {
    LeafEntry(ram, tree, kinds, s, v);
  }

  /** A space keeps its view of a page while its entry and the pages' frames are kept. */
  lemma ViewKept(ram: Ram, tree: Tree, ram': Ram, tree': Tree, kinds: Kinds, s: nat, v: nat)
    requires Shape(ram, tree, kinds) && |ram'| == |ram|
    requires Leaf(ram', tree', s, v) == Leaf(ram, tree, s, v)
    requires Leaf(ram, tree, s, v).Some? ==>
      var h := Holder(tree, kinds, s, v); h in tree && tree[h] < |ram| && ram'[tree[h]] == ram[tree[h]]
    ensures View(ram', tree', s, v) == View(ram, tree, s, v)
  {
    if Leaf(ram, tree, s, v).Some? {
      LeafHolder(ram, tree, kinds, s, v);
    }
  }

  /** No other space sees a frame that an application may write. */
  lemma WritableIsPrivate(ram: Ram, tree: Tree, kinds: Kinds, s: nat, v: nat, r: nat, u: nat)
    requires Shape(ram, tree, kinds) && Separated(ram, tree, kinds)
    requires Leaf(ram, tree, s, v).Some? && Leaf(ram, tree, s, v).value.writable
    requires Leaf(ram, tree, r, u).Some? && Leaf(ram, tree, r, u).value.addr == Leaf(ram, tree, s, v).value.addr
    ensures r == s && u == v
  {
    LeafHolder(ram, tree, kinds, s, v);
    LeafHolder(ram, tree, kinds, r, u);
    LeafEntry(ram, tree, kinds, r, u);
    TemplateKind(ram, tree, kinds, r);
    assert Holder(tree, kinds, s, v) == Holder(tree, kinds, r, u) by {
      ShapeInjective(ram, tree, kinds);
    }
  }

  lemma ShapeInjective(ram: Ram, tree: Tree, kinds: Kinds)
    requires Shape(ram, tree, kinds)
    ensures Injective(tree)
  {}

  /** A new address space: a root table whose upper half is empty. */
  ghost predicate SpaceAdded(ram: Ram, tree: Tree, kinds: Kinds, s: nat, k: Kind, f: nat, tree': Tree, kinds': Kinds) {
    && s !in kinds && (forall n :: n in tree ==> n.space != s)
    && (k.App? ==> k.template in kinds && kinds[k.template].Template?)
    && f < |ram| && f !in tree.Values && (forall i: Index :: i >= 256 ==> ram[f][i] == ZERO_WORD)
    && tree' == tree[Root(s) := f] && kinds' == kinds[s := k]
  }

  lemma AddSpaceEntry(ram: Ram, tree: Tree, kinds: Kinds, s: nat, k: Kind, f: nat, tree': Tree, kinds': Kinds, n: Node, i: Index)
    requires Shape(ram, tree, kinds) && SpaceAdded(ram, tree, kinds, s, k, f, tree', kinds')
    requires n in tree' && n.level > 0 && UserIndex(n.level, i)
    ensures EntryOk(ram[tree'[n]][i], n, i, tree', kinds')
  {
    hide Shape;
    if n != Root(s) {
      EntryAt(ram, tree, kinds, n, i);
    }
  }

  lemma AddSpaceNode(ram: Ram, tree: Tree, kinds: Kinds, s: nat, k: Kind, f: nat, tree': Tree, kinds': Kinds, n: Node)
    requires Shape(ram, tree, kinds) && SpaceAdded(ram, tree, kinds, s, k, f, tree', kinds') && n in tree'
    ensures NodeOk(n, tree', kinds') && tree'[n] < |ram|
    ensures forall m :: m in tree' && tree'[m] == tree'[n] ==> m == n
  {
    if n in tree { assert NodeOk(n, tree, kinds); }
    assert forall m :: m in tree ==> tree[m] in tree.Values;
  }

  lemma AddSpace(ram: Ram, tree: Tree, kinds: Kinds, s: nat, k: Kind, f: nat, tree': Tree, kinds': Kinds)
    requires Shape(ram, tree, kinds) && SpaceAdded(ram, tree, kinds, s, k, f, tree', kinds')
    ensures Shape(ram, tree', kinds')
  {
    hide EntryOk, NodeOk;
    forall n, i: Index | n in tree' && n.level > 0 && UserIndex(n.level, i)
      ensures EntryOk(ram[tree'[n]][i], n, i, tree', kinds')
    {
      AddSpaceEntry(ram, tree, kinds, s, k, f, tree', kinds', n, i);
    }
    forall n | n in tree' ensures NodeOk(n, tree', kinds') && tree'[n] < |ram| && forall m :: m in tree' && tree'[m] == tree'[n] ==> m == n {
      AddSpaceNode(ram, tree, kinds, s, k, f, tree', kinds', n);
    }
  }

  /** Nodes of levels 0 and 1 alone decide what is mapped. */
  lemma SameLeafNodes(ram: Ram, tree: Tree, tree': Tree)
    requires forall n: Node :: n.level <= 1 ==> (n in tree' <==> n in tree) && (n in tree ==> tree'[n] == tree[n])
    ensures LeavesKept(ram, tree, ram, tree')
  {}

  lemma NoNodesYet(ram: Ram, tree: Tree, kinds: Kinds, s: nat)
    requires Shape(ram, tree, kinds) && s !in kinds
    ensures forall n :: n in tree ==> n.space != s
    ensures forall v: nat :: Leaf(ram, tree, s, v) == None
  {
    forall n | n in tree ensures n.space != s {
      assert NodeOk(n, tree, kinds);
    }
  }

  /** The last step of an application's exit: its root table goes. */
  ghost predicate SpaceRemoved(tree: Tree, kinds: Kinds, s: nat, tree': Tree, kinds': Kinds) {
    && s in kinds && kinds[s].App? && (forall n :: n in tree && n.space == s ==> n == Root(s))
    && tree' == tree - {Root(s)} && kinds' == kinds - {s}
  }

  lemma RemoveSpaceEntry(ram: Ram, tree: Tree, kinds: Kinds, s: nat, tree': Tree, kinds': Kinds, n: Node, i: Index)
    requires Shape(ram, tree, kinds) && SpaceRemoved(tree, kinds, s, tree', kinds')
    requires n in tree' && n.level > 0 && UserIndex(n.level, i)
    ensures EntryOk(ram[tree'[n]][i], n, i, tree', kinds')
  {
    hide Shape;
    EntryAt(ram, tree, kinds, n, i);
    TemplateKind(ram, tree, kinds, n.space);
  }

  lemma RemoveSpaceNode(ram: Ram, tree: Tree, kinds: Kinds, s: nat, tree': Tree, kinds': Kinds, n: Node)
    requires Shape(ram, tree, kinds) && SpaceRemoved(tree, kinds, s, tree', kinds') && n in tree'
    ensures NodeOk(n, tree', kinds') && tree'[n] < |ram|
  {
    assert NodeOk(n, tree, kinds);
  }

  lemma RemoveSpace(ram: Ram, tree: Tree, kinds: Kinds, s: nat, tree': Tree, kinds': Kinds)
    requires Shape(ram, tree, kinds) && SpaceRemoved(tree, kinds, s, tree', kinds')
    ensures Shape(ram, tree', kinds')
  {
    hide EntryOk, NodeOk;
    forall n, i: Index | n in tree' && n.level > 0 && UserIndex(n.level, i)
      ensures EntryOk(ram[tree'[n]][i], n, i, tree', kinds')
    {
      RemoveSpaceEntry(ram, tree, kinds, s, tree', kinds', n, i);
    }
    forall n | n in tree' ensures NodeOk(n, tree', kinds') && tree'[n] < |ram| {
      RemoveSpaceNode(ram, tree, kinds, s, tree', kinds', n);
    }
  }

  /** Whatever happened concerned space s alone: every other space has the same nodes and
      sees the same memory, and the kernel's own frames are untouched. */
  ghost predicate OnlySpace(ram: Ram, tree: Tree, kinds: Kinds, ram': Ram, tree': Tree, kinds': Kinds, base: set<nat>, s: nat) {
    && |ram'| == |ram|
    && (forall r: nat, q: nat :: r != s ==> View(ram', tree', r, q) == View(ram, tree, r, q))
    && (forall r: nat, q: nat :: r != s ==> Leaf(ram', tree', r, q) == Leaf(ram, tree, r, q))
    && (forall n: Node :: n.space != s ==> (n in tree' <==> n in tree) && (n in tree' ==> tree'[n] == tree[n]))
    && (forall r: nat :: r != s ==> (r in kinds' <==> r in kinds) && (r in kinds' ==> kinds'[r] == kinds[r]))
    && (forall f :: f in base && f < |ram| ==> ram'[f] == ram[f])
  }

  lemma OnlySpaceJoins(ram: Ram, tree: Tree, kinds: Kinds, ram1: Ram, tree1: Tree, kinds1: Kinds,
                       ram2: Ram, tree2: Tree, kinds2: Kinds, base: set<nat>, s: nat)
    requires OnlySpace(ram, tree, kinds, ram1, tree1, kinds1, base, s)
    requires OnlySpace(ram1, tree1, kinds1, ram2, tree2, kinds2, base, s)
    ensures OnlySpace(ram, tree, kinds, ram2, tree2, kinds2, base, s)
  {
    hide View, Leaf;
    forall r: nat, q: nat | r != s ensures View(ram2, tree2, r, q) == View(ram, tree, r, q) {
      assert View(ram1, tree1, r, q) == View(ram1, tree1, r, q);
    }
    forall r: nat, q: nat | r != s ensures Leaf(ram2, tree2, r, q) == Leaf(ram, tree, r, q) {
      assert Leaf(ram1, tree1, r, q) == Leaf(ram1, tree1, r, q);
    }
  }

  /** Pages of nodes that stay and keep their frames' contents stay in view. */
  lemma LocalChange(ram: Ram, tree: Tree, kinds: Kinds, ram': Ram, tree': Tree, base: set<nat>, s: nat)
    requires Shape(ram, tree, kinds) && |ram'| == |ram|
    requires forall r: nat, q: nat :: r != s ==> Leaf(ram', tree', r, q) == Leaf(ram, tree, r, q)
    requires forall n: Node :: n.space != s ==> (n in tree' <==> n in tree) && (n in tree' ==> tree'[n] == tree[n])
    requires forall n :: n in tree && n.level == 0 && n.space != s && tree[n] < |ram| ==> ram'[tree[n]] == ram[tree[n]]
    requires forall r: nat :: r in kinds && kinds[r].App? ==> kinds[r].template != s
    requires forall f :: f in base && f < |ram| ==> ram'[f] == ram[f]
    ensures OnlySpace(ram, tree, kinds, ram', tree', kinds, base, s)
  {
    hide Leaf;
    forall r: nat, q: nat | r != s ensures View(ram', tree', r, q) == View(ram, tree, r, q) {
      if Leaf(ram, tree, r, q).Some? {
        LeafHolder(ram, tree, kinds, r, q);
        LeafEntry(ram, tree, kinds, r, q);
      }
      ViewKept(ram, tree, ram', tree', kinds, r, q);
    }
  }

  /** No application runs from s: s is itself an application, or a template not yet in use. */
  ghost predicate NotATemplateInUse(kinds: Kinds, s: nat) {
    forall r: nat :: r in kinds && kinds[r].App? ==> kinds[r].template != s
  }

  lemma SetUpIsLocal(ram: Ram, tree: Tree, kinds: Kinds, ram': Ram, tree': Tree, base: set<nat>,
                     s: nat, top: nat, lo: nat, mid: nat, hi: nat, w: bool)
    requires Shape(ram, tree, kinds) && SetUp(ram, tree, ram', tree', s, top, lo, mid, hi, w)
    requires base !! tree'.Values && NotATemplateInUse(kinds, s)
    ensures OnlySpace(ram, tree, kinds, ram', tree', kinds, base, s)
  {
    hide Leaf, Shape;
    forall r: nat, q: nat | r != s ensures Leaf(ram', tree', r, q) == Leaf(ram, tree, r, q) {
      assert PageKept(ram, tree, ram', tree', r, q);
    }
    LocalChange(ram, tree, kinds, ram', tree', base, s);
  }

  lemma CopiedIsLocal(ram: Ram, tree: Tree, kinds: Kinds, ram': Ram, tree': Tree, base: set<nat>,
                      d: nat, t: nat, top: nat, lo: nat, mid: nat, hi: nat)
    requires Shape(ram, tree, kinds) && Copied(ram, tree, ram', tree', d, t, top, lo, mid, hi)
    requires base !! tree'.Values && NotATemplateInUse(kinds, d)
    ensures OnlySpace(ram, tree, kinds, ram', tree', kinds, base, d)
  {
    hide Leaf, Shape;
    forall r: nat, q: nat | r != d ensures Leaf(ram', tree', r, q) == Leaf(ram, tree, r, q) {
      assert PageKept(ram, tree, ram', tree', r, q);
    }
    LocalChange(ram, tree, kinds, ram', tree', base, d);
  }

  lemma CleanedIsLocal(ram: Ram, tree: Tree, kinds: Kinds, ram': Ram, tree': Tree, base: set<nat>,
                       s: nat, top: nat, lo: nat, hi: nat)
    requires Shape(ram, tree, kinds) && Cleaned(ram, tree, ram', tree', s, top, lo, hi)
    requires base !! tree.Values && NotATemplateInUse(kinds, s)
    ensures OnlySpace(ram, tree, kinds, ram', tree', kinds, base, s)
  {
    hide Leaf, Shape, First;
    LocalChange(ram, tree, kinds, ram', tree', base, s);
  }

  /** What the space itself sees after pages lo to mid were set up: the same memory ... */
  lemma SetUpViewKept(ram: Ram, tree: Tree, kinds: Kinds, ram': Ram, tree': Tree, s: nat, top: nat, lo: nat, mid: nat, hi: nat, w: bool, q: nat)
    requires Shape(ram, tree, kinds) && SetUp(ram, tree, ram', tree', s, top, lo, mid, hi, w)
    requires Leaf(ram, tree, s, q).Some?
    ensures View(ram', tree', s, q) == View(ram, tree, s, q)
  {
    LeafHolder(ram, tree, kinds, s, q);
    hide Shape, Leaf;
    if lo <= q < mid {
      assert PageSet(Leaf(ram, tree, s, q), Leaf(ram', tree', s, q), tree, tree', Node(s, 0, q), w);
    } else {
      assert PageKept(ram, tree, ram', tree', s, q);
    }
  }

  /** ... and, where nothing was mapped, a zeroed page inside that range and nothing outside. */
  lemma SetUpViewNew(ram: Ram, tree: Tree, kinds: Kinds, ram': Ram, tree': Tree, s: nat, top: nat, lo: nat, mid: nat, hi: nat, w: bool, q: nat)
    requires Shape(ram', tree', kinds) && SetUp(ram, tree, ram', tree', s, top, lo, mid, hi, w)
    requires Leaf(ram, tree, s, q).None?
    ensures View(ram', tree', s, q).Some? <==> lo <= q < mid
    ensures lo <= q < mid ==> Zeroed(View(ram', tree', s, q).value)
  {
    hide Shape, Leaf;
    if Leaf(ram', tree', s, q).Some? {
      LeafHolder(ram', tree', kinds, s, q);
    }
    if lo <= q < mid {
      assert PageSet(Leaf(ram, tree, s, q), Leaf(ram', tree', s, q), tree, tree', Node(s, 0, q), w);
    } else {
      assert PageKept(ram, tree, ram', tree', s, q);
    }
  }

  /** A fresh copy sees its template's memory. */
  lemma CopiedView(ram: Ram, tree: Tree, kinds: Kinds, ram': Ram, tree': Tree, d: nat, t: nat, top: nat, lo: nat, mid: nat, hi: nat, q: nat)
    requires Shape(ram, tree, kinds) && Copied(ram, tree, ram', tree', d, t, top, lo, mid, hi) && lo <= q < mid
    ensures View(ram', tree', d, q) == View(ram, tree, t, q)
  {
    if Leaf(ram, tree, t, q).Some? {
      LeafHolder(ram, tree, kinds, t, q);
    }
    hide Shape, Leaf;
    assert Leaf(ram', tree', d, q) == AsShared(Leaf(ram, tree, t, q));
  }

  /** Page v of s, shared until now, got the frame p of its own with the same contents. */
  ghost predicate PageCopied(ram: Ram, tree: Tree, s: nat, v: nat, p: nat, ram': Ram, tree': Tree) {
    && Shared(ram, tree, s, v) && p < |ram| && p < 0x100_0000_0000 && p !in tree.Values
    && Leaf(ram, tree, s, v).value.addr < |ram|
    && var e, n := Leaf(ram, tree, s, v).value, Node(s, 1, v / 512);
       && tree' == tree[Node(s, 0, v) := p]
       && ram' == SetWord(ram[p := ram[e.addr]], tree[n], v % 512, e.(addr := p, writable := true))
  }

  lemma CopyAttaches(ram: Ram, tree: Tree, kinds: Kinds, s: nat, v: nat, p: nat, ram': Ram, tree': Tree)
    requires Shape(ram, tree, kinds) && PageCopied(ram, tree, s, v, p, ram', tree')
    ensures var e, n := Leaf(ram, tree, s, v).value, Node(s, 1, v / 512);
      Attached(ram[p := ram[e.addr]], tree, n, v % 512, e.(addr := p, writable := true), ram', tree')
  {
    LeafEntry(ram, tree, kinds, s, v);
    var n := Node(s, 1, v / 512);
    hide Shape;
    assert Child(n, v % 512) == Node(s, 0, v);
    assert forall m :: m in tree ==> tree[m] in tree.Values && tree[m] != p;
  }

  lemma CopyKeepsShape(ram: Ram, tree: Tree, kinds: Kinds, s: nat, v: nat, p: nat, ram': Ram, tree': Tree)
    requires Shape(ram, tree, kinds) && PageCopied(ram, tree, s, v, p, ram', tree')
    ensures Shape(ram', tree', kinds)
    ensures forall r: nat, q: nat :: r != s || q != v ==> Leaf(ram', tree', r, q) == Leaf(ram, tree, r, q)
    ensures Leaf(ram', tree', s, v) == Some(Leaf(ram, tree, s, v).value.(addr := p, writable := true))
  {
    hide Shape, Attached;
    var e, n := Leaf(ram, tree, s, v).value, Node(s, 1, v / 512);
    CopyAttaches(ram, tree, kinds, s, v, p, ram', tree');
    OutsideKeepsShape(ram, tree, kinds, p, ram[e.addr]);
    var ram1 := ram[p := ram[e.addr]];
    AttachKeepsShape(ram1, tree, kinds, n, v % 512, e.(addr := p, writable := true), ram', tree');
    assert Child(n, v % 512).prefix == v;
    hide Leaf, PageCopied;
    forall r: nat, q: nat ensures Leaf(ram', tree', r, q) ==
      if r == s && q == v then Some(e.(addr := p, writable := true)) else Leaf(ram, tree, r, q)
    {
      LeafAfterAttach(ram1, tree, kinds, n, v % 512, e.(addr := p, writable := true), ram', tree', r, q);
      assert Leaf(ram1, tree, r, q) == Leaf(ram, tree, r, q);
    }
  }

  lemma CopyKeepsFrames(ram: Ram, tree: Tree, kinds: Kinds, s: nat, v: nat, p: nat, from: nat, ram': Ram, tree': Tree)
    requires Shape(ram, tree, kinds) && PageCopied(ram, tree, s, v, p, ram', tree') && Leaf(ram, tree, s, v).value.addr == from
    ensures |ram'| == |ram| && ram'[p] == ram[from]
    ensures forall n :: n in tree && n.level == 0 ==> tree[n] < |ram| && ram'[tree[n]] == ram[tree[n]]
    ensures forall f :: 0 <= f < |ram| && f !in tree'.Values ==> ram'[f] == ram[f]
  {
    var n, c := Node(s, 1, v / 512), Node(s, 0, v);
    assert n in tree && n in tree';
    forall m | m in tree && m.level == 0 ensures tree[m] < |ram| && tree[m] != tree[n] && tree[m] != p {
      DistinctFrames(ram, tree, kinds, m, n);
      assert tree[m] in tree.Values;
    }
    hide Shape, Leaf;
    assert tree[n] != p by { assert tree[n] in tree.Values; }
    forall f | 0 <= f < |ram| && f !in tree'.Values ensures f != p && f != tree[n] {
      assert tree'[n] in tree'.Values && tree'[c] in tree'.Values;
    }
  }

  /** Copy on write: the application's page becomes its own and writable; nobody, not even
      the application, sees any memory change. */
  lemma CopyOnWrite(ram: Ram, tree: Tree, kinds: Kinds, s: nat, v: nat, p: nat, ram': Ram, tree': Tree, base: set<nat>)
    requires Shape(ram, tree, kinds) && Separated(ram, tree, kinds) && PageCopied(ram, tree, s, v, p, ram', tree')
    requires s in kinds && kinds[s].App? && base !! tree'.Values && NotATemplateInUse(kinds, s)
    ensures Shape(ram', tree', kinds) && Separated(ram', tree', kinds)
    ensures Leaf(ram', tree', s, v).Some? && Leaf(ram', tree', s, v).value.writable
    ensures forall q: nat :: View(ram', tree', s, q) == View(ram, tree, s, q)
    ensures forall q: nat :: q != v ==> Leaf(ram', tree', s, q) == Leaf(ram, tree, s, q)
    ensures OnlySpace(ram, tree, kinds, ram', tree', kinds, base, s)
  {
    hide Leaf, Shape;
    CopyKeepsShape(ram, tree, kinds, s, v, p, ram', tree');
    CopyKeepsFrames(ram, tree, kinds, s, v, p, Leaf(ram, tree, s, v).value.addr, ram', tree');
    LocalChange(ram, tree, kinds, ram', tree', base, s);
    forall q: nat ensures View(ram', tree', s, q) == View(ram, tree, s, q) {
      if q != v {
        if Leaf(ram, tree, s, q).Some? { LeafHolder(ram, tree, kinds, s, q); }
      }
    }
  }

  /** A store into a page leaves every mapping and every other page alone. */
  lemma StoreKeepsShape(ram: Ram, tree: Tree, kinds: Kinds, h: Node, frame: Frame, ram': Ram)
    requires Shape(ram, tree, kinds) && h in tree && h.level == 0 && ram' == ram[tree[h] := frame]
    ensures Shape(ram', tree, kinds) && |ram'| == |ram|
    ensures forall n :: n in tree && n != h ==> tree[n] < |ram| && ram'[tree[n]] == ram[tree[n]]
  {
    forall n | n in tree && n != h ensures tree[n] < |ram| && ram'[tree[n]] == ram[tree[n]] {
      DistinctFrames(ram, tree, kinds, n, h);
    }
    hide EntryOk, NodeOk;
    forall n, i: Index | n in tree && n.level > 0 && UserIndex(n.level, i)
      ensures EntryOk(ram'[tree[n]][i], n, i, tree, kinds)
    {
      EntryAt(ram, tree, kinds, n, i);
    }
  }

  lemma StoreKeepsLeaves(ram: Ram, tree: Tree, ram': Ram, h: Node)
    requires |ram'| == |ram| && h.level == 0
    requires forall n :: n in tree && n != h ==> tree[n] < |ram| && ram'[tree[n]] == ram[tree[n]]
    ensures LeavesKept(ram, tree, ram', tree)
  {}

  lemma LeavesKeptSeparated(ram: Ram, tree: Tree, kinds: Kinds, ram': Ram)
    requires Separated(ram, tree, kinds) && LeavesKept(ram, tree, ram', tree)
    ensures Separated(ram', tree, kinds)
  {
    hide Leaf;
    forall r: nat, v: nat | Leaf(ram', tree, r, v).Some?
      ensures Leaf(ram', tree, r, v).value.writable <==> r in kinds && kinds[r].App? && Node(r, 0, v) in tree
    {
      assert PageKept(ram, tree, ram', tree, r, v);
    }
  }

  lemma WritableIsOwn(ram: Ram, tree: Tree, kinds: Kinds, s: nat, v: nat)
    requires Shape(ram, tree, kinds) && Separated(ram, tree, kinds)
    requires Leaf(ram, tree, s, v).Some? && Leaf(ram, tree, s, v).value.writable
    ensures Node(s, 0, v) in tree && tree[Node(s, 0, v)] == Leaf(ram, tree, s, v).value.addr < |ram|
  {
    LeafHolder(ram, tree, kinds, s, v);
  }

  lemma StoreViews(ram: Ram, tree: Tree, kinds: Kinds, s: nat, v: nat, ram': Ram)
    requires Shape(ram, tree, kinds) && Node(s, 0, v) in tree && Leaf(ram, tree, s, v).Some?
    requires LeavesKept(ram, tree, ram', tree) && |ram'| == |ram|
    requires forall n :: n in tree && n != Node(s, 0, v) ==> tree[n] < |ram| && ram'[tree[n]] == ram[tree[n]]
    ensures forall r: nat, q: nat :: (r != s || q != v) && (r in kinds && kinds[r].App? ==> kinds[r].template != s)
              ==> View(ram', tree, r, q) == View(ram, tree, r, q)
  {
    hide Leaf, Shape;
    forall r: nat, q: nat | (r != s || q != v) && (r in kinds && kinds[r].App? ==> kinds[r].template != s)
      ensures View(ram', tree, r, q) == View(ram, tree, r, q)
    {
      assert PageKept(ram, tree, ram', tree, r, q);
      if Leaf(ram, tree, r, q).Some? {
        LeafHolder(ram, tree, kinds, r, q);
      }
      ViewKept(ram, tree, ram', tree, kinds, r, q);
    }
  }

  /** A store through a writable page is seen in that page of that space, and nowhere else. */
  lemma PageStore(ram: Ram, tree: Tree, kinds: Kinds, s: nat, v: nat, frame: Frame, ram': Ram, base: set<nat>)
    requires Shape(ram, tree, kinds) && Separated(ram, tree, kinds) && base !! tree.Values && NotATemplateInUse(kinds, s)
    requires s in kinds && Leaf(ram, tree, s, v).Some? && Node(s, 0, v) in tree
    requires Leaf(ram, tree, s, v).value.addr < |ram| && ram' == ram[Leaf(ram, tree, s, v).value.addr := frame]
    ensures Shape(ram', tree, kinds) && Separated(ram', tree, kinds) && LeavesKept(ram, tree, ram', tree)
    ensures View(ram', tree, s, v) == Some(frame)
    ensures forall q: nat :: q != v ==> View(ram', tree, s, q) == View(ram, tree, s, q)
    ensures OnlySpace(ram, tree, kinds, ram', tree, kinds, base, s)
  {
    hide Shape, Leaf, Separated, LeavesKept;
    LeafEntry(ram, tree, kinds, s, v);
    var h := Node(s, 0, v);
    StoreKeepsShape(ram, tree, kinds, h, frame, ram');
    StoreKeepsLeaves(ram, tree, ram', h);
    LeavesKeptSeparated(ram, tree, kinds, ram');
    StoreViews(ram, tree, kinds, s, v, ram');
    assert tree[h] in tree.Values;
    assert forall r: nat, q: nat :: Leaf(ram', tree, r, q) == Leaf(ram, tree, r, q) by {
      forall r: nat, q: nat ensures Leaf(ram', tree, r, q) == Leaf(ram, tree, r, q) { LeafKept(ram, tree, ram', tree, r, q); }
    }
    LocalChange(ram, tree, kinds, ram', tree, base, s);
  }

  lemma LeafKept(ram: Ram, tree: Tree, ram': Ram, tree': Tree, r: nat, q: nat)
    requires LeavesKept(ram, tree, ram', tree')
    ensures Leaf(ram', tree', r, q) == Leaf(ram, tree, r, q)
  {
    assert PageKept(ram, tree, ram', tree', r, q);
  }

  /** A kernel-mode store, which write protection does not stop (CR0.WP is clear), stays
      private exactly when the page was the application's own or its contents do not change. */
  lemma KernelStore(ram: Ram, tree: Tree, kinds: Kinds, s: nat, v: nat, frame: Frame, ram': Ram, base: set<nat>)
    requires Shape(ram, tree, kinds) && Separated(ram, tree, kinds) && base !! tree.Values && NotATemplateInUse(kinds, s)
    requires s in kinds && kinds[s].App? && Leaf(ram, tree, s, v).Some?
    requires Leaf(ram, tree, s, v).value.addr < |ram| && ram' == ram[Leaf(ram, tree, s, v).value.addr := frame]
    ensures (forall r: nat, q: nat :: r != s ==> View(ram', tree, r, q) == View(ram, tree, r, q))
       <==> Leaf(ram, tree, s, v).value.writable || ram[Leaf(ram, tree, s, v).value.addr] == frame
  {
    var f := Leaf(ram, tree, s, v).value.addr;
    if Leaf(ram, tree, s, v).value.writable {
      PageStore(ram, tree, kinds, s, v, frame, ram', base);
    } else if ram[f] == frame {
      assert ram' == ram;
    } else {
      LeafEntry(ram, tree, kinds, s, v);
      var t := kinds[s].template;
      TemplateKind(ram, tree, kinds, s);
      OwnedIsMapped(ram, tree, kinds, t, v);
      LeafEntry(ram, tree, kinds, t, v);
      LeafHolder(ram, tree, kinds, t, v);
      StoreKeepsShape(ram, tree, kinds, Node(t, 0, v), frame, ram');
      StoreKeepsLeaves(ram, tree, ram', Node(t, 0, v));
      LeafKept(ram, tree, ram', tree, t, v);
      assert View(ram', tree, t, v) == Some(frame) && View(ram, tree, t, v) == Some(ram[f]);
    }
  }

  /** Every space but s sees what it saw. */
  ghost predicate OthersSeeTheSame(ram: Ram, tree: Tree, ram': Ram, tree': Tree, s: nat) {
    forall r: nat, q: nat :: r != s ==> View(ram', tree', r, q) == View(ram, tree, r, q)
  }

  lemma SeenAs(ram: Ram, tree: Tree, kinds: Kinds, s: nat, v: nat)
    requires Shape(ram, tree, kinds) && Leaf(ram, tree, s, v).Some?
    ensures Leaf(ram, tree, s, v).value.addr < |ram|
    ensures View(ram, tree, s, v) == Some(ram[Leaf(ram, tree, s, v).value.addr])
  {
    hide Shape, Leaf;
    LeafHolder(ram, tree, kinds, s, v);
  }

  /** A shared page shows what it shows in the template. */
  lemma SharedSees(ram: Ram, tree: Tree, kinds: Kinds, s: nat, v: nat)
    requires Shape(ram, tree, kinds) && Shared(ram, tree, s, v)
    ensures s in kinds && kinds[s].App? && Node(kinds[s].template, 0, v) in tree
    ensures View(ram, tree, s, v) == View(ram, tree, kinds[s].template, v)
  {
    LeafEntry(ram, tree, kinds, s, v);
    var t := kinds[s].template;
    TemplateKind(ram, tree, kinds, s);
    OwnedIsMapped(ram, tree, kinds, t, v);
    LeafEntry(ram, tree, kinds, t, v);
  }

  /** A store into any mapped page, whosever it is, keeps all mappings. */
  lemma StoreKeepsAll(ram: Ram, tree: Tree, kinds: Kinds, s: nat, v: nat, frame: Frame, ram': Ram)
    requires Shape(ram, tree, kinds) && Separated(ram, tree, kinds) && Leaf(ram, tree, s, v).Some?
    requires Leaf(ram, tree, s, v).value.addr < |ram| && ram' == ram[Leaf(ram, tree, s, v).value.addr := frame]
    ensures Shape(ram', tree, kinds) && Separated(ram', tree, kinds) && LeavesKept(ram, tree, ram', tree)
    ensures |ram'| == |ram| && View(ram', tree, s, v) == Some(frame)
    ensures forall f: nat :: f < |ram| && f !in tree.Values ==> ram'[f] == ram[f]
  {
    hide Shape, Separated, Leaf, LeavesKept;
    LeafHolder(ram, tree, kinds, s, v);
    var h := Holder(tree, kinds, s, v);
    StoreKeepsShape(ram, tree, kinds, h, frame, ram');
    StoreKeepsLeaves(ram, tree, ram', h);
    LeavesKeptSeparated(ram, tree, kinds, ram');
    LeafKept(ram, tree, ram', tree, s, v);
    assert tree[h] in tree.Values;
  }

  lemma KernelStoreSeen(ram: Ram, tree: Tree, kinds: Kinds, s: nat, v: nat, frame: Frame, ram': Ram, base: set<nat>)
    requires Shape(ram, tree, kinds) && Separated(ram, tree, kinds) && base !! tree.Values && NotATemplateInUse(kinds, s)
    requires s in kinds && kinds[s].App? && Leaf(ram, tree, s, v).Some?
    requires Leaf(ram, tree, s, v).value.addr < |ram| && ram' == ram[Leaf(ram, tree, s, v).value.addr := frame]
    ensures OthersSeeTheSame(ram, tree, ram', tree, s) <==> Node(s, 0, v) in tree || View(ram, tree, s, v) == Some(frame)
  {
    hide Shape, Leaf;
    KernelStore(ram, tree, kinds, s, v, frame, ram', base);
  }

  /** Pages lo to hi of space s that were missing are now there, zeroed; all else it sees is as it was. */
  ghost predicate PagesProvided(ram: Ram, tree: Tree, ram': Ram, tree': Tree, s: nat, lo: nat, hi: nat) {
    forall q: nat :: PageProvided(View(ram, tree, s, q), View(ram', tree', s, q), lo <= q < hi)
  }

  ghost predicate PageProvided(before: Option<Frame>, after: Option<Frame>, inside: bool) {
    match before
    case Some(f) => after == Some(f)
    case None => if inside then after.Some? && Zeroed(after.value) else after.None?
  }

  lemma MappedIsSeen(ram: Ram, tree: Tree, kinds: Kinds, s: nat, v: nat)
    requires Shape(ram, tree, kinds)
    ensures View(ram, tree, s, v).Some? <==> Leaf(ram, tree, s, v).Some?
    ensures Leaf(ram, tree, s, v).Some? ==> Leaf(ram, tree, s, v).value.addr < |ram|
  {
    if Leaf(ram, tree, s, v).Some? {
      LeafHolder(ram, tree, kinds, s, v);
    }
  }

  lemma SetUpProvides(ram: Ram, tree: Tree, kinds: Kinds, ram': Ram, tree': Tree, s: nat, top: nat, lo: nat, mid: nat, hi: nat, w: bool)
    requires Shape(ram, tree, kinds) && Shape(ram', tree', kinds) && SetUp(ram, tree, ram', tree', s, top, lo, mid, hi, w)
    ensures PagesProvided(ram, tree, ram', tree', s, lo, mid)
  {
    hide Shape, Leaf, View, SetUp;
    forall q: nat ensures PageProvided(View(ram, tree, s, q), View(ram', tree', s, q), lo <= q < mid) {
      MappedIsSeen(ram, tree, kinds, s, q);
      if Leaf(ram, tree, s, q).Some? {
        SetUpViewKept(ram, tree, kinds, ram', tree', s, top, lo, mid, hi, w, q);
      } else {
        SetUpViewNew(ram, tree, kinds, ram', tree', s, top, lo, mid, hi, w, q);
      }
    }
  }

  lemma AppIsNoTemplate(ram: Ram, tree: Tree, kinds: Kinds, s: nat)
    requires Shape(ram, tree, kinds) && (s !in kinds || kinds[s].App?)
    ensures NotATemplateInUse(kinds, s)
  {}

  lemma AppRoot(ram: Ram, tree: Tree, kinds: Kinds, s: nat)
    requires Shape(ram, tree, kinds) && s in kinds
    ensures Root(s) in tree && tree[Root(s)] < |ram|
  {}

  /** Space t maps nothing from page lo on. */
  ghost predicate ClearFrom(ram: Ram, tree: Tree, t: nat, lo: nat) {
    forall q: nat :: lo <= q < VPN_COUNT ==> Leaf(ram, tree, t, q) == None
  }
}
