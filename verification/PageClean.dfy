/** Taking a page-map tree apart: what CleanPageMap removes and what it keeps. */
module PageClean {
  import opened Common
  import opened PageMapEntry
  import opened PageTree

  /** A node below level `top` of space s for pages lo to hi. */
  ghost predicate Below(n: Node, s: nat, top: nat, lo: nat, hi: nat) {
    n.space == s && n.level < top && lo <= First(n.prefix, n.level) < hi
  }

  /** The nodes of s below level `top` for pages lo to hi are gone, and only those. */
  ghost predicate Cleaned(ram: Ram, tree: Tree, ram': Ram, tree': Tree, s: nat, top: nat, lo: nat, hi: nat) {
    && |ram'| == |ram| && Grows(tree', tree)
    && NodesGone(tree, tree', s, top, lo, hi)
    && TablesKept(ram, tree, ram', tree', s, top)
    && OthersKept(ram, tree, ram')
    && KernelHalfKept(ram, tree, ram')
    && PagesGone(ram, tree, ram', tree', s, lo, hi)
  }

  ghost predicate NodesGone(tree: Tree, tree': Tree, s: nat, top: nat, lo: nat, hi: nat) {
    forall n :: n in tree ==> (n in tree' <==> !Below(n, s, top, lo, hi))
  }

  ghost predicate TablesKept(ram: Ram, tree: Tree, ram': Ram, tree': Tree, s: nat, top: nat)
    requires |ram'| == |ram|
  {
    forall n :: n in tree && n in tree' && tree[n] < |ram| && Untouched(n, s, top) ==> ram'[tree[n]] == ram[tree[n]]
  }

  ghost predicate OthersKept(ram: Ram, tree: Tree, ram': Ram)
    requires |ram'| == |ram|
  {
    forall f: nat :: f < |ram| && f !in tree.Values ==> ram'[f] == ram[f]
  }

  ghost predicate PagesGone(ram: Ram, tree: Tree, ram': Ram, tree': Tree, s: nat, lo: nat, hi: nat) {
    forall r: nat, q: nat ::
      Leaf(ram', tree', r, q) == if r == s && lo <= q < hi then None else Leaf(ram, tree, r, q)
  }

  lemma CleanedNothing(ram: Ram, tree: Tree, s: nat, top: nat, v: nat)
    ensures Cleaned(ram, tree, ram, tree, s, top, v, v)
  {}

  lemma StillOutside(tree: Tree, tree': Tree, f: nat)
    requires Grows(tree', tree) && f !in tree.Values
    ensures f !in tree'.Values
  {
    forall n | n in tree' ensures tree'[n] != f {
      assert n in tree && tree[n] in tree.Values;
    }
  }

  lemma CleanedJoins(ram: Ram, tree: Tree, ram1: Ram, tree1: Tree, ram2: Ram, tree2: Tree,
                     s: nat, top: nat, lo: nat, mid: nat, hi: nat)
    requires lo <= mid <= hi && top <= 4
    requires Cleaned(ram, tree, ram1, tree1, s, top, lo, mid)
    requires Cleaned(ram1, tree1, ram2, tree2, s, top, mid, hi)
    ensures Cleaned(ram, tree, ram2, tree2, s, top, lo, hi)
  {
    hide Leaf, First;
    forall n, i: Index | n in tree && n.level == 4 && tree[n] < |ram| && i < 256
      ensures ram2[tree[n]][i] == ram[tree[n]][i]
    {
      assert n in tree1 && tree1[n] == tree[n];
    }
    forall f: nat | f < |ram| && f !in tree.Values ensures ram2[f] == ram[f] {
      StillOutside(tree, tree1, f);
    }
    forall r: nat, q: nat
      ensures Leaf(ram2, tree2, r, q) == if r == s && lo <= q < hi then None else Leaf(ram, tree, r, q)
    {
      assert Leaf(ram1, tree1, r, q) == Leaf(ram1, tree1, r, q);
    }
  }

  /** No node of the tree hangs below c. */
  ghost predicate Childless(tree: Tree, c: Node) {
    forall m :: m in tree && m.level < 4 ==> Parent(m) != c
  }

  /** Memory and tree after the entry at n[i] was cleared and its child, if any, removed. */
  ghost predicate Detached(ram: Ram, tree: Tree, n: Node, i: Index, ram': Ram, tree': Tree) {
    && n in tree && 1 <= n.level <= 4 && tree[n] < |ram|
    && tree' == tree - {Child(n, i)} && Childless(tree, Child(n, i))
    && ram' == SetWord(ram, tree[n], i, ZERO_WORD)
  }

  lemma DetachKeepsEntry(ram: Ram, tree: Tree, kinds: Kinds, n: Node, i: Index, ram': Ram, tree': Tree, m: Node, j: Index)
    requires Shape(ram, tree, kinds) && Detached(ram, tree, n, i, ram', tree')
    requires n.space in kinds && kinds[n.space].App?
    requires m in tree' && m.level > 0 && UserIndex(m.level, j)
    ensures EntryOk(ram'[tree'[m]][j], m, j, tree', kinds)
  {
    hide Shape;
    EntryAt(ram, tree, kinds, m, j);
    var e := ram[tree[m]][j];
    if m == n && j == i {
    } else {
      if m != n { DistinctFrames(ram, tree, kinds, m, n); }
      if Child(m, j) == Child(n, i) { ChildInjective(m, j, n, i); }
      if e.present && Child(m, j) !in tree {
        TemplateKind(ram, tree, kinds, m.space);
      }
    }
  }

  lemma DistinctFrames(ram: Ram, tree: Tree, kinds: Kinds, m: Node, n: Node)
    requires Shape(ram, tree, kinds) && m in tree && n in tree && m != n
    ensures tree[m] != tree[n]
  {}

  lemma TemplateKind(ram: Ram, tree: Tree, kinds: Kinds, s: nat)
    requires Shape(ram, tree, kinds)
    ensures s in kinds && kinds[s].App? ==> kinds[s].template in kinds && kinds[kinds[s].template].Template?
  {}

  lemma DetachKeepsNode(ram: Ram, tree: Tree, kinds: Kinds, n: Node, i: Index, ram': Ram, tree': Tree, m: Node)
    requires Shape(ram, tree, kinds) && Detached(ram, tree, n, i, ram', tree') && m in tree'
    ensures NodeOk(m, tree', kinds) && tree'[m] < |ram'|
  {
    assert NodeOk(m, tree, kinds);
  }

  lemma DetachKeepsShape(ram: Ram, tree: Tree, kinds: Kinds, n: Node, i: Index, ram': Ram, tree': Tree)
    requires Shape(ram, tree, kinds) && Detached(ram, tree, n, i, ram', tree')
    requires n.space in kinds && kinds[n.space].App?
    ensures Shape(ram', tree', kinds)
  {
    forall m, j: Index | m in tree' && m.level > 0 && UserIndex(m.level, j)
      ensures EntryOk(ram'[tree'[m]][j], m, j, tree', kinds)
    {
      DetachKeepsEntry(ram, tree, kinds, n, i, ram', tree', m, j);
    }
    forall m | m in tree' ensures NodeOk(m, tree', kinds) && tree'[m] < |ram'| {
      DetachKeepsNode(ram, tree, kinds, n, i, ram', tree', m);
    }
  }

  lemma LeafAfterDetach(ram: Ram, tree: Tree, kinds: Kinds, n: Node, i: Index, ram': Ram, tree': Tree, r: nat, q: nat)
    requires Shape(ram, tree, kinds) && Detached(ram, tree, n, i, ram', tree')
    requires n.level == 2 && r == n.space && q / 512 == n.prefix * 512 + i ==> Leaf(ram, tree, r, q) == None
    ensures Leaf(ram', tree', r, q) ==
            if n.level == 1 && r == n.space && q == n.prefix * 512 + i then None else Leaf(ram, tree, r, q)
  {
    LeafAfterSet(ram, tree, kinds, n, i, ZERO_WORD, ram', r, q);
    var m := Node(r, 1, q / 512);
    hide Shape;
    if m in tree && m !in tree' {
      assert m == Child(n, i);
    }
  }

  lemma DetachedValues(tree: Tree, c: Node)
    requires Injective(tree)
    ensures c in tree ==> (tree - {c}).Values == tree.Values - {tree[c]}
    ensures c !in tree ==> tree - {c} == tree
  {
    var tree' := tree - {c};
    if c in tree {
      forall f | f in tree.Values && f != tree[c] ensures f in tree'.Values {
        var n :| n in tree && tree[n] == f;
        assert n in tree' && tree'[n] == f;
      }
    }
  }

  /** A node whose pages lie under the child at n[i] is that child or hangs below it. */
  lemma UnderChild(ram: Ram, tree: Tree, kinds: Kinds, n: Node, i: Index, m: Node)
    requires Shape(ram, tree, kinds) && 1 <= n.level <= 4 && m in tree
    requires Below(m, n.space, n.level, First(n.prefix * 512 + i, n.level - 1), First(n.prefix * 512 + i + 1, n.level - 1))
    ensures Child(n, i) in tree
    ensures m.level == n.level - 1 ==> m == Child(n, i)
  {
    hide Shape;
    var q := First(m.prefix, m.level);
    PrefixOfFirst(m.prefix, m.level);
    PrefixBetween(q, n.prefix * 512 + i, n.level - 1);
    ShapeAncestor(ram, tree, kinds, n.space, q, m.level, n.level - 1);
  }

  /** Where the table lacks an entry, there is nothing to clean. */
  lemma CleanAbsent(ram: Ram, tree: Tree, kinds: Kinds, n: Node, i: Index)
    requires Shape(ram, tree, kinds) && 1 <= n.level <= 4 && UserIndex(n.level, i)
    requires n in tree && !ram[tree[n]][i].present
    ensures Cleaned(ram, tree, ram, tree, n.space, n.level, First(n.prefix * 512 + i, n.level - 1), First(n.prefix * 512 + i + 1, n.level - 1))
  {
    EntryAt(ram, tree, kinds, n, i);
    hide Shape, First, Leaf;
    var lo, hi := First(n.prefix * 512 + i, n.level - 1), First(n.prefix * 512 + i + 1, n.level - 1);
    forall m | m in tree ensures !Below(m, n.space, n.level, lo, hi) {
      if Below(m, n.space, n.level, lo, hi) {
        UnderChild(ram, tree, kinds, n, i, m);
      }
    }
    forall q: nat | lo <= q < hi ensures Leaf(ram, tree, n.space, q) == None {
      PrefixBetween(q, n.prefix * 512 + i, n.level - 1);
      NothingBelow(ram, tree, kinds, n, i, q);
    }
  }

  lemma BelowParent(m: Node, c: Node)
    requires c.level < 5 && m.level < 4 && Parent(m) == c
    ensures Below(m, c.space, c.level, First(c.prefix, c.level), First(c.prefix + 1, c.level))
  {
    assert First(c.prefix, c.level) == First(c.prefix * 512, c.level - 1);
    assert First(c.prefix + 1, c.level) == First((c.prefix + 1) * 512, c.level - 1);
    FirstMonotone(c.prefix * 512, m.prefix, m.level);
    FirstMonotone(m.prefix + 1, (c.prefix + 1) * 512, m.level);
    PrefixOfFirst(m.prefix, m.level);
    PrefixBelow(First(m.prefix, m.level), m.prefix + 1, m.level);
  }

  /** Once everything below a child is cleaned, no node hangs below it. */
  lemma ChildlessWhenCleaned(ram: Ram, tree: Tree, ram1: Ram, tree1: Tree, c: Node)
    requires c.level < 4
    requires Cleaned(ram, tree, ram1, tree1, c.space, c.level, First(c.prefix, c.level), First(c.prefix + 1, c.level))
    ensures Childless(tree1, c)
  {
    hide Below, First, Leaf;
    forall m | m in tree1 && m.level < 4 ensures Parent(m) != c {
      if Parent(m) == c {
        BelowParent(m, c);
      }
    }
  }

  lemma LeafPagesGone(ram: Ram, tree: Tree, kinds: Kinds, n: Node, i: Index, ram': Ram, tree': Tree)
    requires Shape(ram, tree, kinds) && Detached(ram, tree, n, i, ram', tree') && n.level == 1
    ensures PagesGone(ram, tree, ram', tree', n.space, n.prefix * 512 + i, n.prefix * 512 + i + 1)
  {
    hide Shape, Leaf, Detached;
    assert Detached(ram, tree, n, i, ram', tree');
    forall r: nat, q: nat ensures Leaf(ram', tree', r, q) ==
      if r == n.space && n.prefix * 512 + i <= q < n.prefix * 512 + i + 1 then None else Leaf(ram, tree, r, q)
    {
      LeafAfterDetach(ram, tree, kinds, n, i, ram', tree', r, q);
    }
  }

  lemma PageIsChildless(tree: Tree, c: Node)
    requires c.level == 0
    ensures Childless(tree, c)
  {}

  lemma LeafNodeGone(tree: Tree, n: Node, i: Index)
    requires n.level == 1
    ensures NodesGone(tree, tree - {Child(n, i)}, n.space, 1, n.prefix * 512 + i, n.prefix * 512 + i + 1)
  {}

  lemma DetachedFrames(ram: Ram, tree: Tree, kinds: Kinds, n: Node, i: Index, ram': Ram, tree': Tree)
    requires Shape(ram, tree, kinds) && n in tree && n.level > 0 && UserIndex(n.level, i)
    requires tree' == tree - {Child(n, i)} && ram' == SetWord(ram, tree[n], i, ZERO_WORD)
    ensures |ram'| == |ram| && Grows(tree', tree)
    ensures TablesKept(ram, tree, ram', tree', n.space, n.level)
    ensures OthersKept(ram, tree, ram') && KernelHalfKept(ram, tree, ram')
  {
    assert tree[n] in tree.Values;
    forall m | m in tree && Untouched(m, n.space, n.level) ensures ram'[tree[m]] == ram[tree[m]] {
      DistinctFrames(ram, tree, kinds, m, n);
    }
    forall m, j: Index | m in tree && m.level == 4 && j < 256 ensures ram'[tree[m]][j] == ram[tree[m]][j] {
      if m != n { DistinctFrames(ram, tree, kinds, m, n); }
    }
  }

  /** A leaf entry of an application cleared, with its own page's node if it has one. */
  lemma CleanLeaf(ram: Ram, tree: Tree, kinds: Kinds, n: Node, i: Index, ram': Ram, tree': Tree)
    requires Shape(ram, tree, kinds) && n.space in kinds && kinds[n.space].App? && n.level == 1
    requires Detached(ram, tree, n, i, ram', tree')
    ensures Shape(ram', tree', kinds)
    ensures Cleaned(ram, tree, ram', tree', n.space, 1, n.prefix * 512 + i, n.prefix * 512 + i + 1)
  {
    hide Shape, PagesGone, KernelHalfKept, NodesGone, TablesKept, OthersKept, Leaf;
    DetachKeepsShape(ram, tree, kinds, n, i, ram', tree');
    LeafPagesGone(ram, tree, kinds, n, i, ram', tree');
    LeafNodeGone(tree, n, i);
    DetachedFrames(ram, tree, kinds, n, i, ram', tree');
  }

  lemma TablePagesGone(ram: Ram, tree: Tree, ram1: Ram, tree1: Tree, kinds: Kinds, n: Node, i: Index, ram2: Ram, tree2: Tree)
    requires Shape(ram1, tree1, kinds) && Detached(ram1, tree1, n, i, ram2, tree2) && n.level > 1
    requires PagesGone(ram, tree, ram1, tree1, n.space, First(n.prefix * 512 + i, n.level - 1), First(n.prefix * 512 + i + 1, n.level - 1))
    ensures PagesGone(ram, tree, ram2, tree2, n.space, First(n.prefix * 512 + i, n.level - 1), First(n.prefix * 512 + i + 1, n.level - 1))
  {
    hide Shape, Leaf, First, Detached;
    assert Detached(ram1, tree1, n, i, ram2, tree2);
    var lo, hi := First(n.prefix * 512 + i, n.level - 1), First(n.prefix * 512 + i + 1, n.level - 1);
    forall r: nat, q: nat ensures Leaf(ram2, tree2, r, q) == if r == n.space && lo <= q < hi then None else Leaf(ram, tree, r, q) {
      if n.level == 2 && r == n.space && q / 512 == n.prefix * 512 + i {
        LevelOneRange(n.prefix * 512 + i, q);
      }
      LeafAfterDetach(ram1, tree1, kinds, n, i, ram2, tree2, r, q);
    }
  }

  lemma TableNodesGone(ram: Ram, tree: Tree, ram1: Ram, tree1: Tree, kinds: Kinds, n: Node, i: Index)
    requires Shape(ram, tree, kinds) && 2 <= n.level <= 4 && n in tree
    requires Cleaned(ram, tree, ram1, tree1, n.space, n.level - 1, First(n.prefix * 512 + i, n.level - 1), First(n.prefix * 512 + i + 1, n.level - 1))
    ensures NodesGone(tree, tree1 - {Child(n, i)}, n.space, n.level, First(n.prefix * 512 + i, n.level - 1), First(n.prefix * 512 + i + 1, n.level - 1))
  {
    hide Shape, Leaf, First;
    var lo, hi := First(n.prefix * 512 + i, n.level - 1), First(n.prefix * 512 + i + 1, n.level - 1);
    ChildRange(n.prefix, i, n.level);
    forall m | m in tree ensures m in tree1 - {Child(n, i)} <==> !Below(m, n.space, n.level, lo, hi) {
      if Below(m, n.space, n.level, lo, hi) {
        UnderChild(ram, tree, kinds, n, i, m);
      }
    }
  }

  lemma TableFramesKept(ram: Ram, tree: Tree, ram1: Ram, tree1: Tree, kinds: Kinds, n: Node, i: Index, ram2: Ram, tree2: Tree, lo: nat, hi: nat)
    requires Shape(ram1, tree1, kinds) && 2 <= n.level <= 4 && UserIndex(n.level, i)
    requires Detached(ram1, tree1, n, i, ram2, tree2)
    requires Cleaned(ram, tree, ram1, tree1, n.space, n.level - 1, lo, hi)
    ensures |ram2| == |ram| && Grows(tree2, tree)
    ensures TablesKept(ram, tree, ram2, tree2, n.space, n.level)
    ensures OthersKept(ram, tree, ram2) && KernelHalfKept(ram, tree, ram2)
  {
    DetachedFrames(ram1, tree1, kinds, n, i, ram2, tree2);
    hide Shape, Leaf, First, PagesGone;
    forall f: nat | f < |ram| && f !in tree.Values ensures ram2[f] == ram[f] {
      StillOutside(tree, tree1, f);
    }
    forall m, j: Index | m in tree && m.level == 4 && tree[m] < |ram| && j < 256 ensures ram2[tree[m]][j] == ram[tree[m]][j] {
      assert !Below(m, n.space, n.level - 1, lo, hi);
    }
  }

  /** A table entry cleared after everything below it. */
  lemma CleanTable(ram: Ram, tree: Tree, ram1: Ram, tree1: Tree, kinds: Kinds, n: Node, i: Index, ram2: Ram, tree2: Tree)
    requires Shape(ram, tree, kinds) && Shape(ram1, tree1, kinds) && n.space in kinds && kinds[n.space].App?
    requires n in tree && n in tree1 && 2 <= n.level <= 4 && UserIndex(n.level, i)
    requires Cleaned(ram, tree, ram1, tree1, n.space, n.level - 1, First(n.prefix * 512 + i, n.level - 1), First(n.prefix * 512 + i + 1, n.level - 1))
    requires tree1[n] < |ram1| && tree2 == tree1 - {Child(n, i)} && ram2 == SetWord(ram1, tree1[n], i, ZERO_WORD)
    ensures Shape(ram2, tree2, kinds)
    ensures Cleaned(ram, tree, ram2, tree2, n.space, n.level, First(n.prefix * 512 + i, n.level - 1), First(n.prefix * 512 + i + 1, n.level - 1))
  {
    hide Shape, PagesGone, KernelHalfKept, NodesGone, TablesKept, OthersKept, Leaf, First, Grows, Childless;
    ChildRange(n.prefix, i, n.level);
    ChildlessWhenCleaned(ram, tree, ram1, tree1, Child(n, i));
    assert Detached(ram1, tree1, n, i, ram2, tree2);
    hide Detached;
    DetachKeepsShape(ram1, tree1, kinds, n, i, ram2, tree2);
    TablePagesGone(ram, tree, ram1, tree1, kinds, n, i, ram2, tree2);
    TableNodesGone(ram, tree, ram1, tree1, kinds, n, i);
    TableFramesKept(ram, tree, ram1, tree1, kinds, n, i, ram2, tree2,
                    First(n.prefix * 512 + i, n.level - 1), First(n.prefix * 512 + i + 1, n.level - 1));
  }

  lemma LevelOneRange(p: nat, q: nat)
    requires q / 512 == p
    ensures First(p, 1) <= q < First(p + 1, 1)
  {
    assert First(p, 1) == First(p * 512, 0) == p * 512;
    assert First(p + 1, 1) == First((p + 1) * 512, 0) == (p + 1) * 512;
  }
}
