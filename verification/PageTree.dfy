/** Page-map trees over a memory of frames: which frame holds which node of which
    address space, what the memory must then contain, and what the hardware walk sees. */
module PageTree {
  import opened Common
  import opened PageMapEntry

  /** A table (level 4 to 1) or a page (level 0) of an address space. The node covers the
      pages v with Prefix(v, level) == prefix. */
  datatype Node = Node(space: nat, level: nat, prefix: nat)

  /** A cached application image, or a running copy of one. */
  datatype Kind = Template | App(template: nat)

  type Ram = seq<Frame>
  type Tree = map<Node, nat>
  type Kinds = map<nat, Kind>

  function Root(s: nat): Node { Node(s, 4, 0) }

  function Child(n: Node, i: Index): Node
    requires n.level > 0
  {
    Node(n.space, n.level - 1, n.prefix * 512 + i)
  }

  function Parent(n: Node): Node { Node(n.space, n.level + 1, n.prefix / 512) }

  /** Word i of frame f set to w. */
  function SetWord(ram: Ram, f: nat, i: Index, w: Word): Ram
    requires f < |ram|
  {
    var frame: Frame := ram[f][i := w];
    ram[f := frame]
  }

  /** The lower half of every root table belongs to the kernel. */
  predicate UserIndex(level: nat, i: nat) { level == 4 ==> i >= 256 }

  ghost predicate NodeOk(n: Node, tree: Tree, kinds: Kinds) {
    && n.level <= 4 && n.space in kinds
    && (n.level == 4 ==> n.prefix == 0)
    && (n.level < 4 ==> Parent(n) in tree && UserIndex(n.level + 1, n.prefix % 512))
  }

  /** An application may map a page of its template at the template's own address. */
  ghost predicate SharedOk(e: Word, s: nat, v: nat, tree: Tree, kinds: Kinds) {
    && s in kinds && kinds[s].App?
    && Node(kinds[s].template, 0, v) in tree && e.addr == tree[Node(kinds[s].template, 0, v)]
  }

  ghost predicate EntryOk(e: Word, n: Node, i: Index, tree: Tree, kinds: Kinds)
    requires n.level > 0
  {
    var c := Child(n, i);
    && !e.huge
    && (c in tree ==> e.present && e.addr == tree[c])
    && (e.present ==> e.user)
    && (e.present && c !in tree ==> n.level == 1 && SharedOk(e, n.space, c.prefix, tree, kinds))
    && (e.present && n.level > 1 ==> e.writable)
  }

  ghost predicate Injective(tree: Tree) {
    forall m, n :: m in tree && n in tree && tree[m] == tree[n] ==> m == n
  }

  /** Every node has its own frame, and the tables' upper halves say exactly that. */
  ghost predicate Shape(ram: Ram, tree: Tree, kinds: Kinds) {
    && Injective(tree)
    && (forall n :: n in tree ==> NodeOk(n, tree, kinds) && tree[n] < |ram|)
    && (forall n, i: Index :: n in tree && n.level > 0 && UserIndex(n.level, i) ==>
          EntryOk(ram[tree[n]][i], n, i, tree, kinds))
    && (forall s :: s in kinds ==> Root(s) in tree)
    && (forall s :: s in kinds && kinds[s].App? ==>
          kinds[s].template in kinds && kinds[kinds[s].template].Template?)
  }

  /** The entry that maps page v in space s. */
  ghost function Leaf(ram: Ram, tree: Tree, s: nat, v: nat): Option<Word> {
    var n := Node(s, 1, v / 512);
    if n in tree && tree[n] < |ram| && ram[tree[n]][v % 512].present then Some(ram[tree[n]][v % 512]) else None
  }

  /** What the paging hardware makes of page v, from the table in frame f at `level`:
      section 4.5 of the Intel SDM, volume 3A, for 4 KiB pages. */
  datatype Translation = Translation(frame: nat, writable: bool, user: bool)

  function Walk(ram: Ram, f: nat, level: nat, v: nat): Option<Translation>
    requires 1 <= level <= 4
    decreases level
  {
    if f >= |ram| then None else
    var e := ram[f][Prefix(v, level - 1) % 512];
    if !e.present || e.huge then None
    else if level == 1 then Some(Translation(e.addr, e.writable, e.user))
    else
      match Walk(ram, e.addr, level - 1, v)
      case None => None
      case Some(t) => Some(Translation(t.frame, t.writable && e.writable, t.user && e.user))
  }

  lemma {:induction false} Ancestor(tree: Tree, kinds: Kinds, s: nat, v: nat, l: nat, k: nat)
    requires forall n :: n in tree ==> NodeOk(n, tree, kinds)
    requires l <= k <= 4 && Node(s, l, Prefix(v, l)) in tree
    ensures Node(s, k, Prefix(v, k)) in tree
    decreases k - l
  {
    if l < k {
      assert Parent(Node(s, l, Prefix(v, l))) == Node(s, l + 1, Prefix(v, l + 1));
      Ancestor(tree, kinds, s, v, l + 1, k);
    }
  }

  /** What a well-shaped tree says of one entry. */
  lemma EntryAt(ram: Ram, tree: Tree, kinds: Kinds, n: Node, i: Index)
    requires Shape(ram, tree, kinds)
    requires n in tree && n.level > 0 && UserIndex(n.level, i)
    ensures tree[n] < |ram| && EntryOk(ram[tree[n]][i], n, i, tree, kinds)
  {}

  lemma ShapeAncestor(ram: Ram, tree: Tree, kinds: Kinds, s: nat, v: nat, l: nat, k: nat)
    requires Shape(ram, tree, kinds)
    requires l <= k <= 4 && Node(s, l, Prefix(v, l)) in tree
    ensures Node(s, k, Prefix(v, k)) in tree
  {
    Ancestor(tree, kinds, s, v, l, k);
  }

  /** The hardware walk of a well-shaped tree finds exactly the leaf entries. */
  lemma {:induction false} WalkFindsLeaf(ram: Ram, tree: Tree, kinds: Kinds, s: nat, level: nat, v: nat)
    requires Shape(ram, tree, kinds)
    requires 1 <= level <= 4 && Node(s, level, Prefix(v, level)) in tree
    requires USER_BEGIN <= v < VPN_COUNT
    ensures Walk(ram, tree[Node(s, level, Prefix(v, level))], level, v) ==
            match Leaf(ram, tree, s, v)
            case None => None
            case Some(e) => Some(Translation(e.addr, e.writable, e.user))
    decreases level
  {
    hide Shape;
    var n := Node(s, level, Prefix(v, level));
    var i: Index := Prefix(v, level - 1) % 512;
    Halves(v);
    EntryAt(ram, tree, kinds, n, i);
    var e := ram[tree[n]][i];
    if level == 1 {
      assert Prefix(v, 0) == v && Prefix(v, 1) == v / 512;
    } else {
      var c := Child(n, i);
      assert c == Node(s, level - 1, Prefix(v, level - 1));
      if e.present {
        WalkFindsLeaf(ram, tree, kinds, s, level - 1, v);
      } else if Node(s, 1, v / 512) in tree {
        assert Prefix(v, 1) == v / 512;
        ShapeAncestor(ram, tree, kinds, s, v, 1, level - 1);
        assert false;
      }
    }
  }

  lemma Halves(v: nat)
    requires v < VPN_COUNT
    ensures Prefix(v, 4) == 0
    ensures v >= USER_BEGIN <==> Prefix(v, 3) >= 256
    ensures Prefix(v, 3) < 512
  {
    var a := v / 512;
    var b := a / 512;
    var c := b / 512;
    assert Prefix(v, 1) == a;
    assert Prefix(v, 2) == b;
    assert Prefix(v, 3) == c;
    assert Prefix(v, 4) == c / 512;
  }

  ghost predicate Grows(tree: Tree, tree': Tree) {
    forall n :: n in tree ==> n in tree' && tree'[n] == tree[n]
  }

  lemma EntryOkGrows(e: Word, m: Node, j: Index, tree: Tree, tree': Tree, kinds: Kinds)
    requires m.level > 0 && EntryOk(e, m, j, tree, kinds)
    requires Grows(tree, tree') && (Child(m, j) in tree' ==> Child(m, j) in tree)
    ensures EntryOk(e, m, j, tree', kinds)
  {}

  lemma ChildInjective(m: Node, j: Index, n: Node, i: Index)
    requires m.level > 0 && n.level > 0 && Child(m, j) == Child(n, i)
    ensures m == n && i == j
  {
    assert Parent(Child(m, j)) == m && Parent(Child(n, i)) == n;
  }

  /** Rewriting one entry without changing the tree. */
  lemma SetEntryKeepsShape(ram: Ram, tree: Tree, kinds: Kinds, n: Node, i: Index, e: Word, ram': Ram)
    requires Shape(ram, tree, kinds)
    requires n in tree && n.level > 0 && UserIndex(n.level, i)
    requires ram' == SetWord(ram, tree[n], i, e)
    requires EntryOk(e, n, i, tree, kinds)
    ensures Shape(ram', tree, kinds)
  {
    forall m, j: Index | m in tree && m.level > 0 && UserIndex(m.level, j)
      ensures EntryOk(ram'[tree[m]][j], m, j, tree, kinds)
    {
      assert EntryOk(ram[tree[m]][j], m, j, tree, kinds);
      if tree[m] == tree[n] {
        assert m == n;
      }
    }
  }

  /** Memory and tree after the child at n[i] was given the frame e.addr. */
  ghost predicate Attached(ram: Ram, tree: Tree, n: Node, i: Index, e: Word, ram': Ram, tree': Tree) {
    && n in tree && n.level > 0 && UserIndex(n.level, i) && tree[n] < |ram|
    && ram' == SetWord(ram, tree[n], i, e)
    && Child(n, i) !in tree && tree' == tree[Child(n, i) := e.addr]
    && (forall m :: m in tree ==> tree[m] != e.addr) && e.addr < |ram| && (n.level > 1 ==> Zeroed(ram[e.addr]))
    && e.present && e.user && !e.huge && (n.level > 1 ==> e.writable)
  }

  lemma AttachKeepsEntry(ram: Ram, tree: Tree, kinds: Kinds, n: Node, i: Index, e: Word, ram': Ram, tree': Tree,
                         m: Node, j: Index)
    requires Shape(ram, tree, kinds) && Attached(ram, tree, n, i, e, ram', tree')
    requires m in tree && m.level > 0 && UserIndex(m.level, j)
    ensures EntryOk(ram'[tree'[m]][j], m, j, tree', kinds)
  {
    if m == n && j == i {
      assert Child(n, i) in tree';
    } else {
      assert EntryOk(ram[tree[m]][j], m, j, tree, kinds);
      if Child(m, j) == Child(n, i) { ChildInjective(m, j, n, i); }
      EntryOkGrows(ram[tree[m]][j], m, j, tree, tree', kinds);
      assert m != n ==> tree[m] != tree[n];
      assert ram'[tree'[m]][j] == ram[tree[m]][j];
    }
  }

  lemma AttachedTableIsEmpty(ram: Ram, tree: Tree, kinds: Kinds, n: Node, i: Index, e: Word, ram': Ram, tree': Tree,
                             j: Index)
    requires Shape(ram, tree, kinds) && Attached(ram, tree, n, i, e, ram', tree') && n.level > 1
    ensures EntryOk(ram'[e.addr][j], Child(n, i), j, tree', kinds)
  {
    var c := Child(n, i);
    assert ram'[e.addr][j] == ZERO_WORD;
    assert Parent(Child(c, j)) == c;
  }

  /** Giving a child a frame of its own keeps the tree well shaped. */
  lemma AttachKeepsShape(ram: Ram, tree: Tree, kinds: Kinds, n: Node, i: Index, e: Word, ram': Ram, tree': Tree)
    requires Shape(ram, tree, kinds) && Attached(ram, tree, n, i, e, ram', tree')
    ensures Shape(ram', tree', kinds)
  {
    var c := Child(n, i);
    assert Parent(c) == n && c.prefix % 512 == i;
    forall m, j: Index | m in tree' && m.level > 0 && UserIndex(m.level, j)
      ensures EntryOk(ram'[tree'[m]][j], m, j, tree', kinds)
    {
      if m in tree {
        AttachKeepsEntry(ram, tree, kinds, n, i, e, ram', tree', m, j);
      } else {
        AttachedTableIsEmpty(ram, tree, kinds, n, i, e, ram', tree', j);
      }
    }
    forall m | m in tree' ensures NodeOk(m, tree', kinds) && tree'[m] < |ram'| {
      if m in tree { assert NodeOk(m, tree, kinds); }
    }
  }

  ghost function LeafIn(frame: Frame, v: nat): Option<Word> {
    if frame[v % 512].present then Some(frame[v % 512]) else None
  }

  /** Only the leaf below the rewritten entry can change. */
  lemma LeafAfterSet(ram: Ram, tree: Tree, kinds: Kinds, n: Node, i: Index, e: Word, ram': Ram, s: nat, v: nat)
    requires Shape(ram, tree, kinds)
    requires n in tree && n.level > 0 && ram' == SetWord(ram, tree[n], i, e)
    ensures Leaf(ram', tree, s, v) ==
            if n.level == 1 && s == n.space && v == Child(n, i).prefix
            then if e.present then Some(e) else None
            else Leaf(ram, tree, s, v)
  {
    var m := Node(s, 1, v / 512);
    if m in tree {
      assert Leaf(ram', tree, s, v) == LeafIn(ram'[tree[m]], v);
      assert Leaf(ram, tree, s, v) == LeafIn(ram[tree[m]], v);
      if m != n {
        assert tree[m] != tree[n];
      }
    }
  }

  lemma LeafAfterAttach(ram: Ram, tree: Tree, kinds: Kinds, n: Node, i: Index, e: Word, ram': Ram, tree': Tree, s: nat, v: nat)
    requires Shape(ram, tree, kinds) && Attached(ram, tree, n, i, e, ram', tree')
    ensures Leaf(ram', tree', s, v) ==
            if n.level == 1 && s == n.space && v == Child(n, i).prefix then Some(e) else Leaf(ram, tree, s, v)
  {
    LeafAfterSet(ram, tree, kinds, n, i, e, ram', s, v);
    var m := Node(s, 1, v / 512);
    if m !in tree && m in tree' {
      assert m == Child(n, i);
      assert ram'[e.addr][v % 512] == ram[e.addr][v % 512] == ZERO_WORD;
    }
  }

  /** From (ram, tree) to (ram', tree'), space s gained nodes below level `top` for the
      pages lo to hi, each with a zeroed page or a table; only tables of s changed. */
  ghost predicate Extends(ram: Ram, tree: Tree, ram': Ram, tree': Tree, s: nat, top: nat, lo: nat, hi: nat) {
    && |ram'| == |ram| && Grows(tree, tree')
    && (forall n :: n in tree' && n !in tree ==> NewNode(n, s, top, lo, hi))
    && (forall n :: n in tree' && n !in tree && n.level == 0 && tree'[n] < |ram'| ==> Zeroed(ram'[tree'[n]]))
    && (forall n :: n in tree && tree[n] < |ram| && Untouched(n, s, top) ==> ram'[tree[n]] == ram[tree[n]])
    && (forall f: nat :: f < |ram| && f !in tree'.Values ==> ram'[f] == ram[f])
    && KernelHalfKept(ram, tree, ram')
  }

  ghost predicate NewNode(n: Node, s: nat, top: nat, lo: nat, hi: nat) {
    n.space == s && n.level < top && lo < hi && Prefix(lo, n.level) <= n.prefix <= Prefix(hi - 1, n.level)
  }

  ghost predicate Untouched(n: Node, s: nat, top: nat) {
    n.space != s || n.level == 0 || n.level > top
  }

  ghost predicate KernelHalfKept(ram: Ram, tree: Tree, ram': Ram)
    requires |ram'| == |ram|
  {
    forall n, i: Index :: n in tree && n.level == 4 && tree[n] < |ram| && i < 256 ==> ram'[tree[n]][i] == ram[tree[n]][i]
  }

  lemma ExtendsJoins(ram: Ram, tree: Tree, ram1: Ram, tree1: Tree, ram2: Ram, tree2: Tree,
                     s: nat, top: nat, lo: nat, mid: nat, hi: nat)
    requires lo <= mid <= hi && top <= 4
    requires Extends(ram, tree, ram1, tree1, s, top, lo, mid)
    requires Extends(ram1, tree1, ram2, tree2, s, top, mid, hi)
    ensures Extends(ram, tree, ram2, tree2, s, top, lo, hi)
  {
    forall n | n in tree2 && n !in tree ensures NewNode(n, s, top, lo, hi) {
      PrefixMonotone(lo, mid, n.level);
      if mid < hi { PrefixMonotone(mid, hi - 1, n.level); }
      if lo < mid { PrefixMonotone(mid - 1, mid, n.level); }
    }
    forall n | n in tree2 && n !in tree && n.level == 0 && tree2[n] < |ram2| ensures Zeroed(ram2[tree2[n]]) {
      if n in tree1 { assert Untouched(n, s, top) && ram2[tree1[n]] == ram1[tree1[n]]; }
    }
    forall n, i: Index | n in tree && n.level == 4 && tree[n] < |ram| && i < 256
      ensures ram2[tree[n]][i] == ram[tree[n]][i]
    {
      assert n in tree1 && tree1[n] == tree[n];
    }
  }

  /** As Extends joins, but the second part lies one level deeper over the same pages. */
  lemma ExtendsNests(ram: Ram, tree: Tree, ram1: Ram, tree1: Tree, ram2: Ram, tree2: Tree,
                     s: nat, top: nat, lo: nat, hi: nat)
    requires lo < hi && 0 < top <= 4
    requires Extends(ram, tree, ram1, tree1, s, top, lo, lo + 1)
    requires Extends(ram1, tree1, ram2, tree2, s, top - 1, lo, hi)
    ensures Extends(ram, tree, ram2, tree2, s, top, lo, hi)
  {
    forall n | n in tree2 && n !in tree ensures NewNode(n, s, top, lo, hi) {
      PrefixMonotone(lo, hi - 1, n.level);
    }
    forall n | n in tree2 && n !in tree && n.level == 0 && tree2[n] < |ram2| ensures Zeroed(ram2[tree2[n]]) {
      if n in tree1 { assert Untouched(n, s, top - 1) && ram2[tree1[n]] == ram1[tree1[n]]; }
    }
    forall n | n in tree && tree[n] < |ram| && Untouched(n, s, top) ensures ram2[tree[n]] == ram[tree[n]] {
      assert n in tree1 && tree1[n] == tree[n] && Untouched(n, s, top - 1);
    }
    forall n, i: Index | n in tree && n.level == 4 && tree[n] < |ram| && i < 256
      ensures ram2[tree[n]][i] == ram[tree[n]][i]
    {
      assert n in tree1 && tree1[n] == tree[n];
    }
  }

  /** Pages lo to hi of space s are now mapped with writability w, each keeping its entry
      otherwise or, if it was missing, with a node of its own. All else is mapped as before. */
  ghost predicate PagesSet(ram: Ram, tree: Tree, ram': Ram, tree': Tree, s: nat, lo: nat, hi: nat, w: bool) {
    forall r: nat, q: nat ::
      if r == s && lo <= q < hi
      then PageSet(Leaf(ram, tree, r, q), Leaf(ram', tree', r, q), tree, tree', Node(r, 0, q), w)
      else PageKept(ram, tree, ram', tree', r, q)
  }

  ghost predicate PageKept(ram: Ram, tree: Tree, ram': Ram, tree': Tree, r: nat, q: nat) {
    Leaf(ram', tree', r, q) == Leaf(ram, tree, r, q) && (Node(r, 0, q) in tree' <==> Node(r, 0, q) in tree)
  }

  ghost predicate PageSet(before: Option<Word>, after: Option<Word>, tree: Tree, tree': Tree, n: Node, w: bool) {
    match before
    case Some(e) => after == Some(e.(writable := w)) && (n in tree' <==> n in tree)
    case None =>
      && n !in tree && n in tree'
      && after.Some? && after.value.addr == tree'[n] && after.value.writable == w && after.value.user
  }

  lemma PagesSetJoins(ram: Ram, tree: Tree, ram1: Ram, tree1: Tree, ram2: Ram, tree2: Tree,
                      s: nat, lo: nat, mid: nat, hi: nat, w: bool)
    requires lo <= mid <= hi && Grows(tree1, tree2)
    requires PagesSet(ram, tree, ram1, tree1, s, lo, mid, w) && PagesSet(ram1, tree1, ram2, tree2, s, mid, hi, w)
    ensures PagesSet(ram, tree, ram2, tree2, s, lo, hi, w)
  {
    forall r: nat, q: nat
      ensures if r == s && lo <= q < hi
              then PageSet(Leaf(ram, tree, r, q), Leaf(ram2, tree2, r, q), tree, tree2, Node(r, 0, q), w)
              else PageKept(ram, tree, ram2, tree2, r, q)
    {
      assert Leaf(ram1, tree1, r, q) == Leaf(ram1, tree1, r, q);
    }
  }

  /** Frames that hold no node may change freely. */
  lemma OutsideKeepsShape(ram: Ram, tree: Tree, kinds: Kinds, f: nat, frame: Frame)
    requires Shape(ram, tree, kinds) && f < |ram| && f !in tree.Values
    ensures Shape(ram[f := frame], tree, kinds)
    ensures forall s: nat, v: nat :: Leaf(ram[f := frame], tree, s, v) == Leaf(ram, tree, s, v)
  {
    var ram' := ram[f := frame];
    assert forall n :: n in tree ==> tree[n] in tree.Values && tree[n] != f;
    forall n, i: Index | n in tree && n.level > 0 && UserIndex(n.level, i)
      ensures EntryOk(ram'[tree[n]][i], n, i, tree, kinds)
    {
      assert EntryOk(ram[tree[n]][i], n, i, tree, kinds);
    }
  }

  /** The entry for page v in table n was made present, with writability w; an absent
      one got the zeroed frame f. */
  ghost predicate EntrySet(ram: Ram, tree: Tree, n: Node, v: nat, w: bool, f: nat, ram': Ram, tree': Tree) {
    && n in tree && tree[n] < |ram| && |ram'| == |ram| && 1 <= n.level <= 4 && n.prefix == Prefix(v, n.level)
    && var i: Index := Prefix(v, n.level - 1) % 512;
       var e, e' := ram[tree[n]][i], ram'[tree[n]][i];
       if e.present then
         tree' == tree && e' == e.(user := true, writable := w) && ram' == SetWord(ram, tree[n], i, e')
       else
         && f < |ram| && f !in tree.Values && Zeroed(ram'[f])
         && e'.present && e'.user && e'.writable == w && !e'.huge && e'.addr == f
         && tree' == tree[Child(n, i) := f]
         && ram' == SetWord(ram[f := ram'[f]], tree[n], i, e')
  }

  /** Only the leaf of page v in the space of n may have changed. */
  ghost predicate OnlyLeaf(ram: Ram, tree: Tree, ram': Ram, tree': Tree, n: Node, v: nat, leaf: Option<Word>) {
    forall r: nat, q: nat :: Leaf(ram', tree', r, q) ==
      if n.level == 1 && r == n.space && q == v then leaf else Leaf(ram, tree, r, q)
  }

  lemma EntrySetPresent(ram: Ram, tree: Tree, kinds: Kinds, n: Node, v: nat, w: bool, ram': Ram)
    requires Shape(ram, tree, kinds) && USER_BEGIN <= v < VPN_COUNT
    requires EntrySet(ram, tree, n, v, w, 0, ram', tree) && (n.level > 1 ==> w)
    requires ram[tree[n]][Prefix(v, n.level - 1) % 512].present
    ensures Shape(ram', tree, kinds)
    ensures OnlyLeaf(ram, tree, ram', tree, n, v, Some(ram'[tree[n]][Prefix(v, n.level - 1) % 512]))
  {
    Halves(v);
    var i: Index := Prefix(v, n.level - 1) % 512;
    var e := ram[tree[n]][i];
    var e' := e.(user := true, writable := w);
    assert EntryOk(e, n, i, tree, kinds);
    SetEntryKeepsShape(ram, tree, kinds, n, i, e', ram');
    assert n.level == 1 ==> Child(n, i).prefix == v;
    forall r: nat, q: nat ensures Leaf(ram', tree, r, q) ==
      if n.level == 1 && r == n.space && q == v then Some(e') else Leaf(ram, tree, r, q)
    {
      LeafAfterSet(ram, tree, kinds, n, i, e', ram', r, q);
    }
  }

  lemma EntrySetAttaches(ram: Ram, tree: Tree, kinds: Kinds, n: Node, v: nat, w: bool, f: nat, ram': Ram, tree': Tree)
    requires Shape(ram, tree, kinds) && USER_BEGIN <= v < VPN_COUNT
    requires EntrySet(ram, tree, n, v, w, f, ram', tree') && (n.level > 1 ==> w)
    requires !ram[tree[n]][Prefix(v, n.level - 1) % 512].present
    ensures f !in tree.Values
    ensures Attached(ram[f := ram'[f]], tree, n, Prefix(v, n.level - 1) % 512,
                     ram'[tree[n]][Prefix(v, n.level - 1) % 512], ram', tree')
  {
    Halves(v);
    EntryAt(ram, tree, kinds, n, Prefix(v, n.level - 1) % 512);
    hide Shape, Prefix, Zeroed;
    assert forall m :: m in tree ==> tree[m] in tree.Values && tree[m] != f;
  }

  lemma EntrySetAbsent(ram: Ram, tree: Tree, kinds: Kinds, n: Node, v: nat, w: bool, f: nat, ram': Ram, tree': Tree)
    requires Shape(ram, tree, kinds) && USER_BEGIN <= v < VPN_COUNT
    requires EntrySet(ram, tree, n, v, w, f, ram', tree') && (n.level > 1 ==> w)
    requires !ram[tree[n]][Prefix(v, n.level - 1) % 512].present
    ensures Shape(ram', tree', kinds)
    ensures OnlyLeaf(ram, tree, ram', tree', n, v, Some(ram'[tree[n]][Prefix(v, n.level - 1) % 512]))
    ensures Child(n, Prefix(v, n.level - 1) % 512) !in tree
  {
    hide Shape, Leaf;
    var i: Index := Prefix(v, n.level - 1) % 512;
    var e := ram'[tree[n]][i];
    var ram0 := ram[f := ram'[f]];
    EntrySetAttaches(ram, tree, kinds, n, v, w, f, ram', tree');
    OutsideKeepsShape(ram, tree, kinds, f, ram'[f]);
    AttachKeepsShape(ram0, tree, kinds, n, i, e, ram', tree');
    forall r: nat, q: nat ensures Leaf(ram', tree', r, q) ==
      if n.level == 1 && r == n.space && q == v then Some(e) else Leaf(ram, tree, r, q)
    {
      LeafAfterAttach(ram0, tree, kinds, n, i, e, ram', tree', r, q);
    }
  }

  lemma EntrySetOutside(ram: Ram, tree: Tree, n: Node, v: nat, w: bool, f: nat, ram': Ram, tree': Tree, g: nat)
    requires EntrySet(ram, tree, n, v, w, f, ram', tree') && g < |ram| && g !in tree'.Values
    ensures ram'[g] == ram[g]
  {
    hide Prefix;
    assert n in tree' && tree'[n] == tree[n] && tree'[n] in tree'.Values;
    var c := Child(n, Prefix(v, n.level - 1) % 512);
    assert c in tree' ==> tree'[c] in tree'.Values;
  }

  lemma EntrySetExtends(ram: Ram, tree: Tree, n: Node, v: nat, w: bool, f: nat, ram': Ram, tree': Tree)
    requires Injective(tree) && (forall m :: m in tree ==> tree[m] < |ram|)
    requires USER_BEGIN <= v < VPN_COUNT
    requires EntrySet(ram, tree, n, v, w, f, ram', tree')
    requires Child(n, Prefix(v, n.level - 1) % 512) in tree ==> tree' == tree
    requires OnlyLeaf(ram, tree, ram', tree', n, v, Some(ram'[tree[n]][Prefix(v, n.level - 1) % 512]))
    ensures Extends(ram, tree, ram', tree', n.space, n.level, v, v + 1)
  {
    Halves(v);
    var i: Index := Prefix(v, n.level - 1) % 512;
    var c := Child(n, i);
    assert c.prefix == Prefix(v, c.level);
    forall m | m in tree' && m !in tree ensures NewNode(m, n.space, n.level, v, v + 1) {
      assert m == c;
    }
    forall m | m in tree && Untouched(m, n.space, n.level) ensures ram'[tree[m]] == ram[tree[m]] {
      assert m != n && tree[m] != tree[n];
      assert tree[m] in tree.Values;
    }
    forall g: nat | g < |ram| && g !in tree'.Values ensures ram'[g] == ram[g] {
      EntrySetOutside(ram, tree, n, v, w, f, ram', tree', g);
    }
    forall m, j: Index | m in tree && m.level == 4 && j < 256 ensures ram'[tree[m]][j] == ram[tree[m]][j] {
      assert tree[m] in tree.Values;
      if m == n { assert i >= 256; }
    }
  }

  lemma EntrySetPage(ram: Ram, tree: Tree, kinds: Kinds, n: Node, v: nat, w: bool, f: nat, ram': Ram, tree': Tree)
    requires Shape(ram, tree, kinds) && n.level == 1
    requires EntrySet(ram, tree, n, v, w, f, ram', tree')
    requires OnlyLeaf(ram, tree, ram', tree', n, v, Some(ram'[tree[n]][v % 512]))
    ensures PagesSet(ram, tree, ram', tree', n.space, v, v + 1, w)
  {
    assert n == Node(n.space, 1, v / 512) && Prefix(v, 0) == v;
    assert Child(n, v % 512) == Node(n.space, 0, v);
    assert EntryOk(ram[tree[n]][v % 512], n, v % 512, tree, kinds);
    assert Leaf(ram', tree', n.space, v) == Some(ram'[tree[n]][v % 512]);
  }

  ghost predicate LeavesKept(ram: Ram, tree: Tree, ram': Ram, tree': Tree) {
    forall r: nat, q: nat :: PageKept(ram, tree, ram', tree', r, q)
  }

  lemma TableKeepsLeaves(ram: Ram, tree: Tree, ram': Ram, tree': Tree, n: Node, v: nat, leaf: Option<Word>)
    requires n.level > 1 && OnlyLeaf(ram, tree, ram', tree', n, v, leaf)
    requires forall m :: m in tree' <==> m in tree || (m in tree' && m.level > 0)
    ensures LeavesKept(ram, tree, ram', tree')
  {}

  /** One step of SetupPageMap: the entry for page v is made present. */
  lemma EntrySetStep(ram: Ram, tree: Tree, kinds: Kinds, n: Node, v: nat, w: bool, f: nat, ram': Ram, tree': Tree)
    requires Shape(ram, tree, kinds) && USER_BEGIN <= v < VPN_COUNT
    requires EntrySet(ram, tree, n, v, w, f, ram', tree') && (n.level > 1 ==> w)
    ensures Shape(ram', tree', kinds)
    ensures Extends(ram, tree, ram', tree', n.space, n.level, v, v + 1)
    ensures if n.level == 1 then PagesSet(ram, tree, ram', tree', n.space, v, v + 1, w)
            else LeavesKept(ram, tree, ram', tree')
  {
    var i: Index := Prefix(v, n.level - 1) % 512;
    if ram[tree[n]][i].present {
      EntrySetPresent(ram, tree, kinds, n, v, w, ram');
    } else {
      EntrySetAbsent(ram, tree, kinds, n, v, w, f, ram', tree');
    }
    EntrySetExtends(ram, tree, n, v, w, f, ram', tree');
    if n.level == 1 {
      EntrySetPage(ram, tree, kinds, n, v, w, f, ram', tree');
    } else {
      TableKeepsLeaves(ram, tree, ram', tree', n, v, Some(ram'[tree[n]][i]));
    }
  }

  lemma PagesSetNests(ram: Ram, tree: Tree, ram1: Ram, tree1: Tree, ram2: Ram, tree2: Tree,
                      s: nat, v: nat, hi: nat, w: bool)
    requires LeavesKept(ram, tree, ram1, tree1)
    requires PagesSet(ram1, tree1, ram2, tree2, s, v, hi, w)
    ensures PagesSet(ram, tree, ram2, tree2, s, v, hi, w)
  {
    forall r: nat, q: nat
      ensures if r == s && v <= q < hi
              then PageSet(Leaf(ram, tree, r, q), Leaf(ram2, tree2, r, q), tree, tree2, Node(r, 0, q), w)
              else PageKept(ram, tree, ram2, tree2, r, q)
    {
      assert PageKept(ram, tree, ram1, tree1, r, q);
    }
  }

  /** How many of num pages from v lie under v's node at `level`. */
  function Within(v: nat, num: nat, level: nat): nat
  {
    var room := First(Prefix(v, level) + 1, level) - v;
    if num <= room then num else if room < 0 then 0 else room
  }

  lemma WithinNothing(v: nat, level: nat)
    ensures Within(v, 0, level) == 0
  {
    PrefixBelow(v, Prefix(v, level) + 1, level);
  }

  lemma {:induction false} FirstMonotone(p: nat, q: nat, level: nat)
    requires p <= q
    ensures First(p, level) <= First(q, level)
    decreases level
  {
    if level > 0 {
      FirstMonotone(p * 512, q * 512, level - 1);
    }
  }

  /** The pages under a child lie under its parent, and the last child ends with it. */
  lemma WithinChild(v: nat, num: nat, level: nat)
    requires level > 0
    ensures 0 < num ==> 0 < Within(v, num, level - 1)
    ensures level == 1 && 0 < num ==> Within(v, num, 0) == 1
    ensures Within(v, num, level - 1) <= Within(v, num, level)
    ensures Prefix(v, level - 1) % 512 == 511 ==> Within(v, num, level - 1) == Within(v, num, level)
    ensures Prefix(v, level - 1) % 512 < 511 ==>
      var next := First(Prefix(v, level - 1) + 1, level - 1);
      && v < next && Prefix(next, level) == Prefix(v, level)
      && (Within(v, num, level - 1) < num ==>
            && v + Within(v, num, level - 1) == next
            && Within(v, num, level) == Within(v, num, level - 1) + Within(next, num - Within(v, num, level - 1), level))
      && (Within(v, num, level - 1) == num ==> Within(v, num, level) == num)
  {
    var p := Prefix(v, level - 1);
    var q := Prefix(v, level);
    PrefixBelow(v, p + 1, level - 1);
    PrefixBelow(v, q + 1, level);
    assert First(q + 1, level) == First((q + 1) * 512, level - 1);
    FirstMonotone(p + 1, (q + 1) * 512, level - 1);
    PrefixOfFirst(p + 1, level - 1);
  }

  /** Space s grew for pages lo to hi, of which those below mid are set up. */
  ghost predicate SetUp(ram: Ram, tree: Tree, ram': Ram, tree': Tree, s: nat, top: nat, lo: nat, mid: nat, hi: nat, w: bool) {
    Extends(ram, tree, ram', tree', s, top, lo, hi) && PagesSet(ram, tree, ram', tree', s, lo, mid, w)
  }

  lemma SetUpJoins(ram: Ram, tree: Tree, ram1: Ram, tree1: Tree, ram2: Ram, tree2: Tree,
                   s: nat, top: nat, lo: nat, mid: nat, upto: nat, hi: nat, w: bool)
    requires lo <= mid <= upto <= hi && top <= 4
    requires SetUp(ram, tree, ram1, tree1, s, top, lo, mid, mid, w)
    requires SetUp(ram1, tree1, ram2, tree2, s, top, mid, upto, hi, w)
    ensures SetUp(ram, tree, ram2, tree2, s, top, lo, upto, hi, w)
  {
    ExtendsJoins(ram, tree, ram1, tree1, ram2, tree2, s, top, lo, mid, hi);
    PagesSetJoins(ram, tree, ram1, tree1, ram2, tree2, s, lo, mid, upto, w);
  }

  /** A table entry made present, then pages below it set. */
  lemma SetUpNests(ram: Ram, tree: Tree, ram1: Ram, tree1: Tree, ram2: Ram, tree2: Tree,
                   s: nat, top: nat, v: nat, upto: nat, hi: nat, w: bool)
    requires 1 < top <= 4 && v < hi
    requires Extends(ram, tree, ram1, tree1, s, top, v, v + 1) && LeavesKept(ram, tree, ram1, tree1)
    requires SetUp(ram1, tree1, ram2, tree2, s, top - 1, v, upto, hi, w)
    ensures SetUp(ram, tree, ram2, tree2, s, top, v, upto, hi, w)
  {
    ExtendsNests(ram, tree, ram1, tree1, ram2, tree2, s, top, v, hi);
    PagesSetNests(ram, tree, ram1, tree1, ram2, tree2, s, v, upto, w);
  }

  lemma SetUpWidens(ram: Ram, tree: Tree, ram': Ram, tree': Tree, s: nat, top: nat, lo: nat, upto: nat, hi: nat, hi': nat, w: bool)
    requires hi <= hi' && top <= 4 && SetUp(ram, tree, ram', tree', s, top, lo, upto, hi, w)
    ensures SetUp(ram, tree, ram', tree', s, top, lo, upto, hi', w)
  {
    ExtendsWidens(ram, tree, ram', tree', s, top, lo, hi, hi');
  }

  lemma SetUpNothing(ram: Ram, tree: Tree, s: nat, top: nat, v: nat, w: bool)
    ensures SetUp(ram, tree, ram, tree, s, top, v, v, v, w)
  {}

  lemma ExtendsWidens(ram: Ram, tree: Tree, ram': Ram, tree': Tree, s: nat, top: nat, lo: nat, mid: nat, hi: nat)
    requires mid <= hi && top <= 4 && Extends(ram, tree, ram', tree', s, top, lo, mid)
    ensures Extends(ram, tree, ram', tree', s, top, lo, hi)
  {
    forall n | n in tree' && n !in tree ensures NewNode(n, s, top, lo, hi) {
      PrefixMonotone(mid - 1, hi - 1, n.level);
    }
  }

  lemma SetUpKeepsNode(ram: Ram, tree: Tree, ram': Ram, tree': Tree, s: nat, top: nat, lo: nat, mid: nat, hi: nat, w: bool, n: Node)
    requires SetUp(ram, tree, ram', tree', s, top, lo, mid, hi, w) && n in tree
    ensures n in tree' && tree'[n] == tree[n]
  {}

  function AsShared(leaf: Option<Word>): Option<Word> {
    match leaf
    case None => None
    case Some(e) => Some(e.(writable := false))
  }

  /** Pages lo to hi of space d are now those of space t, read-only. All else is mapped as before. */
  ghost predicate PagesShared(ram: Ram, tree: Tree, ram': Ram, tree': Tree, d: nat, t: nat, lo: nat, hi: nat) {
    forall r: nat, q: nat ::
      if r == d && lo <= q < hi
      then Leaf(ram', tree', r, q) == AsShared(Leaf(ram, tree, t, q)) && (Node(r, 0, q) in tree' <==> Node(r, 0, q) in tree)
      else PageKept(ram, tree, ram', tree', r, q)
  }

  /** Space d grew for pages lo to hi, of which those below mid are copied from t. */
  ghost predicate Copied(ram: Ram, tree: Tree, ram': Ram, tree': Tree, d: nat, t: nat, top: nat, lo: nat, mid: nat, hi: nat) {
    Extends(ram, tree, ram', tree', d, top, lo, hi) && PagesShared(ram, tree, ram', tree', d, t, lo, mid)
  }

  lemma CopiedJoins(ram: Ram, tree: Tree, ram1: Ram, tree1: Tree, ram2: Ram, tree2: Tree,
                    d: nat, t: nat, top: nat, lo: nat, mid: nat, upto: nat, hi: nat)
    requires lo <= mid <= upto <= hi && top <= 4 && d != t
    requires Copied(ram, tree, ram1, tree1, d, t, top, lo, mid, mid)
    requires Copied(ram1, tree1, ram2, tree2, d, t, top, mid, upto, hi)
    ensures Copied(ram, tree, ram2, tree2, d, t, top, lo, upto, hi)
  {
    ExtendsJoins(ram, tree, ram1, tree1, ram2, tree2, d, top, lo, mid, hi);
    forall r: nat, q: nat
      ensures if r == d && lo <= q < upto
              then Leaf(ram2, tree2, r, q) == AsShared(Leaf(ram, tree, t, q)) && (Node(r, 0, q) in tree2 <==> Node(r, 0, q) in tree)
              else PageKept(ram, tree, ram2, tree2, r, q)
    {
      assert Leaf(ram1, tree1, r, q) == Leaf(ram1, tree1, r, q);
      assert PageKept(ram, tree, ram1, tree1, t, q);
    }
  }

  lemma CopiedNests(ram: Ram, tree: Tree, ram1: Ram, tree1: Tree, ram2: Ram, tree2: Tree,
                    d: nat, t: nat, top: nat, v: nat, upto: nat, hi: nat)
    requires 1 < top <= 4 && v < hi && d != t
    requires Extends(ram, tree, ram1, tree1, d, top, v, v + 1) && LeavesKept(ram, tree, ram1, tree1)
    requires Copied(ram1, tree1, ram2, tree2, d, t, top - 1, v, upto, hi)
    ensures Copied(ram, tree, ram2, tree2, d, t, top, v, upto, hi)
  {
    ExtendsNests(ram, tree, ram1, tree1, ram2, tree2, d, top, v, hi);
    forall r: nat, q: nat
      ensures if r == d && v <= q < upto
              then Leaf(ram2, tree2, r, q) == AsShared(Leaf(ram, tree, t, q)) && (Node(r, 0, q) in tree2 <==> Node(r, 0, q) in tree)
              else PageKept(ram, tree, ram2, tree2, r, q)
    {
      assert PageKept(ram, tree, ram1, tree1, r, q) && PageKept(ram, tree, ram1, tree1, t, q);
    }
  }

  lemma CopiedWidens(ram: Ram, tree: Tree, ram': Ram, tree': Tree, d: nat, t: nat, top: nat, lo: nat, upto: nat, hi: nat, hi': nat)
    requires hi <= hi' && top <= 4 && Copied(ram, tree, ram', tree', d, t, top, lo, upto, hi)
    ensures Copied(ram, tree, ram', tree', d, t, top, lo, upto, hi')
  {
    ExtendsWidens(ram, tree, ram', tree', d, top, lo, hi, hi');
  }

  lemma CopiedNothing(ram: Ram, tree: Tree, d: nat, t: nat, top: nat, v: nat)
    ensures Copied(ram, tree, ram, tree, d, t, top, v, v, v)
  {}

  lemma CopiedKeepsNode(ram: Ram, tree: Tree, ram': Ram, tree': Tree, d: nat, t: nat, top: nat, lo: nat, mid: nat, hi: nat, n: Node)
    requires Copied(ram, tree, ram', tree', d, t, top, lo, mid, hi) && n in tree
    ensures n in tree' && tree'[n] == tree[n] && |ram'| == |ram|
    ensures tree[n] < |ram| && Untouched(n, d, top) ==> ram'[tree[n]] == ram[tree[n]]
  {}

  /** Below an absent entry there is no leaf. */
  lemma NothingBelow(ram: Ram, tree: Tree, kinds: Kinds, n: Node, i: Index, q: nat)
    requires Shape(ram, tree, kinds) && n in tree && 1 <= n.level <= 4 && UserIndex(n.level, i)
    requires !ram[tree[n]][i].present && Prefix(q, n.level - 1) == n.prefix * 512 + i
    ensures Leaf(ram, tree, n.space, q) == None && Node(n.space, 0, q) !in tree
  {
    EntryAt(ram, tree, kinds, n, i);
    assert Child(n, i) == Node(n.space, n.level - 1, Prefix(q, n.level - 1));
    assert Prefix(q, 1) == q / 512 && Prefix(q, 0) == q;
    hide Shape;
    if n.level == 1 {
      assert n == Node(n.space, 1, q / 512);
    } else {
      if Node(n.space, 0, q) in tree {
        ShapeAncestor(ram, tree, kinds, n.space, q, 0, 1);
      }
      if Node(n.space, 1, q / 512) in tree {
        ShapeAncestor(ram, tree, kinds, n.space, q, 1, n.level - 1);
      }
    }
  }

  lemma PrefixBetween(q: nat, p: nat, level: nat)
    requires First(p, level) <= q < First(p + 1, level)
    ensures Prefix(q, level) == p
  {
    PrefixBelow(q, p, level);
    PrefixBelow(q, p + 1, level);
  }

  /** Where both tables lack an entry, there is nothing to copy. */
  lemma CopyAbsent(ram: Ram, tree: Tree, kinds: Kinds, d: nat, t: nat, level: nat, p: nat, i: Index)
    requires Shape(ram, tree, kinds) && 1 <= level <= 4 && UserIndex(level, i)
    requires Node(d, level, p) in tree && !ram[tree[Node(d, level, p)]][i].present
    requires Node(t, level, p) in tree && !ram[tree[Node(t, level, p)]][i].present
    ensures First(p * 512 + i, level - 1) <= First(p * 512 + i + 1, level - 1)
    ensures Copied(ram, tree, ram, tree, d, t, level, First(p * 512 + i, level - 1), First(p * 512 + i + 1, level - 1), First(p * 512 + i + 1, level - 1))
  {
    hide Shape, Leaf, First;
    FirstMonotone(p * 512 + i, p * 512 + i + 1, level - 1);
    forall q: nat | First(p * 512 + i, level - 1) <= q < First(p * 512 + i + 1, level - 1)
      ensures Leaf(ram, tree, d, q) == None == Leaf(ram, tree, t, q)
    {
      PrefixBetween(q, p * 512 + i, level - 1);
      NothingBelow(ram, tree, kinds, Node(d, level, p), i, q);
      NothingBelow(ram, tree, kinds, Node(t, level, p), i, q);
    }
  }

  lemma SetLeafExtends(ram: Ram, tree: Tree, n: Node, i: Index, e: Word, ram': Ram, q: nat)
    requires Injective(tree) && n in tree && n.level == 1 && tree[n] < |ram| && ram' == SetWord(ram, tree[n], i, e)
    ensures Extends(ram, tree, ram', tree, n.space, 1, q, q + 1)
  {}

  lemma KindAt(ram: Ram, tree: Tree, kinds: Kinds, d: nat, t: nat)
    requires Shape(ram, tree, kinds) && d in kinds && kinds[d] == App(t)
    ensures t in kinds && kinds[t].Template? && d != t && Root(d) in tree && Root(t) in tree
  {}

  lemma SharedEntryOk(tree: Tree, kinds: Kinds, d: nat, t: nat, p: nat, i: Index, was: Word, e: Word)
    requires d in kinds && kinds[d] == App(t) && t in kinds && kinds[t].Template?
    requires !was.present && EntryOk(was, Node(d, 1, p), i, tree, kinds)
    requires e.present && EntryOk(e, Node(t, 1, p), i, tree, kinds)
    ensures EntryOk(e.(writable := false), Node(d, 1, p), i, tree, kinds)
  {
    assert Child(Node(t, 1, p), i) == Node(t, 0, p * 512 + i);
    assert Child(Node(d, 1, p), i) == Node(d, 0, p * 512 + i);
  }

  lemma LeafOf(ram: Ram, tree: Tree, s: nat, p: nat, i: Index)
    requires Node(s, 1, p) in tree && tree[Node(s, 1, p)] < |ram|
    ensures Leaf(ram, tree, s, p * 512 + i) ==
            if ram[tree[Node(s, 1, p)]][i].present then Some(ram[tree[Node(s, 1, p)]][i]) else None
  {
    assert (p * 512 + i) / 512 == p && (p * 512 + i) % 512 == i;
  }

  lemma SetLeafShares(ram: Ram, tree: Tree, kinds: Kinds, d: nat, t: nat, p: nat, i: Index, e: Word, ram': Ram)
    requires Shape(ram, tree, kinds) && d != t && Node(d, 1, p) in tree
    requires ram' == SetWord(ram, tree[Node(d, 1, p)], i, e) && e.present
    requires AsShared(Leaf(ram, tree, t, p * 512 + i)) == Some(e)
    ensures PagesShared(ram, tree, ram', tree, d, t, p * 512 + i, p * 512 + i + 1)
  {
    hide Shape, Leaf;
    forall r: nat, v: nat ensures Leaf(ram', tree, r, v) == if r == d && v == p * 512 + i then Some(e) else Leaf(ram, tree, r, v) {
      LeafAfterSet(ram, tree, kinds, Node(d, 1, p), i, e, ram', r, v);
    }
  }

  /** A leaf entry of the template, copied read-only. */
  lemma CopyLeaf(ram: Ram, tree: Tree, kinds: Kinds, d: nat, t: nat, p: nat, i: Index, e: Word, ram': Ram)
    requires Shape(ram, tree, kinds) && d in kinds && kinds[d] == App(t)
    requires Node(d, 1, p) in tree && Node(t, 1, p) in tree && e == ram[tree[Node(t, 1, p)]][i] && e.present
    requires !ram[tree[Node(d, 1, p)]][i].present
    requires ram' == SetWord(ram, tree[Node(d, 1, p)], i, e.(writable := false))
    ensures Shape(ram', tree, kinds)
    ensures Copied(ram, tree, ram', tree, d, t, 1, p * 512 + i, p * 512 + i + 1, p * 512 + i + 1)
  {
    SetLeafExtends(ram, tree, Node(d, 1, p), i, e.(writable := false), ram', p * 512 + i);
    hide Extends, PagesShared, EntryOk, Leaf;
    KindAt(ram, tree, kinds, d, t);
    EntryAt(ram, tree, kinds, Node(d, 1, p), i);
    EntryAt(ram, tree, kinds, Node(t, 1, p), i);
    SharedEntryOk(tree, kinds, d, t, p, i, ram[tree[Node(d, 1, p)]][i], e);
    LeafOf(ram, tree, t, p, i);
    SetEntryKeepsShape(ram, tree, kinds, Node(d, 1, p), i, e.(writable := false), ram');
    SetLeafShares(ram, tree, kinds, d, t, p, i, e.(writable := false), ram');
  }

  /** The first page under a child, and the bounds of the child's range. */
  lemma ChildRange(p: nat, i: Index, level: nat)
    requires 1 <= level <= 4
    ensures var v := First(p * 512 + i, level - 1);
      && Prefix(v, level - 1) == p * 512 + i && Prefix(v, level) == p
      && v < First(p * 512 + i + 1, level - 1) <= First(p + 1, level)
    ensures First(p * 512 + 512, level - 1) == First(p + 1, level)
    ensures level > 1 ==> First((p * 512 + i) * 512, level - 2) == First(p * 512 + i, level - 1)
    ensures level == 1 ==> First(p * 512 + i, 0) == p * 512 + i && First(p * 512 + i + 1, 0) == p * 512 + i + 1
  {
    var v := First(p * 512 + i, level - 1);
    PrefixOfFirst(p * 512 + i, level - 1);
    PrefixParent(v, level);
    PrefixBelow(v, p * 512 + i + 1, level - 1);
    assert First(p + 1, level) == First((p + 1) * 512, level - 1);
    FirstMonotone(p * 512 + i + 1, (p + 1) * 512, level - 1);
  }

  lemma ExtendsKeepsNode(ram: Ram, tree: Tree, ram': Ram, tree': Tree, s: nat, top: nat, lo: nat, hi: nat, n: Node)
    requires Extends(ram, tree, ram', tree', s, top, lo, hi) && n in tree
    ensures n in tree' && tree'[n] == tree[n] && |ram'| == |ram|
    ensures tree[n] < |ram| && Untouched(n, s, top) ==> ram'[tree[n]] == ram[tree[n]]
  {}

  lemma PartOfChild(p: nat, i: Index)
    ensures (p * 512 + i) % 512 == i && (p * 512 + i) / 512 == p
  {}

  lemma CopyEntrySet(ram: Ram, tree: Tree, n: Node, i: Index, v: nat, e: Word, f: nat, ram': Ram, tree': Tree)
    requires n in tree && 1 <= n.level <= 4 && tree[n] < |ram| && n.prefix == Prefix(v, n.level) && i == Prefix(v, n.level - 1) % 512
    requires !ram[tree[n]][i].present && e.present && e.user && e.writable && !e.huge && e.addr == f
    requires f < |ram| && f !in tree.Values && |ram'| == |ram| && Zeroed(ram'[f])
    requires ram' == SetWord(ram[f := ram'[f]], tree[n], i, e) && tree' == tree[Child(n, i) := f]
    ensures EntrySet(ram, tree, n, v, true, f, ram', tree')
  {
    hide Prefix, Zeroed;
    assert tree[n] in tree.Values && ram'[tree[n]][i] == e;
  }

  /** A table entry of the template, copied with a fresh table of its own. */
  lemma CopyTableStep(ram: Ram, tree: Tree, kinds: Kinds, n: Node, i: Index, e: Word, f: nat, ram': Ram, tree': Tree)
    requires Shape(ram, tree, kinds) && n in tree && 2 <= n.level <= 4 && UserIndex(n.level, i)
    requires !ram[tree[n]][i].present && e.present && e.user && e.writable && !e.huge && e.addr == f
    requires USER_BEGIN <= First(n.prefix * 512 + i, n.level - 1) < VPN_COUNT
    requires f < |ram| && f !in tree.Values && |ram'| == |ram| && Zeroed(ram'[f])
    requires ram' == SetWord(ram[f := ram'[f]], tree[n], i, e) && tree' == tree[Child(n, i) := f]
    ensures Shape(ram', tree', kinds)
    ensures var v := First(n.prefix * 512 + i, n.level - 1);
      Extends(ram, tree, ram', tree', n.space, n.level, v, v + 1) && LeavesKept(ram, tree, ram', tree')
  {
    hide *;
    EntryAt(ram, tree, kinds, n, i);
    var v := First(n.prefix * 512 + i, n.level - 1);
    ChildRange(n.prefix, i, n.level);
    PartOfChild(n.prefix, i);
    CopyEntrySet(ram, tree, n, i, v, e, f, ram', tree');
    EntrySetStep(ram, tree, kinds, n, v, true, f, ram', tree');
  }
}
